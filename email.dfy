/** Email: a message with a reference id, a name, its own send ledger, a
    subject, an HTML body, an optional plain-text body, attachments keyed by
    content-id and a distribution. The setters refuse null and count a change
    only when the value really changes; identity is the reference id. Also the
    two static helpers the image code uses: clip clamping and colour text. */
module Messages {
  import opened Common
  import opened Attachments
  import D = Distributions
  import opened SendLedger
  import M = Mime

  /** The runtime class of a message: equals only accepts templates and template-derived messages. */
  datatype MessageClass = TemplateClass | FromTemplateClass | OtherClass

  /** The mutable fields of a message, as one value. */
  datatype Fields = Fields(
    subject: Option<string>,
    body: Option<string>,
    bodyPlainText: Option<string>,
    attachments: Option<map<string, EmailAttachment>>,
    distribution: D.EmailDistribution?,
    lastChanged: nat)

  /** The map addAttachment puts into: the existing one, or a new empty one. */
  function MapOrEmpty(m: Option<map<string, EmailAttachment>>): map<string, EmailAttachment>
  {
    if m.Some? then m.value else map[]
  }

  class Email {
    const refid: string
    const name: string
    const sendlog: EmailSendLog
    const messageClass: MessageClass
    var subject: Option<string>
    var body: Option<string>
    var bodyPlainText: Option<string>
    var attachments: Option<map<string, EmailAttachment>>
    var distribution: D.EmailDistribution?
    /** last_changed, as a version counter. */
    var lastChanged: nat

    function State(): Fields
      reads this
    {
      Fields(subject, body, bodyPlainText, attachments, distribution, lastChanged)
    }

    constructor (refid: string, name: string, messageClass: MessageClass)
      ensures this.refid == refid && this.name == name && this.messageClass == messageClass
      ensures fresh(sendlog) && sendlog.sentTo == {} && sendlog.errors == ""
      ensures State() == Fields(None, None, None, None, null, 0)
    {
      this.refid := refid;
      this.name := name;
      this.messageClass := messageClass;
      sendlog := new EmailSendLog();
      subject, body, bodyPlainText, attachments, distribution := None, None, None, None, null;
      lastChanged := 0;
    }

    /** setBody: null is refused; an equal body changes nothing; a different one is stored and counted. */
    method SetBody(b: Option<string>) returns (r: Result<(), JavaException>)
      modifies this
      ensures b.None? ==> r == Err(JavaException(NPE_CLASS, Some("NULL is not a valid value for body"))) && State() == old(State())
      ensures b.Some? ==> r.Ok? && State() == old(State()).(body := b, lastChanged := old(lastChanged) + if old(body) == b then 0 else 1)
    {
      if b.None? {
        return Err(JavaException(NPE_CLASS, Some("NULL is not a valid value for body")));
      }
      if body.None? || body.value != b.value {
        body := b;
        lastChanged := lastChanged + 1;
      }
      return Ok(());
    }

    /** setBodyPlainText: as setBody, for the plain-text body. */
    method SetBodyPlainText(b: Option<string>) returns (r: Result<(), JavaException>)
      modifies this
      ensures b.None? ==> r == Err(JavaException(NPE_CLASS, Some("NULL is not a valid value for body_plaintext"))) && State() == old(State())
      ensures b.Some? ==> r.Ok? && State() == old(State()).(bodyPlainText := b, lastChanged := old(lastChanged) + if old(bodyPlainText) == b then 0 else 1)
    {
      if b.None? {
        return Err(JavaException(NPE_CLASS, Some("NULL is not a valid value for body_plaintext")));
      }
      if bodyPlainText.None? || bodyPlainText.value != b.value {
        bodyPlainText := b;
        lastChanged := lastChanged + 1;
      }
      return Ok(());
    }

    /** setSubject: as setBody, for the subject. */
    method SetSubject(s: Option<string>) returns (r: Result<(), JavaException>)
      modifies this
      ensures s.None? ==> r == Err(JavaException(NPE_CLASS, Some("NULL is not a valid value for subject"))) && State() == old(State())
      ensures s.Some? ==> r.Ok? && State() == old(State()).(subject := s, lastChanged := old(lastChanged) + if old(subject) == s then 0 else 1)
    {
      if s.None? {
        return Err(JavaException(NPE_CLASS, Some("NULL is not a valid value for subject")));
      }
      if subject.None? || subject.value != s.value {
        subject := s;
        lastChanged := lastChanged + 1;
      }
      return Ok(());
    }

    /** setDistribution: replaces the distribution unless the current one equals the new one
        (by hash), so an equal but different distribution is not taken; last_changed is not touched. */
    method SetDistribution(d: D.EmailDistribution?)
      modifies this
      ensures old(distribution) == null || d == null || !D.Equal(d.Value(), old(distribution).Value()) ==>
        State() == old(State()).(distribution := d)
      ensures old(distribution) != null && d != null && D.Equal(d.Value(), old(distribution).Value()) ==>
        State() == old(State())
    {
      if distribution == null {
        distribution := d;
      } else {
        var same := distribution.Equals(d);
        if !same {
          distribution := d;
        }
      }
    }

    /** addAttachment: creates the map on first use, then stores the attachment under its content-id,
        replacing an earlier one with that id; a null attachment fails after the map exists. */
    method AddAttachment(a: Option<EmailAttachment>) returns (r: Result<(), JavaException>)
      modifies this
      ensures a.None? ==> r == Err(NullDeref()) && State() == old(State()).(attachments := Some(MapOrEmpty(old(attachments))))
      ensures a.Some? ==> r.Ok? && State() == old(State()).(attachments := Some(MapOrEmpty(old(attachments))[a.value.contentid := a.value]))
      ensures a.Some? ==> attachments.Some? && a.value.contentid in attachments.value && attachments.value[a.value.contentid] == a.value
      ensures a.Some? ==> forall k :: k != a.value.contentid ==>
        (k in attachments.value <==> old(attachments).Some? && k in old(attachments).value) &&
        (k in attachments.value ==> attachments.value[k] == old(attachments).value[k])
    {
      if attachments.None? {
        attachments := Some(map[]);
      }
      if a.None? {
        return Err(NullDeref());
      }
      attachments := Some(attachments.value[a.value.contentid := a.value]);
      return Ok(());
    }

    /** getAsMultipart over this message's own body, subject, plain text and attachments. */
    method GetAsMultipart(parse: string -> M.Html) returns (r: Result<M.Multipart, JavaException>)
      ensures body.None? ==> r == Err(NullDeref())
      ensures body.Some? && !M.AllResolve(parse(body.value).imgs, attachments) ==> r == Err(M.EmbedError())
      ensures body.Some? && M.AllResolve(parse(body.value).imgs, attachments) && M.TitleFails(parse(body.value), subject) ==>
        r == Err(M.TITLE_ERROR)
      ensures r.Ok? <==>
        body.Some? && attachments.Some? && M.AllResolve(parse(body.value).imgs, attachments) && !M.TitleFails(parse(body.value), subject)
      ensures r.Err? ==> r.error == M.AssemblyFailure(body, subject, attachments, parse).value
      ensures r.Ok? ==>
        M.AssembledFrom(r.value, M.TopUnit(M.RelatedUnit(M.Retitled(parse(body.value), subject), attachments), bodyPlainText),
                        attachments.value)
    {
      r := M.GetAsMultipart(body, subject, bodyPlainText, attachments, parse);
    }

    /** compareTo: the reference ids compared ignoring case. */
    method CompareTo(o: Email) returns (c: int)
      ensures c == CompareIgnoreCase(refid, o.refid)
    {
      c := CompareIgnoreCase(refid, o.refid);
    }

    /** hashCode: the reference id's String hash. */
    method HashCode() returns (h: int)
      ensures h == StringHash(refid) && IsInt32(h)
    {
      h := StringHash(refid);
    }

    /** equals: only a template or a template-derived message can be equal, and then when the hashes agree. */
    method Equals(e: Email?) returns (b: bool)
      ensures b <==> e != null && e.messageClass != OtherClass && StringHash(e.refid) == StringHash(refid)
    {
      if e == null || e.messageClass == OtherClass {
        return false;
      }
      var h1 := HashCode();
      var h2 := e.HashCode();
      b := h1 == h2;
    }
  }

  // ---------------------------------------------------------------------------
  // compareToIgnoreCase

  /** Character.toLowerCase(Character.toUpperCase(c)) for the ASCII letters; other characters unchanged. */
  function FoldCase(c: char): char
  {
    if 'A' <= c <= 'Z' then (c as int + 32) as char else c
  }

  function FoldAll(s: string): (r: string)
    ensures |r| == |s| && forall i :: 0 <= i < |s| ==> r[i] == FoldCase(s[i])
  {
    if s == [] then [] else [FoldCase(s[0])] + FoldAll(s[1..])
  }

  /** String.compareToIgnoreCase: the difference of the first differing folded characters,
      or the difference of the lengths when one string is a prefix of the other. */
  function CompareIgnoreCase(a: string, b: string): int
    decreases |a|
  {
    if a == [] || b == [] then |a| - |b|
    else if FoldCase(a[0]) != FoldCase(b[0]) then FoldCase(a[0]) as int - FoldCase(b[0]) as int
    else CompareIgnoreCase(a[1..], b[1..])
  }

  /** compareTo is antisymmetric. */
  lemma {:induction false} CompareIgnoreCaseAntisymmetric(a: string, b: string)
    ensures CompareIgnoreCase(a, b) == -CompareIgnoreCase(b, a)
    decreases |a|
  {
    if a != [] && b != [] && FoldCase(a[0]) == FoldCase(b[0]) {
      CompareIgnoreCaseAntisymmetric(a[1..], b[1..]);
    }
  }

  /** compareTo is zero exactly for reference ids that are equal once case is folded. */
  lemma {:induction false} CompareIgnoreCaseZero(a: string, b: string)
    ensures CompareIgnoreCase(a, b) == 0 <==> FoldAll(a) == FoldAll(b)
    decreases |a|
  {
    if a != [] && b != [] {
      CompareIgnoreCaseZero(a[1..], b[1..]);
      assert FoldAll(a) == [FoldCase(a[0])] + FoldAll(a[1..]);
      assert FoldAll(b) == [FoldCase(b[0])] + FoldAll(b[1..]);
      if FoldAll(a) == FoldAll(b) {
        assert FoldAll(a)[0] == FoldAll(b)[0];
        assert FoldAll(a)[1..] == FoldAll(b)[1..];
      }
    }
  }

  /** compareTo and equals disagree: "A" and "a" compare as 0, yet their hashes (65, 97) differ. */
  lemma CompareToInconsistentWithEquals()
    ensures CompareIgnoreCase("A", "a") == 0
    ensures StringHash("A") == 65 && StringHash("a") == 97
  {
    assert StringHash("A") == Int32(31 * StringHash("") + 65);
    assert StringHash("a") == Int32(31 * StringHash("") + 97);
  }

  // ---------------------------------------------------------------------------
  // createClip

  /** java.awt.Dimension: a mutable width and height. */
  class Dimension {
    var width: int
    var height: int

    constructor (width: int, height: int)
      ensures this.width == width && this.height == height
    {
      this.width := width;
      this.height := height;
    }
  }

  /** java.awt.Rectangle. */
  datatype Rectangle = Rectangle(x: int, y: int, width: int, height: int)

  /** One axis of createClip, in Java int arithmetic: an extent reaching past the limit is cut to limit - offset. */
  function ClampExtent(limit: int, extent: int, offset: int): int
  {
    if Int32(extent + offset) > limit then Int32(limit - offset) else extent
  }

  /** createClip: clamps the requested size in place to the image and returns the clip at (clipX, clipY). */
  method CreateClip(imgWidth: int, imgHeight: int, size: Dimension, clipX: int, clipY: int) returns (clip: Rectangle)
    modifies size
    ensures size.width == ClampExtent(imgWidth, old(size.width), clipX)
    ensures size.height == ClampExtent(imgHeight, old(size.height), clipY)
    ensures clip == Rectangle(clipX, clipY, size.width, size.height)
  {
    if Int32(size.width + clipX) <= imgWidth && Int32(size.height + clipY) <= imgHeight {
      clip := Rectangle(clipX, clipY, size.width, size.height);
    } else {
      if Int32(size.width + clipX) > imgWidth {
        size.width := Int32(imgWidth - clipX);
      }
      if Int32(size.height + clipY) > imgHeight {
        size.height := Int32(imgHeight - clipY);
      }
      clip := Rectangle(clipX, clipY, size.width, size.height);
    }
  }

  /** Without int overflow the clamped extent fits the limit, never grows, is kept when it already
      fits, and clamping again changes nothing. */
  lemma ClampExtentFits(limit: int, extent: int, offset: int)
    requires IsInt32(limit) && IsInt32(extent) && IsInt32(offset)
    requires IsInt32(extent + offset) && IsInt32(limit - offset)
    ensures ClampExtent(limit, extent, offset) + offset <= limit
    ensures ClampExtent(limit, extent, offset) <= extent
    ensures extent + offset <= limit ==> ClampExtent(limit, extent, offset) == extent
    ensures ClampExtent(limit, ClampExtent(limit, extent, offset), offset) == ClampExtent(limit, extent, offset)
  {
  }

  /** With overflow the fit test is fooled: a width of 2^31-1 at offset 1 wraps to a negative sum,
      so it is kept and the clip reaches far past a 10-pixel image. */
  lemma ClampExtentOverflow()
    ensures ClampExtent(10, TWO_31 - 1, 1) == TWO_31 - 1
    ensures ClampExtent(10, TWO_31 - 1, 1) + 1 > 10
  {
    assert Int32(TWO_31 - 1 + 1) == -TWO_31;
  }

  // ---------------------------------------------------------------------------
  // color2hex

  const HEX_DIGITS: string := "0123456789abcdef"

  function HexDigit(d: int): char
    requires 0 <= d < 16
  {
    HEX_DIGITS[d]
  }

  /** Integer.toHexString on a non-negative int: lower-case digits, no leading zeros. */
  function ToHexString(n: nat): (s: string)
    ensures |s| >= 1
    decreases n
  {
    if n < 16 then [HexDigit(n)] else ToHexString(n / 16) + [HexDigit(n % 16)]
  }

  function DigitValue(c: char): int
  {
    if '0' <= c <= '9' then c as int - '0' as int
    else if 'a' <= c <= 'f' then c as int - 'a' as int + 10
    else 0
  }

  /** The number a string of hexadecimal digits denotes (the partner of ToHexString). */
  function HexValue(s: string): int
    decreases |s|
  {
    if s == [] then 0 else 16 * HexValue(s[..|s| - 1]) + DigitValue(s[|s| - 1])
  }

  function Pow16(k: nat): nat
  {
    if k == 0 then 1 else 16 * Pow16(k - 1)
  }

  predicate IsHex(s: string)
  {
    forall i :: 0 <= i < |s| ==> s[i] in HEX_DIGITS
  }

  /** color2hex: the low 24 bits of the ARGB int as exactly six lower-case hex digits. */
  function Color2Hex(rgb: int): string
    requires IsInt32(rgb)
  {
    var s := ToHexString(rgb % 0x1000000 + 0x1000000);
    s[1..]
  }

  lemma HexDigitValue(d: int)
    requires 0 <= d < 16
    ensures DigitValue(HexDigit(d)) == d && HexDigit(d) in HEX_DIGITS
  {
  }

  /** toHexString is read back by HexValue, uses only hex digits, and has as many digits as the
      number needs: Pow16(|s|-1) <= n < Pow16(|s|) (for n > 0). */
  lemma {:induction false} ToHexStringCorrect(n: nat)
    ensures HexValue(ToHexString(n)) == n
    ensures IsHex(ToHexString(n))
    ensures n < Pow16(|ToHexString(n)|)
    ensures |ToHexString(n)| > 1 ==> Pow16(|ToHexString(n)| - 1) <= n
    decreases n
  {
    var s := ToHexString(n);
    if n < 16 {
      HexDigitValue(n);
      assert s[..0] == [];
    } else {
      var q, r := n / 16, n % 16;
      var t := ToHexString(q);
      ToHexStringCorrect(q);
      assert s == t + [HexDigit(r)];
      HexAppendDigit(t, r);
      HexBoundsStep(n, q, r, |t|);
    }
  }

  /** One more digit after a hex string: sixteen times its value plus the digit's, still hex. */
  lemma HexAppendDigit(t: string, d: int)
    requires 0 <= d < 16 && IsHex(t)
    ensures HexValue(t + [HexDigit(d)]) == 16 * HexValue(t) + d
    ensures IsHex(t + [HexDigit(d)])
  {
    var s := t + [HexDigit(d)];
    HexDigitValue(d);
    assert s[..|s| - 1] == t && s[|s| - 1] == HexDigit(d);
    forall i | 0 <= i < |s| ensures s[i] in HEX_DIGITS {
      if i < |t| { assert s[i] == t[i]; }
    }
  }

  /** The digit-count bounds carry from n / 16, written with k digits, to n, written with k + 1. */
  lemma HexBoundsStep(n: nat, q: nat, r: nat, k: nat)
    requires n >= 16 && q == n / 16 && r == n % 16 && k >= 1
    requires q < Pow16(k) && (k > 1 ==> Pow16(k - 1) <= q)
    ensures n < Pow16(k + 1) && Pow16(k) <= n
  {
    assert n == 16 * q + r;
    assert Pow16(k + 1) == 16 * Pow16(k);
    if k > 1 {
      assert Pow16(k) == 16 * Pow16(k - 1);
    } else {
      assert Pow16(k) == 16;
    }
  }

  /** HexValue of a leading digit followed by t: the digit counts Pow16(|t|) times. */
  lemma {:induction false} HexValueCons(c: char, t: string)
    ensures HexValue([c] + t) == DigitValue(c) * Pow16(|t|) + HexValue(t)
    decreases |t|
  {
    if t != [] {
      var u := t[..|t| - 1];
      var ct := [c] + t;
      HexValueCons(c, u);
      assert ct[..|ct| - 1] == [c] + u;
      assert ct[|ct| - 1] == t[|t| - 1];
      var d, p, last := DigitValue(c), Pow16(|u|), DigitValue(t[|t| - 1]);
      assert HexValue(ct) == 16 * HexValue([c] + u) + last;
      assert HexValue(t) == 16 * HexValue(u) + last;
      assert Pow16(|t|) == 16 * p;
      ShiftDigit(d, p, HexValue(u), last);
    }
  }

  /** The arithmetic of one more trailing digit: a leading digit's weight grows by 16. */
  lemma ShiftDigit(d: int, p: int, low: int, last: int)
    ensures 16 * (d * p + low) + last == d * (16 * p) + (16 * low + last)
  {
  }

  lemma {:induction false} HexValueBound(s: string)
    requires IsHex(s)
    ensures 0 <= HexValue(s) < Pow16(|s|)
    decreases |s|
  {
    if s != [] {
      HexValueBound(s[..|s| - 1]);
      assert s[|s| - 1] in HEX_DIGITS;
    }
  }

  lemma {:induction false} Pow16Monotone(a: nat, b: nat)
    requires a <= b
    ensures Pow16(a) <= Pow16(b)
    decreases b
  {
    if a < b {
      Pow16Monotone(a, b - 1);
    }
  }

  lemma Pow16Bounds()
    ensures Pow16(6) == 0x1000000 && Pow16(7) == 0x10000000
  {
    assert Pow16(2) == 0x100;
    assert Pow16(4) == 0x10000;
  }

  /** A number in [2^24, 2^25) has seven hex digits. */
  lemma SevenDigits(v: nat)
    requires 0x1000000 <= v < 0x2000000
    ensures |ToHexString(v)| == 7
  {
    var s := ToHexString(v);
    ToHexStringCorrect(v);
    Pow16Bounds();
    if |s| < 7 {
      Pow16Monotone(|s|, 6);
    } else if |s| > 7 {
      Pow16Monotone(7, |s| - 1);
    }
  }

  /** Dropping the leading digit of a seven-digit number in [2^24, 2^25) leaves its low 24 bits. */
  lemma DropLeadingDigit(s: string, v: nat)
    requires |s| == 7 && IsHex(s) && HexValue(s) == v && 0x1000000 <= v < 0x2000000
    ensures IsHex(s[1..]) && HexValue(s[1..]) == v - 0x1000000
  {
    var t := s[1..];
    HexValueHead(s);
    HexTail(s);
    HexValueBound(t);
    Pow16Bounds();
    HexCharValue(s[0]);
    assert |t| == 6;
    LeadingOne(DigitValue(s[0]), Pow16(|t|), HexValue(t), v);
  }

  /** HexValueCons, read on a string's first digit and the rest. */
  lemma HexValueHead(s: string)
    requires |s| > 0
    ensures HexValue(s) == DigitValue(s[0]) * Pow16(|s| - 1) + HexValue(s[1..])
  {
    var c, t := s[0], s[1..];
    HexValueCons(c, t);
    assert [c] + t == s;
    assert |t| == |s| - 1;
  }

  /** The digits after the first of a hex string are hex digits. */
  lemma HexTail(s: string)
    requires |s| > 0 && IsHex(s)
    ensures IsHex(s[1..])
  {
    forall i | 0 <= i < |s| - 1 ensures s[1..][i] in HEX_DIGITS {
      assert s[1..][i] == s[i + 1];
    }
  }

  /** A hex digit's value is below 16. */
  lemma HexCharValue(c: char)
    requires c in HEX_DIGITS
    ensures 0 <= DigitValue(c) < 16
  {
  }

  /** A digit d with d * 2^24 + low in [2^24, 2^25) and low < 2^24 is 1. */
  lemma LeadingOne(d: int, p: int, low: int, v: int)
    requires p == 0x1000000 && 0 <= d < 16 && 0 <= low < p
    requires v == d * p + low && p <= v < 2 * p
    ensures low == v - 0x1000000
  {
  }

  /** color2hex always yields six lower-case hex digits denoting the colour's low 24 bits
      (the alpha byte is dropped). */
  lemma Color2HexCorrect(rgb: int)
    requires IsInt32(rgb)
    ensures |Color2Hex(rgb)| == 6
    ensures IsHex(Color2Hex(rgb))
    ensures HexValue(Color2Hex(rgb)) == rgb % 0x1000000
  {
    var v := rgb % 0x1000000 + 0x1000000;
    ToHexStringCorrect(v);
    SevenDigits(v);
    DropLeadingDigit(ToHexString(v), v);
  }
}
