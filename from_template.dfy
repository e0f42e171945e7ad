/** EmailFromTemplate: a message built from a template. Its reference id is
    `sid_` followed by the numeric send id, its own body starts as the
    template's `#content` section, and it starts with a copy of the template's
    distribution. The subject, plain text and attachments it shows fall back
    to, or merge with, the template's. */
module Templates {
  import opened Common
  import opened Attachments
  import D = Distributions
  import opened Messages
  import M = Mime

  // ---------------------------------------------------------------------------
  // The reference id "sid_" + sid

  const SID_PREFIX: string := "sid_"

  function DigitChar(d: int): char
    requires 0 <= d < 10
  {
    "0123456789"[d]
  }

  /** Decimal digits of a natural number, no leading zeros. */
  function NatText(n: nat): (s: string)
    ensures |s| >= 1
    decreases n
  {
    if n < 10 then [DigitChar(n)] else NatText(n / 10) + [DigitChar(n % 10)]
  }

  /** Integer.toString: a minus sign before the digits of a negative number. */
  function IntText(i: int): string
  {
    if i < 0 then "-" + NatText(-i) else NatText(i)
  }

  /** The reference id of the message for send id `sid`. */
  function Refid(sid: int): string
  {
    SID_PREFIX + IntText(sid)
  }

  /** The number a string of decimal digits denotes (the partner of NatText). */
  function DigitsValue(s: string): int
    decreases |s|
  {
    if s == [] then 0 else 10 * DigitsValue(s[..|s| - 1]) + DigitOf(s[|s| - 1])
  }

  function DigitOf(c: char): int
  {
    if '0' <= c <= '9' then c as int - '0' as int else 0
  }

  /** Integer.parseInt on what Integer.toString writes. */
  function ParseIntText(s: string): int
  {
    if |s| > 0 && s[0] == '-' then -DigitsValue(s[1..]) else DigitsValue(s)
  }

  /** NatText is read back by DigitsValue and never starts with a minus sign. */
  lemma {:induction false} NatTextRoundTrip(n: nat)
    ensures DigitsValue(NatText(n)) == n
    ensures NatText(n)[0] != '-'
    decreases n
  {
    var s := NatText(n);
    if n >= 10 {
      NatTextRoundTrip(n / 10);
      assert s[..|s| - 1] == NatText(n / 10);
      assert s[0] == NatText(n / 10)[0];
    }
  }

  /** The send id can be read back from the text of the reference id. */
  lemma IntTextRoundTrip(i: int)
    ensures ParseIntText(IntText(i)) == i
  {
    if i < 0 {
      NegTextRoundTrip(-i);
      assert IntText(i) == "-" + NatText(-i);
    } else {
      PosTextRoundTrip(i);
      assert IntText(i) == NatText(i);
    }
  }

  /** The digits of n alone are read back as n. */
  lemma PosTextRoundTrip(n: nat)
    ensures ParseIntText(NatText(n)) == n
  {
    var s := NatText(n);
    NatTextRoundTrip(n);
    assert ParseIntText(s) == DigitsValue(s);
  }

  /** A minus sign before the digits of n is read back as -n. */
  lemma NegTextRoundTrip(n: nat)
    ensures ParseIntText("-" + NatText(n)) == -(n as int)
  {
    var t := NatText(n);
    var s := "-" + t;
    NatTextRoundTrip(n);
    assert s[0] == '-' && s[1..] == t;
  }

  /** Distinct send ids give distinct reference ids, all starting with `sid_`. */
  lemma RefidInjective(sid1: int, sid2: int)
    ensures StartsWith(Refid(sid1), SID_PREFIX)
    ensures Refid(sid1) == Refid(sid2) ==> sid1 == sid2
  {
    if Refid(sid1) == Refid(sid2) {
      assert IntText(sid1) == Refid(sid1)[|SID_PREFIX|..];
      assert IntText(sid2) == Refid(sid2)[|SID_PREFIX|..];
      IntTextRoundTrip(sid1);
      IntTextRoundTrip(sid2);
    }
  }

  // ---------------------------------------------------------------------------
  // The message

  class EmailFromTemplate {
    /** The Email part this message extends. */
    const own: Email
    /** emailTemplate */
    const template: Email

    constructor Of(own: Email, template: Email)
      ensures this.own == own && this.template == template
    {
      this.own := own;
      this.template := template;
    }

    /** The constructor: the template's body must be there to be parsed, and its distribution to be
        cloned. `content` is the `#content` section of a parsed HTML text. */
    static method Create(sid: int, name: string, template: Email, content: string -> string)
      returns (r: Result<EmailFromTemplate, JavaException>)
      ensures r.Err? <==> template.body.None? || template.distribution == null
      ensures r.Err? ==> r.error == NullDeref()
      ensures r.Ok? ==>
        && fresh(r.value) && fresh(r.value.own) && fresh(r.value.own.sendlog)
        && r.value.template == template
        && r.value.own.refid == Refid(sid) && r.value.own.name == name
        && r.value.own.messageClass == FromTemplateClass
        && r.value.own.body == Some(content(template.body.value))
        && r.value.own.subject.None? && r.value.own.bodyPlainText.None? && r.value.own.attachments.None?
        && r.value.own.distribution != null && fresh(r.value.own.distribution)
        && r.value.own.distribution.Value() == template.distribution.Value()
    {
      if template.body.None? {
        return Err(NullDeref());
      }
      var e := new Email(Refid(sid), name, FromTemplateClass);
      e.body := Some(content(template.body.value));
      if template.distribution == null {
        return Err(NullDeref());
      }
      var d := template.distribution.Clone();
      e.SetDistribution(d);
      var m := new EmailFromTemplate.Of(e, template);
      return Ok(m);
    }

    /** getSubject: its own subject, or the template's when it has none. */
    function GetSubject(): (s: Option<string>)
      reads this, own, template
      ensures own.subject.Some? ==> s == own.subject
      ensures own.subject.None? ==> s == template.subject
    {
      if own.subject.None? && template.subject.Some? then template.subject else own.subject
    }

    /** getBody(selfOnly): its own body, without the template around it. */
    function GetOwnBody(): (b: Option<string>)
      reads this, own
      ensures b == own.body
    {
      own.body
    }

    /** getBodyPlainText: its own plain text, or the template's when its own is null or empty. */
    function GetBodyPlainText(): (s: Option<string>)
      reads this, own, template
      ensures own.bodyPlainText.Some? && |own.bodyPlainText.value| > 0 ==> s == own.bodyPlainText
      ensures own.bodyPlainText.None? || |own.bodyPlainText.value| == 0 ==> s == template.bodyPlainText
    {
      if own.bodyPlainText.None? || |own.bodyPlainText.value| == 0 then template.bodyPlainText else own.bodyPlainText
    }

    /** getAttachments: never null; every content-id of either message, the template's attachment
        winning when both have one. */
    function GetAttachments(): (m: map<string, EmailAttachment>)
      reads this, own, template
      ensures forall k :: k in m <==> k in MapOrEmpty(own.attachments) || k in MapOrEmpty(template.attachments)
      ensures forall k :: k in MapOrEmpty(template.attachments) ==> m[k] == MapOrEmpty(template.attachments)[k]
      ensures forall k :: k in MapOrEmpty(own.attachments) && k !in MapOrEmpty(template.attachments) ==>
        m[k] == MapOrEmpty(own.attachments)[k]
    {
      MapOrEmpty(own.attachments) + MapOrEmpty(template.attachments)
    }

    /** getBody(): the template's text with its `#content` section replaced by this message's body;
        `fill` is that replacement on the parsed template. Neither text may be null for jsoup. */
    function GetBody(fill: (string, string) -> string): (r: Result<string, JavaException>)
      reads this, own, template
      ensures r.Ok? <==> template.body.Some? && own.body.Some?
      ensures r.Ok? ==> r.value == fill(template.body.value, own.body.value)
    {
      if template.body.None? || own.body.None? then Err(NullDeref())
      else Ok(fill(template.body.value, own.body.value))
    }

    /** getAsMultipart through the overriding getters: the merged body, the fallback subject and
        plain text, and the combined attachments, which are never null, so the only failures are
        the body's, the embedding's and the title's. */
    method GetAsMultipart(parse: string -> M.Html, fill: (string, string) -> string)
      returns (r: Result<M.Multipart, JavaException>)
      ensures GetBody(fill).Err? ==> r == Err(NullDeref())
      ensures GetBody(fill).Ok? ==>
        (r.Ok? <==> M.AllResolve(parse(GetBody(fill).value).imgs, Some(GetAttachments()))
                    && !M.TitleFails(parse(GetBody(fill).value), GetSubject()))
      ensures GetBody(fill).Ok? && !M.AllResolve(parse(GetBody(fill).value).imgs, Some(GetAttachments())) ==>
        r == Err(M.EmbedError())
      ensures GetBody(fill).Ok? && M.AllResolve(parse(GetBody(fill).value).imgs, Some(GetAttachments()))
        ==> M.TitleFails(parse(GetBody(fill).value), GetSubject()) ==> r == Err(M.TITLE_ERROR)
      ensures r.Err? ==> r.error == M.AssemblyFailure(if GetBody(fill).Ok? then Some(GetBody(fill).value) else None,
                                                       GetSubject(), Some(GetAttachments()), parse).value
      ensures r.Ok? ==>
        M.AssembledFrom(r.value, M.TopUnit(M.RelatedUnit(M.Retitled(parse(GetBody(fill).value), GetSubject()), Some(GetAttachments())),
                                           GetBodyPlainText()), GetAttachments())
    {
      var body := GetBody(fill);
      if body.Err? {
        return Err(NullDeref());
      }
      r := M.GetAsMultipart(Some(body.value), GetSubject(), GetBodyPlainText(), Some(GetAttachments()), parse);
    }
  }

  /** A message whose own parts are all missing shows the template's subject, plain text and attachments. */
  lemma FallsBackToTemplate(m: EmailFromTemplate)
    requires m.own.subject.None? && m.own.bodyPlainText.None? && m.own.attachments.None?
    ensures m.GetSubject() == m.template.subject
    ensures m.GetBodyPlainText() == m.template.bodyPlainText
    ensures m.GetAttachments() == MapOrEmpty(m.template.attachments)
  {
  }
}
