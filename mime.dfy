/** The MIME structure a message is assembled into. The HTML body is reduced
    to what the assembly looks at: the `src` and `style` of every `<img>`,
    the style of every `<table>` and the text of the first `<title>`. Images whose `src` is `cid:<id>` are
    resolved against the attachment map and embedded next to the HTML in a
    "related" unit; a plain-text body adds an "alternative" unit around it;
    attachments with a real (non-inline) disposition add a "mixed" unit on top. */
module Mime {
  import opened Common
  import opened Attachments
  import opened Styles

  /** An `<img>` element: its `src` and `style` attributes (absent attributes read as ""). */
  datatype Img = Img(src: string, style: string)

  /** A parsed HTML document, as far as the assembly reads and rewrites it; `title` is the
      text of its first `<title>` element, None when it has no such element. */
  datatype Html = Html(imgs: seq<Img>, tables: seq<string>, title: Option<string>)

  datatype Kind = Related | Alternative | Mixed

  /** A body part of a multipart: the HTML text, the plain text, an attachment, or a
      wrapper body part around a nested multipart. */
  datatype Part =
    | HtmlBody(html: Html)
    | PlainText(text: string)
    | AttachmentPart(attachment: EmailAttachment)
    | Wrapper(content: Multipart)

  datatype Multipart = Multipart(kind: Kind, parts: seq<Part>)

  const CID_PREFIX: string := "cid:"

  /** The text the rethrown exception's message starts with when embedding fails. */
  const EMBED_FAILURE: string := "Problem with embedding images into content.\nContact the content owner.\n\nERROR:"

  /** The content-id an image refers to: the src after `cid:`, or null for any other src. */
  function CidOf(src: string): (cid: Option<string>)
    ensures cid.Some? <==> StartsWith(src, CID_PREFIX)
    ensures cid.Some? ==> src == CID_PREFIX + cid.value
  {
    if StartsWith(src, CID_PREFIX) then Some(src[4..]) else None
  }

  /** What embedding rethrows: a NullPointerException whose message ends with the
      text of the NullPointerException a missing map or attachment caused. */
  function EmbedError(): (e: JavaException)
    ensures e.className == NPE_CLASS
    ensures e.message == Some(EMBED_FAILURE + "java.lang.NullPointerException")
  {
    JavaException(NPE_CLASS, Some(EMBED_FAILURE + ExceptionText(NullDeref())))
  }

  /** What jsoup's null check throws when an element's HTML is set to a null string. */
  const TITLE_ERROR: JavaException := JavaException("java.lang.IllegalArgumentException", Some("Object must not be null"))

  /** The title rule of prepare cannot be applied: the document has a `<title>` and the subject is null. */
  predicate TitleFails(doc: Html, subject: Option<string>)
  {
    doc.title.Some? && subject.None?
  }

  /** The title rule of prepare: the first `<title>` element takes the subject as its text;
      a document without one is left as it is. */
  function Retitled(doc: Html, subject: Option<string>): (d: Html)
    requires !TitleFails(doc, subject)
    ensures d.imgs == doc.imgs && d.tables == doc.tables
    ensures d.title.Some? <==> doc.title.Some?
    ensures doc.title.Some? ==> d.title == subject
    ensures doc.title.None? ==> d == doc
  {
    if doc.title.Some? then doc.(title := subject) else doc
  }

  /** An image can be embedded: it does not refer to a cid, or the map has an attachment under its id. */
  predicate Resolves(img: Img, atts: Option<map<string, EmailAttachment>>)
  {
    CidOf(img.src).None? || (atts.Some? && CidOf(img.src).value in atts.value)
  }

  predicate AllResolve(imgs: seq<Img>, atts: Option<map<string, EmailAttachment>>)
  {
    forall i :: 0 <= i < |imgs| ==> Resolves(imgs[i], atts)
  }

  /** The image after preparation: a cid image gets the display rule, any other is untouched. */
  function Restyled(img: Img): Img
  {
    if CidOf(img.src).Some? then img.(style := ImgStyle(img.style)) else img
  }

  function RestyledAll(imgs: seq<Img>): seq<Img>
  {
    seq(|imgs|, i requires 0 <= i < |imgs| => Restyled(imgs[i]))
  }

  /** The content-ids the images refer to, in document order, with repetitions. */
  function Cids(imgs: seq<Img>): seq<string>
    decreases |imgs|
  {
    if imgs == [] then []
    else Cids(imgs[..|imgs| - 1]) + (match CidOf(imgs[|imgs| - 1].src) case Some(c) => [c] case None => [])
  }

  /** The attachments embedding appends, one per cid image in document order. */
  function Embedded(imgs: seq<Img>, atts: Option<map<string, EmailAttachment>>): seq<EmailAttachment>
    requires AllResolve(imgs, atts)
    decreases |imgs|
  {
    if imgs == [] then []
    else
      var init, last := imgs[..|imgs| - 1], imgs[|imgs| - 1];
      assert forall i :: 0 <= i < |init| ==> init[i] == imgs[i];
      assert Resolves(last, atts);
      Embedded(init, atts) + (match CidOf(last.src) case Some(c) => [atts.value[c]] case None => [])
  }

  /** Every element Cids lists is the id of some image, and every cid image's id is listed. */
  lemma {:induction false} CidsAreTheReferences(imgs: seq<Img>)
    ensures |Cids(imgs)| <= |imgs|
    ensures forall x :: x in Cids(imgs) <==> exists i :: 0 <= i < |imgs| && CidOf(imgs[i].src) == Some(x)
    decreases |imgs|
  {
    if imgs != [] {
      var init := imgs[..|imgs| - 1];
      CidsAreTheReferences(init);
      assert forall i :: 0 <= i < |init| ==> init[i] == imgs[i];
      forall x | (exists i :: 0 <= i < |imgs| && CidOf(imgs[i].src) == Some(x))
        ensures x in Cids(imgs)
      {
        var i :| 0 <= i < |imgs| && CidOf(imgs[i].src) == Some(x);
        if i < |init| {
          assert CidOf(init[i].src) == Some(x);
        }
      }
    }
  }

  /** The embedded attachments are those the map holds under the referenced ids, in image
      order, once per reference (an id referred to twice is embedded twice). */
  lemma {:induction false} EmbeddedInImageOrder(imgs: seq<Img>, atts: Option<map<string, EmailAttachment>>)
    requires AllResolve(imgs, atts)
    ensures |Embedded(imgs, atts)| == |Cids(imgs)|
    ensures |Cids(imgs)| > 0 ==> atts.Some?
    ensures atts.Some? ==> forall k :: 0 <= k < |Cids(imgs)| ==>
      Cids(imgs)[k] in atts.value && Embedded(imgs, atts)[k] == atts.value[Cids(imgs)[k]]
    decreases |imgs|
  {
    if imgs != [] {
      var init, last := imgs[..|imgs| - 1], imgs[|imgs| - 1];
      assert AllResolve(init, atts) by {
        forall i | 0 <= i < |init| ensures Resolves(init[i], atts) {
          assert init[i] == imgs[i];
        }
      }
      EmbeddedInImageOrder(init, atts);
      var ci, ei := Cids(init), Embedded(init, atts);
      assert Resolves(last, atts);
      if CidOf(last.src).Some? {
        var c := CidOf(last.src).value;
        assert Cids(imgs) == ci + [c];
        assert Embedded(imgs, atts) == ei + [atts.value[c]];
      } else {
        assert Cids(imgs) == ci;
        assert Embedded(imgs, atts) == ei;
      }
    }
  }

  /** prepareImgs, for the multipart path: every cid image is resolved (failing with the rethrown
      exception when the map is null or lacks the id) and restyled, and its attachment appended. */
  method PrepareImgs(imgs: seq<Img>, atts: Option<map<string, EmailAttachment>>)
    returns (r: Result<(seq<Img>, seq<EmailAttachment>), JavaException>)
    ensures !AllResolve(imgs, atts) ==> r == Err(EmbedError())
    ensures AllResolve(imgs, atts) ==> r == Ok((RestyledAll(imgs), Embedded(imgs, atts)))
  {
    var out: seq<Img> := [];
    var parts: seq<EmailAttachment> := [];
    var i := 0;
    while i < |imgs|
      invariant 0 <= i <= |imgs|
      invariant AllResolve(imgs[..i], atts)
      invariant out == RestyledAll(imgs[..i])
      invariant parts == Embedded(imgs[..i], atts)
    {
      var img := imgs[i];
      PrepareStep(imgs, i, atts);
      var src := img.src;
      var cid: Option<string> := if !StartsWith(src, CID_PREFIX) then None else Some(src[4..]);
      assert cid == CidOf(img.src);
      if cid.Some? {
        if atts.None? || cid.value !in atts.value {
          assert !Resolves(imgs[i], atts);
          return Err(EmbedError());
        }
        var attachment := atts.value[cid.value];
        var style := img.style;
        if !Contains(style, "display:") {
          style := style + (if !EndsWith(style, ";") then ";" else "") + "display:block;";
        }
        assert style == ImgStyle(img.style);
        out := out + [img.(style := style)];
        parts := parts + [attachment];
      } else {
        out := out + [img];
      }
      i := i + 1;
    }
    assert imgs[..i] == imgs;
    return Ok((out, parts));
  }

  /** What one more image adds to the prepared prefix. */
  lemma PrepareStep(imgs: seq<Img>, i: int, atts: Option<map<string, EmailAttachment>>)
    requires 0 <= i < |imgs|
    ensures RestyledAll(imgs[..i + 1]) == RestyledAll(imgs[..i]) + [Restyled(imgs[i])]
    ensures AllResolve(imgs[..i + 1], atts) <==> AllResolve(imgs[..i], atts) && Resolves(imgs[i], atts)
    ensures AllResolve(imgs[..i + 1], atts) ==>
      Embedded(imgs[..i + 1], atts) ==
        Embedded(imgs[..i], atts) + (match CidOf(imgs[i].src) case Some(c) => [atts.value[c]] case None => [])
  {
    assert imgs[..i + 1][..i] == imgs[..i] && imgs[..i + 1][i] == imgs[i];
  }

  function TablesStyled(tables: seq<string>): seq<string>
  {
    seq(|tables|, i requires 0 <= i < |tables| => TableStyle(tables[i]))
  }

  /** The table rule of prepare: every table's style gets border-spacing. */
  method PrepareTables(tables: seq<string>) returns (out: seq<string>)
    ensures out == TablesStyled(tables)
  {
    out := [];
    for i := 0 to |tables|
      invariant out == TablesStyled(tables[..i])
    {
      var style := tables[i];
      if !Contains(style, "border-spacing:") {
        style := style + (if !EndsWith(style, ";") then ";" else "") + "border-spacing:0;";
      }
      out := out + [style];
    }
    assert tables[..|tables|] == tables;
  }

  function AttachmentParts(s: seq<EmailAttachment>): seq<Part>
  {
    seq(|s|, i requires 0 <= i < |s| => AttachmentPart(s[i]))
  }

  /** The related unit: the prepared HTML, then the embedded attachments. */
  function RelatedUnit(doc: Html, atts: Option<map<string, EmailAttachment>>): Multipart
    requires AllResolve(doc.imgs, atts)
  {
    Multipart(Related, [HtmlBody(Html(RestyledAll(doc.imgs), TablesStyled(doc.tables), doc.title))] + AttachmentParts(Embedded(doc.imgs, atts)))
  }

  /** The top unit before mixing: an alternative of the plain text and the wrapped related
      unit when there is a plain text, the related unit itself otherwise. */
  function TopUnit(related: Multipart, plaintext: Option<string>): Multipart
  {
    if plaintext.Some? then Multipart(Alternative, [PlainText(plaintext.value), Wrapper(related)]) else related
  }

  /** The attachments that go into a mixed unit: those with a non-null disposition other than inline. */
  function NonInline(atts: map<string, EmailAttachment>): set<EmailAttachment>
  {
    set k | k in atts && atts[k].disposition.Some? && atts[k].disposition.value != INLINE :: atts[k]
  }

  predicate NoDup<T(==)>(s: seq<T>)
  {
    forall i, j :: 0 <= i < j < |s| ==> s[i] != s[j]
  }

  /** The related unit's first child is the prepared HTML, followed by one attachment part per
      cid image, in image order. */
  lemma RelatedUnitShape(doc: Html, atts: Option<map<string, EmailAttachment>>)
    requires AllResolve(doc.imgs, atts)
    ensures var u := RelatedUnit(doc, atts);
      && u.kind == Related
      && |u.parts| == 1 + |Cids(doc.imgs)|
      && u.parts[0] == HtmlBody(Html(RestyledAll(doc.imgs), TablesStyled(doc.tables), doc.title))
      && (|Cids(doc.imgs)| > 0 ==> atts.Some?)
      && (atts.Some? ==> forall k :: 0 <= k < |Cids(doc.imgs)| ==>
            Cids(doc.imgs)[k] in atts.value && u.parts[k + 1] == AttachmentPart(atts.value[Cids(doc.imgs)[k]]))
  {
    EmbeddedInImageOrder(doc.imgs, atts);
  }

  /** Without plain text the related unit is the top; with it, an alternative of exactly two
      children, the plain text first and the wrapped related unit second. */
  lemma TopUnitShape(related: Multipart, plaintext: Option<string>)
    ensures plaintext.None? ==> TopUnit(related, plaintext) == related
    ensures plaintext.Some? ==>
      && TopUnit(related, plaintext).kind == Alternative
      && |TopUnit(related, plaintext).parts| == 2
      && TopUnit(related, plaintext).parts[0] == PlainText(plaintext.value)
      && TopUnit(related, plaintext).parts[1] == Wrapper(related)
  {
  }

  /** The shape getAsMultipart returns on success: the top unit when no attachment has a real
      disposition, else a mixed unit wrapping the top unit and then holding each such
      attachment exactly once (in the order of a hash set, which is not fixed here). */
  predicate AssembledFrom(m: Multipart, top: Multipart, atts: map<string, EmailAttachment>)
  {
    if NonInline(atts) == {} then m == top
    else
      && m.kind == Mixed
      && |m.parts| == |NonInline(atts)| + 1
      && m.parts[0] == Wrapper(top)
      && NoDup(m.parts)
      && (forall i :: 1 <= i < |m.parts| ==> m.parts[i].AttachmentPart? && m.parts[i].attachment in NonInline(atts))
      && (forall a :: a in NonInline(atts) ==> AttachmentPart(a) in m.parts)
  }

  /** The related unit, built from the prepared document and the embedded attachments. */
  method BuildRelated(doc: Html, atts: Option<map<string, EmailAttachment>>, imgs: seq<Img>, embedded: seq<EmailAttachment>)
    returns (related: Multipart)
    requires AllResolve(doc.imgs, atts) && imgs == RestyledAll(doc.imgs) && embedded == Embedded(doc.imgs, atts)
    ensures related == RelatedUnit(doc, atts)
  {
    var tables := PrepareTables(doc.tables);
    related := Multipart(Related, [HtmlBody(Html(imgs, tables, doc.title))]);
    for i := 0 to |embedded|
      invariant related == Multipart(Related, [HtmlBody(Html(imgs, tables, doc.title))] + AttachmentParts(embedded[..i]))
    {
      assert AttachmentParts(embedded[..i + 1]) == AttachmentParts(embedded[..i]) + [AttachmentPart(embedded[i])];
      related := related.(parts := related.parts + [AttachmentPart(embedded[i])]);
    }
    assert embedded[..|embedded|] == embedded;
  }

  /** The non-inline attachments of the map, collected by a loop over its entries. */
  method CollectNonInline(atts: map<string, EmailAttachment>) returns (noninline: set<EmailAttachment>)
    ensures noninline == NonInline(atts)
  {
    noninline := {};
    var keys := atts.Keys;
    while keys != {}
      invariant keys <= atts.Keys
      invariant noninline == set k | k in atts.Keys - keys && atts[k].disposition.Some? && atts[k].disposition.value != INLINE :: atts[k]
      decreases keys
    {
      var k :| k in keys;
      var attach := atts[k];
      if attach.disposition.Some? && attach.disposition.value != INLINE {
        noninline := noninline + {attach};
      }
      keys := keys - {k};
    }
  }

  /** The mixed layer: the wrapped top unit, then every non-inline attachment once. */
  method Mix(top: Multipart, atts: map<string, EmailAttachment>) returns (m: Multipart)
    ensures AssembledFrom(m, top, atts)
  {
    var noninline := CollectNonInline(atts);
    if noninline == {} {
      return top;
    }
    m := MixedOf(top, noninline);
  }

  /** A mixed unit holding the wrapped top unit and then each attachment of the set once. */
  method MixedOf(top: Multipart, noninline: set<EmailAttachment>) returns (m: Multipart)
    ensures m.kind == Mixed && |m.parts| == |noninline| + 1 && m.parts[0] == Wrapper(top)
    ensures NoDup(m.parts)
    ensures forall i :: 1 <= i < |m.parts| ==> m.parts[i].AttachmentPart? && m.parts[i].attachment in noninline
    ensures forall a :: a in noninline ==> AttachmentPart(a) in m.parts
  {
    m := Multipart(Mixed, [Wrapper(top)]);
    var rest := noninline;
    ghost var done: set<EmailAttachment> := {};
    ghost var added: seq<EmailAttachment> := [];
    while rest != {}
      invariant done + rest == noninline && done !! rest
      invariant m == Multipart(Mixed, [Wrapper(top)] + AttachmentParts(added))
      invariant NoDup(added) && |added| == |done|
      invariant forall a :: a in added <==> a in done
      decreases rest
    {
      var attach :| attach in rest;
      AppendFresh(top, added, done, attach);
      m := m.(parts := m.parts + [AttachmentPart(attach)]);
      rest := rest - {attach};
      done := done + {attach};
      added := added + [attach];
    }
    MixedParts(top, added, noninline);
  }

  /** Appending an attachment not yet added keeps the sequence repetition-free and in step with the set. */
  lemma AppendFresh(top: Multipart, added: seq<EmailAttachment>, done: set<EmailAttachment>, x: EmailAttachment)
    requires NoDup(added) && |added| == |done| && (forall a :: a in added <==> a in done) && x !in done
    ensures NoDup(added + [x]) && |added + [x]| == |done + {x}|
    ensures forall a :: a in added + [x] <==> a in done + {x}
    ensures ([Wrapper(top)] + AttachmentParts(added)) + [AttachmentPart(x)]
         == [Wrapper(top)] + AttachmentParts(added + [x])
  {
    assert AttachmentParts(added + [x]) == AttachmentParts(added) + [AttachmentPart(x)];
  }

  /** The parts of a mixed unit over a repetition-free sequence of exactly the attachments of s. */
  lemma MixedParts(top: Multipart, added: seq<EmailAttachment>, s: set<EmailAttachment>)
    requires NoDup(added) && |added| == |s| && forall a :: a in added <==> a in s
    ensures var parts := [Wrapper(top)] + AttachmentParts(added);
      && NoDup(parts)
      && (forall i :: 1 <= i < |parts| ==> parts[i].AttachmentPart? && parts[i].attachment in s)
      && (forall a :: a in s ==> AttachmentPart(a) in parts)
  {
    var parts := [Wrapper(top)] + AttachmentParts(added);
    forall i | 1 <= i < |parts| ensures parts[i] == AttachmentPart(added[i - 1]) {
    }
    forall a | a in s ensures AttachmentPart(a) in parts {
      var k :| 0 <= k < |added| && added[k] == a;
      assert parts[k + 1] == AttachmentPart(a);
    }
  }

  /** The exception getAsMultipart ends with, if any, in the order the steps meet them:
      the null body, an image that cannot be embedded, a `<title>` to be set to a null
      subject, then the null attachment map. */
  function AssemblyFailure(body: Option<string>, subject: Option<string>,
                           attachments: Option<map<string, EmailAttachment>>,
                           parse: string -> Html): (e: Option<JavaException>)
    ensures e.None? <==>
      body.Some? && attachments.Some? && AllResolve(parse(body.value).imgs, attachments) && !TitleFails(parse(body.value), subject)
  {
    if body.None? then Some(NullDeref())
    else if !AllResolve(parse(body.value).imgs, attachments) then Some(EmbedError())
    else if TitleFails(parse(body.value), subject) then Some(TITLE_ERROR)
    else if attachments.None? then Some(NullDeref())
    else None
  }

  /** getAsMultipart over the values its getters return: the body (parsed by `parse`), the subject,
      the plain text and the attachment map. A null body cannot be parsed; an unresolvable cid
      image fails embedding; a `<title>` cannot take a null subject; a null map fails when the
      attachments are listed. */
  method GetAsMultipart(body: Option<string>, subject: Option<string>, plaintext: Option<string>,
                        attachments: Option<map<string, EmailAttachment>>, parse: string -> Html)
    returns (r: Result<Multipart, JavaException>)
    ensures body.None? ==> r == Err(NullDeref())
    ensures body.Some? && !AllResolve(parse(body.value).imgs, attachments) ==> r == Err(EmbedError())
    ensures body.Some? && AllResolve(parse(body.value).imgs, attachments) && TitleFails(parse(body.value), subject) ==>
      r == Err(TITLE_ERROR)
    ensures body.Some? && AllResolve(parse(body.value).imgs, attachments) && !TitleFails(parse(body.value), subject)
      ==> attachments.None? ==> r == Err(NullDeref())
    ensures r.Ok? <==>
      body.Some? && attachments.Some? && AllResolve(parse(body.value).imgs, attachments) && !TitleFails(parse(body.value), subject)
    ensures r.Err? ==> r.error == AssemblyFailure(body, subject, attachments, parse).value
    ensures r.Ok? ==>
      AssembledFrom(r.value, TopUnit(RelatedUnit(Retitled(parse(body.value), subject), attachments), plaintext), attachments.value)
  {
    if body.None? {
      return Err(NullDeref());
    }
    var doc := parse(body.value);
    var prepared := PrepareImgs(doc.imgs, attachments);
    if prepared.Err? {
      return Err(prepared.error);
    }
    if doc.title.Some? {
      if subject.None? {
        return Err(TITLE_ERROR);
      }
      doc := doc.(title := subject);
    }
    var related := BuildRelated(doc, attachments, prepared.value.0, prepared.value.1);
    var top := related;
    if plaintext.Some? {
      top := Multipart(Alternative, [PlainText(plaintext.value), Wrapper(related)]);
    }
    if attachments.None? {
      return Err(NullDeref());
    }
    var mixed := Mix(top, attachments.value);
    return Ok(mixed);
  }
}
