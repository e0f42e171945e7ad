/** EmailAttachment: an immutable binary part of a message. Its stored fields
    are the constructor's arguments (with a generated file name when none is
    given); the MIME headers it carries as a body part are derived from them:
    the Content-ID is put between angle brackets and the `inline`
    disposition is suppressed. */
module Attachments {
  import opened Common

  /** MimeBodyPart.INLINE / MimeMessage.INLINE */
  const INLINE: string := "inline"

  /** CONTENT_MIMETYPES: the default file-name extension of each known image type. */
  const CONTENT_MIMETYPES: map<string, string> := map["image/png" := "png", "image/jpeg" := "jpg", "image/gif" := "gif"]

  /** The headers the attachment sets on itself as a MimeBodyPart (None: header not set). */
  datatype Headers = Headers(
    contentType: Option<string>,
    description: Option<string>,
    fileName: Option<string>,
    contentID: Option<string>,
    disposition: Option<string>)

  /** The six stored fields and the derived headers. `filename` and `contentid`
      are never null once constructed. */
  datatype EmailAttachment = EmailAttachment(
    filename: string,
    contenttype: Option<string>,
    data: seq<bv8>,
    contentid: string,
    description: Option<string>,
    disposition: Option<string>,
    headers: Headers)

  /** CONTENT_MIMETYPES.get(contenttype): null for an unknown or null type. */
  function DefaultExtension(contenttype: Option<string>): (ext: Option<string>)
    ensures ext.Some? <==> contenttype.Some? && contenttype.value in CONTENT_MIMETYPES
  {
    if contenttype.Some? && contenttype.value in CONTENT_MIMETYPES then Some(CONTENT_MIMETYPES[contenttype.value]) else None
  }

  /** The name given to an attachment constructed without one; `timestamp` is the clock's token. */
  function DefaultFilename(contenttype: Option<string>, timestamp: string): string
  {
    "inline_" + timestamp + "." + Text(DefaultExtension(contenttype))
  }

  /** The Content-ID header value: `<` prepended unless already there, `>` appended unless already there. */
  function WrapContentId(id: string): string
  {
    (if StartsWith(id, "<") then "" else "<") + id + (if EndsWith(id, ">") then "" else ">")
  }

  /** The disposition header: `inline` is suppressed to null, anything else is passed through. */
  function HeaderDisposition(disposition: Option<string>): Option<string>
  {
    if disposition == Some(INLINE) then None else disposition
  }

  /** The header block both the constructor and deserialisation set, from the file name they pass to setFileName. */
  function DeriveHeaders(fileName: Option<string>, contenttype: Option<string>, contentid: string,
                         description: Option<string>, disposition: Option<string>): Headers
  {
    Headers(contenttype, description, fileName,
            if |contentid| > 0 then Some(WrapContentId(contentid)) else None,
            HeaderDisposition(disposition))
  }

  /** The six-argument constructor. */
  function New(filename: Option<string>, contenttype: Option<string>, data: seq<bv8>, contentid: Option<string>,
               description: Option<string>, disposition: Option<string>, timestamp: string)
    : (r: Result<EmailAttachment, JavaException>)
    ensures r.Err? <==> contentid.None?
    ensures r.Err? ==> r.error == JavaException(NPE_CLASS, Some("Attachment's contentid may not be null."))
    ensures r.Ok? ==>
      && r.value.contentid == contentid.value
      && r.value.filename == (if filename.Some? then filename.value else DefaultFilename(contenttype, timestamp))
      && r.value.contenttype == contenttype && r.value.data == data
      && r.value.description == description && r.value.disposition == disposition
      // the header file name is taken from the raw argument, null or not
      && r.value.headers.fileName == filename
      && r.value.headers.contentType == contenttype && r.value.headers.description == description
      && (r.value.headers.contentID.Some? <==> |contentid.value| > 0)
      && (|contentid.value| > 0 ==> r.value.headers.contentID == Some(WrapContentId(contentid.value)))
      && r.value.headers.disposition == HeaderDisposition(disposition)
  {
    if contentid.None? then
      Err(JavaException(NPE_CLASS, Some("Attachment's contentid may not be null.")))
    else
      var stored := if filename.Some? then filename.value else DefaultFilename(contenttype, timestamp);
      Ok(EmailAttachment(stored, contenttype, data, contentid.value, description, disposition,
                         DeriveHeaders(filename, contenttype, contentid.value, description, disposition)))
  }

  /** The five-argument constructor: the six-argument one with disposition `inline`. */
  function NewInline(filename: Option<string>, contenttype: Option<string>, data: seq<bv8>, contentid: Option<string>,
                     description: Option<string>, timestamp: string)
    : (r: Result<EmailAttachment, JavaException>)
    ensures r.Ok? ==> r.value.disposition == Some(INLINE) && r.value.headers.disposition.None?
    ensures r.Err? <==> contentid.None?
  {
    New(filename, contenttype, data, contentid, description, Some(INLINE), timestamp)
  }

  /** clone(): the six-argument constructor on the stored fields. It cannot fail, so it never returns null. */
  function Clone(a: EmailAttachment, timestamp: string): (r: Option<EmailAttachment>)
    ensures r.Some?
    ensures r.value.filename == a.filename && r.value.contenttype == a.contenttype && r.value.data == a.data
    ensures r.value.contentid == a.contentid && r.value.description == a.description
    ensures r.value.disposition == a.disposition
    ensures r.value.headers == DeriveHeaders(Some(a.filename), a.contenttype, a.contentid, a.description, a.disposition)
  {
    match New(Some(a.filename), a.contenttype, a.data, Some(a.contentid), a.description, a.disposition, timestamp)
    case Ok(c) => Some(c)
    case Err(_) => None
  }

  /** readObject: the fields come back as they were written and the headers are derived again,
      this time from the stored (never null) file name. */
  function ReadObject(a: EmailAttachment): (r: EmailAttachment)
    ensures r.headers.fileName == Some(a.filename)
  {
    a.(headers := DeriveHeaders(Some(a.filename), a.contenttype, a.contentid, a.description, a.disposition))
  }

  // ---------------------------------------------------------------------------
  // Properties

  /** The Content-ID header is always bracketed and does not lose the id. */
  lemma WrapContentIdBracketed(id: string)
    ensures StartsWith(WrapContentId(id), "<") && EndsWith(WrapContentId(id), ">")
    ensures |id| <= |WrapContentId(id)| <= |id| + 2
    ensures StartsWith(id, "<") && EndsWith(id, ">") ==> WrapContentId(id) == id
    ensures !StartsWith(id, "<") && !EndsWith(id, ">") ==> WrapContentId(id) == "<" + id + ">"
  {
    var w := WrapContentId(id);
    if !EndsWith(id, ">") {
      assert w[|w| - 1..] == ">";
    } else {
      assert w[|w| - 1..] == id[|id| - 1..];
    }
  }

  /** Wrapping an already wrapped id changes nothing. */
  lemma WrapContentIdIdempotent(id: string)
    ensures WrapContentId(WrapContentId(id)) == WrapContentId(id)
  {
    WrapContentIdBracketed(id);
  }

  /** The header disposition is null exactly for a null or `inline` argument, and is the argument otherwise. */
  lemma HeaderDispositionSuppressesInline(disposition: Option<string>)
    ensures HeaderDisposition(disposition).None? <==> disposition.None? || disposition.value == INLINE
    ensures disposition.Some? && disposition.value != INLINE ==> HeaderDisposition(disposition) == disposition
  {
  }

  /** The default file name carries the extension of the known image types, and "null" for any other. */
  lemma DefaultFilenameExtensions(timestamp: string)
    ensures DefaultFilename(Some("image/png"), timestamp) == "inline_" + timestamp + ".png"
    ensures DefaultFilename(Some("image/jpeg"), timestamp) == "inline_" + timestamp + ".jpg"
    ensures DefaultFilename(Some("image/gif"), timestamp) == "inline_" + timestamp + ".gif"
    ensures DefaultFilename(None, timestamp) == "inline_" + timestamp + ".null"
  {
  }

  /** Deserialisation re-derives the Content-ID and disposition headers the constructor set.
      The file-name header differs when the constructor was given no file name: the
      constructor set it from the null argument, readObject sets the generated name. */
  lemma ReadObjectRederivesHeaders(filename: Option<string>, contenttype: Option<string>, data: seq<bv8>,
                                   contentid: string, description: Option<string>,
                                   disposition: Option<string>, timestamp: string)
    ensures New(filename, contenttype, data, Some(contentid), description, disposition, timestamp).Ok?
    ensures var a := New(filename, contenttype, data, Some(contentid), description, disposition, timestamp).value;
      && ReadObject(a).headers.contentID == a.headers.contentID
      && ReadObject(a).headers.disposition == a.headers.disposition
      && ReadObject(a).headers.contentType == a.headers.contentType
      && (filename.None? ==> a.headers.fileName.None? && ReadObject(a).headers.fileName == Some(DefaultFilename(contenttype, timestamp)))
      && (filename.Some? ==> ReadObject(a) == a)
  {
  }

  /** A clone is what deserialising the original gives: the same six fields and headers
      derived from the stored file name. */
  lemma CloneIsReadObject(a: EmailAttachment, timestamp: string)
    ensures Clone(a, timestamp) == Some(ReadObject(a))
  {
  }
}
