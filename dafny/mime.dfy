/** The MIME content tree a message hands to the classifier, content-type matching,
    the file-extension rule, and the decoders the classifier calls. */
module Mime {
  import opened Base
  import opened JavaString

  type Byte = x: int | 0 <= x < 256

  /** A parsed Content-Type header: primary type and subtype (parameters play no part). */
  datatype MediaType = MediaType(primaryType: string, subType: string) {
    function BaseType(): string { primaryType + "/" + subType }
  }

  const ApplicationZip := MediaType("application", "zip")
  const ApplicationGzip := MediaType("application", "gzip")
  const ApplicationOctetStream := MediaType("application", "octet-stream")

  /** ContentType.match: primary types equal ignoring case, and subtypes equal ignoring
      case or either of them a '*' wildcard. */
  predicate Matches(pattern: MediaType, contentType: MediaType)
    ensures pattern == contentType ==> Matches(pattern, contentType)
    ensures Matches(pattern, contentType) ==>
      |pattern.primaryType| == |contentType.primaryType|
  {
    && EqualsIgnoreCase(pattern.primaryType, contentType.primaryType)
    && (|| StartsWith(pattern.subType, "*")
        || StartsWith(contentType.subType, "*")
        || EqualsIgnoreCase(pattern.subType, contentType.subType))
  }

  /** What Part.getContent returns, by its Java class. */
  datatype Content =
    | Multipart(parts: seq<BodyPart>)       // MimeMultipart
    | Base64Stream(data: seq<Byte>)         // BASE64DecoderStream: the decoded bytes
    | StringContent(text: string)           // String: a text body
    | OtherContent(className: string)       // anything else (another stream, a nested message, ...)

  /** A body part of a multipart: its content, declared Content-Type and file name. */
  datatype BodyPart = BodyPart(content: Content, contentType: MediaType, fileName: Option<string>)

  /** What one mailbox message offers to the code. Absent Java values are `None`. */
  datatype Message = Message(
    number: int,
    from: Option<seq<Option<string>>>,   // Message.getFrom: null, or addresses some of which may be null
    subject: Option<string>,
    sentDate: Option<int>,               // epoch seconds
    receivedDate: Option<int>,           // epoch seconds
    seen: bool,                          // the SEEN flag
    content: Content,
    contentType: MediaType,
    fileName: Option<string>)

  /** One zip entry: its name and its bytes decoded as UTF-8. */
  datatype ZipEntry = ZipEntry(name: string, text: string)

  /** What ZipInputStream yields: the entries in order, and whether reading broke off with
      an IOException after them. */
  datatype ZipListing = ZipListing(entries: seq<ZipEntry>, readFailure: bool)

  /** The decoding libraries, left abstract: unzip, and gunzip-then-UTF-8 (None on IOException). */
  datatype Codecs = Codecs(unzip: seq<Byte> -> ZipListing, gunzip: seq<Byte> -> Option<string>)

  /** getFileExt(String): null for a null or empty name or one without '.', otherwise the
      lower-cased text after the last '.'. */
  function FileExt(fileName: Option<string>): (ext: Option<string>)
    ensures ext.None? <==> (fileName.None? || fileName.value == "" || '.' !in fileName.value)
  {
    if fileName.None? || fileName.value == "" then None
    else
      var dotIndex := LastIndexOf(fileName.value, '.');
      if dotIndex == -1 then None
      else Some(ToLower(fileName.value[dotIndex + 1..]))
  }

  /** The extension is the lower-cased text after a '.' that has no '.' after it. */
  lemma FileExtIsTextAfterLastDot(name: string)
    requires '.' in name
    ensures exists dot ::
              && 0 <= dot < |name| && name[dot] == '.' && '.' !in name[dot + 1..]
              && FileExt(Some(name)) == Some(ToLower(name[dot + 1..]))
  {
    var dot := LastIndexOf(name, '.');
    var suffix := name[dot + 1..];
    assert '.' !in suffix by {
      forall k | 0 <= k < |suffix| ensures suffix[k] != '.' {
        assert suffix[k] == name[dot + 1 + k];
      }
    }
  }

  /** How a base64 part is decoded. */
  datatype Route = ZipRoute | GzipRoute | NoRoute

  /** The base64 classification: zip by type or by extension first; then gzip, which needs
      a gzip or octet-stream type AND the extension gz; anything else has no route. */
  function Classify(contentType: MediaType, fileExt: Option<string>): (r: Route)
    ensures r == ZipRoute <==> (Matches(ApplicationZip, contentType) || fileExt == Some("zip"))
    ensures r == GzipRoute <==>
      && !Matches(ApplicationZip, contentType) && fileExt == Some("gz")
      && (Matches(ApplicationGzip, contentType) || Matches(ApplicationOctetStream, contentType))
  {
    if Matches(ApplicationZip, contentType) || fileExt == Some("zip") then ZipRoute
    else if (Matches(ApplicationGzip, contentType) || Matches(ApplicationOctetStream, contentType))
      && fileExt == Some("gz") then GzipRoute
    else NoRoute
  }

  /** The last '.' of `stem + "." + ext` is the one before `ext` when `ext` has none. */
  lemma {:induction false} LastDotBeforeExt(stem: string, ext: string)
    requires '.' !in ext
    ensures LastIndexOf(stem + "." + ext, '.') == |stem|
    decreases |ext|
  {
    var w := stem + "." + ext;
    if ext != [] {
      assert w[|w| - 1] == ext[|ext| - 1];
      assert w[..|w| - 1] == stem + "." + ext[..|ext| - 1];
      LastDotBeforeExt(stem, ext[..|ext| - 1]);
    }
  }

  /** The extension of `stem.ext` is `ext` lower-cased, for an `ext` without '.'. */
  lemma FileExtOfName(stem: string, ext: string)
    requires '.' !in ext
    ensures FileExt(Some(stem + "." + ext)) == Some(ToLower(ext))
  {
    LastDotBeforeExt(stem, ext);
    assert (stem + "." + ext)[|stem| + 1..] == ext;
  }

  lemma LowerCaseXml()
    ensures '.' !in "XML" && ToLower("XML") == "xml"
  {
    var ext := "XML";
    assert ext[0] != '.' && ext[1] != '.' && ext[2] != '.';
    var lower := ToLower(ext);
    assert lower[0] == 'x' && lower[1] == 'm' && lower[2] == 'l';
  }

  /** A mixed-case extension after the last of several dots comes out lower-cased. */
  lemma FileExtOfUpperCaseName()
    ensures FileExt(Some("a.b.XML")) == Some("xml")
  {
    LowerCaseXml();
    FileExtOfName("a.b", "XML");
    assert "a.b" + "." + "XML" == "a.b.XML";
  }

  /** A trailing dot gives the empty extension, not "no extension". */
  lemma FileExtOfTrailingDot()
    ensures FileExt(Some("report.")) == Some("")
  {
    FileExtOfName("report", "");
    assert "report" + "." + "" == "report.";
  }

  /** No dot, an empty name or no name at all: no extension. */
  lemma FileExtAbsent()
    ensures FileExt(Some("README")) == None
    ensures FileExt(Some("")) == None && FileExt(None) == None
  {
    assert '.' !in "README";
  }

  /** Route priority: a .zip name goes the zip route whatever its declared type. */
  lemma ZipExtensionWins(contentType: MediaType)
    ensures Classify(contentType, FileExt(Some("x.zip"))) == ZipRoute
    ensures Classify(ApplicationGzip, Some("zip")) == ZipRoute
  {
    FileExtOfName("x", "zip");
    assert "x" + "." + "zip" == "x.zip";
    assert ToLower("zip") == "zip";
  }

  /** A name ending in '.' has the empty extension, which selects neither route by name. */
  lemma TrailingDotSelectsNothing(contentType: MediaType)
    requires !Matches(ApplicationZip, contentType)
    ensures Classify(contentType, FileExt(Some("report."))) == NoRoute
  {
    FileExtOfTrailingDot();
  }
}
