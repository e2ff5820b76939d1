/** MsgInfo.java: the classifier that walks a message's content for XML report payloads, the
    exactly-one rule, the sender list, and the MsgInfo record built from a message. */
module Messages {
  import opened Base
  import opened JavaString
  import opened Mime
  import Seqs

  // ---------------------------------------------------------------------------------------
  // Specification of the walk

  /** Sequencing of two results: the first error, else both values concatenated. */
  function Then(a: Result<seq<string>>, b: Result<seq<string>>): Result<seq<string>> {
    if a.Failure? then a else if b.Failure? then b else Success(a.value + b.value)
  }

  /** The walk's only modelled failures: the unchecked UnexpectedMessageFormatException for
      content of the wrong shape, or IOException from decoding. */
  predicate WalkError(e: Exception) {
    e.UnexpectedMessageFormat? || e.IO?
  }

  /** The XML payloads under one content node, in document order, or the first exception. */
  function XmlParts(content: Content, contentType: MediaType, fileExt: Option<string>,
                    codecs: Codecs): (r: Result<seq<string>>)
    ensures r.Failure? ==> WalkError(r.error)
    decreases content
  {
    match content
    case Multipart(parts) => PartsXml(parts, codecs)
    case Base64Stream(data) =>
      (match Classify(contentType, fileExt)
       case ZipRoute => ZipXml(codecs.unzip(data))
       case GzipRoute =>
         (match codecs.gunzip(data)
          case None => Failure(IO("gzip"))
          case Some(text) => Success([text]))
       case NoRoute =>
         Failure(UnexpectedMessageFormat(UnknownBinary(contentType.BaseType(), fileExt))))
    case StringContent(_) => Success([])
    case OtherContent(className) => Failure(UnexpectedMessageFormat(UnknownContent(className)))
  }

  /** The payloads of a multipart's body parts, visited in order. */
  function PartsXml(parts: seq<BodyPart>, codecs: Codecs): (r: Result<seq<string>>)
    ensures r.Failure? ==> WalkError(r.error)
    decreases parts
  {
    if parts == [] then Success([])
    else
      var last := parts[|parts| - 1];
      assert last in parts && last.content < last;
      Then(PartsXml(parts[..|parts| - 1], codecs),
           XmlParts(last.content, last.contentType, FileExt(last.fileName), codecs))
  }

  predicate IsXmlEntry(entry: ZipEntry)
    ensures IsXmlEntry(entry) ==> '.' in entry.name
  {
    FileExt(Some(entry.name)) == Some("xml")
  }

  /** The zip entries' texts, in entry order; the first non-xml entry is an error. */
  function ZipEntriesXml(entries: seq<ZipEntry>): (r: Result<seq<string>>)
    ensures r.Failure? ==> r.error.UnexpectedMessageFormat? && r.error.problem.NonXmlZipEntry?
  {
    if entries == [] then Success([])
    else Then(ZipEntriesXml(entries[..|entries| - 1]), EntryXml(entries[|entries| - 1]))
  }

  /** One zip entry: its text when it is .xml, otherwise an error naming its extension. */
  function EntryXml(entry: ZipEntry): (r: Result<seq<string>>)
    ensures r.Success? <==> IsXmlEntry(entry)
    ensures r.Success? ==> r.value == [entry.text]
    ensures r.Failure? ==> r.error == UnexpectedMessageFormat(NonXmlZipEntry(FileExt(Some(entry.name))))
  {
    if IsXmlEntry(entry) then Success([entry.text])
    else Failure(UnexpectedMessageFormat(NonXmlZipEntry(FileExt(Some(entry.name)))))
  }

  /** The zip route: the entries, then the IOException if reading broke off after them. */
  function ZipXml(listing: ZipListing): (r: Result<seq<string>>)
    ensures r.Failure? ==> WalkError(r.error)
  {
    var parts :- ZipEntriesXml(listing.entries);
    if listing.readFailure then Failure(IO("zip")) else Success(parts)
  }

  function Texts(entries: seq<ZipEntry>): (r: seq<string>)
    ensures |r| == |entries| && forall i :: 0 <= i < |entries| ==> r[i] == entries[i].text
  {
    seq(|entries|, i requires 0 <= i < |entries| => entries[i].text)
  }

  /** The size check of getXmlPart: exactly one payload, else one of two distinct errors. */
  function SingleXmlPart(xmlParts: seq<string>): (r: Result<string>)
    ensures r.Success? <==> |xmlParts| == 1
    ensures r.Success? ==> xmlParts == [r.value]
    ensures xmlParts == [] ==> r == Failure(UnexpectedMessageFormat(NoXmlFile))
    ensures |xmlParts| > 1 ==>
      r == Failure(UnexpectedMessageFormat(MoreThanOneXmlFile(|xmlParts|)))
  {
    if |xmlParts| < 1 then Failure(UnexpectedMessageFormat(NoXmlFile))
    else if |xmlParts| > 1 then Failure(UnexpectedMessageFormat(MoreThanOneXmlFile(|xmlParts|)))
    else Success(xmlParts[0])
  }

  /** getXmlPart: the classifier over the whole message, then the size check. */
  function XmlPartOf(m: Message, codecs: Codecs): (r: Result<string>)
    ensures var all := XmlParts(m.content, m.contentType, FileExt(m.fileName), codecs);
      && (r.Success? <==> all.Success? && |all.value| == 1)
      && (r.Success? ==> all.value == [r.value])
      && (all.Failure? ==> r == Failure(all.error))
  {
    var xmlParts :- XmlParts(m.content, m.contentType, FileExt(m.fileName), codecs);
    SingleXmlPart(xmlParts)
  }

  // ---------------------------------------------------------------------------------------
  // Sender list and the record

  /** The non-null addresses, in order. */
  function NonNull(addresses: seq<Option<string>>): seq<string> {
    if addresses == [] then []
    else
      var init := NonNull(addresses[..|addresses| - 1]);
      match addresses[|addresses| - 1]
      case None => init
      case Some(a) => init + [a]
  }

  /** getFrom: the non-null sender addresses joined with ", "; a null address array throws. */
  function FromOf(m: Message): (r: Result<string>)
    ensures r.Failure? <==> m.from.None?
    ensures r.Failure? ==> r.error == NullPointer("getFrom")
  {
    if m.from.None? then Failure(NullPointer("getFrom"))
    else Success(Join(NonNull(m.from.value), ", "))
  }

  /** The MsgInfo record. */
  datatype MsgInfo = MsgInfo(imapMsgNum: int, from: string, subject: Option<string>, time: int,
                             xmlPart: string)

  /** new MsgInfo(message): the fields in the order the constructor evaluates them. A missing
      sent date is the NullPointerException of getSentDate().toInstant(). */
  function NewMsgInfo(m: Message, codecs: Codecs): (r: Result<MsgInfo>)
    ensures r.Success? <==>
      m.from.Some? && m.sentDate.Some? && XmlPartOf(m, codecs).Success?
    ensures m.from.None? ==> r == Failure(NullPointer("getFrom"))
    ensures m.from.Some? && m.sentDate.None? ==> r == Failure(NullPointer("getSentDate"))
    ensures m.from.Some? && m.sentDate.Some? && XmlPartOf(m, codecs).Failure? ==>
      r == Failure(XmlPartOf(m, codecs).error)
    ensures r.Success? ==>
      && r.value.imapMsgNum == m.number && r.value.subject == m.subject
      && r.value.time == m.sentDate.value && r.value.xmlPart == XmlPartOf(m, codecs).value
      && r.value.from == Join(NonNull(m.from.value), ", ")
  {
    var from :- FromOf(m);
    if m.sentDate.None? then Failure(NullPointer("getSentDate"))
    else
      var xmlPart :- XmlPartOf(m, codecs);
      Success(MsgInfo(m.number, from, m.subject, m.sentDate.value, xmlPart))
  }

  // ---------------------------------------------------------------------------------------
  // Properties

  lemma ThenUnit(b: Result<seq<string>>)
    ensures Then(Success([]), b) == b
  {
    if b.Success? { assert [] + b.value == b.value; }
  }

  lemma ThenAssoc(a: Result<seq<string>>, b: Result<seq<string>>, c: Result<seq<string>>)
    ensures Then(Then(a, b), c) == Then(a, Then(b, c))
  {
    if a.Success? && b.Success? && c.Success? {
      assert (a.value + b.value) + c.value == a.value + (b.value + c.value);
    }
  }

  /** A multipart yields its children's payloads concatenated in child order, and fails with
      the first failing child's error. */
  lemma {:induction false} PartsXmlAppend(ps: seq<BodyPart>, qs: seq<BodyPart>, codecs: Codecs)
    ensures PartsXml(ps + qs, codecs) == Then(PartsXml(ps, codecs), PartsXml(qs, codecs))
    decreases |qs|
  {
    if qs == [] {
      assert ps + qs == ps;
      if PartsXml(ps, codecs).Success? {
        assert PartsXml(ps, codecs).value + [] == PartsXml(ps, codecs).value;
      }
    } else {
      var last := qs[|qs| - 1];
      var init := qs[..|qs| - 1];
      var x := XmlParts(last.content, last.contentType, FileExt(last.fileName), codecs);
      assert (ps + qs)[..|ps + qs| - 1] == ps + init;
      assert (ps + qs)[|ps + qs| - 1] == last;
      assert PartsXml(ps + qs, codecs) == Then(PartsXml(ps + init, codecs), x);
      assert PartsXml(qs, codecs) == Then(PartsXml(init, codecs), x);
      PartsXmlAppend(ps, init, codecs);
      ThenAssoc(PartsXml(ps, codecs), PartsXml(init, codecs), x);
    }
  }

  /** A single part contributes exactly what its own content yields. */
  lemma SinglePart(p: BodyPart, codecs: Codecs)
    ensures PartsXml([p], codecs) == XmlParts(p.content, p.contentType, FileExt(p.fileName), codecs)
  {
    assert [p][..0] == [];
    ThenUnit(XmlParts(p.content, p.contentType, FileExt(p.fileName), codecs));
  }

  /** Text body parts are transparent: adding one anywhere changes nothing. */
  lemma TextPartIsIgnored(ps: seq<BodyPart>, qs: seq<BodyPart>, text: string, ct: MediaType,
                          name: Option<string>, codecs: Codecs)
    ensures PartsXml(ps + [BodyPart(StringContent(text), ct, name)] + qs, codecs)
         == PartsXml(ps + qs, codecs)
  {
    var t := BodyPart(StringContent(text), ct, name);
    SinglePart(t, codecs);
    PartsXmlAppend(ps, [t], codecs);
    PartsXmlAppend(ps + [t], qs, codecs);
    PartsXmlAppend(ps, qs, codecs);
    var p := PartsXml(ps, codecs);
    assert PartsXml([t], codecs) == Success([]);
    if p.Success? { assert p.value + [] == p.value; }
    assert PartsXml(ps + [t], codecs) == p;
  }

  /** Inside a zip: success exactly when every entry is .xml, and then the entries' texts in
      entry order. */
  lemma {:induction false} ZipEntriesXmlSuccess(entries: seq<ZipEntry>)
    ensures ZipEntriesXml(entries).Success? <==>
      forall i :: 0 <= i < |entries| ==> IsXmlEntry(entries[i])
    ensures ZipEntriesXml(entries).Success? ==> ZipEntriesXml(entries).value == Texts(entries)
  {
    if entries != [] {
      var n := |entries| - 1;
      var init, last := entries[..n], entries[n];
      ZipEntriesXmlSuccess(init);
      var whole := ZipEntriesXml(entries);
      assert whole == Then(ZipEntriesXml(init), EntryXml(last));
      if whole.Success? {
        forall i | 0 <= i < |entries|
          ensures IsXmlEntry(entries[i])
        {
          if i < n { assert entries[i] == init[i]; }
        }
        assert whole.value == ZipEntriesXml(init).value + [last.text];
        assert Texts(init) + [last.text] == Texts(entries);
      } else if ZipEntriesXml(init).Success? {
        assert !IsXmlEntry(entries[n]);
      } else {
        var k :| 0 <= k < n && !IsXmlEntry(init[k]);
        assert init[k] == entries[k];
      }
    }
  }

  /** A zip with a non-xml entry fails with the error of the first such entry. */
  lemma {:induction false} ZipEntriesXmlFirstFailure(entries: seq<ZipEntry>, k: nat)
    requires k < |entries| && !IsXmlEntry(entries[k])
    requires forall j :: 0 <= j < k ==> IsXmlEntry(entries[j])
    ensures ZipEntriesXml(entries)
         == Failure(UnexpectedMessageFormat(NonXmlZipEntry(FileExt(Some(entries[k].name)))))
    decreases |entries|
  {
    var n := |entries| - 1;
    var init := entries[..n];
    assert ZipEntriesXml(entries) == Then(ZipEntriesXml(init), EntryXml(entries[n]));
    if k == n {
      assert forall j :: 0 <= j < n ==> init[j] == entries[j];
      ZipEntriesXmlSuccess(init);
      assert ZipEntriesXml(init).Success?;
    } else {
      assert init[k] == entries[k] && forall j :: 0 <= j < k ==> init[j] == entries[j];
      ZipEntriesXmlFirstFailure(init, k);
    }
  }

  /** An empty zip adds nothing; a broken read after the entries is an IOException. */
  lemma EmptyZipAddsNothing()
    ensures ZipXml(ZipListing([], false)) == Success([])
  {
  }

  /** The gzip route adds exactly the one decompressed text. */
  lemma GzipAddsOne(data: seq<Byte>, ct: MediaType, codecs: Codecs, text: string)
    requires !Matches(ApplicationZip, ct)
    requires Matches(ApplicationGzip, ct) || Matches(ApplicationOctetStream, ct)
    requires codecs.gunzip(data) == Some(text)
    ensures XmlParts(Base64Stream(data), ct, Some("gz"), codecs) == Success([text])
  {
  }

  /** A base64 part of no known kind is an UnexpectedMessageFormat error naming the type and
      extension, whatever the decoders would have said. */
  lemma UnknownBinaryRejected(data: seq<Byte>, ct: MediaType, ext: Option<string>, codecs: Codecs)
    requires !Matches(ApplicationZip, ct) && ext != Some("zip")
    requires ext != Some("gz") ||
      (!Matches(ApplicationGzip, ct) && !Matches(ApplicationOctetStream, ct))
    ensures XmlParts(Base64Stream(data), ct, ext, codecs)
         == Failure(UnexpectedMessageFormat(UnknownBinary(ct.BaseType(), ext)))
  {
  }

  /** A message whose single attachment is a gzip'd report yields exactly that report. */
  lemma SingleGzipAttachment(m: Message, codecs: Codecs, body: string, text: string,
                             ct: MediaType, name: string, data: seq<Byte>)
    requires m.content == Multipart([BodyPart(StringContent(body), MediaType("text", "plain"), None),
                                     BodyPart(Base64Stream(data), ct, Some(name))])
    requires Classify(ct, FileExt(Some(name))) == GzipRoute
    requires codecs.gunzip(data) == Some(text)
    ensures XmlPartOf(m, codecs) == Success(text)
  {
    var t := BodyPart(StringContent(body), MediaType("text", "plain"), None);
    var g := BodyPart(Base64Stream(data), ct, Some(name));
    var parts := [t, g];
    var x := XmlParts(g.content, g.contentType, FileExt(g.fileName), codecs);
    assert x == Success([text]);
    assert parts[..1] == [t] && parts[1] == g;
    SinglePart(t, codecs);
    assert PartsXml(parts, codecs) == Then(PartsXml([t], codecs), x);
    ThenUnit(x);
    assert XmlParts(m.content, m.contentType, FileExt(m.fileName), codecs) == Success([text]);
  }

  /** No payload and several payloads are different errors. */
  lemma ZeroAndManyAreDistinct(a: string, b: string)
    ensures SingleXmlPart([]) != SingleXmlPart([a, b])
    ensures SingleXmlPart([a, b]).Failure? && SingleXmlPart([]).Failure?
  {
  }

  lemma {:induction false} NonNullAppend(xs: seq<Option<string>>, ys: seq<Option<string>>)
    ensures NonNull(xs + ys) == NonNull(xs) + NonNull(ys)
    decreases |ys|
  {
    if ys == [] {
      assert xs + ys == xs;
    } else {
      assert (xs + ys)[..|xs + ys| - 1] == xs + ys[..|ys| - 1];
      NonNullAppend(xs, ys[..|ys| - 1]);
    }
  }

  /** getFrom skips null addresses and puts ", " between the others, in order. */
  lemma FromJoinsNonNull(xs: seq<Option<string>>, ys: seq<Option<string>>, a: string)
    ensures Join(NonNull(xs + [None] + ys), ", ") == Join(NonNull(xs + ys), ", ")
    ensures Join(NonNull(xs + [Some(a)]), ", ")
         == if NonNull(xs) == [] then a else Join(NonNull(xs), ", ") + ", " + a
  {
    var none: seq<Option<string>> := [None];
    NonNullAppend(xs, none);
    NonNullAppend(xs + none, ys);
    NonNullAppend(xs, ys);
    NonNullAppend(xs, [Some(a)]);
    assert NonNull(none) == [] by { assert none[..0] == []; }
    assert NonNull([Some(a)]) == [a] by { assert [Some(a)][..0] == []; }
    var n := NonNull(xs) + [a];
    assert n[..|n| - 1] == NonNull(xs);
  }

  // ---------------------------------------------------------------------------------------
  // The Java implementation: a list the walk appends to

  /** The ArrayList<String> that getXmlPart passes down the walk. */
  class XmlPartList {
    var items: seq<string>

    constructor ()
      ensures items == []
    {
      items := [];
    }

    method Add(s: string)
      modifies this
      ensures items == old(items) + [s]
    {
      items := items + [s];
    }
  }

  /** getXmlParts: appends the payloads under `content` to `xmlParts`, or throws. */
  method GetXmlParts(content: Content, contentType: MediaType, fileExt: Option<string>,
                     codecs: Codecs, xmlParts: XmlPartList) returns (outcome: Outcome)
    modifies xmlParts
    decreases content
    ensures outcome.Pass? <==> XmlParts(content, contentType, fileExt, codecs).Success?
    ensures outcome.Pass? ==>
      xmlParts.items == old(xmlParts.items) + XmlParts(content, contentType, fileExt, codecs).value
    ensures outcome.Fail? ==> outcome.error == XmlParts(content, contentType, fileExt, codecs).error
  {
    match content
    case Multipart(parts) =>
      var i := 0;
      while i < |parts|
        invariant 0 <= i <= |parts|
        invariant PartsXml(parts[..i], codecs).Success?
        invariant xmlParts.items == old(xmlParts.items) + PartsXml(parts[..i], codecs).value
      {
        var part := parts[i];
        PartsStep(parts, i, codecs);
        ghost var done := PartsXml(parts[..i], codecs).value;
        var o := GetXmlParts(part.content, part.contentType, FileExt(part.fileName), codecs, xmlParts);
        if o.Fail? {
          return o;
        }
        ghost var x := XmlParts(part.content, part.contentType, FileExt(part.fileName), codecs).value;
        Seqs.AppendAssoc(old(xmlParts.items), done, x);
        i := i + 1;
      }
      assert parts[..|parts|] == parts;
      return Pass;
    case Base64Stream(data) =>
      match Classify(contentType, fileExt) {
        case ZipRoute =>
          outcome := DecodeZipAttachment(data, codecs, xmlParts);
        case GzipRoute =>
          var text := codecs.gunzip(data);
          if text.None? {
            return Fail(IO("gzip"));
          }
          xmlParts.Add(text.value);
          return Pass;
        case NoRoute =>
          return Fail(UnexpectedMessageFormat(UnknownBinary(contentType.BaseType(), fileExt)));
      }
    case StringContent(_) =>
      // message body parts are ignored
      return Pass;
    case OtherContent(className) =>
      return Fail(UnexpectedMessageFormat(UnknownContent(className)));
  }

  /** One more body part: its payloads extend the list, or its error is the multipart's. */
  lemma PartsStep(parts: seq<BodyPart>, i: nat, codecs: Codecs)
    requires i < |parts| && PartsXml(parts[..i], codecs).Success?
    ensures var x := XmlParts(parts[i].content, parts[i].contentType, FileExt(parts[i].fileName), codecs);
      && (x.Success? ==>
            PartsXml(parts[..i + 1], codecs) == Success(PartsXml(parts[..i], codecs).value + x.value))
      && (x.Failure? ==> PartsXml(parts, codecs) == x)
  {
    var upTo, part := parts[..i + 1], parts[i];
    var x := XmlParts(part.content, part.contentType, FileExt(part.fileName), codecs);
    assert upTo[..i] == parts[..i] && upTo[i] == part;
    assert PartsXml(upTo, codecs) == Then(PartsXml(parts[..i], codecs), x);
    if x.Failure? {
      PartsXmlAppend(upTo, parts[i + 1..], codecs);
      assert upTo + parts[i + 1..] == parts;
    }
  }

  /** decodeZipAttachment: appends every entry's text; the first non-xml entry throws. */
  method DecodeZipAttachment(data: seq<Byte>, codecs: Codecs, xmlParts: XmlPartList)
    returns (outcome: Outcome)
    modifies xmlParts
    ensures outcome.Pass? <==> ZipXml(codecs.unzip(data)).Success?
    ensures outcome.Pass? ==> xmlParts.items == old(xmlParts.items) + ZipXml(codecs.unzip(data)).value
    ensures outcome.Fail? ==> outcome.error == ZipXml(codecs.unzip(data)).error
  {
    var listing := codecs.unzip(data);
    var entries := listing.entries;
    var i := 0;
    while true
      invariant 0 <= i <= |entries|
      invariant ZipEntriesXml(entries[..i]).Success?
      invariant xmlParts.items == old(xmlParts.items) + ZipEntriesXml(entries[..i]).value
      decreases |entries| - i
    {
      // getNextEntry: null after the last entry, or the IOException of a broken stream
      if i == |entries| {
        assert entries[..i] == entries;
        if listing.readFailure {
          return Fail(IO("zip"));
        }
        break;
      }
      var entry := entries[i];
      ZipStep(entries, i);
      var zipEntryExt := FileExt(Some(entry.name));
      if zipEntryExt == Some("xml") {
        Seqs.AppendAssoc(old(xmlParts.items), ZipEntriesXml(entries[..i]).value, [entry.text]);
        xmlParts.Add(entry.text);
      } else {
        return Fail(UnexpectedMessageFormat(NonXmlZipEntry(zipEntryExt)));
      }
      i := i + 1;
    }
    return Pass;
  }

  /** One more entry: an .xml entry extends the texts, any other ends the zip with its error. */
  lemma ZipStep(entries: seq<ZipEntry>, i: nat)
    requires i < |entries| && ZipEntriesXml(entries[..i]).Success?
    ensures IsXmlEntry(entries[i]) ==>
      ZipEntriesXml(entries[..i + 1]) == Success(ZipEntriesXml(entries[..i]).value + [entries[i].text])
    ensures !IsXmlEntry(entries[i]) ==>
      ZipEntriesXml(entries) == Failure(UnexpectedMessageFormat(NonXmlZipEntry(FileExt(Some(entries[i].name)))))
  {
    var upTo, entry := entries[..i + 1], entries[i];
    assert upTo[..i] == entries[..i] && upTo[i] == entry;
    assert ZipEntriesXml(upTo) == Then(ZipEntriesXml(entries[..i]), EntryXml(entry));
    if !IsXmlEntry(entry) {
      assert ZipEntriesXml(upTo) == EntryXml(entry);
      ZipPrefixFailure(entries, i + 1);
    }
  }

  /** A failing prefix of the entries makes the whole zip fail with the same error. */
  lemma {:induction false} ZipPrefixFailure(entries: seq<ZipEntry>, n: nat)
    requires n <= |entries|
    requires ZipEntriesXml(entries[..n]).Failure?
    ensures ZipEntriesXml(entries) == ZipEntriesXml(entries[..n])
    decreases |entries| - n
  {
    if n < |entries| {
      assert entries[..n + 1][..n] == entries[..n];
      ZipPrefixFailure(entries, n + 1);
    } else {
      assert entries[..n] == entries;
    }
  }

  /** getXmlPart: the walk into a fresh list, then the size check. */
  method GetXmlPart(m: Message, codecs: Codecs) returns (r: Result<string>)
    ensures r == XmlPartOf(m, codecs)
  {
    var xmlParts := new XmlPartList();
    var o := GetXmlParts(m.content, m.contentType, FileExt(m.fileName), codecs, xmlParts);
    if o.Fail? {
      return Failure(o.error);
    }
    if |xmlParts.items| < 1 {
      return Failure(UnexpectedMessageFormat(NoXmlFile));
    } else if |xmlParts.items| > 1 {
      return Failure(UnexpectedMessageFormat(MoreThanOneXmlFile(|xmlParts.items|)));
    }
    return Success(xmlParts.items[0]);
  }
}
