/** The earlier classifier that App.unpack and MessageDownloader.unpack share (the two are the
    same code): it also records text bodies, into a mutable three-argument MsgInfo, and the
    per-message loop of App.downloadMsgInfo and MessageDownloader.download around it. */
module Legacy {
  import opened Base
  import opened JavaString
  import opened Mime
  import Messages
  import Seqs

  /** What the walk collects: XML payloads and text bodies, each in encounter order. */
  datatype Unpacked = Unpacked(xmlParts: seq<string>, bodyParts: seq<string>)

  /** Sequencing of two walks: the first error, else both collections concatenated. */
  function Both(a: Result<Unpacked>, b: Result<Unpacked>): Result<Unpacked> {
    if a.Failure? then a
    else if b.Failure? then b
    else Success(Unpacked(a.value.xmlParts + b.value.xmlParts, a.value.bodyParts + b.value.bodyParts))
  }

  /** A zip or gzip result is XML only. */
  function AsXml(r: Result<seq<string>>): Result<Unpacked> {
    if r.Failure? then Failure(r.error) else Success(Unpacked(r.value, []))
  }

  /** unpack, as a function: the zip/gzip/error routes of MsgInfo, and text kept as a body. */
  function Unpack(content: Content, contentType: MediaType, fileExt: Option<string>,
                  codecs: Codecs): (r: Result<Unpacked>)
    ensures r.Failure? ==> Messages.WalkError(r.error)
    decreases content
  {
    match content
    case Multipart(parts) => UnpackParts(parts, codecs)
    case Base64Stream(data) =>
      (match Classify(contentType, fileExt)
       case ZipRoute => AsXml(Messages.ZipXml(codecs.unzip(data)))
       case GzipRoute =>
         (match codecs.gunzip(data)
          case None => Failure(IO("gzip"))
          case Some(text) => Success(Unpacked([text], [])))
       case NoRoute =>
         Failure(UnexpectedMessageFormat(UnknownBinary(contentType.BaseType(), fileExt))))
    case StringContent(text) => Success(Unpacked([], [text]))
    case OtherContent(className) => Failure(UnexpectedMessageFormat(UnknownContent(className)))
  }

  function UnpackParts(parts: seq<BodyPart>, codecs: Codecs): (r: Result<Unpacked>)
    ensures r.Failure? ==> Messages.WalkError(r.error)
    decreases parts
  {
    if parts == [] then Success(Unpacked([], []))
    else
      var last := parts[|parts| - 1];
      assert last in parts && last.content < last;
      Both(UnpackParts(parts[..|parts| - 1], codecs),
           Unpack(last.content, last.contentType, FileExt(last.fileName), codecs))
  }

  /** The XML side of a walk. */
  function XmlSide(r: Result<Unpacked>): Result<seq<string>> {
    if r.Failure? then Failure(r.error) else Success(r.value.xmlParts)
  }

  /** Same classification as MsgInfo: the XML payloads and the errors are exactly those of
      MsgInfo.getXmlParts, node for node. */
  lemma {:induction false} UnpackAgreesWithMsgInfo(content: Content, contentType: MediaType,
                                                    fileExt: Option<string>, codecs: Codecs)
    ensures XmlSide(Unpack(content, contentType, fileExt, codecs))
         == Messages.XmlParts(content, contentType, fileExt, codecs)
    decreases content
  {
    match content
    case Multipart(parts) => UnpackPartsAgreesWithMsgInfo(parts, codecs);
    case Base64Stream(_) =>
    case StringContent(_) =>
    case OtherContent(_) =>
  }

  lemma {:induction false} UnpackPartsAgreesWithMsgInfo(parts: seq<BodyPart>, codecs: Codecs)
    ensures XmlSide(UnpackParts(parts, codecs)) == Messages.PartsXml(parts, codecs)
    decreases parts
  {
    if parts != [] {
      var last := parts[|parts| - 1];
      assert last in parts && last.content < last;
      UnpackPartsAgreesWithMsgInfo(parts[..|parts| - 1], codecs);
      UnpackAgreesWithMsgInfo(last.content, last.contentType, FileExt(last.fileName), codecs);
    }
  }

  lemma BothAssoc(a: Result<Unpacked>, b: Result<Unpacked>, c: Result<Unpacked>)
    ensures Both(Both(a, b), c) == Both(a, Both(b, c))
  {
    if a.Success? && b.Success? && c.Success? {
      var x, y, z := a.value, b.value, c.value;
      assert (x.xmlParts + y.xmlParts) + z.xmlParts == x.xmlParts + (y.xmlParts + z.xmlParts);
      assert (x.bodyParts + y.bodyParts) + z.bodyParts == x.bodyParts + (y.bodyParts + z.bodyParts);
    }
  }

  /** Bodies and payloads of a multipart are its children's, concatenated in child order. */
  lemma {:induction false} UnpackPartsAppend(ps: seq<BodyPart>, qs: seq<BodyPart>, codecs: Codecs)
    ensures UnpackParts(ps + qs, codecs) == Both(UnpackParts(ps, codecs), UnpackParts(qs, codecs))
    decreases |qs|
  {
    if qs == [] {
      assert ps + qs == ps;
      var p := UnpackParts(ps, codecs);
      if p.Success? {
        assert p.value.xmlParts + [] == p.value.xmlParts && p.value.bodyParts + [] == p.value.bodyParts;
      }
    } else {
      var last := qs[|qs| - 1];
      var init := qs[..|qs| - 1];
      var x := Unpack(last.content, last.contentType, FileExt(last.fileName), codecs);
      assert (ps + qs)[..|ps + qs| - 1] == ps + init;
      assert (ps + qs)[|ps + qs| - 1] == last;
      assert UnpackParts(ps + qs, codecs) == Both(UnpackParts(ps + init, codecs), x);
      assert UnpackParts(qs, codecs) == Both(UnpackParts(init, codecs), x);
      UnpackPartsAppend(ps, init, codecs);
      BothAssoc(UnpackParts(ps, codecs), UnpackParts(init, codecs), x);
    }
  }

  /** A text part is recorded as one body part and no payload. */
  lemma TextIsBody(ps: seq<BodyPart>, text: string, ct: MediaType, name: Option<string>,
                   codecs: Codecs)
    requires UnpackParts(ps, codecs).Success?
    ensures UnpackParts(ps + [BodyPart(StringContent(text), ct, name)], codecs)
         == Success(Unpacked(UnpackParts(ps, codecs).value.xmlParts,
                             UnpackParts(ps, codecs).value.bodyParts + [text]))
  {
    var t := BodyPart(StringContent(text), ct, name);
    assert (ps + [t])[..|ps|] == ps;
    assert UnpackParts(ps, codecs).value.xmlParts + [] == UnpackParts(ps, codecs).value.xmlParts;
  }

  /** One more body part: its payloads and bodies extend the lists, or its error is the
      multipart's. */
  lemma UnpackPartsStep(parts: seq<BodyPart>, i: nat, codecs: Codecs)
    requires i < |parts| && UnpackParts(parts[..i], codecs).Success?
    ensures var x := Unpack(parts[i].content, parts[i].contentType, FileExt(parts[i].fileName), codecs);
      var p := UnpackParts(parts[..i], codecs).value;
      && (x.Success? ==>
            UnpackParts(parts[..i + 1], codecs) ==
            Success(Unpacked(p.xmlParts + x.value.xmlParts, p.bodyParts + x.value.bodyParts)))
      && (x.Failure? ==> UnpackParts(parts, codecs) == x)
  {
    var upTo, part := parts[..i + 1], parts[i];
    var x := Unpack(part.content, part.contentType, FileExt(part.fileName), codecs);
    assert upTo[..i] == parts[..i] && upTo[i] == part;
    assert UnpackParts(upTo, codecs) == Both(UnpackParts(parts[..i], codecs), x);
    if x.Failure? {
      UnpackPartsAppend(upTo, parts[i + 1..], codecs);
      assert upTo + parts[i + 1..] == parts;
    }
  }

  // ---------------------------------------------------------------------------------------
  // The per-message loop

  /** The sender string of the loop: every address printed, a null one throws. */
  function LegacyFrom(m: Message): (r: Result<string>)
    ensures r.Failure? <==> m.from.None? || None in m.from.value
    ensures r.Failure? ==> r.error == NullPointer("getFrom")
    ensures r.Success? ==> r == Messages.FromOf(m)
  {
    if m.from.None? || None in m.from.value then Failure(NullPointer("getFrom"))
    else Success(Join(Messages.NonNull(m.from.value), ", "))
  }

  /** What one message of the loop becomes. */
  datatype Downloaded = Downloaded(from: string, subject: Option<string>, time: int,
                                   xmlParts: seq<string>, bodyParts: seq<string>)

  function DownloadedOf(m: Message, codecs: Codecs): (r: Result<Downloaded>)
    ensures var u := Unpack(m.content, m.contentType, FileExt(m.fileName), codecs);
      && (r.Success? <==> LegacyFrom(m).Success? && m.sentDate.Some? && u.Success?)
      && (LegacyFrom(m).Failure? ==> r == Failure(NullPointer("getFrom")))
      && (LegacyFrom(m).Success? && m.sentDate.None? ==> r == Failure(NullPointer("getSentDate")))
      && (LegacyFrom(m).Success? && m.sentDate.Some? && u.Failure? ==> r == Failure(u.error))
      && (r.Success? ==>
            && r.value.from == LegacyFrom(m).value && r.value.subject == m.subject
            && r.value.time == m.sentDate.value
            && r.value.xmlParts == u.value.xmlParts && r.value.bodyParts == u.value.bodyParts)
  {
    var from :- LegacyFrom(m);
    if m.sentDate.None? then Failure(NullPointer("getSentDate"))
    else
      var u :- Unpack(m.content, m.contentType, FileExt(m.fileName), codecs);
      Success(Downloaded(from, m.subject, m.sentDate.value, u.xmlParts, u.bodyParts))
  }

  /** All messages in order; the first failing message aborts the whole list. */
  function DownloadAll(messages: seq<Message>, codecs: Codecs): (r: Result<seq<Downloaded>>)
    ensures r.Success? ==> |r.value| == |messages|
  {
    if messages == [] then Success([])
    else
      var init :- DownloadAll(messages[..|messages| - 1], codecs);
      var last :- DownloadedOf(messages[|messages| - 1], codecs);
      Success(init + [last])
  }

  /** The list is complete exactly when every message unpacks, and then entry i is message i's. */
  lemma {:induction false} DownloadAllSpec(messages: seq<Message>, codecs: Codecs)
    ensures DownloadAll(messages, codecs).Success? <==>
      forall i :: 0 <= i < |messages| ==> DownloadedOf(messages[i], codecs).Success?
    ensures DownloadAll(messages, codecs).Success? ==>
      forall i :: 0 <= i < |messages| ==>
        DownloadAll(messages, codecs).value[i] == DownloadedOf(messages[i], codecs).value
  {
    if messages != [] {
      var n := |messages| - 1;
      var prefix := messages[..n];
      DownloadAllSpec(prefix, codecs);
      var init, last := DownloadAll(prefix, codecs), DownloadedOf(messages[n], codecs);
      var whole := DownloadAll(messages, codecs);
      assert whole.Success? <==> init.Success? && last.Success?;
      if init.Success? && last.Success? {
        assert whole.value == init.value + [last.value];
        forall i | 0 <= i < |messages|
          ensures DownloadedOf(messages[i], codecs).Success?
          ensures whole.value[i] == DownloadedOf(messages[i], codecs).value
        {
          if i < n { assert prefix[i] == messages[i]; }
        }
      } else if init.Failure? {
        var k :| 0 <= k < n && DownloadedOf(prefix[k], codecs).Failure?;
        assert prefix[k] == messages[k];
      }
    }
  }

  // ---------------------------------------------------------------------------------------
  // The Java implementation: a MsgInfo whose part lists grow

  /** The three-argument MsgInfo with addXmlPart and addBodyPart. */
  class LegacyMsgInfo {
    const from: string
    const subject: Option<string>
    const time: int
    var xmlParts: seq<string>
    var bodyParts: seq<string>

    constructor (from: string, subject: Option<string>, time: int)
      ensures this.from == from && this.subject == subject && this.time == time
      ensures xmlParts == [] && bodyParts == []
    {
      this.from, this.subject, this.time := from, subject, time;
      xmlParts, bodyParts := [], [];
    }

    function View(): Downloaded
      reads this
    {
      Downloaded(from, subject, time, xmlParts, bodyParts)
    }

    method AddXmlPart(xml: string)
      modifies this
      ensures xmlParts == old(xmlParts) + [xml] && bodyParts == old(bodyParts)
    {
      xmlParts := xmlParts + [xml];
    }

    method AddBodyPart(body: string)
      modifies this
      ensures bodyParts == old(bodyParts) + [body] && xmlParts == old(xmlParts)
    {
      bodyParts := bodyParts + [body];
    }
  }

  /** unpack: adds the payloads and bodies under `content` to `msgInfo`, or throws. */
  method UnpackInto(content: Content, contentType: MediaType, fileExt: Option<string>,
                    codecs: Codecs, msgInfo: LegacyMsgInfo) returns (outcome: Outcome)
    modifies msgInfo
    decreases content
    ensures outcome.Pass? <==> Unpack(content, contentType, fileExt, codecs).Success?
    ensures outcome.Pass? ==>
      var u := Unpack(content, contentType, fileExt, codecs).value;
      msgInfo.xmlParts == old(msgInfo.xmlParts) + u.xmlParts
      && msgInfo.bodyParts == old(msgInfo.bodyParts) + u.bodyParts
    ensures outcome.Fail? ==> outcome.error == Unpack(content, contentType, fileExt, codecs).error
  {
    match content
    case Multipart(parts) =>
      outcome := UnpackPartsInto(parts, codecs, msgInfo);
    case Base64Stream(data) =>
      match Classify(contentType, fileExt) {
        case ZipRoute =>
          outcome := DecodeZipAttachment(data, codecs, msgInfo);
        case GzipRoute =>
          outcome := DecodeGZipAttachment(data, codecs, msgInfo);
        case NoRoute =>
          return Fail(UnexpectedMessageFormat(UnknownBinary(contentType.BaseType(), fileExt)));
      }
    case StringContent(text) =>
      msgInfo.AddBodyPart(text);
      return Pass;
    case OtherContent(className) =>
      return Fail(UnexpectedMessageFormat(UnknownContent(className)));
  }

  /** The multipart branch of unpack: each body part in turn, stopping at the first error. */
  method UnpackPartsInto(parts: seq<BodyPart>, codecs: Codecs, msgInfo: LegacyMsgInfo)
    returns (outcome: Outcome)
    modifies msgInfo
    decreases parts
    ensures outcome.Pass? <==> UnpackParts(parts, codecs).Success?
    ensures outcome.Pass? ==>
      var u := UnpackParts(parts, codecs).value;
      msgInfo.xmlParts == old(msgInfo.xmlParts) + u.xmlParts
      && msgInfo.bodyParts == old(msgInfo.bodyParts) + u.bodyParts
    ensures outcome.Fail? ==> outcome.error == UnpackParts(parts, codecs).error
  {
    var i := 0;
    while i < |parts|
      invariant 0 <= i <= |parts|
      invariant UnpackParts(parts[..i], codecs).Success?
      invariant msgInfo.xmlParts == old(msgInfo.xmlParts) + UnpackParts(parts[..i], codecs).value.xmlParts
      invariant msgInfo.bodyParts == old(msgInfo.bodyParts) + UnpackParts(parts[..i], codecs).value.bodyParts
    {
      var part := parts[i];
      assert part in parts && part.content < part;
      UnpackPartsStep(parts, i, codecs);
      ghost var done := UnpackParts(parts[..i], codecs).value;
      ghost var xs, bs := msgInfo.xmlParts, msgInfo.bodyParts;
      var o := UnpackInto(part.content, part.contentType, FileExt(part.fileName), codecs, msgInfo);
      if o.Fail? {
        return o;
      }
      ghost var x := Unpack(part.content, part.contentType, FileExt(part.fileName), codecs).value;
      Seqs.AppendAssoc(old(msgInfo.xmlParts), done.xmlParts, x.xmlParts);
      Seqs.AppendAssoc(old(msgInfo.bodyParts), done.bodyParts, x.bodyParts);
      i := i + 1;
    }
    assert parts[..|parts|] == parts;
    return Pass;
  }

  /** decodeZipAttachment: adds every entry's text as an XML part; a non-xml entry throws. */
  method DecodeZipAttachment(data: seq<Byte>, codecs: Codecs, msgInfo: LegacyMsgInfo)
    returns (outcome: Outcome)
    modifies msgInfo
    ensures outcome.Pass? <==> Messages.ZipXml(codecs.unzip(data)).Success?
    ensures outcome.Pass? ==>
      && msgInfo.xmlParts == old(msgInfo.xmlParts) + Messages.ZipXml(codecs.unzip(data)).value
      && msgInfo.bodyParts == old(msgInfo.bodyParts)
    ensures outcome.Fail? ==> outcome.error == Messages.ZipXml(codecs.unzip(data)).error
  {
    var listing := codecs.unzip(data);
    var entries := listing.entries;
    var i := 0;
    while true
      invariant 0 <= i <= |entries|
      invariant Messages.ZipEntriesXml(entries[..i]).Success?
      invariant msgInfo.xmlParts == old(msgInfo.xmlParts) + Messages.ZipEntriesXml(entries[..i]).value
      invariant msgInfo.bodyParts == old(msgInfo.bodyParts)
      decreases |entries| - i
    {
      // getNextEntry: null after the last entry, or the IOException of a broken stream
      if i == |entries| {
        assert entries[..i] == entries;
        if listing.readFailure {
          return Fail(IO("zip"));
        }
        break;
      }
      var entry := entries[i];
      Messages.ZipStep(entries, i);
      var zipEntryExt := FileExt(Some(entry.name));
      if zipEntryExt == Some("xml") {
        Seqs.AppendAssoc(old(msgInfo.xmlParts), Messages.ZipEntriesXml(entries[..i]).value, [entry.text]);
        msgInfo.AddXmlPart(entry.text);
      } else {
        return Fail(UnexpectedMessageFormat(NonXmlZipEntry(zipEntryExt)));
      }
      i := i + 1;
    }
    return Pass;
  }

  /** decodeGZipAttachment: adds the one decompressed text as an XML part. */
  method DecodeGZipAttachment(data: seq<Byte>, codecs: Codecs, msgInfo: LegacyMsgInfo)
    returns (outcome: Outcome)
    modifies msgInfo
    ensures outcome.Pass? <==> codecs.gunzip(data).Some?
    ensures outcome.Pass? ==>
      && msgInfo.xmlParts == old(msgInfo.xmlParts) + [codecs.gunzip(data).value]
      && msgInfo.bodyParts == old(msgInfo.bodyParts)
    ensures outcome.Fail? ==> outcome.error == IO("gzip")
  {
    var text := codecs.gunzip(data);
    if text.None? {
      return Fail(IO("gzip"));
    }
    msgInfo.AddXmlPart(text.value);
    return Pass;
  }

  /** The loop over the selected messages: one MsgInfo per message, in order, added to the
      list before its content is unpacked; any failure aborts with no list. */
  method UnpackMessages(messages: seq<Message>, codecs: Codecs)
    returns (r: Result<seq<LegacyMsgInfo>>)
    ensures r.Success? <==> DownloadAll(messages, codecs).Success?
    ensures r.Failure? ==> r.error == DownloadAll(messages, codecs).error
    ensures r.Success? ==>
      && |r.value| == |messages|
      && (forall i :: 0 <= i < |messages| ==> r.value[i].View() == DownloadAll(messages, codecs).value[i])
      && (forall i :: 0 <= i < |messages| ==> fresh(r.value[i]))
      && (forall i, j :: 0 <= i < j < |messages| ==> r.value[i] != r.value[j])
  {
    var msgInfos: seq<LegacyMsgInfo> := [];
    var i := 0;
    while i < |messages|
      invariant 0 <= i <= |messages| && |msgInfos| == i
      invariant DownloadAll(messages[..i], codecs).Success?
      invariant forall j :: 0 <= j < i ==> msgInfos[j].View() == DownloadAll(messages[..i], codecs).value[j]
      invariant forall j :: 0 <= j < i ==> fresh(msgInfos[j])
      invariant forall j, k :: 0 <= j < k < i ==> msgInfos[j] != msgInfos[k]
    {
      var message := messages[i];
      DownloadStep(messages, i, codecs);
      var from := LegacyFrom(message);
      if from.Failure? {
        return Failure(from.error);
      }
      if message.sentDate.None? {
        return Failure(NullPointer("getSentDate"));
      }
      var msgInfo := new LegacyMsgInfo(from.value, message.subject, message.sentDate.value);
      msgInfos := msgInfos + [msgInfo];
      var o := UnpackInto(message.content, message.contentType, FileExt(message.fileName), codecs, msgInfo);
      if o.Fail? {
        return Failure(o.error);
      }
      i := i + 1;
    }
    assert messages[..|messages|] == messages;
    return Success(msgInfos);
  }

  /** One more message: it extends the list, or its error is the whole loop's. */
  lemma DownloadStep(messages: seq<Message>, i: nat, codecs: Codecs)
    requires i < |messages| && DownloadAll(messages[..i], codecs).Success?
    ensures var d := DownloadedOf(messages[i], codecs);
      && (d.Success? ==>
            DownloadAll(messages[..i + 1], codecs) == Success(DownloadAll(messages[..i], codecs).value + [d.value]))
      && (d.Failure? ==> DownloadAll(messages, codecs) == Failure(d.error))
  {
    var upTo := messages[..i + 1];
    assert upTo[..i] == messages[..i] && upTo[i] == messages[i];
    if DownloadedOf(messages[i], codecs).Failure? {
      DownloadAllPrefixFailure(messages, i + 1, codecs);
    }
  }

  lemma {:induction false} DownloadAllPrefixFailure(messages: seq<Message>, n: nat, codecs: Codecs)
    requires n <= |messages|
    requires DownloadAll(messages[..n], codecs).Failure?
    ensures DownloadAll(messages, codecs) == DownloadAll(messages[..n], codecs)
    decreases |messages| - n
  {
    if n < |messages| {
      assert messages[..n + 1][..n] == messages[..n];
      DownloadAllPrefixFailure(messages, n + 1, codecs);
    } else {
      assert messages[..n] == messages;
    }
  }
}
