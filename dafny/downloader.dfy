/** MessageDownloader: the folder query and the same per-message loop as App. */
module Downloader {
  import opened Base
  import opened Mime
  import Seqs
  import Legacy

  /** ReceivedDateTerm(GE, fromTime): received at or after a moment, in epoch seconds. */
  datatype SearchTerm = ReceivedOnOrAfter(since: int)

  /** ReceivedDateTerm.match: a message without a received date never matches. */
  predicate TermMatches(term: SearchTerm, m: Message)
    ensures m.receivedDate.None? ==> !TermMatches(term, m)
    ensures m.receivedDate.Some? ==> (TermMatches(term, m) <==> m.receivedDate.value >= term.since)
  {
    m.receivedDate.Some? && m.receivedDate.value >= term.since
  }

  /** The range of a Java long. */
  predicate FitsLong(x: int) {
    -0x8000_0000_0000_0000 <= x < 0x8000_0000_0000_0000
  }

  /** Instant.MIN and Instant.MAX, in epoch seconds. */
  const InstantMinSecond := -31557014167219200
  const InstantMaxSecond := 31556889864403199

  /** The cutoffs buildFilter accepts: those whose milliseconds still fit in a long. */
  const MinCutoff := -9223372036854775
  const MaxCutoff := 9223372036854775

  /** buildFilter: rejects null; Instant.ofEpochSecond rejects seconds past Instant's range;
      Date.from rejects an instant whose milliseconds overflow a long; otherwise the term
      selects what was received at or after `fromTime`. */
  function BuildFilter(fromTime: Option<int>): (r: Result<SearchTerm>)
    requires fromTime.Some? ==> FitsLong(fromTime.value)
    ensures r.Success? <==> fromTime.Some? && MinCutoff <= fromTime.value <= MaxCutoff
    ensures fromTime.None? ==> r == Failure(NullPointer("fromTime"))
    ensures fromTime.Some? && !(InstantMinSecond <= fromTime.value <= InstantMaxSecond) ==>
      r == Failure(DateTime("Instant exceeds minimum or maximum instant"))
    ensures fromTime.Some? && InstantMinSecond <= fromTime.value <= InstantMaxSecond && r.Failure? ==>
      r == Failure(IllegalArgument("java.lang.ArithmeticException: long overflow"))
    ensures r.Success? ==> forall m: Message :: TermMatches(r.value, m) <==>
      m.receivedDate.Some? && m.receivedDate.value >= fromTime.value
  {
    if fromTime.None? then Failure(NullPointer("fromTime"))
    else if !(InstantMinSecond <= fromTime.value <= InstantMaxSecond) then
      Failure(DateTime("Instant exceeds minimum or maximum instant"))
    else if !FitsLong(fromTime.value * 1000) then
      Failure(IllegalArgument("java.lang.ArithmeticException: long overflow"))
    else Success(ReceivedOnOrAfter(fromTime.value))
  }

  /** Folder.search: the matching messages, in folder order. */
  function Search(folder: seq<Message>, term: SearchTerm): (r: seq<Message>)
    ensures forall m :: m in r <==> m in folder && TermMatches(term, m)
  {
    Seqs.Filter(folder, m => TermMatches(term, m))
  }

  /** The query choice in download: the whole folder, or the date search, which fails
      where buildFilter does. */
  function SelectMessages(folder: seq<Message>, fromTime: Option<int>): (r: Result<seq<Message>>)
    requires fromTime.Some? ==> FitsLong(fromTime.value)
    ensures fromTime.None? ==> r == Success(folder)
    ensures fromTime.Some? && BuildFilter(fromTime).Failure? ==> r == Failure(BuildFilter(fromTime).error)
    ensures fromTime.Some? && BuildFilter(fromTime).Success? ==> r.Success? && forall m :: m in r.value <==>
      m in folder && m.receivedDate.Some? && m.receivedDate.value >= fromTime.value
  {
    if fromTime.None? then Success(folder)
    else
      var filter :- BuildFilter(fromTime);
      Success(Search(folder, filter))
  }

  /** The date search keeps folder order: searching a split folder searches both halves,
      and either all three searches fail alike or none does. */
  lemma SearchKeepsOrder(a: seq<Message>, b: seq<Message>, t: int)
    requires FitsLong(t)
    ensures var whole, left, right := SelectMessages(a + b, Some(t)), SelectMessages(a, Some(t)),
      SelectMessages(b, Some(t));
      && whole.Success? == left.Success? == right.Success?
      && (whole.Success? ==> whole.value == left.value + right.value)
  {
    Seqs.FilterAppend(a, b, m => TermMatches(ReceivedOnOrAfter(t), m));
  }

  /** An accepted cutoff no later than every received date selects the whole folder. */
  lemma EarlyCutoffSelectsAll(folder: seq<Message>, t: int)
    requires MinCutoff <= t <= MaxCutoff
    requires forall m :: m in folder ==> m.receivedDate.Some? && m.receivedDate.value >= t
    ensures SelectMessages(folder, Some(t)) == Success(folder)
  {
    Seqs.FilterAll(folder, m => TermMatches(ReceivedOnOrAfter(t), m));
  }

  /** download on the messages of the opened folder: buildFilter's exception, or the
      per-message loop over the selected messages. */
  method Download(folder: seq<Message>, fromTime: Option<int>, codecs: Codecs)
    returns (r: Result<seq<Legacy.LegacyMsgInfo>>)
    requires fromTime.Some? ==> FitsLong(fromTime.value)
    ensures var selected := SelectMessages(folder, fromTime);
      && (selected.Failure? ==> r == Failure(selected.error))
      && (selected.Success? ==>
            var all := Legacy.DownloadAll(selected.value, codecs);
            && (r.Success? <==> all.Success?)
            && (r.Failure? ==> r.error == all.error)
            && (r.Success? ==>
                  && |r.value| == |selected.value|
                  && (forall i :: 0 <= i < |r.value| ==> r.value[i].View() == all.value[i])
                  && (forall i :: 0 <= i < |r.value| ==> fresh(r.value[i]))
                  && (forall i, j :: 0 <= i < j < |r.value| ==> r.value[i] != r.value[j])))
  {
    var messages: seq<Message>;
    if fromTime.None? {
      messages := folder;
    } else {
      var filter := BuildFilter(fromTime);
      if filter.Failure? {
        return Failure(filter.error);
      }
      messages := Search(folder, filter.value);
    }
    r := Legacy.UnpackMessages(messages, codecs);
  }
}
