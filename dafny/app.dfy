/** The command-line application: argument check, exit-code mapping, the usage text and the
    download of unread messages. */
module App {
  import opened Base
  import opened Mime
  import Seqs
  import Legacy

  /** The four fields the constructor fills. */
  datatype AppConfig = AppConfig(host: string, user: string, password: string, folder: string)

  const TooFew := "Too few arguments"
  const TooMany := "Too many arguments"

  /** The constructor: exactly four arguments, taken in order. */
  function NewApp(args: seq<string>): (r: Result<AppConfig>)
    ensures r.Success? <==> |args| == 4
    ensures |args| < 4 ==> r == Failure(CmdLine(TooFew))
    ensures |args| > 4 ==> r == Failure(CmdLine(TooMany))
    ensures r.Success? ==> [r.value.host, r.value.user, r.value.password, r.value.folder] == args
  {
    if |args| < 4 then Failure(CmdLine(TooFew))
    else if |args| > 4 then Failure(CmdLine(TooMany))
    else Success(AppConfig(args[0], args[1], args[2], args[3]))
  }

  /** Construction inverts the argument list: every configuration has exactly one. */
  lemma NewAppInverse(c: AppConfig)
    ensures NewApp([c.host, c.user, c.password, c.folder]) == Success(c)
  {
  }

  const UsageLine := "Usage: mobi.emmons.dmarc_stats.App <hostname> <user> <password> <folder>\n\n"

  /** What usage prints: a blank line, the message and a blank line when there is one, then
      the usage line. */
  function Usage(message: Option<string>): (out: string)
    ensures |out| > |UsageLine| && out[0] == '\n' && out[|out| - |UsageLine|..] == UsageLine
  {
    if message.Some? && message.value != [] then "\n" + message.value + "\n\n" + UsageLine
    else "\n" + UsageLine
  }

  /** The message appears, right after the leading blank line, exactly when it is non-null and
      non-empty; otherwise nothing but the usage line follows. */
  lemma UsageGuard(message: Option<string>)
    ensures message.Some? && message.value != [] ==>
      Usage(message)[1..1 + |message.value|] == message.value
    ensures (message.None? || message.value == []) <==> Usage(message) == "\n" + UsageLine
  {
    if message.Some? && message.value != [] {
      var out := Usage(message);
      assert out == "\n" + message.value + ("\n\n" + UsageLine);
      assert |out| > 1 + |UsageLine|;
    }
  }

  /** How main ends: the System.exit status (0 when it returns normally) and the usage text
      printed, if any. */
  datatype Termination = Termination(status: int, usage: Option<string>)

  /** main: construction, then `run`; a CmdLineException prints usage and exits with -2, any
      other throwable exits with -1. */
  function Main(args: seq<string>, run: AppConfig -> Outcome): (t: Termination)
    ensures t.status in {0, -1, -2}
    ensures t.status == 0 <==> NewApp(args).Success? && run(NewApp(args).value).Pass?
    ensures t.usage.Some? <==> t.status == -2
  {
    var thrown: Option<Exception> :=
      if NewApp(args).Failure? then Some(NewApp(args).error)
      else if run(NewApp(args).value).Fail? then Some(run(NewApp(args).value).error)
      else None;
    match thrown
    case None => Termination(0, None)
    case Some(CmdLine(message)) => Termination(-2, Some(Usage(Some(message))))
    case Some(_) => Termination(-1, None)
  }

  /** A wrong argument count never runs anything: it prints usage with the reason and exits -2. */
  lemma ArityErrorExit(args: seq<string>, run: AppConfig -> Outcome)
    requires |args| != 4
    ensures Main(args, run)
         == Termination(-2, Some(Usage(Some(if |args| < 4 then TooFew else TooMany))))
  {
  }

  /** With four arguments, a failure of the run other than a command-line error exits -1. */
  lemma RunFailureExit(args: seq<string>, run: AppConfig -> Outcome)
    requires |args| == 4
    requires run(AppConfig(args[0], args[1], args[2], args[3])).Fail?
    requires !run(AppConfig(args[0], args[1], args[2], args[3])).error.CmdLine?
    ensures Main(args, run) == Termination(-1, None)
  {
  }

  /** The folder search of downloadMsgInfo: messages without the SEEN flag. */
  predicate Unseen(m: Message)
    ensures Unseen(m) <==> !m.seen
  {
    !m.seen
  }

  function UnseenMessages(folder: seq<Message>): (r: seq<Message>)
    ensures forall m :: m in r <==> m in folder && !m.seen
  {
    Seqs.Filter(folder, Unseen)
  }

  /** downloadMsgInfo on the messages of the opened folder: the unseen ones, in folder order,
      each becoming one MsgInfo. */
  method DownloadMsgInfo(folder: seq<Message>, codecs: Codecs)
    returns (r: Result<seq<Legacy.LegacyMsgInfo>>)
    ensures var all := Legacy.DownloadAll(UnseenMessages(folder), codecs);
      && (r.Success? <==> all.Success?)
      && (r.Failure? ==> r.error == all.error)
      && (r.Success? ==>
            && |r.value| == |UnseenMessages(folder)|
            && (forall i :: 0 <= i < |r.value| ==> r.value[i].View() == all.value[i])
            && (forall i :: 0 <= i < |r.value| ==> fresh(r.value[i]))
            && (forall i, j :: 0 <= i < j < |r.value| ==> r.value[i] != r.value[j]))
  {
    r := Legacy.UnpackMessages(UnseenMessages(folder), codecs);
  }
}
