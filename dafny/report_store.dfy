/** DmarcReportStore: a directory of stored DMARC reports, topped up from the mailbox. */
module ReportStore {
  import opened Base
  import opened JavaString
  import Util
  import Seqs

  /** A parsed aggregate report, reduced to what the store uses: its id and the end of its
      date range (epoch seconds). */
  datatype Report = Report(reportId: string, end: int)

  /** A directory entry: a regular file that parses as a report, one that does not, or a
      sub-directory. */
  datatype FileEntry = ReportFile(report: Report) | UnparsableFile | SubDirectory

  /** What the storage path is on disk before the store is created. */
  datatype PathState = Missing | RegularFile | Directory(entries: map<string, FileEntry>)

  // ---------------------------------------------------------------------------------------
  // Constructor validation

  datatype StoreConfig = StoreConfig(storageDir: string, emailHost: string, emailUser: string,
                                     emailPassword: string, emailFolder: string)

  /** The field checks of the constructor, in source order: the first failing one throws. */
  function ValidateConfig(storageDir: Option<string>, emailHost: Option<string>,
                          emailUser: Option<string>, emailPassword: Option<string>,
                          emailFolder: Option<string>): (r: Result<StoreConfig>)
    ensures r.Success? <==>
      storageDir.Some? && Util.IsNonBlank(emailHost) && Util.IsNonBlank(emailUser)
      && Util.IsNonBlank(emailPassword) && Util.IsNonBlank(emailFolder)
    ensures storageDir.None? ==> r == Failure(NullPointer("storageDir"))
    ensures storageDir.Some? && !Util.IsNonBlank(emailHost) ==>
      r == Failure(IllegalArgument(Util.BlankMessage("emailHost")))
    ensures storageDir.Some? && Util.IsNonBlank(emailHost) && !Util.IsNonBlank(emailUser) ==>
      r == Failure(IllegalArgument(Util.BlankMessage("emailUser")))
    ensures (storageDir.Some? && Util.IsNonBlank(emailHost) && Util.IsNonBlank(emailUser)
             && !Util.IsNonBlank(emailPassword)) ==>
      r == Failure(IllegalArgument(Util.BlankMessage("emailPassword")))
    ensures (storageDir.Some? && Util.IsNonBlank(emailHost) && Util.IsNonBlank(emailUser)
             && Util.IsNonBlank(emailPassword) && !Util.IsNonBlank(emailFolder)) ==>
      r == Failure(IllegalArgument(Util.BlankMessage("emailFolder")))
    ensures r.Failure? ==> r.error.NullPointer? || r.error.IllegalArgument?
    ensures r.Success? ==> r.value == StoreConfig(storageDir.value, emailHost.value,
      emailUser.value, emailPassword.value, emailFolder.value)
  {
    if storageDir.None? then Failure(NullPointer("storageDir"))
    else
      var host :- Util.RequireNonBlank(emailHost, "emailHost");
      var user :- Util.RequireNonBlank(emailUser, "emailUser");
      var password :- Util.RequireNonBlank(emailPassword, "emailPassword");
      var folder :- Util.RequireNonBlank(emailFolder, "emailFolder");
      Success(StoreConfig(storageDir.value, host, user, password, folder))
  }

  /** A blank credential is reported under its own parameter name, after the earlier ones. */
  lemma BlankFolderReported(dir: string, host: string, user: string, password: string)
    requires !IsBlank(host) && !IsBlank(user) && !IsBlank(password)
    ensures ValidateConfig(Some(dir), Some(host), Some(user), Some(password), Some(" "))
         == Failure(IllegalArgument(Util.BlankMessage("emailFolder")))
  {
    assert IsWhitespace(' ');
    assert IsBlank(" ");
  }

  // ---------------------------------------------------------------------------------------
  // File names

  const Prefix := "dmarc-"
  const Suffix := ".xml"

  /** writeReportToStorage's naming: "dmarc-%1$s.xml" with the report id. */
  function StorageFileName(reportId: string): (name: string)
    ensures |name| == |reportId| + 10
    ensures name[..6] == Prefix && name[|name| - 4..] == Suffix && name[6..|name| - 4] == reportId
  {
    Prefix + reportId + Suffix
  }

  /** Distinct ids get distinct files; equal ids share one. */
  lemma StorageFileNameInjective(a: string, b: string)
    ensures StorageFileName(a) == StorageFileName(b) <==> a == b
  {
    if StorageFileName(a) == StorageFileName(b) {
      var n := StorageFileName(a);
      assert a == n[6..|n| - 4];
    }
  }

  /** The glob "dmarc-*.xml": the prefix, the suffix, and between them anything without a
      name separator ('*' does not cross directory boundaries). */
  predicate GlobMatches(path: string)
    ensures GlobMatches(path) ==> |path| >= 10 && path == StorageFileName(path[6..|path| - 4])
  {
    && |path| >= 10
    && path[..6] == Prefix
    && path[|path| - 4..] == Suffix
    && '/' !in path[6..|path| - 4]
  }

  /** The names the store writes are the names the glob accepts, for ids without a separator. */
  lemma StorageFileNameMatchesGlob(reportId: string)
    ensures GlobMatches(StorageFileName(reportId)) <==> '/' !in reportId
  {
  }

  /** Where Files.find reports an entry of the storage directory: `dir` resolved with `name`. */
  function FilePath(dir: string, name: string): (path: string)
    ensures dir == [] ==> path == name
    ensures dir != [] ==>
      |path| == |dir| + 1 + |name| && path[..|dir|] == dir && path[|dir|] == '/' && path[|dir| + 1..] == name
  {
    if dir == [] then name else dir + "/" + name
  }

  // ---------------------------------------------------------------------------------------
  // Loading

  /** parseReport over a list of regular files: all or nothing, in list order. */
  function ParseAll(files: map<string, FileEntry>, names: seq<string>): (r: Result<seq<Report>>)
    requires forall n :: n in names ==> n in files
    ensures r.Success? <==> forall i :: 0 <= i < |names| ==> files[names[i]].ReportFile?
    ensures r.Success? ==>
      && |r.value| == |names|
      && forall i :: 0 <= i < |names| ==> r.value[i] == files[names[i]].report
    ensures r.Failure? ==> r.error == IllegalState("parseReport")
  {
    if names == [] then Success([])
    else
      var k := |names| - 1;
      var init :- ParseAll(files, names[..k]);
      assert forall i :: 0 <= i < k ==> names[..k][i] == names[i];
      match files[names[k]]
      case ReportFile(report) => Success(init + [report])
      case _ => Failure(IllegalState("parseReport"))
  }

  /** The find predicate: a regular file whose name passes the glob. */
  predicate Selected(files: map<string, FileEntry>, name: string)
    ensures Selected(files, name) ==>
      name in files && |name| >= 10 && name == StorageFileName(name[6..|name| - 4])
    ensures name in files && files[name].SubDirectory? ==> !Selected(files, name)
  {
    name in files && !files[name].SubDirectory? && GlobMatches(name)
  }

  /** The names Files.find reports, in the order in which the directory lists its entries
      (the file system decides that order). */
  function SelectedNames(files: map<string, FileEntry>, order: seq<string>): (names: seq<string>)
    ensures forall n :: n in names <==> n in order && Selected(files, n)
  {
    Seqs.Filter(order, n => Selected(files, n))
  }

  /** getDownloadedReports with the glob applied to the file name. */
  function Load(files: map<string, FileEntry>, order: seq<string>): (r: Result<seq<Report>>)
    ensures r.Failure? ==> r.error == IllegalState("parseReport")
  {
    ParseAll(files, SelectedNames(files, order))
  }

  /** Loading parses exactly the matching regular files: it fails iff one of them does not
      parse, and otherwise yields the report of each of them, and nothing else. */
  lemma LoadSpec(files: map<string, FileEntry>, order: seq<string>)
    ensures Load(files, order).Success? <==>
      forall n :: n in order && Selected(files, n) ==> files[n].ReportFile?
    ensures Load(files, order).Success? ==> forall r :: r in Load(files, order).value <==>
      exists n :: n in order && Selected(files, n) && files[n] == ReportFile(r)
  {
    var names := SelectedNames(files, order);
    var loaded := Load(files, order);
    assert loaded == ParseAll(files, names);
    assert forall i :: 0 <= i < |names| ==> names[i] in names;
    assert forall n :: n in names ==> Selected(files, n);
    assert forall n :: n in names ==> n in files;
    if loaded.Failure? {
      var i :| 0 <= i < |names| && !files[names[i]].ReportFile?;
      assert names[i] in names;
    } else {
      forall r
        ensures r in loaded.value <==> exists n :: n in order && Selected(files, n) && files[n] == ReportFile(r)
      {
        if r in loaded.value {
          var i :| 0 <= i < |loaded.value| && loaded.value[i] == r;
          assert names[i] in names;
        }
        if n :| n in order && Selected(files, n) && files[n] == ReportFile(r) {
          assert n in names;
          var i :| 0 <= i < |names| && names[i] == n;
          assert loaded.value[i] == r;
        }
      }
    }
  }

  /** As written: the glob is applied to the whole path Files.find produces. */
  predicate SelectedAsWritten(dir: string, files: map<string, FileEntry>, name: string)
    ensures dir == [] ==> (SelectedAsWritten(dir, files, name) <==> Selected(files, name))
    ensures dir != [] ==> !SelectedAsWritten(dir, files, name)
  {
    if dir != [] then PathNeverMatches(dir, name); false else
    name in files && !files[name].SubDirectory? && GlobMatches(FilePath(dir, name))
  }

  function SelectedNamesAsWritten(dir: string, files: map<string, FileEntry>, order: seq<string>)
    : (names: seq<string>)
    ensures forall n :: n in names <==> n in order && SelectedAsWritten(dir, files, n)
  {
    Seqs.Filter(order, n => SelectedAsWritten(dir, files, n))
  }

  function LoadAsWritten(dir: string, files: map<string, FileEntry>, order: seq<string>)
    : (r: Result<seq<Report>>)
    ensures r.Failure? ==> r.error == IllegalState("parseReport")
  {
    ParseAll(files, SelectedNamesAsWritten(dir, files, order))
  }

  /** With the current directory as storage directory the paths are bare file names, and the
      load as written is the corrected one. */
  lemma LoadAsWrittenInCurrentDirectory(files: map<string, FileEntry>, order: seq<string>)
    ensures LoadAsWritten([], files, order) == Load(files, order)
  {
    Seqs.FilterSame(order, n => SelectedAsWritten([], files, n), n => Selected(files, n));
  }

  /** A path with a separator after a non-empty directory never passes the glob. */
  lemma PathNeverMatches(dir: string, name: string)
    requires dir != []
    ensures !GlobMatches(dir + "/" + name)
  {
    var p := dir + "/" + name;
    assert p[|dir|] == '/';
  }

  /** The load as written finds nothing in any named storage directory, stored reports or not. */
  lemma LoadAsWrittenFindsNothing(dir: string, files: map<string, FileEntry>, order: seq<string>)
    requires dir != []
    ensures LoadAsWritten(dir, files, order) == Success([])
  {
    var names := SelectedNamesAsWritten(dir, files, order);
    Seqs.FirstIsMember(names);
  }

  /** A directory listing one matching report file loads that one report. */
  lemma LoadOfOne(files: map<string, FileEntry>, name: string)
    requires Selected(files, name) && files[name].ReportFile?
    ensures Load(files, [name]) == Success([files[name].report])
  {
    var single: seq<string> := [name];
    assert single[..0] == [];
    assert SelectedNames(files, single) == single;
    var parsed := ParseAll(files, single);
    assert parsed.Success? && |parsed.value| == 1 && parsed.value[0] == files[name].report;
    assert parsed.value == [files[name].report];
  }

  /** A concrete instance: one stored report, listed, and the load as written misses it. */
  lemma StoredReportIsMissed(report: Report)
    requires '/' !in report.reportId
    ensures var name := StorageFileName(report.reportId);
      && Load(map[name := ReportFile(report)], [name]) == Success([report])
      && LoadAsWritten("reports", map[name := ReportFile(report)], [name]) == Success([])
  {
    var name := StorageFileName(report.reportId);
    var files := map[name := ReportFile(report)];
    StorageFileNameMatchesGlob(report.reportId);
    LoadOfOne(files, name);
    LoadAsWrittenFindsNothing("reports", files, [name]);
  }

  // ---------------------------------------------------------------------------------------
  // The watermark

  /** getLatestReportTime: the largest end of a date range, or null for no reports. */
  function LatestReportTime(reports: seq<Report>): (latest: Option<int>)
    ensures latest.None? <==> reports == []
    ensures latest.Some? ==>
      && (forall r :: r in reports ==> r.end <= latest.value)
      && (exists r :: r in reports && r.end == latest.value)
  {
    if reports == [] then None
    else
      var k := |reports| - 1;
      var rest := LatestReportTime(reports[..k]);
      assert forall r :: r in reports <==> r in reports[..k] || r == reports[k];
      if rest.None? || rest.value < reports[k].end then Some(reports[k].end) else rest
  }

  /** The watermark does not depend on the order of the reports. */
  lemma LatestReportTimeOfAppend(a: seq<Report>, b: seq<Report>)
    ensures LatestReportTime(a + b) == LatestReportTime(b + a)
  {
    var x, y := LatestReportTime(a + b), LatestReportTime(b + a);
    assert forall r :: r in a + b <==> r in b + a;
    if x.Some? && y.Some? {
      var rx :| rx in a + b && rx.end == x.value;
      var ry :| ry in b + a && ry.end == y.value;
      assert rx in b + a && ry in a + b;
    }
  }

  // ---------------------------------------------------------------------------------------
  // Writing

  /** The directory after writing `reports` in order: each one under its storage name. */
  function WriteAll(files: map<string, FileEntry>, reports: seq<Report>): (w: map<string, FileEntry>)
    ensures forall n :: n in w <==> n in files || exists r :: r in reports && n == StorageFileName(r.reportId)
  {
    if reports == [] then files
    else
      var k := |reports| - 1;
      assert forall r :: r in reports <==> r in reports[..k] || r == reports[k];
      WriteAll(files, reports[..k])[StorageFileName(reports[k].reportId) := ReportFile(reports[k])]
  }

  /** Writing one more report updates exactly its own file. */
  lemma WriteAllStep(files: map<string, FileEntry>, reports: seq<Report>, i: nat)
    requires i < |reports|
    ensures WriteAll(files, reports[..i + 1])
         == WriteAll(files, reports[..i])[StorageFileName(reports[i].reportId) := ReportFile(reports[i])]
  {
    assert reports[..i + 1][..i] == reports[..i];
  }

  /** After the writes, a report's file holds the last report written with its id. */
  lemma {:induction false} LaterWriteWins(files: map<string, FileEntry>, reports: seq<Report>, i: nat)
    requires i < |reports|
    requires forall j :: i < j < |reports| ==> reports[j].reportId != reports[i].reportId
    ensures WriteAll(files, reports)[StorageFileName(reports[i].reportId)] == ReportFile(reports[i])
  {
    var k := |reports| - 1;
    var init := reports[..k];
    var name, last := StorageFileName(reports[i].reportId), StorageFileName(reports[k].reportId);
    var before := WriteAll(files, init);
    assert WriteAll(files, reports) == before[last := ReportFile(reports[k])];
    if i < k {
      StorageFileNameInjective(reports[k].reportId, reports[i].reportId);
      assert name != last;
      assert init[i] == reports[i];
      assert forall j :: i < j < |init| ==> init[j] == reports[j];
      LaterWriteWins(files, init, i);
      assert before[name] == ReportFile(reports[i]);
    }
  }

  /** Files no report is written to keep their contents. */
  lemma {:induction false} WriteAllKeepsOthers(files: map<string, FileEntry>, reports: seq<Report>, n: string)
    requires n in files
    requires forall r :: r in reports ==> StorageFileName(r.reportId) != n
    ensures WriteAll(files, reports)[n] == files[n]
  {
    if reports != [] {
      var k := |reports| - 1;
      assert reports[k] in reports;
      WriteAllKeepsOthers(files, reports[..k], n);
    }
  }

  // ---------------------------------------------------------------------------------------
  // Java lists

  /** A java.util.List as far as addAll cares: its items and whether it may be changed. */
  datatype JavaList = JavaList(items: seq<Report>, modifiable: bool)

  /** Stream.toList: an unmodifiable list. */
  function StreamToList(items: seq<Report>): (l: JavaList)
    ensures l.items == items && !l.modifiable
  {
    JavaList(items, false)
  }

  /** List.addAll: appends, or throws on an unmodifiable list (even when `more` is empty). */
  function AddAll(l: JavaList, more: seq<Report>): (r: Result<JavaList>)
    ensures r.Success? <==> l.modifiable
    ensures r.Success? ==> r.value.items == l.items + more && r.value.modifiable
    ensures r.Failure? ==> r.error == UnsupportedOperation
  {
    if l.modifiable then Success(JavaList(l.items + more, true)) else Failure(UnsupportedOperation)
  }

  /** The append of getAllReports as written, on the list getDownloadedReports returns. */
  lemma MergeAsWrittenThrows(stored: seq<Report>, newReports: seq<Report>)
    ensures AddAll(StreamToList(stored), newReports) == Failure(UnsupportedOperation)
    ensures AddAll(JavaList(stored, true), newReports).value.items == stored + newReports
  {
  }

  /** The directory listing order: every entry exactly once. */
  predicate IsListing(order: seq<string>, files: map<string, FileEntry>) {
    && (forall n :: n in order ==> n in files)
    && (forall n :: n in files ==> n in order)
    && (forall i, j :: 0 <= i < j < |order| ==> order[i] != order[j])
  }

  // ---------------------------------------------------------------------------------------
  // The store

  class DmarcReportStore {
    const config: StoreConfig
    /** The entries of the storage directory. */
    var files: map<string, FileEntry>

    constructor Init(config: StoreConfig, files: map<string, FileEntry>)
      ensures this.config == config && this.files == files
    {
      this.config, this.files := config, files;
    }

    /** The constructor: validation, then the storage directory is created when missing and
        rejected when it is something else. */
    static method Open(storageDir: Option<string>, onDisk: PathState, emailHost: Option<string>,
                       emailUser: Option<string>, emailPassword: Option<string>,
                       emailFolder: Option<string>) returns (r: Result<DmarcReportStore>)
      ensures var v := ValidateConfig(storageDir, emailHost, emailUser, emailPassword, emailFolder);
        && (r.Success? <==> v.Success? && !onDisk.RegularFile?)
        && (v.Failure? ==> r == Failure(v.error))
        && (v.Success? && onDisk.RegularFile? ==>
              r == Failure(IllegalArgument("storageDir must be a directory")))
        && (r.Success? ==>
              && fresh(r.value) && r.value.config == v.value
              && r.value.files == (if onDisk.Missing? then map[] else onDisk.entries))
    {
      var v := ValidateConfig(storageDir, emailHost, emailUser, emailPassword, emailFolder);
      if v.Failure? {
        return Failure(v.error);
      }
      var files: map<string, FileEntry>;
      match onDisk {
        case Missing =>
          files := map[];  // mkdirs
        case RegularFile =>
          return Failure(IllegalArgument("storageDir must be a directory"));
        case Directory(entries) =>
          files := entries;
      }
      var store := new DmarcReportStore.Init(v.value, files);
      return Success(store);
    }

    /** writeReportToStorage: the report replaces whatever its file held. */
    method WriteReportToStorage(report: Report)
      modifies this
      ensures files == old(files)[StorageFileName(report.reportId) := ReportFile(report)]
    {
      files := files[StorageFileName(report.reportId) := ReportFile(report)];
    }

    /** getAllReports with the corrected load and a modifiable result list. `download` stands for
        downloadReportsAfter: the reports in the mailbox after a watermark (null: all of them). */
    method GetAllReports(updateWithLatestReports: bool, order: seq<string>,
                         download: Option<int> -> Result<seq<Report>>)
      returns (r: Result<seq<Report>>)
      requires IsListing(order, files)
      modifies this
      ensures var loaded := Load(old(files), order);
        && (!updateWithLatestReports ==> r == loaded && files == old(files))
        && (updateWithLatestReports && loaded.Failure? ==> r == loaded && files == old(files))
        && (updateWithLatestReports && loaded.Success? ==>
              var fetched := download(LatestReportTime(loaded.value));
              && (fetched.Failure? ==> r == Failure(fetched.error) && files == old(files))
              && (fetched.Success? ==>
                    && r == Success(loaded.value + fetched.value)
                    && files == WriteAll(old(files), fetched.value)))
    {
      var stored := Load(files, order);
      if stored.Failure? || !updateWithLatestReports {
        return stored;
      }
      var reports := JavaList(stored.value, true);  // a modifiable copy
      var latestReportTime := LatestReportTime(stored.value);
      var newReports := download(latestReportTime);
      if newReports.Failure? {
        return Failure(newReports.error);
      }
      WriteReports(newReports.value);
      var merged := AddAll(reports, newReports.value);
      return Success(merged.value.items);
    }

    /** getAllReports as written: the glob is matched on whole paths, and addAll is called on the
        unmodifiable list of the load, after the new reports have been written. */
    method GetAllReportsAsWritten(updateWithLatestReports: bool, order: seq<string>,
                                  download: Option<int> -> Result<seq<Report>>)
      returns (r: Result<seq<Report>>)
      requires IsListing(order, files)
      modifies this
      ensures var loaded := LoadAsWritten(config.storageDir, old(files), order);
        && (!updateWithLatestReports ==> r == loaded && files == old(files))
        && (updateWithLatestReports && loaded.Failure? ==> r == loaded && files == old(files))
        && (updateWithLatestReports && loaded.Success? ==>
              var fetched := download(LatestReportTime(loaded.value));
              && (fetched.Failure? ==> r == Failure(fetched.error) && files == old(files))
              && (fetched.Success? ==>
                    && r == Failure(UnsupportedOperation)
                    && files == WriteAll(old(files), fetched.value)))
    {
      var stored := LoadAsWritten(config.storageDir, files, order);
      if stored.Failure? || !updateWithLatestReports {
        return stored;
      }
      var reports := StreamToList(stored.value);
      var latestReportTime := LatestReportTime(stored.value);
      var newReports := download(latestReportTime);
      if newReports.Failure? {
        return Failure(newReports.error);
      }
      WriteReports(newReports.value);
      var merged := AddAll(reports, newReports.value);
      return Failure(merged.error);
    }

    /** newReports.forEach(this::writeReportToStorage). */
    method WriteReports(reports: seq<Report>)
      modifies this
      ensures files == WriteAll(old(files), reports)
    {
      var i := 0;
      while i < |reports|
        invariant 0 <= i <= |reports|
        invariant files == WriteAll(old(files), reports[..i])
      {
        WriteAllStep(old(files), reports, i);
        WriteReportToStorage(reports[i]);
        i := i + 1;
      }
      assert reports[..|reports|] == reports;
    }
  }
}
