/** Checking the fingerprints recorded in a lock file against the service and its proto files. */
module LockVerify {
  import opened ConfigMerge

  datatype ProtoFile = ProtoFile(path: Option<string>, content: string)

  datatype Computed = Fingerprint(text: string) | Failure(reason: string)

  datatype Mismatch = Mismatch(path: string, expected: string, actual: string)

  datatype Status = Passed(matched: string) | Failed(mismatches: seq<Mismatch>) | NoLockFile

  /** The lock file on disk: absent, or what reading and parsing it gave. */
  datatype Lock = Absent | Unreadable(reason: string) | Parsed(document: Value)

  datatype Result = Ok(status: Status) | Err(reason: string)

  const SERVICE_PREFIX := "service_semantic:"

  // ---- what the lock file says ------------------------------------------------------------------

  function Get(v: Value, key: string): Option<Value> {
    if v.Table? && key in v.entries then Some(v.entries[key]) else None
  }

  function TextAt(v: Value, key: string): Option<string> {
    var found := Get(v, key);
    if found.Some? && found.value.String? then Some(found.value.text) else None
  }

  /** The elements of an array entry; a missing or differently typed entry has none. */
  function ItemsAt(v: Value, key: string): seq<Value> {
    var found := Get(v, key);
    if found.Some? && found.value.Array? then found.value.items else []
  }

  /** A file entry takes part only when both its texts are there. */
  predicate IsRecord(file: Value) { TextAt(file, "path").Some? && TextAt(file, "fingerprint").Some? }

  datatype Record = Record(path: string, expected: string)

  function Records(files: seq<Value>): seq<Record> {
    if files == [] then []
    else
      var last := files[|files| - 1];
      Records(files[..|files| - 1]) +
      if IsRecord(last) then [Record(TextAt(last, "path").value, TextAt(last, "fingerprint").value)] else []
  }

  function AllRecords(deps: seq<Value>): seq<Record> {
    if deps == [] then []
    else AllRecords(deps[..|deps| - 1]) + Records(ItemsAt(deps[|deps| - 1], "files"))
  }

  predicate NamesService(dep: Value) {
    var fp := TextAt(dep, "fingerprint");
    fp.Some? && SERVICE_PREFIX <= fp.value
  }

  /** The first service fingerprint among the dependencies. */
  function ServiceOf(deps: seq<Value>): Option<string> {
    if deps == [] then None
    else if NamesService(deps[0]) then TextAt(deps[0], "fingerprint")
    else ServiceOf(deps[1..])
  }

  // ---- what the files say -----------------------------------------------------------------------

  /** `path` is the first file's of that name. */
  predicate FirstAt(protos: seq<ProtoFile>, path: string, i: int) {
    0 <= i < |protos| && protos[i].path == Some(path) && forall j | 0 <= j < i :: protos[j].path != Some(path)
  }

  predicate Missing(protos: seq<ProtoFile>, path: string) {
    forall j | 0 <= j < |protos| :: protos[j].path != Some(path)
  }

  /** A record holds when the first file of its path has its fingerprint, which is not empty. */
  ghost predicate Holds(r: Record, protos: seq<ProtoFile>, compute: string -> Computed) {
    r.expected != "" && exists i :: FirstAt(protos, r.path, i) && compute(protos[i].content) == Fingerprint(r.expected)
  }

  function Find(protos: seq<ProtoFile>, path: string): (found: Option<ProtoFile>)
    ensures found.None? <==> Missing(protos, path)
    ensures found.Some? ==> exists i :: FirstAt(protos, path, i) && protos[i] == found.value
  {
    if protos == [] then None
    else if protos[0].path == Some(path) then
      assert FirstAt(protos, path, 0);
      Some(protos[0])
    else
      var found := Find(protos[1..], path);
      assert found.Some? ==> exists i :: FirstAt(protos, path, i) && protos[i] == found.value by {
        if found.Some? {
          var i :| FirstAt(protos[1..], path, i) && protos[1..][i] == found.value;
          assert FirstAt(protos, path, i + 1);
        }
      }
      assert found.None? ==> Missing(protos, path) by {
        assert found.None? ==> forall j | 1 <= j < |protos| :: protos[j] == protos[1..][j - 1];
      }
      found
  }

  lemma FirstUnique(protos: seq<ProtoFile>, path: string, i: int, j: int)
    requires FirstAt(protos, path, i) && FirstAt(protos, path, j)
    ensures i == j
  {
  }

  // ---- the report -------------------------------------------------------------------------------

  function Explanation(r: Record, protos: seq<ProtoFile>, compute: string -> Computed): string {
    if r.expected == "" then "ERROR: Empty fingerprint in lock file"
    else
      var found := Find(protos, r.path);
      if found.None? then "ERROR: Proto file not found"
      else
        match compute(found.value.content)
        case Fingerprint(actual) => actual
        case Failure(reason) => "ERROR: " + reason
  }

  function Report(r: Record, protos: seq<ProtoFile>, compute: string -> Computed): seq<Mismatch> {
    var found := Find(protos, r.path);
    if r.expected != "" && found.Some? && compute(found.value.content) == Fingerprint(r.expected) then []
    else [Mismatch(r.path, r.expected, Explanation(r, protos, compute))]
  }

  function Reports(records: seq<Record>, protos: seq<ProtoFile>, compute: string -> Computed): seq<Mismatch> {
    if records == [] then []
    else Reports(records[..|records| - 1], protos, compute) + Report(records[|records| - 1], protos, compute)
  }

  function ServiceReport(service: Option<string>, current: string): seq<Mismatch> {
    if service.Some? && service.value != current then [Mismatch("SERVICE_FINGERPRINT", service.value, current)] else []
  }

  function Verdict(lock: Lock, current: string, protos: seq<ProtoFile>, compute: string -> Computed): Result {
    match lock
    case Absent => Ok(NoLockFile)
    case Unreadable(reason) => Err(reason)
    case Parsed(document) =>
      var deps := ItemsAt(document, "dependency");
      var all := Reports(AllRecords(deps), protos, compute) + ServiceReport(ServiceOf(deps), current);
      Ok(if all == [] then Passed("all_files_verified") else Failed(all))
  }

  // ---- the procedure ----------------------------------------------------------------------------

  lemma FindStep(protos: seq<ProtoFile>, path: string, i: nat)
    requires i < |protos|
    ensures Find(protos[i..], path) == if protos[i].path == Some(path) then Some(protos[i]) else Find(protos[i + 1..], path)
  {
    assert protos[i..][1..] == protos[i + 1..];
  }

  /** One record with both texts: the search for its file and the comparison. */
  method CheckRecord(r: Record, protos: seq<ProtoFile>, compute: string -> Computed) returns (found: seq<Mismatch>)
    ensures found == Report(r, protos, compute)
  {
    if r.expected == "" {
      return [Mismatch(r.path, r.expected, "ERROR: Empty fingerprint in lock file")];
    }
    found := [];
    var seen := false;
    assert protos[0..] == protos;
    for i := 0 to |protos|
      invariant found == [] && !seen
      invariant Find(protos[i..], r.path) == Find(protos, r.path)
    {
      FindStep(protos, r.path, i);
      if protos[i].path == Some(r.path) {
        match compute(protos[i].content) {
          case Fingerprint(actual) =>
            if actual != r.expected { found := [Mismatch(r.path, r.expected, actual)]; }
          case Failure(reason) =>
            found := [Mismatch(r.path, r.expected, "ERROR: " + reason)];
        }
        seen := true;
        break;
      }
    }
    if !seen {
      found := [Mismatch(r.path, r.expected, "ERROR: Proto file not found")];
    }
  }

  lemma {:induction false} ReportsConcat(a: seq<Record>, b: seq<Record>, protos: seq<ProtoFile>, compute: string -> Computed)
    ensures Reports(a + b, protos, compute) == Reports(a, protos, compute) + Reports(b, protos, compute)
  {
    hide Report;
    if b == [] {
      assert a + b == a;
    } else {
      assert (a + b)[..|a + b| - 1] == a + b[..|b| - 1];
      ReportsConcat(a, b[..|b| - 1], protos, compute);
    }
  }

  lemma OneReport(r: Record, protos: seq<ProtoFile>, compute: string -> Computed)
    ensures Reports([r], protos, compute) == Report(r, protos, compute)
  {
    assert Reports([r][..0], protos, compute) == [];
  }

  /** The files of one dependency, in order. */
  method CheckFiles(files: seq<Value>, protos: seq<ProtoFile>, compute: string -> Computed) returns (found: seq<Mismatch>)
    ensures found == Reports(Records(files), protos, compute)
  {
    hide Reports, Report, TextAt;
    found := [];
    assert Reports([], protos, compute) == [] by { NoReports(protos, compute); }
    for i := 0 to |files|
      invariant found == Reports(Records(files[..i]), protos, compute)
    {
      assert files[..i + 1][..i] == files[..i];
      var path, expected := TextAt(files[i], "path"), TextAt(files[i], "fingerprint");
      if path.None? || expected.None? {
        assert Records(files[..i + 1]) == Records(files[..i]);
        continue;
      }
      var r := Record(path.value, expected.value);
      var more := CheckRecord(r, protos, compute);
      found := found + more;
      OneReport(r, protos, compute);
      ReportsConcat(Records(files[..i]), [r], protos, compute);
    }
    assert files[..|files|] == files;
  }

  lemma NoReports(protos: seq<ProtoFile>, compute: string -> Computed)
    ensures Reports([], protos, compute) == []
  {
  }

  method CheckService(deps: seq<Value>, current: string) returns (found: seq<Mismatch>)
    ensures found == ServiceReport(ServiceOf(deps), current)
  {
    found := [];
    assert deps[0..] == deps;
    for i := 0 to |deps|
      invariant found == [] && ServiceOf(deps[i..]) == ServiceOf(deps)
    {
      assert deps[i..][1..] == deps[i + 1..];
      var fp := TextAt(deps[i], "fingerprint");
      if fp.Some? && SERVICE_PREFIX <= fp.value {
        if fp.value != current { found := [Mismatch("SERVICE_FINGERPRINT", fp.value, current)]; }
        break;
      }
    }
  }

  method VerifyAgainstLock(lock: Lock, current: string, protos: seq<ProtoFile>, compute: string -> Computed)
    returns (result: Result)
    ensures result == Verdict(lock, current, protos, compute)
  {
    if lock.Absent? { return Ok(NoLockFile); }
    if lock.Unreadable? { return Err(lock.reason); }
    hide ServiceReport, ServiceOf, Reports, Records, ItemsAt;
    var deps := ItemsAt(lock.document, "dependency");
    var service := CheckService(deps, current);
    var mismatches: seq<Mismatch> := [];
    NoReports(protos, compute);
    for i := 0 to |deps|
      invariant mismatches == Reports(AllRecords(deps[..i]), protos, compute)
    {
      assert deps[..i + 1][..i] == deps[..i];
      var files := ItemsAt(deps[i], "files");
      var more := CheckFiles(files, protos, compute);
      ReportsConcat(AllRecords(deps[..i]), Records(files), protos, compute);
      mismatches := mismatches + more;
    }
    assert deps[..|deps|] == deps;
    mismatches := mismatches + service;
    if mismatches == [] {
      result := Ok(Passed("all_files_verified"));
    } else {
      result := Ok(Failed(mismatches));
    }
  }

  // ---- what a verdict means ---------------------------------------------------------------------

  /** A record is reported exactly when it does not hold, once, under its own path. */
  lemma ReportExactly(r: Record, protos: seq<ProtoFile>, compute: string -> Computed)
    ensures Holds(r, protos, compute) ==> Report(r, protos, compute) == []
    ensures !Holds(r, protos, compute) ==>
              Report(r, protos, compute) == [Mismatch(r.path, r.expected, Explanation(r, protos, compute))]
  {
    var found := Find(protos, r.path);
    if found.Some? {
      var i :| FirstAt(protos, r.path, i) && protos[i] == found.value;
      if Holds(r, protos, compute) {
        var j :| FirstAt(protos, r.path, j) && compute(protos[j].content) == Fingerprint(r.expected);
        FirstUnique(protos, r.path, i, j);
      }
    }
  }

  /** The failing records, in lock order. */
  ghost function Failing(records: seq<Record>, protos: seq<ProtoFile>, compute: string -> Computed): seq<Record> {
    if records == [] then []
    else
      var last := records[|records| - 1];
      Failing(records[..|records| - 1], protos, compute) + if Holds(last, protos, compute) then [] else [last]
  }

  /** Mismatch `i` is about record `i`. */
  predicate Matches(ms: seq<Mismatch>, rs: seq<Record>, protos: seq<ProtoFile>, compute: string -> Computed) {
    |ms| == |rs| &&
    forall i | 0 <= i < |rs| :: ms[i] == Mismatch(rs[i].path, rs[i].expected, Explanation(rs[i], protos, compute))
  }

  lemma {:induction false} ReportsAreFailing(records: seq<Record>, protos: seq<ProtoFile>, compute: string -> Computed)
    ensures Matches(Reports(records, protos, compute), Failing(records, protos, compute), protos, compute)
  {
    if records != [] {
      hide Report, Holds, Explanation;
      ReportsAreFailing(records[..|records| - 1], protos, compute);
      ReportExactly(records[|records| - 1], protos, compute);
    }
  }

  /** The file is an entry with both texts, and these. */
  predicate Spells(file: Value, r: Record) {
    IsRecord(file) && r == Record(TextAt(file, "path").value, TextAt(file, "fingerprint").value)
  }

  ghost predicate RecordedIn(files: seq<Value>, r: Record) { exists f :: f in files && Spells(f, r) }

  /** Some dependency of the document has such an entry. */
  ghost predicate Recorded(deps: seq<Value>, r: Record) {
    exists d :: 0 <= d < |deps| && RecordedIn(ItemsAt(deps[d], "files"), r)
  }

  lemma {:induction false} RecordsComplete(files: seq<Value>, r: Record)
    ensures r in Records(files) <==> RecordedIn(files, r)
  {
    if files != [] {
      hide TextAt, RecordedIn;
      var front, last := files[..|files| - 1], files[|files| - 1];
      RecordsComplete(front, r);
      RecordedInStep(files, r);
    }
  }

  lemma RecordedInStep(files: seq<Value>, r: Record)
    requires files != []
    ensures RecordedIn(files, r) <==> RecordedIn(files[..|files| - 1], r) || Spells(files[|files| - 1], r)
  {
    hide Spells;
    assert files == files[..|files| - 1] + [files[|files| - 1]];
  }

  lemma RecordedStep(deps: seq<Value>, r: Record)
    requires deps != []
    ensures Recorded(deps, r) <==>
              Recorded(deps[..|deps| - 1], r) || RecordedIn(ItemsAt(deps[|deps| - 1], "files"), r)
  {
    hide RecordedIn, ItemsAt;
    var front, n := deps[..|deps| - 1], |deps| - 1;
    assert forall d | 0 <= d < n :: front[d] == deps[d];
  }

  /** Every record of the document and nothing else is looked at. */
  lemma {:induction false} AllRecordsComplete(deps: seq<Value>, r: Record)
    ensures r in AllRecords(deps) <==> Recorded(deps, r)
  {
    if deps != [] {
      hide Recorded, RecordedIn, ItemsAt, Records;
      AllRecordsComplete(deps[..|deps| - 1], r);
      RecordsComplete(ItemsAt(deps[|deps| - 1], "files"), r);
      RecordedStep(deps, r);
    }
  }

  lemma {:induction false} NothingFails(records: seq<Record>, protos: seq<ProtoFile>, compute: string -> Computed)
    ensures Failing(records, protos, compute) == [] <==> forall r | r in records :: Holds(r, protos, compute)
  {
    hide Holds;
    if records != [] {
      var front, last := records[..|records| - 1], records[|records| - 1];
      assert records == front + [last];
      NothingFails(front, protos, compute);
    }
  }

  /** The first dependency with a service fingerprint, if any, has the current one. */
  predicate ServiceHolds(deps: seq<Value>, current: string) {
    forall i | 0 <= i < |deps| :: (NamesService(deps[i]) && forall j | 0 <= j < i :: !NamesService(deps[j])) ==>
      TextAt(deps[i], "fingerprint") == Some(current)
  }

  lemma {:induction false} ServiceExactly(deps: seq<Value>, current: string)
    ensures ServiceReport(ServiceOf(deps), current) == [] <==> ServiceHolds(deps, current)
  {
    if deps != [] && !NamesService(deps[0]) {
      ServiceExactly(deps[1..], current);
      ServiceRest(deps, current);
    }
  }

  lemma ServiceRest(deps: seq<Value>, current: string)
    requires deps != [] && !NamesService(deps[0])
    ensures ServiceHolds(deps, current) <==> ServiceHolds(deps[1..], current)
  {
    hide NamesService, TextAt;
    var rest := deps[1..];
    if ServiceHolds(deps, current) {
      forall i | 0 <= i < |rest| && NamesService(rest[i]) && forall j | 0 <= j < i :: !NamesService(rest[j])
        ensures TextAt(rest[i], "fingerprint") == Some(current)
      {
        assert deps[i + 1] == rest[i];
        forall j | 0 <= j < i + 1 ensures !NamesService(deps[j]) {
          if j > 0 { assert deps[j] == rest[j - 1]; }
        }
      }
    }
    if ServiceHolds(rest, current) {
      forall i | 0 <= i < |deps| && NamesService(deps[i]) && forall j | 0 <= j < i :: !NamesService(deps[j])
        ensures TextAt(deps[i], "fingerprint") == Some(current)
      {
        assert deps[i] == rest[i - 1];
        forall j | 0 <= j < i - 1 ensures !NamesService(rest[j]) { assert rest[j] == deps[j + 1]; }
      }
    }
  }

  /** Verification passes exactly when the lock file parses, every record in it holds and the
      service fingerprint is the current one. */
  lemma PassedExactly(lock: Lock, current: string, protos: seq<ProtoFile>, compute: string -> Computed)
    ensures Verdict(lock, current, protos, compute) == Ok(Passed("all_files_verified")) <==>
            && lock.Parsed?
            && var deps := ItemsAt(lock.document, "dependency");
            && (forall r | Recorded(deps, r) :: Holds(r, protos, compute))
            && ServiceHolds(deps, current)
  {
    if lock.Parsed? {
      hide Holds, Recorded, ServiceHolds, Reports, Failing, AllRecords, ServiceReport, ItemsAt;
      var deps := ItemsAt(lock.document, "dependency");
      var records := AllRecords(deps);
      ServiceExactly(deps, current);
      ReportsAreFailing(records, protos, compute);
      NothingFails(records, protos, compute);
      forall r ensures r in records <==> Recorded(deps, r) { AllRecordsComplete(deps, r); }
    }
  }

  /** Otherwise the report lists every failing record once, in lock order, and then the service. */
  lemma FailedExactly(lock: Lock, current: string, protos: seq<ProtoFile>, compute: string -> Computed)
    requires lock.Parsed?
    ensures var deps := ItemsAt(lock.document, "dependency");
            var failing := Failing(AllRecords(deps), protos, compute);
            var status := Verdict(lock, current, protos, compute).status;
            && (status.Failed? <==> failing != [] || !ServiceHolds(deps, current))
            && (status.Failed? ==>
                  && |failing| <= |status.mismatches|
                  && Matches(status.mismatches[..|failing|], failing, protos, compute)
                  && status.mismatches[|failing|..] == ServiceReport(ServiceOf(deps), current))
  {
    hide ServiceHolds, Reports, Failing, AllRecords, ServiceReport, ItemsAt, ServiceOf, Explanation;
    var deps := ItemsAt(lock.document, "dependency");
    var records := AllRecords(deps);
    ServiceExactly(deps, current);
    ReportsAreFailing(records, protos, compute);
    var all := Reports(records, protos, compute) + ServiceReport(ServiceOf(deps), current);
    var n := |Failing(records, protos, compute)|;
    assert all[..n] == Reports(records, protos, compute);
    assert all[n..] == ServiceReport(ServiceOf(deps), current);
  }

  /** A computed fingerprint in the report is never the expected one. */
  lemma ExplanationDiffers(r: Record, protos: seq<ProtoFile>, compute: string -> Computed, i: int)
    requires FirstAt(protos, r.path, i) && compute(protos[i].content).Fingerprint? && r.expected != ""
    ensures Explanation(r, protos, compute) == compute(protos[i].content).text
    ensures !Holds(r, protos, compute) <==> Explanation(r, protos, compute) != r.expected
  {
    var found := Find(protos, r.path);
    assert found.Some?;
    var k :| FirstAt(protos, r.path, k) && protos[k] == found.value;
    FirstUnique(protos, r.path, i, k);
    ReportExactly(r, protos, compute);
  }

  /** A dependency names a service exactly when its fingerprint starts with these seventeen letters. */
  lemma NamesServiceMeans(dep: Value)
    ensures NamesService(dep) <==>
              TextAt(dep, "fingerprint").Some? && |TextAt(dep, "fingerprint").value| >= 17 &&
              TextAt(dep, "fingerprint").value[..17] == "service_semantic:"
  {
    assert |SERVICE_PREFIX| == 17;
  }

  /** The service's mismatch, if there is one: under a fixed name, what the first such dependency
      says, and what the service is. */
  lemma ServiceMismatch(deps: seq<Value>, current: string, i: nat)
    requires i < |deps| && NamesService(deps[i]) && forall j | 0 <= j < i :: !NamesService(deps[j])
    ensures var expected := TextAt(deps[i], "fingerprint").value;
            ServiceReport(ServiceOf(deps), current) ==
            if expected == current then [] else [Mismatch("SERVICE_FINGERPRINT", expected, current)]
    decreases i
  {
    if i > 0 {
      assert forall j | 0 <= j < i - 1 :: deps[1..][j] == deps[j + 1];
      ServiceMismatch(deps[1..], current, i - 1);
      assert !NamesService(deps[0]);
    }
  }

  // ---- a lock file in full --------------------------------------------------------------------------

  /** One dependency of a lock file: its own fingerprint and its files. */
  datatype Dependency = Dependency(fingerprint: Option<string>, files: seq<Record>)

  function FileTable(r: Record): Value { Table(map["path" := String(r.path), "fingerprint" := String(r.expected)]) }

  function FileTables(files: seq<Record>): seq<Value> { seq(|files|, i requires 0 <= i < |files| => FileTable(files[i])) }

  function DependencyTable(d: Dependency): Value {
    if d.fingerprint.None? then Table(map["files" := Array(FileTables(d.files))])
    else Table(map["fingerprint" := String(d.fingerprint.value), "files" := Array(FileTables(d.files))])
  }

  function DependencyTables(deps: seq<Dependency>): seq<Value> {
    seq(|deps|, i requires 0 <= i < |deps| => DependencyTable(deps[i]))
  }

  function LockDocument(deps: seq<Dependency>): Value { Table(map["dependency" := Array(DependencyTables(deps))]) }

  function FilesOf(deps: seq<Dependency>): seq<Record> {
    if deps == [] then [] else FilesOf(deps[..|deps| - 1]) + deps[|deps| - 1].files
  }

  lemma FileTableRead(r: Record)
    ensures IsRecord(FileTable(r))
    ensures TextAt(FileTable(r), "path") == Some(r.path) && TextAt(FileTable(r), "fingerprint") == Some(r.expected)
  {
  }

  lemma DependencyRead(d: Dependency)
    ensures ItemsAt(DependencyTable(d), "files") == FileTables(d.files)
    ensures TextAt(DependencyTable(d), "fingerprint") == d.fingerprint
  {
  }

  lemma {:induction false} FilesRead(files: seq<Record>)
    ensures Records(FileTables(files)) == files
    decreases |files|
  {
    hide TextAt, IsRecord, FileTable;
    if files != [] {
      var front, last := files[..|files| - 1], files[|files| - 1];
      FilesRead(front);
      assert FileTables(files)[..|files| - 1] == FileTables(front);
      FileTableRead(last);
      assert front + [last] == files;
    }
  }

  lemma {:induction false} DependenciesRead(deps: seq<Dependency>)
    ensures AllRecords(DependencyTables(deps)) == FilesOf(deps)
    decreases |deps|
  {
    hide ItemsAt, DependencyTable, Records;
    if deps != [] {
      var front, last := deps[..|deps| - 1], deps[|deps| - 1];
      DependenciesRead(front);
      assert DependencyTables(deps)[..|deps| - 1] == DependencyTables(front);
      DependencyRead(last);
      FilesRead(last.files);
    }
  }

  predicate IsService(d: Dependency) { d.fingerprint.Some? && "service_semantic:" <= d.fingerprint.value }

  /** A lock file written with these dependencies passes exactly when every file in it has the recorded
      fingerprint and the first service fingerprint is the current one. */
  lemma WrittenLockVerified(deps: seq<Dependency>, current: string, protos: seq<ProtoFile>, compute: string -> Computed)
    ensures Verdict(Parsed(LockDocument(deps)), current, protos, compute) == Ok(Passed("all_files_verified")) <==>
            && (forall r | r in FilesOf(deps) :: Holds(r, protos, compute))
            && (forall i | 0 <= i < |deps| && IsService(deps[i]) && (forall j | 0 <= j < i :: !IsService(deps[j])) ::
                  deps[i].fingerprint == Some(current))
  {
    var tables := DependencyTables(deps);
    DocumentRead(deps);
    DependenciesRead(deps);
    ServicesRead(deps, current);
    hide Holds, Reports, Failing, AllRecords, ServiceReport, ServiceHolds, FilesOf, ItemsAt, LockDocument, DependencyTables;
    ServiceExactly(tables, current);
    ReportsAreFailing(FilesOf(deps), protos, compute);
    NothingFails(FilesOf(deps), protos, compute);
  }

  lemma DocumentRead(deps: seq<Dependency>)
    ensures ItemsAt(LockDocument(deps), "dependency") == DependencyTables(deps)
  {
    hide DependencyTables;
  }

  lemma ServicesRead(deps: seq<Dependency>, current: string)
    ensures ServiceHolds(DependencyTables(deps), current) <==>
            forall i | 0 <= i < |deps| && IsService(deps[i]) && (forall j | 0 <= j < i :: !IsService(deps[j])) ::
              deps[i].fingerprint == Some(current)
  {
    hide TextAt, DependencyTable;
    var tables := DependencyTables(deps);
    forall i | 0 <= i < |deps|
      ensures NamesService(tables[i]) <==> IsService(deps[i])
      ensures TextAt(tables[i], "fingerprint") == deps[i].fingerprint
    {
      DependencyRead(deps[i]);
    }
    hide NamesService, IsService;
    forall i | 0 <= i < |deps|
      ensures (NamesService(tables[i]) && forall j | 0 <= j < i :: !NamesService(tables[j])) <==>
              (IsService(deps[i]) && forall j | 0 <= j < i :: !IsService(deps[j]))
    {
    }
  }
}
