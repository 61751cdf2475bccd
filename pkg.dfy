/**
 * The update-package record and its collection (src/pkg/mod.rs): the
 * platform tag, the record, the two stores it lives in (the package directory
 * `./pkgs` and the document collection `pkg`), the two lookups, `save`,
 * `del_file` and `remove`.
 */
module Pkg {
  import opened Wrappers
  import opened Lex

  const MAX_U32: int := 0xFFFF_FFFF

  /** Rust's `u32`. */
  type U32 = x: int | 0 <= x <= MAX_U32

  datatype Platform = Android | Ios | Full

  /** The value a platform is stored and filtered as: the variant's name (`format!("{:?}", value)`). */
  function PlatformTag(p: Platform): string
  {
    match p
    case Android => "Android"
    case Ios => "Ios"
    case Full => "Full"
  }

  /** Reading a platform back from its tag, as the derived deserialiser does. */
  function PlatformFromTag(tag: string): (r: Option<Platform>)
    ensures r.Some? ==> PlatformTag(r.value) == tag
    ensures r.None? <==> tag !in {"Android", "Ios", "Full"}
  {
    if tag == "Android" then Some(Android)
    else if tag == "Ios" then Some(Ios)
    else if tag == "Full" then Some(Full)
    else None
  }

  lemma PlatformTagRoundTrip(p: Platform)
    ensures PlatformFromTag(PlatformTag(p)) == Some(p)
  {
  }

  /** Distinct platforms have distinct tags, so filtering by tag is filtering by platform. */
  lemma PlatformTagInjective(p: Platform, q: Platform)
    ensures PlatformTag(p) == PlatformTag(q) <==> p == q
  {
  }

  /** One published package. `version` is the server-assigned sequence number. */
  datatype UpdatePkg = UpdatePkg(
    projectName: string,
    pkgFileName: Option<string>,
    pkgLink: Option<string>,
    appVersion: string,
    version: U32,
    mandatory: bool,
    updateLog: Option<string>,
    fullPkg: bool,
    platform: Platform)

  /** The directory `./pkgs`: whether it exists, and the names of the files in it. */
  class FileStore {
    var dirExists: bool
    var files: set<string>

    constructor (dirExists: bool, files: set<string>)
      ensures this.dirExists == dirExists && this.files == files
    {
      this.dirExists := dirExists;
      this.files := files;
    }

    /** `fs::create_dir_all`; `err` is the error the file system reports, if any. */
    method CreateDirAll(err: Option<string>) returns (r: Outcome<string>)
      modifies this
      ensures r.Pass? <==> err.None?
      ensures r.Fail? ==> r.error == err.value
      ensures dirExists == (old(dirExists) || err.None?)
      ensures files == old(files)
    {
      if err.Some? {
        return Fail(err.value);
      }
      dirExists := true;
      return Pass;
    }

    /** Moving the uploaded temporary file to `./pkgs/name` (replacing a file of that name). */
    method Persist(name: string, err: Option<string>) returns (r: Outcome<string>)
      modifies this
      ensures r.Pass? <==> err.None? && old(dirExists)
      ensures r.Fail? ==> r.error == if err.Some? then err.value else NoSuchFile
      ensures files == if r.Pass? then old(files) + {name} else old(files)
      ensures dirExists == old(dirExists)
    {
      if err.Some? {
        return Fail(err.value);
      }
      if !dirExists {
        return Fail(NoSuchFile);
      }
      files := files + {name};
      return Pass;
    }

    /** `fs::remove_file`: fails on a missing file or when the file system reports `err`. */
    method RemoveFile(name: string, err: Option<string>) returns (r: Outcome<string>)
      modifies this
      ensures r.Pass? <==> err.None? && name in old(files)
      ensures r.Fail? ==> r.error == if err.Some? then err.value else NoSuchFile
      ensures files == if r.Pass? then old(files) - {name} else old(files)
      ensures dirExists == old(dirExists)
    {
      if err.Some? {
        return Fail(err.value);
      }
      if name !in files {
        return Fail(NoSuchFile);
      }
      files := files - {name};
      return Pass;
    }
  }

  const NoSuchFile: string := "No such file or directory (os error 2)"

  /** The collection `pkg`, in insertion order. */
  class MetaStore {
    var records: seq<UpdatePkg>

    constructor (records: seq<UpdatePkg>)
      ensures this.records == records
    {
      this.records := records;
    }

    /** `insert_one`: appends the record unless the store reports `err`. */
    method InsertOne(pkg: UpdatePkg, err: Option<string>) returns (r: Outcome<string>)
      modifies this
      ensures r.Pass? <==> err.None?
      ensures r.Fail? ==> r.error == err.value
      ensures records == if r.Pass? then old(records) + [pkg] else old(records)
    {
      if err.Some? {
        return Fail(err.value);
      }
      records := records + [pkg];
      return Pass;
    }

    /** `delete_many` with the filter `(projectName, appVersion)`. */
    method DeleteMany(project: string, appVersion: string, err: Option<string>) returns (r: Outcome<string>)
      modifies this
      ensures r.Pass? <==> err.None?
      ensures r.Fail? ==> r.error == err.value
      ensures records == if r.Pass? then WithoutGroup(old(records), project, appVersion) else old(records)
    {
      if err.Some? {
        return Fail(err.value);
      }
      records := WithoutGroup(records, project, appVersion);
      return Pass;
    }
  }

  // ---------------------------------------------------------------------------
  // Filters of the collection

  /** The filter `{projectName, platform}` (the platform compared by its stored tag). */
  predicate InPartition(r: UpdatePkg, project: string, platform: Platform) {
    r.projectName == project && PlatformTag(r.platform) == PlatformTag(platform)
  }

  /** The filter `{projectName, appVersion}`: one release, on every platform. */
  predicate InGroup(r: UpdatePkg, project: string, appVersion: string) {
    r.projectName == project && r.appVersion == appVersion
  }

  /** The filter `{projectName, appVersion, platform}`. */
  predicate MatchesVersion(r: UpdatePkg, project: string, platform: Platform, appVersion: string) {
    InGroup(r, project, appVersion) && PlatformTag(r.platform) == PlatformTag(platform)
  }

  /**
   * The records of a `(project, platform)` partition whose `appVersion` is
   * `appVersion`: the candidates a sort on `appVersion` alone does not order.
   */
  function Ties(records: seq<UpdatePkg>, project: string, platform: Platform, appVersion: string): (t: seq<UpdatePkg>)
    ensures forall x :: x in t <==> x in records && InPartition(x, project, platform) && x.appVersion == appVersion
    decreases |records|
  {
    if |records| == 0 then []
    else
      var last := records[|records| - 1];
      Ties(records[..|records| - 1], project, platform, appVersion)
        + (if InPartition(last, project, platform) && last.appVersion == appVersion then [last] else [])
  }

  /**
   * The records of a `(project, appVersion)` group, in insertion order. The
   * model lets the cursor of `remove` visit them in this order.
   */
  function Matching(records: seq<UpdatePkg>, project: string, appVersion: string): (m: seq<UpdatePkg>)
    ensures forall x :: x in m ==> x in records && InGroup(x, project, appVersion)
    ensures forall i :: 0 <= i < |records| && InGroup(records[i], project, appVersion) ==> records[i] in m
    decreases |records|
  {
    if |records| == 0 then []
    else
      var last := records[|records| - 1];
      Matching(records[..|records| - 1], project, appVersion) + (if InGroup(last, project, appVersion) then [last] else [])
  }

  /** What `delete_many` leaves: every record outside the group, in insertion order. */
  function WithoutGroup(records: seq<UpdatePkg>, project: string, appVersion: string): (w: seq<UpdatePkg>)
    ensures forall x :: x in w ==> x in records && !InGroup(x, project, appVersion)
    ensures forall i :: 0 <= i < |records| && !InGroup(records[i], project, appVersion) ==> records[i] in w
    decreases |records|
  {
    if |records| == 0 then []
    else
      var last := records[|records| - 1];
      WithoutGroup(records[..|records| - 1], project, appVersion) + (if InGroup(last, project, appVersion) then [] else [last])
  }

  /** The group and the rest split the collection: `delete_many` drops exactly the records `remove` visited. */
  lemma {:induction false} GroupSplit(records: seq<UpdatePkg>, project: string, appVersion: string)
    ensures multiset(Matching(records, project, appVersion)) + multiset(WithoutGroup(records, project, appVersion)) == multiset(records)
    decreases |records|
  {
    if |records| > 0 {
      var pre := records[..|records| - 1];
      GroupSplit(pre, project, appVersion);
      assert records == pre + [records[|records| - 1]];
    }
  }

  // ---------------------------------------------------------------------------
  // Queries

  /**
   * A record of the partition with the greatest `appVersion`: the scan keeps
   * the last such record it meets. `FindNewVersion` widens the choice to all
   * of its ties.
   */
  function TopRecord(records: seq<UpdatePkg>, project: string, platform: Platform): (r: Option<UpdatePkg>)
    ensures r.None? <==> forall i :: 0 <= i < |records| ==> !InPartition(records[i], project, platform)
    ensures r.Some? ==> r.value in records && InPartition(r.value, project, platform)
    decreases |records|
  {
    if |records| == 0 then None
    else
      var last := records[|records| - 1];
      var best := TopRecord(records[..|records| - 1], project, platform);
      if InPartition(last, project, platform) && (best.None? || !Less(last.appVersion, best.value.appVersion)) then Some(last)
      else best
  }

  /** No record of the partition has a greater `appVersion` than the one `TopRecord` keeps. */
  lemma {:induction false} TopRecordIsMaximal(records: seq<UpdatePkg>, project: string, platform: Platform)
    requires TopRecord(records, project, platform).Some?
    ensures forall i :: 0 <= i < |records| && InPartition(records[i], project, platform) ==>
      !Less(TopRecord(records, project, platform).value.appVersion, records[i].appVersion)
    decreases |records|
  {
    var n := |records|;
    var last := records[n - 1];
    var pre := records[..n - 1];
    var best := TopRecord(pre, project, platform);
    var r := TopRecord(records, project, platform).value;
    if best.Some? {
      TopRecordIsMaximal(pre, project, platform);
    }
    forall i | 0 <= i < n && InPartition(records[i], project, platform)
      ensures !Less(r.appVersion, records[i].appVersion)
    {
      if i == n - 1 {
        if r == last {
          LessIrreflexive(last.appVersion);
        } else {
          LessAsymmetric(last.appVersion, best.value.appVersion);
        }
      } else {
        assert pre[i] == records[i];
        if r == last && r != best.value {
          NotLessTransitive(records[i].appVersion, best.value.appVersion, last.appVersion);
        }
      }
    }
  }

  /**
   * `find_new_version`: `find_one` on the partition sorted by `appVersion`
   * descending. The sort leaves records that share the greatest `appVersion`
   * unordered, so which of them the store returns is the parameter `tie`, an
   * index into those ties.
   */
  function FindNewVersion(records: seq<UpdatePkg>, project: string, platform: Platform, tie: nat): (r: Option<UpdatePkg>)
    ensures r.None? <==> forall i :: 0 <= i < |records| ==> !InPartition(records[i], project, platform)
    ensures r.Some? ==> r.value in records && InPartition(r.value, project, platform)
  {
    match TopRecord(records, project, platform)
    case None => None
    case Some(top) =>
      var t := Ties(records, project, platform, top.appVersion);
      assert top in t;
      Some(t[tie % |t|])
  }

  /** Whichever tie the store returns, no record of the partition has a greater `appVersion`. */
  lemma FindNewVersionIsMaximal(records: seq<UpdatePkg>, project: string, platform: Platform, tie: nat)
    requires FindNewVersion(records, project, platform, tie).Some?
    ensures forall i :: 0 <= i < |records| && InPartition(records[i], project, platform) ==>
      !Less(FindNewVersion(records, project, platform, tie).value.appVersion, records[i].appVersion)
  {
    var top := TopRecord(records, project, platform).value;
    TopRecordIsMaximal(records, project, platform);
    assert FindNewVersion(records, project, platform, tie).value in Ties(records, project, platform, top.appVersion);
  }

  /** A record of the partition that no other record exceeds shares its `appVersion` with `TopRecord`'s. */
  lemma TopRecordTiesMaximal(records: seq<UpdatePkg>, project: string, platform: Platform, k: nat)
    requires k < |records| && InPartition(records[k], project, platform)
    requires forall i :: 0 <= i < |records| && InPartition(records[i], project, platform) ==>
      !Less(records[k].appVersion, records[i].appVersion)
    ensures TopRecord(records, project, platform).Some?
    ensures records[k].appVersion == TopRecord(records, project, platform).value.appVersion
  {
    var top := TopRecord(records, project, platform).value;
    TopRecordIsMaximal(records, project, platform);
    var j :| 0 <= j < |records| && records[j] == top;
    LessTrichotomy(records[k].appVersion, top.appVersion);
  }

  /** Every record of the partition that no other record exceeds is a possible answer of `find_new_version`. */
  lemma FindNewVersionCoversTies(records: seq<UpdatePkg>, project: string, platform: Platform, k: nat)
    requires k < |records| && InPartition(records[k], project, platform)
    requires forall i :: 0 <= i < |records| && InPartition(records[i], project, platform) ==>
      !Less(records[k].appVersion, records[i].appVersion)
    ensures exists tie: nat :: FindNewVersion(records, project, platform, tie) == Some(records[k])
  {
    var x := records[k];
    var top := TopRecord(records, project, platform).value;
    TopRecordTiesMaximal(records, project, platform, k);
    var t := Ties(records, project, platform, top.appVersion);
    assert x in t;
    var m :| 0 <= m < |t| && t[m] == x;
    SmallModulus(m, |t|);
    assert FindNewVersion(records, project, platform, m) == Some(t[m]);
  }

  lemma SmallModulus(m: nat, n: nat)
    requires m < n
    ensures m % n == m
  {
  }

  /** `find_by_version`: `find_one` with all three keys, no sort. The model returns the first match in insertion order; every match has the keys `remove` then uses. */
  function FindByVersion(records: seq<UpdatePkg>, project: string, platform: Platform, appVersion: string): (r: Option<UpdatePkg>)
    ensures r.None? <==> forall i :: 0 <= i < |records| ==> !MatchesVersion(records[i], project, platform, appVersion)
    ensures r.Some? ==> r.value in records && MatchesVersion(r.value, project, platform, appVersion)
    decreases |records|
  {
    if |records| == 0 then None
    else if MatchesVersion(records[0], project, platform, appVersion) then Some(records[0])
    else
      var r := FindByVersion(records[1..], project, platform, appVersion);
      assert forall i :: 1 <= i < |records| ==> records[i] == records[1..][i - 1];
      r
  }

  // ---------------------------------------------------------------------------
  // save, del_file, remove

  /** `save`: `insert_one` into the collection; on success exactly this record is appended. */
  method Save(pkg: UpdatePkg, err: Option<string>, db: MetaStore) returns (r: Outcome<string>)
    modifies db
    ensures r.Pass? <==> err.None?
    ensures r.Fail? ==> r.error == err.value
    ensures db.records == if r.Pass? then old(db.records) + [pkg] else old(db.records)
  {
    r := db.InsertOne(pkg, err);
  }

  /**
   * What the file system does to `del_file`: names whose existence probe
   * errs (read as "absent" by `unwrap_or(false)`), and the error `remove_file`
   * reports for a name.
   */
  datatype FileFaults = FileFaults(probeFails: set<string>, removeErrors: map<string, string>)

  /** The effect of `del_file` on the package directory. */
  function DelFileEffect(files: set<string>, pkg: UpdatePkg, ff: FileFaults): (e: Result<set<string>, string>)
    ensures e.Success? ==> e.value <= files && forall n :: n in files - e.value ==> pkg.pkgFileName == Some(n)
    ensures e.Success? && pkg.pkgFileName.Some? && pkg.pkgFileName.value !in ff.probeFails ==> pkg.pkgFileName.value !in e.value
    ensures e.Success? && pkg.pkgFileName.Some? && pkg.pkgFileName.value in ff.probeFails ==> e.value == files
    ensures e.Failure? <==> (pkg.pkgFileName.Some? && pkg.pkgFileName.value in files
      && pkg.pkgFileName.value !in ff.probeFails && pkg.pkgFileName.value in ff.removeErrors)
  {
    match pkg.pkgFileName
    case None => Success(files)
    case Some(name) =>
      if name in ff.probeFails || name !in files then Success(files)
      else if name in ff.removeErrors then Failure(ff.removeErrors[name])
      else Success(files - {name})
  }

  /** `del_file` without a file name, or with a file that is not there, succeeds and changes nothing. */
  lemma DelFileNoFileIsNoOp(files: set<string>, pkg: UpdatePkg, ff: FileFaults)
    requires pkg.pkgFileName.None? || pkg.pkgFileName.value !in files
    ensures DelFileEffect(files, pkg, ff) == Success(files)
  {
  }

  /** Running `del_file` again after it succeeded changes nothing and does not fail. */
  lemma DelFileIdempotent(files: set<string>, pkg: UpdatePkg, ff: FileFaults)
    requires DelFileEffect(files, pkg, ff).Success?
    ensures DelFileEffect(DelFileEffect(files, pkg, ff).value, pkg, ff) == DelFileEffect(files, pkg, ff)
  {
  }

  method DelFile(pkg: UpdatePkg, ff: FileFaults, fs: FileStore) returns (r: Outcome<string>)
    modifies fs
    ensures r.Pass? <==> DelFileEffect(old(fs.files), pkg, ff).Success?
    ensures fs.files == if r.Pass? then DelFileEffect(old(fs.files), pkg, ff).value else old(fs.files)
    ensures r.Fail? ==> r.error == DelFileEffect(old(fs.files), pkg, ff).error
    ensures fs.dirExists == old(fs.dirExists)
  {
    if pkg.pkgFileName.None? {
      return Pass;
    }
    var name := pkg.pkgFileName.value;
    var present := if name in ff.probeFails then false else name in fs.files;
    if present {
      r := fs.RemoveFile(name, if name in ff.removeErrors then Some(ff.removeErrors[name]) else None);
    } else {
      r := Pass;
    }
  }

  /** The names of the files a list of records refers to. */
  function FileNames(items: seq<UpdatePkg>): (names: set<string>)
    ensures forall i :: 0 <= i < |items| && items[i].pkgFileName.Some? ==> items[i].pkgFileName.value in names
    ensures forall n :: n in names ==> exists i :: 0 <= i < |items| && items[i].pkgFileName == Some(n)
    decreases |items|
  {
    if |items| == 0 then {}
    else
      var last := items[|items| - 1];
      var pre := FileNames(items[..|items| - 1]);
      assert forall i :: 0 <= i < |items| - 1 ==> items[..|items| - 1][i] == items[i];
      pre + (if last.pkgFileName.Some? then {last.pkgFileName.value} else {})
  }

  /** The state of the directory after `del_file` on each item in turn, and the first error. */
  datatype Sweep = Sweep(files: set<string>, error: Option<string>)

  function DelFiles(files: set<string>, items: seq<UpdatePkg>, ff: FileFaults): Sweep
    decreases |items|
  {
    if |items| == 0 then Sweep(files, None)
    else
      var prev := DelFiles(files, items[..|items| - 1], ff);
      if prev.error.Some? then prev
      else
        match DelFileEffect(prev.files, items[|items| - 1], ff)
        case Success(next) => Sweep(next, None)
        case Failure(e) => Sweep(prev.files, Some(e))
  }

  /**
   * The sweep only deletes files the items name; when it finishes without
   * error, every named file is gone except those whose probe failed.
   */
  lemma {:induction false} DelFilesRemovesGroupFiles(files: set<string>, items: seq<UpdatePkg>, ff: FileFaults)
    ensures DelFiles(files, items, ff).files <= files
    ensures files - DelFiles(files, items, ff).files <= FileNames(items)
    ensures DelFiles(files, items, ff).error.None? ==>
      forall n :: n in FileNames(items) && n !in ff.probeFails ==> n !in DelFiles(files, items, ff).files
    decreases |items|
  {
    if |items| > 0 {
      var pre := items[..|items| - 1];
      var last := items[|items| - 1];
      DelFilesRemovesGroupFiles(files, pre, ff);
      var prev := DelFiles(files, pre, ff);
      var result := DelFiles(files, items, ff);
      forall n | n in files - result.files
        ensures n in FileNames(items)
      {
        if n !in files - prev.files {
          assert last.pkgFileName == Some(n);
        } else {
          var i :| 0 <= i < |pre| && pre[i].pkgFileName == Some(n);
          assert items[i] == pre[i];
        }
      }
      if result.error.None? {
        forall n | n in FileNames(items) && n !in ff.probeFails
          ensures n !in result.files
        {
          var i :| 0 <= i < |items| && items[i].pkgFileName == Some(n);
          if i < |items| - 1 {
            assert pre[i] == items[i];
          }
        }
      }
    }
  }

  /** A sweep over items whose files are already absent does nothing and does not fail. */
  lemma {:induction false} DelFilesOfAbsentFiles(files: set<string>, items: seq<UpdatePkg>, ff: FileFaults)
    requires FileNames(items) !! files
    ensures DelFiles(files, items, ff) == Sweep(files, None)
    decreases |items|
  {
    if |items| > 0 {
      DelFilesOfAbsentFiles(files, items[..|items| - 1], ff);
    }
  }

  /** One more item: the sweep so far, then `del_file` on that item unless the sweep already failed. */
  lemma DelFilesStep(files: set<string>, items: seq<UpdatePkg>, i: nat, ff: FileFaults)
    requires i < |items| && DelFiles(files, items[..i], ff).error.None?
    ensures DelFiles(files, items[..i + 1], ff) ==
      match DelFileEffect(DelFiles(files, items[..i], ff).files, items[i], ff)
      case Success(next) => Sweep(next, None)
      case Failure(e) => Sweep(DelFiles(files, items[..i], ff).files, Some(e))
  {
    assert items[..i + 1][..i] == items[..i];
  }

  /** Once a sweep has failed, the items after the failing one are not visited. */
  lemma {:induction false} DelFilesStopsAtError(files: set<string>, items: seq<UpdatePkg>, k: nat, ff: FileFaults)
    requires k <= |items| && DelFiles(files, items[..k], ff).error.Some?
    ensures DelFiles(files, items, ff) == DelFiles(files, items[..k], ff)
    decreases |items| - k
  {
    if k < |items| {
      var pre := items[..|items| - 1];
      assert pre[..k] == items[..k];
      DelFilesStopsAtError(files, pre, k, ff);
    } else {
      assert items[..k] == items;
    }
  }

  /** What the store does to `remove`: the cursor, the file system, `delete_many`. */
  datatype RemoveFaults = RemoveFaults(findError: Option<string>, files: FileFaults, deleteManyError: Option<string>)

  datatype RemoveOutcome = RemoveOutcome(result: Outcome<string>, files: set<string>, records: seq<UpdatePkg>)

  /** The effect of `UpdatePkg::remove` on both stores. */
  function RemoveEffect(files: set<string>, records: seq<UpdatePkg>, project: string, appVersion: string, f: RemoveFaults): RemoveOutcome
  {
    if f.findError.Some? then RemoveOutcome(Fail(f.findError.value), files, records)
    else
      var sweep := DelFiles(files, Matching(records, project, appVersion), f.files);
      if sweep.error.Some? then RemoveOutcome(Fail(sweep.error.value), sweep.files, records)
      else if f.deleteManyError.Some? then RemoveOutcome(Fail(f.deleteManyError.value), sweep.files, records)
      else RemoveOutcome(Pass, sweep.files, WithoutGroup(records, project, appVersion))
  }

  /**
   * The cursor loop of `remove`: `del_file` on each record of the group in
   * turn, stopping at the first error.
   */
  method DelFilesLoop(items: seq<UpdatePkg>, ff: FileFaults, fs: FileStore) returns (r: Outcome<string>)
    modifies fs
    ensures DelFiles(old(fs.files), items, ff) == Sweep(fs.files, if r.Fail? then Some(r.error) else None)
    ensures fs.dirExists == old(fs.dirExists)
  {
    var i := 0;
    while i < |items|
      invariant 0 <= i <= |items|
      invariant DelFiles(old(fs.files), items[..i], ff) == Sweep(fs.files, None)
      invariant fs.dirExists == old(fs.dirExists)
    {
      DelFilesStep(old(fs.files), items, i, ff);
      var res := DelFile(items[i], ff, fs);
      if res.Fail? {
        DelFilesStopsAtError(old(fs.files), items, i + 1, ff);
        return Fail(res.error);
      }
      i := i + 1;
    }
    assert items[..|items|] == items;
    return Pass;
  }

  /**
   * `remove`: visit every record of the group and delete its file, then
   * bulk-delete the group. A file error stops before the bulk delete.
   */
  method Remove(pkg: UpdatePkg, f: RemoveFaults, fs: FileStore, db: MetaStore) returns (r: Outcome<string>)
    modifies fs, db
    ensures RemoveEffect(old(fs.files), old(db.records), pkg.projectName, pkg.appVersion, f) == RemoveOutcome(r, fs.files, db.records)
    ensures fs.dirExists == old(fs.dirExists)
  {
    if f.findError.Some? {
      return Fail(f.findError.value);
    }
    var items := Matching(db.records, pkg.projectName, pkg.appVersion);
    r := DelFilesLoop(items, f.files, fs);
    if r.Fail? {
      return;
    }
    r := db.DeleteMany(pkg.projectName, pkg.appVersion, f.deleteManyError);
  }

  /** After a successful `remove` no record of the group is left, on any platform. */
  lemma RemoveClearsGroup(files: set<string>, records: seq<UpdatePkg>, project: string, appVersion: string, f: RemoveFaults)
    requires RemoveEffect(files, records, project, appVersion, f).result.Pass?
    ensures forall x :: x in RemoveEffect(files, records, project, appVersion, f).records ==> !InGroup(x, project, appVersion)
  {
  }

  /**
   * After a successful `remove` the file of every record of the group is gone
   * (unless probing it failed), and only such files were deleted.
   */
  lemma RemoveDeletesGroupFiles(files: set<string>, records: seq<UpdatePkg>, project: string, appVersion: string, f: RemoveFaults)
    requires RemoveEffect(files, records, project, appVersion, f).result.Pass?
    ensures forall x :: x in records && InGroup(x, project, appVersion) && x.pkgFileName.Some? && x.pkgFileName.value !in f.files.probeFails
                ==> x.pkgFileName.value !in RemoveEffect(files, records, project, appVersion, f).files
  {
    var items := Matching(records, project, appVersion);
    DelFilesRemovesGroupFiles(files, items, f.files);
    forall x | x in records && InGroup(x, project, appVersion) && x.pkgFileName.Some? && x.pkgFileName.value !in f.files.probeFails
      ensures x.pkgFileName.value !in RemoveEffect(files, records, project, appVersion, f).files
    {
      var i :| 0 <= i < |records| && records[i] == x;
      var j :| 0 <= j < |items| && items[j] == x;
    }
  }

  /**
   * `remove` never touches what lies outside the group: no other record is
   * dropped, no record is added, and only files of the group are deleted.
   */
  lemma RemoveKeepsOthers(files: set<string>, records: seq<UpdatePkg>, project: string, appVersion: string, f: RemoveFaults)
    ensures var out := RemoveEffect(files, records, project, appVersion, f);
      && (forall x :: x in out.records ==> x in records)
      && (forall x :: x in records && !InGroup(x, project, appVersion) ==> x in out.records)
      && out.files <= files
      && files - out.files <= FileNames(Matching(records, project, appVersion))
  {
    DelFilesRemovesGroupFiles(files, Matching(records, project, appVersion), f.files);
    var out := RemoveEffect(files, records, project, appVersion, f);
    forall x | x in records && !InGroup(x, project, appVersion)
      ensures x in out.records
    {
      var i :| 0 <= i < |records| && records[i] == x;
    }
  }

  /**
   * The metadata changes only after every file of the group is gone: a file
   * error (or any failure) leaves the collection as it was, and a changed
   * collection means the sweep completed.
   */
  lemma RemoveFilesBeforeMetadata(files: set<string>, records: seq<UpdatePkg>, project: string, appVersion: string, f: RemoveFaults)
    ensures var out := RemoveEffect(files, records, project, appVersion, f);
      out.records == if out.result.Pass? then WithoutGroup(records, project, appVersion) else records
    ensures var out := RemoveEffect(files, records, project, appVersion, f);
      out.records != records ==>
        forall n :: n in FileNames(Matching(records, project, appVersion)) && n !in f.files.probeFails ==> n !in out.files
  {
    DelFilesRemovesGroupFiles(files, Matching(records, project, appVersion), f.files);
  }
}
