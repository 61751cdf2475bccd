/**
 * The two HTTP handlers of src/api/mod.rs: `upload` (publish a package) and
 * `remove` (withdraw a release). Each is a method over the two stores, proved
 * against a function giving the response and the new state of both stores;
 * the lemmas state what the handlers promise.
 */
module Api {
  import opened Wrappers
  import opened Lex
  import opened Pkg

  /** What a handler answers: `api_response::ok(data)`, `api_response::err(code, msg)`, an error raised with `?`, or a panic. */
  datatype Response = Ok(data: int) | Err(code: int, msg: string) | Raised(msg: string) | Panicked

  const QueryFailed: string := "查询失败"
  const NewerExists: string := "已有更新的版本"
  const BadFileType: string := "文件类型错误"
  const FileSystemError: string := "文件系统错误"
  const NotFound: string := "不存在"

  /** Both stores at one moment. */
  datatype World = World(dirExists: bool, files: set<string>, records: seq<UpdatePkg>)

  /** A handler's response and the stores after it. */
  datatype Step = Step(response: Response, world: World)

  // ---------------------------------------------------------------------------
  // upload

  /** The uploaded temporary file; only its client-side name matters here. */
  datatype TempUpload = TempUpload(fileName: Option<string>)

  /** The multipart form `UploadPkg`. */
  datatype UploadForm = UploadForm(
    projectName: string,
    pkgVersion: string,
    pkgLink: Option<string>,
    file: Option<TempUpload>,
    platform: Platform,
    updateLog: Option<string>,
    mandatory: bool)

  /**
   * What the environment does to one upload: the query fails, the existence
   * probe of `./pkgs` fails, the errors `create_dir_all`, `persist` and
   * `insert_one` report, if any, and which of the records tied on the
   * greatest `app_version` the query returns.
   */
  datatype UploadFaults = UploadFaults(
    queryFails: bool,
    probeFails: bool,
    mkdirError: Option<string>,
    persistError: Option<string>,
    insertError: Option<string>,
    tie: nat)

  /** Outcome of the sequence-number step. */
  datatype Resolution = Assigned(version: U32) | TooOld | Overflow

  /**
   * The new sequence number: 0 for an empty partition; a rejection when the
   * latest `app_version` is strictly greater than the requested one; otherwise
   * the latest sequence number plus one, where `u32` addition overflows at
   * the top of the range.
   */
  function ResolveVersion(latest: Option<UpdatePkg>, requested: string): (r: Resolution)
    ensures latest.None? ==> r == Assigned(0)
    ensures r == TooOld <==> latest.Some? && Less(requested, latest.value.appVersion)
    ensures r == Overflow <==> latest.Some? && !Less(requested, latest.value.appVersion) && latest.value.version == MAX_U32
    ensures r.Assigned? && latest.Some? ==> r.version == latest.value.version + 1
  {
    match latest
    case None => Assigned(0)
    case Some(pkg) =>
      if Less(requested, pkg.appVersion) then TooOld
      else if pkg.version == MAX_U32 then Overflow
      else Assigned(pkg.version + 1)
  }

  /** `file_name.split('.').last()`: the text after the last `.`, or the whole name when it has none. */
  function Extension(name: string): string
    decreases |name|
  {
    if |name| == 0 then ""
    else if name[|name| - 1] == '.' then ""
    else Extension(name[..|name| - 1]) + [name[|name| - 1]]
  }

  /** The extension is a suffix of the name without a `.`, and it is either the whole name or comes right after a `.`. */
  lemma {:induction false} ExtensionIsLastSegment(name: string)
    ensures var ext := Extension(name);
      && '.' !in ext
      && |ext| <= |name| && ext == name[|name| - |ext|..]
      && (|ext| < |name| ==> name[|name| - |ext| - 1] == '.')
    decreases |name|
  {
    if |name| > 0 && name[|name| - 1] != '.' {
      var init := name[..|name| - 1];
      var c := name[|name| - 1];
      var e := Extension(init);
      ExtensionIsLastSegment(init);
      assert Extension(name) == e + [c];
      assert name[|name| - |e| - 1..] == e + [c];
      if |e| < |init| {
        assert name[|name| - |e| - 2] == init[|init| - |e| - 1];
      }
      assert forall d :: d in e + [c] ==> d in e || d == c;
    }
  }

  /** A name without a `.` is its own extension. */
  lemma {:induction false} ExtensionOfDotless(ext: string)
    requires '.' !in ext
    ensures Extension(ext) == ext
    decreases |ext|
  {
    if |ext| > 0 {
      var init := ext[..|ext| - 1];
      assert ext[|ext| - 1] in ext;
      assert forall c :: c in init ==> c in ext;
      ExtensionOfDotless(init);
      assert ext == init + [ext[|ext| - 1]];
    }
  }

  /** The text after the last `.` is the extension: any name ending in `.` followed by `ext` has extension `ext`. */
  lemma {:induction false} ExtensionAfterLastDot(front: string, ext: string)
    requires '.' !in ext
    ensures Extension(front + "." + ext) == ext
    decreases |ext|
  {
    var name := front + "." + ext;
    if |ext| == 0 {
      assert name[|name| - 1] == '.';
    } else {
      var init := ext[..|ext| - 1];
      var c := ext[|ext| - 1];
      assert c in ext;
      assert forall d :: d in init ==> d in ext;
      ExtensionAfterLastDot(front, init);
      assert name[|name| - 1] == c;
      assert name[..|name| - 1] == front + "." + init;
      assert ext == init + [c];
    }
  }

  predicate AllowedExt(ext: string) {
    ext == "zip" || ext == "ipa" || ext == "apk"
  }

  /** The timestamp `%Y%m%d%H%M%S`: fourteen digits. */
  predicate IsTimestamp(ts: string) {
    |ts| == 14 && forall i :: 0 <= i < 14 ==> '0' <= ts[i] <= '9'
  }

  /** The name a placed package gets in `./pkgs`. */
  function StoredFileName(project: string, pkgVersion: string, ts: string, ext: string): string {
    project + "_" + pkgVersion + "_" + ts + "." + ext
  }

  /**
   * A stored name splits back into its parts: the project and the version at
   * the front, the fourteen-character timestamp before the last `.`, the
   * extension after it.
   */
  lemma StoredFileNameParts(project: string, pkgVersion: string, ts: string, ext: string)
    requires IsTimestamp(ts) && '.' !in ext
    ensures var name := StoredFileName(project, pkgVersion, ts, ext);
      && Extension(name) == ext
      && name[..|project|] == project
      && name[|project| + 1..|project| + 1 + |pkgVersion|] == pkgVersion
      && name[|name| - |ext| - 15..|name| - |ext| - 1] == ts
  {
    var front := project + "_" + pkgVersion + "_" + ts;
    ExtensionAfterLastDot(front, ext);
    SliceOfConcat(project, "_" + pkgVersion + "_" + ts + "." + ext);
    SliceOfConcat(pkgVersion, "_" + ts + "." + ext);
    SliceOfConcat(project + "_", pkgVersion + "_" + ts + "." + ext);
    SliceOfConcat(ts, "." + ext);
    SliceOfConcat(project + "_" + pkgVersion + "_", ts + "." + ext);
  }

  lemma SliceOfConcat(a: string, b: string)
    ensures (a + b)[..|a|] == a && (a + b)[|a|..] == b
  {
  }

  /** The allowed extensions contain no `.`, so a stored name's extension is the one checked. */
  lemma AllowedExtHasNoDot(ext: string)
    requires AllowedExt(ext)
    ensures '.' !in ext
  {
  }

  /** Two different uploads can be given the same stored name: `("a_b", "1")` and `("a", "b_1")`. */
  lemma FileNamesCanCollide(ts: string)
    ensures StoredFileName("a_b", "1", ts, "zip") == StoredFileName("a", "b_1", ts, "zip")
  {
    assert "a_b" + "_" + "1" == "a" + "_" + "b_1";
  }

  /** `full_pkg`: false exactly for an uploaded `zip` (a patch); an `ipa`, an `apk` or no file at all is a full package. */
  function IsFullPkg(ext: Option<string>): (full: bool)
    ensures !full <==> ext == Some("zip")
  {
    match ext
    case None => true
    case Some(e) => e != "zip"
  }

  /** The record `upload` builds from the form. */
  function BuildRecord(form: UploadForm, version: U32, fileName: Option<string>, fullPkg: bool): UpdatePkg {
    UpdatePkg(form.projectName, fileName, form.pkgLink, form.pkgVersion, version, form.mandatory, form.updateLog, fullPkg, form.platform)
  }

  /** `save`, then `ok(0)` or the error. */
  function InsertStep(w: World, pkg: UpdatePkg, err: Option<string>): Step {
    if err.Some? then Step(Err(500, err.value), w)
    else Step(Ok(0), w.(records := w.records + [pkg]))
  }

  /** The outcome of the file step: the stores, the stored name and `full_pkg`, or the response that ends the upload. */
  datatype Placement = Placed(world: World, fileName: Option<string>, fullPkg: bool) | Refused(step: Step)

  /**
   * The file step of `upload` (`if let Some(file) = form.file`): the file's
   * name and extension, the probe of `./pkgs` and its creation, then the
   * placement. Without a file nothing is stored and the package is full.
   */
  function PlaceFile(w: World, form: UploadForm, ts: string, f: UploadFaults): Placement {
    if form.file.None? then Placed(w, None, true)
    else if form.file.value.fileName.None? then Refused(Step(Err(500, BadFileType), w))
    else
      var ext := Extension(form.file.value.fileName.value);
      if !AllowedExt(ext) then Refused(Step(Err(500, BadFileType), w))
      else if f.probeFails then Refused(Step(Err(500, FileSystemError), w))
      else if !w.dirExists && f.mkdirError.Some? then Refused(Step(Raised(f.mkdirError.value), w))
      else
        var name := StoredFileName(form.projectName, form.pkgVersion, ts, ext);
        if f.persistError.Some? then Refused(Step(Err(500, f.persistError.value), w.(dirExists := true)))
        else Placed(World(true, w.files + {name}, w.records), Some(name), IsFullPkg(Some(ext)))
  }

  /**
   * `upload`, step by step in the code's order: the query, the sequence
   * number, the file step, the insert.
   */
  function Publish(w: World, form: UploadForm, ts: string, f: UploadFaults): Step {
    if f.queryFails then Step(Err(500, QueryFailed), w)
    else
      match ResolveVersion(FindNewVersion(w.records, form.projectName, form.platform, f.tie), form.pkgVersion)
      case TooOld => Step(Err(500, NewerExists), w)
      case Overflow => Step(Panicked, w)
      case Assigned(version) =>
        match PlaceFile(w, form, ts, f)
        case Refused(step) => step
        case Placed(w', fileName, fullPkg) => InsertStep(w', BuildRecord(form, version, fileName, fullPkg), f.insertError)
  }

  /** The handler `upload`. `ts` is the clock's reading, taken when the file is named. */
  method Upload(form: UploadForm, ts: string, f: UploadFaults, fs: FileStore, db: MetaStore) returns (resp: Response)
    modifies fs, db
    ensures Publish(World(old(fs.dirExists), old(fs.files), old(db.records)), form, ts, f) == Step(resp, World(fs.dirExists, fs.files, db.records))
  {
    if f.queryFails {
      return Err(500, QueryFailed);
    }
    var latest := FindNewVersion(db.records, form.projectName, form.platform, f.tie);
    var version: U32;
    match ResolveVersion(latest, form.pkgVersion)
    case TooOld => return Err(500, NewerExists);
    case Overflow => return Panicked;
    case Assigned(v) => version := v;
    var refused, fileName, fullPkg := StoreUpload(form, ts, f, fs, db);
    if refused.Some? {
      return refused.value;
    }
    var saved := Save(BuildRecord(form, version, fileName, fullPkg), f.insertError, db);
    if saved.Fail? {
      return Err(500, saved.error);
    }
    return Ok(0);
  }

  /** The file step of the handler, on the directory; `db` is only read. */
  method StoreUpload(form: UploadForm, ts: string, f: UploadFaults, fs: FileStore, db: MetaStore)
    returns (refused: Option<Response>, fileName: Option<string>, fullPkg: bool)
    modifies fs
    ensures PlaceFile(World(old(fs.dirExists), old(fs.files), db.records), form, ts, f) ==
      if refused.Some? then Refused(Step(refused.value, World(fs.dirExists, fs.files, db.records)))
      else Placed(World(fs.dirExists, fs.files, db.records), fileName, fullPkg)
  {
    if form.file.None? {
      return None, None, true;
    }
    if form.file.value.fileName.None? {
      return Some(Err(500, BadFileType)), None, true;
    }
    var ext := Extension(form.file.value.fileName.value);
    if !AllowedExt(ext) {
      return Some(Err(500, BadFileType)), None, true;
    }
    if f.probeFails {
      return Some(Err(500, FileSystemError)), None, true;
    }
    var has := fs.dirExists;
    if !has {
      var made := fs.CreateDirAll(f.mkdirError);
      if made.Fail? {
        return Some(Raised(made.error)), None, true;
      }
    }
    var name := StoredFileName(form.projectName, form.pkgVersion, ts, ext);
    var placed := fs.Persist(name, f.persistError);
    if placed.Fail? {
      return Some(Err(500, placed.error)), None, true;
    }
    return None, Some(name), IsFullPkg(Some(ext));
  }

  // ---------------------------------------------------------------------------
  // remove

  /** What the environment does to one removal: the lookup fails, and the faults `UpdatePkg::remove` meets. */
  datatype RemoveRequestFaults = RemoveRequestFaults(lookupFails: bool, remove: RemoveFaults)

  /** `remove`: look the release up on the given platform, then withdraw it on every platform. */
  function RemoveRequest(w: World, project: string, appVersion: string, platform: Platform, f: RemoveRequestFaults): Step {
    if f.lookupFails then Step(Err(500, QueryFailed), w)
    else
      match FindByVersion(w.records, project, platform, appVersion)
      case None => Step(Err(500, NotFound), w)
      case Some(pkg) =>
        var out := RemoveEffect(w.files, w.records, pkg.projectName, pkg.appVersion, f.remove);
        Step(if out.result.Pass? then Ok(0) else Err(500, out.result.error), World(w.dirExists, out.files, out.records))
  }

  /** The handler `remove`. */
  method RemoveHandler(project: string, appVersion: string, platform: Platform, f: RemoveRequestFaults, fs: FileStore, db: MetaStore)
    returns (resp: Response)
    modifies fs, db
    ensures RemoveRequest(World(old(fs.dirExists), old(fs.files), old(db.records)), project, appVersion, platform, f)
      == Step(resp, World(fs.dirExists, fs.files, db.records))
  {
    if f.lookupFails {
      return Err(500, QueryFailed);
    }
    var found := FindByVersion(db.records, project, platform, appVersion);
    if found.None? {
      return Err(500, NotFound);
    }
    var removed := Remove(found.value, f.remove, fs, db);
    if removed.Fail? {
      return Err(500, removed.error);
    }
    return Ok(0);
  }

  // ---------------------------------------------------------------------------
  // What the handlers promise

  /** No record names a file that is not in `./pkgs`. */
  predicate Consistent(w: World) {
    forall r :: r in w.records && r.pkgFileName.Some? ==> r.pkgFileName.value in w.files
  }

  /** `P` holds of every two records, taken in insertion order. */
  predicate Pairwise(records: seq<UpdatePkg>, P: (UpdatePkg, UpdatePkg) -> bool) {
    forall i, j :: 0 <= i < j < |records| ==> P(records[i], records[j])
  }

  /** Within each `(project, platform)` partition, in insertion order, `app_version`s never decrease. */
  predicate AppOrdered(records: seq<UpdatePkg>) {
    Pairwise(records, AppInOrder)
  }

  /** `b`, inserted after `a` into the same partition, has an `app_version` no smaller. */
  predicate AppInOrder(a: UpdatePkg, b: UpdatePkg) {
    InPartition(b, a.projectName, a.platform) ==> !Less(b.appVersion, a.appVersion)
  }

  /**
   * Within each `(project, platform)` partition, in insertion order, sequence
   * numbers strictly increase and `app_version`s never decrease.
   */
  predicate Sequenced(records: seq<UpdatePkg>) {
    Pairwise(records, InOrder)
  }

  /** `b`, inserted after `a` into the same partition, has a larger sequence number and an `app_version` no smaller. */
  predicate InOrder(a: UpdatePkg, b: UpdatePkg) {
    InPartition(b, a.projectName, a.platform) ==> a.version < b.version && !Less(b.appVersion, a.appVersion)
  }

  /** `r` carries the largest sequence number of its partition. */
  predicate HighestSequence(records: seq<UpdatePkg>, project: string, platform: Platform, r: UpdatePkg) {
    forall i :: 0 <= i < |records| && InPartition(records[i], project, platform) ==> records[i].version <= r.version
  }

  /** A rejected version leaves both stores as they were. */
  lemma PublishRejectsOlder(w: World, form: UploadForm, ts: string, f: UploadFaults)
    requires !f.queryFails
    requires FindNewVersion(w.records, form.projectName, form.platform, f.tie).Some?
    requires Less(form.pkgVersion, FindNewVersion(w.records, form.projectName, form.platform, f.tie).value.appVersion)
    ensures Publish(w, form, ts, f) == Step(Err(500, NewerExists), w)
  {
  }

  /**
   * A failed query, a bad file name or extension, or a failed directory probe
   * answers with its message before either store is touched.
   */
  lemma PublishChecksBeforeSideEffects(w: World, form: UploadForm, ts: string, f: UploadFaults)
    ensures f.queryFails ==> Publish(w, form, ts, f) == Step(Err(500, QueryFailed), w)
    ensures !f.queryFails && ResolveVersion(FindNewVersion(w.records, form.projectName, form.platform, f.tie), form.pkgVersion).Assigned?
      && form.file.Some? && (form.file.value.fileName.None? || !AllowedExt(Extension(form.file.value.fileName.value)))
      ==> Publish(w, form, ts, f) == Step(Err(500, BadFileType), w)
    ensures !f.queryFails && ResolveVersion(FindNewVersion(w.records, form.projectName, form.platform, f.tie), form.pkgVersion).Assigned?
      && form.file.Some? && form.file.value.fileName.Some? && AllowedExt(Extension(form.file.value.fileName.value)) && f.probeFails
      ==> Publish(w, form, ts, f) == Step(Err(500, FileSystemError), w)
  {
  }

  /** A failed upload adds no record; at most its placed file is left behind. */
  lemma PublishFailureAddsNoRecord(w: World, form: UploadForm, ts: string, f: UploadFaults)
    requires !Publish(w, form, ts, f).response.Ok?
    ensures Publish(w, form, ts, f).world.records == w.records
    ensures w.files <= Publish(w, form, ts, f).world.files
    ensures Publish(w, form, ts, f).world.files != w.files ==>
      form.file.Some? && form.file.value.fileName.Some? && f.insertError.Some? &&
      Publish(w, form, ts, f).world.files == w.files + {StoredFileName(form.projectName, form.pkgVersion, ts, Extension(form.file.value.fileName.value))}
  {
  }

  /** When placing the file fails, nothing is inserted. */
  lemma PublishPlacementFailure(w: World, form: UploadForm, ts: string, f: UploadFaults)
    requires form.file.Some? && f.persistError.Some?
    ensures Publish(w, form, ts, f).world.records == w.records
    ensures Publish(w, form, ts, f).world.files == w.files
  {
  }

  /**
   * A successful upload appends exactly one record, built from the form:
   * its sequence number is 0 for a new partition and the latest one plus
   * one otherwise; it names a file exactly when one was uploaded, and that
   * file, named `{project}_{version}_{timestamp}.{ext}`, is in `./pkgs`; it is
   * a patch exactly when the file is a `zip`.
   */
  lemma PublishSuccess(w: World, form: UploadForm, ts: string, f: UploadFaults)
    requires Publish(w, form, ts, f).response.Ok?
    ensures var s := Publish(w, form, ts, f);
      var latest := FindNewVersion(w.records, form.projectName, form.platform, f.tie);
      && s.response == Ok(0)
      && |s.world.records| == |w.records| + 1 && s.world.records[..|w.records|] == w.records
      && (latest.Some? ==> !Less(form.pkgVersion, latest.value.appVersion))
      && var rec := s.world.records[|w.records|];
      && rec.projectName == form.projectName && rec.appVersion == form.pkgVersion && rec.platform == form.platform
      && rec.pkgLink == form.pkgLink && rec.updateLog == form.updateLog && rec.mandatory == form.mandatory
      && rec.version == (if latest.None? then 0 else latest.value.version + 1)
      && (rec.pkgFileName.Some? <==> form.file.Some?)
      && (form.file.Some? ==>
            && form.file.value.fileName.Some?
            && var ext := Extension(form.file.value.fileName.value);
            && AllowedExt(ext)
            && rec.pkgFileName == Some(StoredFileName(form.projectName, form.pkgVersion, ts, ext))
            && s.world.files == w.files + {rec.pkgFileName.value}
            && s.world.dirExists)
      && (form.file.None? ==> s.world.files == w.files && s.world.dirExists == w.dirExists)
      && (!rec.fullPkg <==> form.file.Some? && Extension(form.file.value.fileName.value) == "zip")
  {
    var latest := FindNewVersion(w.records, form.projectName, form.platform, f.tie);
    var s := Publish(w, form, ts, f);
    assert s.world.records[..|w.records|] == w.records;
  }

  /**
   * The stored file keeps the extension of the uploaded one, so a stored
   * name still says whether it holds a patch or a full package.
   */
  lemma PublishStoresCheckedExtension(w: World, form: UploadForm, ts: string, f: UploadFaults)
    requires Publish(w, form, ts, f).response.Ok? && form.file.Some?
    ensures var rec := Publish(w, form, ts, f).world.records[|w.records|];
      && rec.pkgFileName.Some?
      && Extension(rec.pkgFileName.value) == Extension(form.file.value.fileName.value)
      && AllowedExt(Extension(rec.pkgFileName.value))
  {
    PublishSuccess(w, form, ts, f);
    var ext := Extension(form.file.value.fileName.value);
    AllowedExtHasNoDot(ext);
    ExtensionAfterLastDot(form.projectName + "_" + form.pkgVersion + "_" + ts, ext);
  }

  /** A sequence number that would overflow `u32` makes the handler panic before any change. */
  lemma PublishOverflow(w: World, form: UploadForm, ts: string, f: UploadFaults)
    requires !f.queryFails
    requires FindNewVersion(w.records, form.projectName, form.platform, f.tie).Some?
    requires !Less(form.pkgVersion, FindNewVersion(w.records, form.projectName, form.platform, f.tie).value.appVersion)
    requires FindNewVersion(w.records, form.projectName, form.platform, f.tie).value.version == MAX_U32
    ensures Publish(w, form, ts, f) == Step(Panicked, w)
  {
  }

  /** The file is placed before the record is inserted: uploads never create a record without its file. */
  lemma PublishPreservesConsistent(w: World, form: UploadForm, ts: string, f: UploadFaults)
    requires Consistent(w)
    ensures Consistent(Publish(w, form, ts, f).world)
  {
    var s := Publish(w, form, ts, f).world;
    if Publish(w, form, ts, f).response.Ok? {
      PublishSuccess(w, form, ts, f);
      var rec := s.records[|w.records|];
      assert s.records == w.records + [rec];
      assert w.files <= s.files;
      assert rec.pkgFileName.Some? ==> rec.pkgFileName.value in s.files;
      ConsistentAppend(w, rec, s);
    } else {
      PublishFailureAddsNoRecord(w, form, ts, f);
    }
  }

  lemma ConsistentAppend(w: World, rec: UpdatePkg, w': World)
    requires Consistent(w) && w.files <= w'.files && w'.records == w.records + [rec]
    requires rec.pkgFileName.Some? ==> rec.pkgFileName.value in w'.files
    ensures Consistent(w')
  {
    forall r | r in w'.records && r.pkgFileName.Some?
      ensures r.pkgFileName.value in w'.files
    {
      if r != rec {
        assert r in w.records;
      }
    }
  }

  lemma PairwisePrefix(records: seq<UpdatePkg>, k: nat, P: (UpdatePkg, UpdatePkg) -> bool)
    requires Pairwise(records, P) && k <= |records|
    ensures Pairwise(records[..k], P)
  {
    var pre := records[..k];
    forall i, j | 0 <= i < j < |pre|
      ensures P(pre[i], pre[j])
    {
      assert pre[i] == records[i] && pre[j] == records[j];
    }
  }

  lemma PairwiseAppend(records: seq<UpdatePkg>, rec: UpdatePkg, P: (UpdatePkg, UpdatePkg) -> bool)
    requires Pairwise(records, P) && forall i :: 0 <= i < |records| ==> P(records[i], rec)
    ensures Pairwise(records + [rec], P)
  {
    var recs := records + [rec];
    forall i, j | 0 <= i < j < |recs|
      ensures P(recs[i], recs[j])
    {
      assert recs[i] == records[i];
      if j < |records| {
        assert recs[j] == records[j];
      }
    }
  }

  /**
   * Whichever tie the store returns, a successful upload appends a record
   * whose `app_version` is no smaller than any in its partition, and whose
   * sequence number exceeds the returned record's.
   */
  lemma PublishAppendsAbove(w: World, form: UploadForm, ts: string, f: UploadFaults)
    requires Publish(w, form, ts, f).response.Ok?
    ensures var s := Publish(w, form, ts, f).world;
      var latest := FindNewVersion(w.records, form.projectName, form.platform, f.tie);
      && s.records == w.records + [s.records[|w.records|]]
      && (forall i :: 0 <= i < |w.records| ==> AppInOrder(w.records[i], s.records[|w.records|]))
      && (latest.Some? ==> latest.value.version < s.records[|w.records|].version)
  {
    PublishSuccess(w, form, ts, f);
    var s := Publish(w, form, ts, f).world;
    var rec := s.records[|w.records|];
    assert s.records == w.records + [rec];
    var latest := FindNewVersion(w.records, form.projectName, form.platform, f.tie);
    forall i | 0 <= i < |w.records|
      ensures AppInOrder(w.records[i], rec)
    {
      var x := w.records[i];
      if InPartition(rec, x.projectName, x.platform) {
        assert InPartition(x, form.projectName, form.platform);
        FindNewVersionIsMaximal(w.records, form.projectName, form.platform, f.tie);
        NotLessTransitive(x.appVersion, latest.value.appVersion, rec.appVersion);
      }
    }
  }

  /** Uploads keep `app_version`s ordered within every partition, whichever tie the store returns. */
  lemma PublishPreservesAppOrdered(w: World, form: UploadForm, ts: string, f: UploadFaults)
    requires AppOrdered(w.records)
    ensures AppOrdered(Publish(w, form, ts, f).world.records)
  {
    var s := Publish(w, form, ts, f).world;
    if Publish(w, form, ts, f).response.Ok? {
      PublishAppendsAbove(w, form, ts, f);
      PairwiseAppend(w.records, s.records[|w.records|], AppInOrder);
    } else {
      PublishFailureAddsNoRecord(w, form, ts, f);
    }
  }

  /**
   * Uploads keep every partition sequenced when the store answers with the
   * record carrying the partition's largest sequence number.
   */
  lemma PublishPreservesSequenced(w: World, form: UploadForm, ts: string, f: UploadFaults)
    requires Sequenced(w.records)
    requires var latest := FindNewVersion(w.records, form.projectName, form.platform, f.tie);
      latest.Some? ==> HighestSequence(w.records, form.projectName, form.platform, latest.value)
    ensures Sequenced(Publish(w, form, ts, f).world.records)
  {
    var s := Publish(w, form, ts, f).world;
    if Publish(w, form, ts, f).response.Ok? {
      PublishAppendsAbove(w, form, ts, f);
      var rec := s.records[|w.records|];
      assert rec.projectName == form.projectName && rec.platform == form.platform by {
        PublishSuccess(w, form, ts, f);
      }
      forall i | 0 <= i < |w.records|
        ensures InOrder(w.records[i], rec)
      {
        assert AppInOrder(w.records[i], rec);
      }
      PairwiseAppend(w.records, rec, InOrder);
    } else {
      PublishFailureAddsNoRecord(w, form, ts, f);
    }
  }

  /**
   * In a sequenced collection the last record inserted into a partition is a
   * possible answer of `find_new_version`, and it carries the partition's
   * largest sequence number.
   */
  lemma SequencedLastIsAnswer(records: seq<UpdatePkg>, project: string, platform: Platform, k: nat)
    requires Sequenced(records) && k < |records| && InPartition(records[k], project, platform)
    requires forall j :: k < j < |records| ==> !InPartition(records[j], project, platform)
    ensures HighestSequence(records, project, platform, records[k])
    ensures exists tie: nat :: FindNewVersion(records, project, platform, tie) == Some(records[k])
  {
    forall i | 0 <= i < |records| && InPartition(records[i], project, platform)
      ensures records[i].version <= records[k].version && !Less(records[k].appVersion, records[i].appVersion)
    {
      if i < k {
        assert InOrder(records[i], records[k]);
      } else {
        LessIrreflexive(records[k].appVersion);
      }
    }
    FindNewVersionCoversTies(records, project, platform, k);
  }

  /**
   * Republishing the greatest `app_version` when the store answers with the
   * first of two tied records repeats the sequence number of the second.
   */
  lemma EqualRepublishRepeatsSequence()
    ensures var a := UpdatePkg("p", None, None, "1", 0, false, None, true, Android);
      var b := a.(version := 1);
      var w := World(false, {}, [a, b]);
      var s := Publish(w, UploadForm("p", "1", None, None, Android, None, false), "t", UploadFaults(false, false, None, None, None, 0));
      && Sequenced(w.records)
      && s == Step(Ok(0), w.(records := [a, b, b]))
      && !Sequenced(s.world.records)
  {
    var a := UpdatePkg("p", None, None, "1", 0, false, None, true, Android);
    var b := a.(version := 1);
    var w := World(false, {}, [a, b]);
    var form := UploadForm("p", "1", None, None, Android, None, false);
    var f := UploadFaults(false, false, None, None, None, 0);
    assert w.records[..1] == [a] && [a][..0] == [];
    assert InPartition(a, "p", Android) && InPartition(b, "p", Android);
    assert TopRecord(w.records, "p", Android) == Some(b);
    assert Ties([a], "p", Android, "1") == [a];
    assert Ties(w.records, "p", Android, "1") == [a] + [b];
    assert FindNewVersion(w.records, "p", Android, 0) == Some(a);
    assert ResolveVersion(Some(a), "1") == Assigned(1);
    assert PlaceFile(w, form, "t", f) == Placed(w, None, true);
    var s := Publish(w, form, "t", f);
    assert s == Step(Ok(0), w.(records := [a, b, b]));
    assert !InOrder(s.world.records[1], s.world.records[2]);
  }

  /** Dropping a group keeps every pairwise property of the rest. */
  lemma {:induction false} WithoutGroupKeepsPairwise(records: seq<UpdatePkg>, project: string, appVersion: string, P: (UpdatePkg, UpdatePkg) -> bool)
    requires Pairwise(records, P)
    ensures Pairwise(WithoutGroup(records, project, appVersion), P)
    decreases |records|
  {
    if |records| > 0 {
      var n := |records|;
      var last := records[n - 1];
      var pre := records[..n - 1];
      PairwisePrefix(records, n - 1, P);
      WithoutGroupKeepsPairwise(pre, project, appVersion, P);
      var wp := WithoutGroup(pre, project, appVersion);
      var wr := WithoutGroup(records, project, appVersion);
      if !InGroup(last, project, appVersion) {
        assert wr == wp + [last];
        forall i | 0 <= i < |wp|
          ensures P(wp[i], last)
        {
          assert wp[i] in pre;
          var k :| 0 <= k < |pre| && pre[k] == wp[i];
          assert records[k] == wp[i];
        }
        PairwiseAppend(wp, last, P);
      }
    }
  }

  /** `remove` without a matching record answers "不存在" and changes nothing. */
  lemma RemoveRequestNotFound(w: World, project: string, appVersion: string, platform: Platform, f: RemoveRequestFaults)
    requires !f.lookupFails
    requires forall r :: r in w.records ==> !MatchesVersion(r, project, platform, appVersion)
    ensures RemoveRequest(w, project, appVersion, platform, f) == Step(Err(500, NotFound), w)
  {
    assert FindByVersion(w.records, project, platform, appVersion).None? by {
      forall i | 0 <= i < |w.records|
        ensures !MatchesVersion(w.records[i], project, platform, appVersion)
      {
        assert w.records[i] in w.records;
      }
    }
  }

  /** After a successful removal the same request finds nothing: removing twice answers "不存在" the second time. */
  lemma RemoveRequestTwice(w: World, project: string, appVersion: string, platform: Platform, f: RemoveRequestFaults, g: RemoveRequestFaults)
    requires RemoveRequest(w, project, appVersion, platform, f).response.Ok?
    requires !g.lookupFails
    ensures var s := RemoveRequest(w, project, appVersion, platform, f);
      RemoveRequest(s.world, project, appVersion, platform, g) == Step(Err(500, NotFound), s.world)
  {
    var pkg := FindByVersion(w.records, project, platform, appVersion).value;
    RemoveClearsGroup(w.files, w.records, pkg.projectName, pkg.appVersion, f.remove);
    var s := RemoveRequest(w, project, appVersion, platform, f);
    RemoveRequestNotFound(s.world, project, appVersion, platform, g);
  }

  /** Removals keep every pairwise property of the collection, among them `Sequenced` and `AppOrdered`. */
  lemma RemoveRequestPreservesPairwise(w: World, project: string, appVersion: string, platform: Platform, f: RemoveRequestFaults, P: (UpdatePkg, UpdatePkg) -> bool)
    requires Pairwise(w.records, P)
    ensures Pairwise(RemoveRequest(w, project, appVersion, platform, f).world.records, P)
  {
    if !f.lookupFails && FindByVersion(w.records, project, platform, appVersion).Some? {
      var pkg := FindByVersion(w.records, project, platform, appVersion).value;
      assert pkg.projectName == project && pkg.appVersion == appVersion;
      RemoveFilesBeforeMetadata(w.files, w.records, project, appVersion, f.remove);
      WithoutGroupKeepsPairwise(w.records, project, appVersion, P);
    }
  }

  /** No record outside the group shares a file name with a record inside it. */
  predicate FilesApart(records: seq<UpdatePkg>, project: string, appVersion: string) {
    forall x, y :: x in records && y in records && InGroup(y, project, appVersion) && !InGroup(x, project, appVersion) && x.pkgFileName.Some?
      ==> x.pkgFileName != y.pkgFileName
  }

  /**
   * A successful removal leaves no record without its file, provided no
   * record outside the release shares a file name with one inside it.
   */
  lemma RemoveRequestPreservesConsistent(w: World, project: string, appVersion: string, platform: Platform, f: RemoveRequestFaults)
    requires Consistent(w) && FilesApart(w.records, project, appVersion)
    requires RemoveRequest(w, project, appVersion, platform, f).response.Ok?
    ensures Consistent(RemoveRequest(w, project, appVersion, platform, f).world)
  {
    var pkg := FindByVersion(w.records, project, platform, appVersion).value;
    assert pkg.projectName == project && pkg.appVersion == appVersion;
    var out := RemoveEffect(w.files, w.records, project, appVersion, f.remove);
    RemoveKeepsOthers(w.files, w.records, project, appVersion, f.remove);
    RemoveClearsGroup(w.files, w.records, project, appVersion, f.remove);
    ConsistentAfterSweep(w, World(w.dirExists, out.files, out.records), project, appVersion);
  }

  lemma ConsistentAfterSweep(w: World, w': World, project: string, appVersion: string)
    requires Consistent(w) && FilesApart(w.records, project, appVersion)
    requires forall x :: x in w'.records ==> x in w.records && !InGroup(x, project, appVersion)
    requires w.files - w'.files <= FileNames(Matching(w.records, project, appVersion))
    ensures Consistent(w')
  {
  }
}
