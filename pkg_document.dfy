/**
 * `UpdatePkg` as a stored document (src/pkg/mod.rs:23-35 through the
 * `skip_serialize_none!` macro of src/lib.rs): the macro's field list, the
 * values the derived serialiser writes, the derived deserialiser, and the
 * round trip between them.
 */
module PkgDocument {
  import opened Wrappers
  import opened Pkg
  import opened SkipSerializeNone

  /** The fields of `UpdatePkg` as the macro call lists them, in declaration order. */
  const UpdatePkgFields: seq<FieldDecl> := [
    FieldDecl("project_name", false),
    FieldDecl("pkg_file_name", true),
    FieldDecl("pkg_link", true),
    FieldDecl("app_version", false),
    FieldDecl("version", false),
    FieldDecl("mandatory", false),
    FieldDecl("update_log", true),
    FieldDecl("full_pkg", false),
    FieldDecl("platform", false)
  ]

  /** The fields as the macro emits them into the struct. */
  const UpdatePkgSerde: seq<SerdeField> := Expand(UpdatePkgFields)

  // Field indices in declaration order.
  const ProjectName := 0
  const PkgFileName := 1
  const PkgLink := 2
  const AppVersion := 3
  const Version := 4
  const Mandatory := 5
  const UpdateLog := 6
  const FullPkg := 7
  const PlatformField := 8

  /** The document key of the field at index `i`. */
  function Key(i: nat): string
    requires i < |UpdatePkgFields|
  {
    ExpandKeepsFields(UpdatePkgFields);
    CamelCase(UpdatePkgSerde[i].name)
  }

  function OptString(o: Option<string>): Option<Bson> {
    match o
    case None => None
    case Some(s) => Some(BString(s))
  }

  /** The record's field values in declaration order; the platform is written as its tag. */
  function FieldValues(p: UpdatePkg): (vs: seq<FieldValue>)
    ensures |vs| == |UpdatePkgFields|
  {
    [ Plain(BString(p.projectName)),
      Opt(OptString(p.pkgFileName)),
      Opt(OptString(p.pkgLink)),
      Plain(BString(p.appVersion)),
      Plain(BInt(p.version)),
      Plain(BBool(p.mandatory)),
      Opt(OptString(p.updateLog)),
      Plain(BBool(p.fullPkg)),
      Plain(BString(PlatformTag(p.platform))) ]
  }

  /** The document `insert_one` stores for a record. */
  function ToDocument(p: UpdatePkg): Document {
    ExpandKeepsFields(UpdatePkgFields);
    Serialize(UpdatePkgSerde, FieldValues(p))
  }

  // ---------------------------------------------------------------------------
  // The derived deserialiser, one field type at a time

  const MissingField := "missing field"
  const InvalidType := "invalid type"
  const UnknownVariant := "unknown variant"

  function ReadString(doc: Document, key: string): Result<string, string> {
    match Lookup(doc, key)
    case None => Failure(MissingField)
    case Some(BString(s)) => Success(s)
    case Some(_) => Failure(InvalidType)
  }

  /** An `Option<String>`: an absent key or a null reads as `None`. */
  function ReadOptString(doc: Document, key: string): Result<Option<string>, string> {
    match Lookup(doc, key)
    case None => Success(None)
    case Some(BNull) => Success(None)
    case Some(BString(s)) => Success(Some(s))
    case Some(_) => Failure(InvalidType)
  }

  function ReadU32(doc: Document, key: string): Result<U32, string> {
    match Lookup(doc, key)
    case None => Failure(MissingField)
    case Some(BInt(i)) => if 0 <= i <= MAX_U32 then Success(i) else Failure(InvalidType)
    case Some(_) => Failure(InvalidType)
  }

  function ReadBool(doc: Document, key: string): Result<bool, string> {
    match Lookup(doc, key)
    case None => Failure(MissingField)
    case Some(BBool(b)) => Success(b)
    case Some(_) => Failure(InvalidType)
  }

  function ReadPlatform(doc: Document, key: string): Result<Platform, string> {
    match Lookup(doc, key)
    case None => Failure(MissingField)
    case Some(BString(tag)) =>
      (match PlatformFromTag(tag)
       case Some(p) => Success(p)
       case None => Failure(UnknownVariant))
    case Some(_) => Failure(InvalidType)
  }

  /** Reading a record from a document whose keys are those of `fields`; the first bad field decides the error. */
  function Deserialize(fields: seq<SerdeField>, doc: Document): Result<UpdatePkg, string>
    requires |fields| == |UpdatePkgFields|
  {
    var projectName :- ReadString(doc, CamelCase(fields[ProjectName].name));
    var pkgFileName :- ReadOptString(doc, CamelCase(fields[PkgFileName].name));
    var pkgLink :- ReadOptString(doc, CamelCase(fields[PkgLink].name));
    var appVersion :- ReadString(doc, CamelCase(fields[AppVersion].name));
    var version :- ReadU32(doc, CamelCase(fields[Version].name));
    var mandatory :- ReadBool(doc, CamelCase(fields[Mandatory].name));
    var updateLog :- ReadOptString(doc, CamelCase(fields[UpdateLog].name));
    var fullPkg :- ReadBool(doc, CamelCase(fields[FullPkg].name));
    var platform :- ReadPlatform(doc, CamelCase(fields[PlatformField].name));
    Success(UpdatePkg(projectName, pkgFileName, pkgLink, appVersion, version, mandatory, updateLog, fullPkg, platform))
  }

  /** Reading a stored document back as a record (what `find_one` and the cursor do). */
  function FromDocument(doc: Document): Result<UpdatePkg, string> {
    ExpandKeepsFields(UpdatePkgFields);
    Deserialize(UpdatePkgSerde, doc)
  }

  // ---------------------------------------------------------------------------
  // The round trip

  /** The three `Option<String>` fields carry the skip attribute. */
  predicate SkipsOptions(fields: seq<SerdeField>) {
    |fields| == |UpdatePkgFields| &&
    fields[PkgFileName].skipIfNone && fields[PkgLink].skipIfNone && fields[UpdateLog].skipIfNone
  }

  /**
   * `doc` holds `p` under `fields`' keys: each required field's value, and
   * each optional field's value when it is `Some` and no key at all when it
   * is `None`.
   */
  predicate Stores(fields: seq<SerdeField>, doc: Document, p: UpdatePkg)
    requires |fields| == |UpdatePkgFields|
  {
    StoresFront(fields, doc, p) && StoresMiddle(fields, doc, p) && StoresBack(fields, doc, p)
  }

  /** The three fields before `app_version`. */
  predicate StoresFront(fields: seq<SerdeField>, doc: Document, p: UpdatePkg)
    requires |fields| == |UpdatePkgFields|
  {
    Lookup(doc, CamelCase(fields[ProjectName].name)) == Some(BString(p.projectName)) &&
    Lookup(doc, CamelCase(fields[PkgFileName].name)) == OptString(p.pkgFileName) &&
    Lookup(doc, CamelCase(fields[PkgLink].name)) == OptString(p.pkgLink)
  }

  /** `app_version`, `version` and `mandatory`. */
  predicate StoresMiddle(fields: seq<SerdeField>, doc: Document, p: UpdatePkg)
    requires |fields| == |UpdatePkgFields|
  {
    Lookup(doc, CamelCase(fields[AppVersion].name)) == Some(BString(p.appVersion)) &&
    Lookup(doc, CamelCase(fields[Version].name)) == Some(BInt(p.version)) &&
    Lookup(doc, CamelCase(fields[Mandatory].name)) == Some(BBool(p.mandatory))
  }

  /** The three fields after `mandatory`. */
  predicate StoresBack(fields: seq<SerdeField>, doc: Document, p: UpdatePkg)
    requires |fields| == |UpdatePkgFields|
  {
    Lookup(doc, CamelCase(fields[UpdateLog].name)) == OptString(p.updateLog) &&
    Lookup(doc, CamelCase(fields[FullPkg].name)) == Some(BBool(p.fullPkg)) &&
    Lookup(doc, CamelCase(fields[PlatformField].name)) == Some(BString(PlatformTag(p.platform)))
  }

  lemma SerializeStores(fields: seq<SerdeField>, p: UpdatePkg)
    requires SkipsOptions(fields) && DistinctKeys(fields)
    ensures Stores(fields, Serialize(fields, FieldValues(p)), p)
  {
    SerializeStoresFront(fields, p);
    SerializeStoresMiddle(fields, p);
    SerializeStoresBack(fields, p);
  }

  lemma SerializeStoresFront(fields: seq<SerdeField>, p: UpdatePkg)
    requires SkipsOptions(fields) && DistinctKeys(fields)
    ensures StoresFront(fields, Serialize(fields, FieldValues(p)), p)
  {
    var vs := FieldValues(p);
    LookupSerialized(fields, vs, ProjectName);
    LookupSerialized(fields, vs, PkgFileName);
    LookupSerialized(fields, vs, PkgLink);
  }

  lemma SerializeStoresMiddle(fields: seq<SerdeField>, p: UpdatePkg)
    requires SkipsOptions(fields) && DistinctKeys(fields)
    ensures StoresMiddle(fields, Serialize(fields, FieldValues(p)), p)
  {
    var vs := FieldValues(p);
    LookupSerialized(fields, vs, AppVersion);
    LookupSerialized(fields, vs, Version);
    LookupSerialized(fields, vs, Mandatory);
  }

  lemma SerializeStoresBack(fields: seq<SerdeField>, p: UpdatePkg)
    requires SkipsOptions(fields) && DistinctKeys(fields)
    ensures StoresBack(fields, Serialize(fields, FieldValues(p)), p)
  {
    var vs := FieldValues(p);
    LookupSerialized(fields, vs, UpdateLog);
    LookupSerialized(fields, vs, FullPkg);
    LookupSerialized(fields, vs, PlatformField);
  }

  lemma DeserializeStored(fields: seq<SerdeField>, doc: Document, p: UpdatePkg)
    requires |fields| == |UpdatePkgFields| && Stores(fields, doc, p)
    ensures Deserialize(fields, doc) == Success(p)
  {
    assert ReadString(doc, CamelCase(fields[ProjectName].name)) == Success(p.projectName);
    assert ReadOptString(doc, CamelCase(fields[PkgFileName].name)) == Success(p.pkgFileName);
    assert ReadOptString(doc, CamelCase(fields[PkgLink].name)) == Success(p.pkgLink);
    assert ReadString(doc, CamelCase(fields[AppVersion].name)) == Success(p.appVersion);
    assert ReadU32(doc, CamelCase(fields[Version].name)) == Success(p.version);
    assert ReadBool(doc, CamelCase(fields[Mandatory].name)) == Success(p.mandatory);
    assert ReadOptString(doc, CamelCase(fields[UpdateLog].name)) == Success(p.updateLog);
    assert ReadBool(doc, CamelCase(fields[FullPkg].name)) == Success(p.fullPkg);
    PlatformTagRoundTrip(p.platform);
    assert ReadPlatform(doc, CamelCase(fields[PlatformField].name)) == Success(p.platform);
  }

  lemma UpdatePkgNamesSnakeCase()
    ensures forall i :: 0 <= i < |UpdatePkgFields| ==> IsSnakeCase(UpdatePkgFields[i].name)
  {
    FirstNamesSnakeCase();
    MiddleNamesSnakeCase();
    LastNamesSnakeCase();
  }

  lemma FirstNamesSnakeCase()
    ensures IsSnakeCase("project_name") && IsSnakeCase("pkg_file_name") && IsSnakeCase("pkg_link")
  {
  }

  lemma MiddleNamesSnakeCase()
    ensures IsSnakeCase("app_version") && IsSnakeCase("version") && IsSnakeCase("mandatory")
  {
  }

  lemma LastNamesSnakeCase()
    ensures IsSnakeCase("update_log") && IsSnakeCase("full_pkg") && IsSnakeCase("platform")
  {
  }

  lemma UpdatePkgNamesDistinct()
    ensures forall i, j :: 0 <= i < j < |UpdatePkgFields| ==> UpdatePkgFields[i].name != UpdatePkgFields[j].name
  {
  }

  /** The field names are snake_case and pairwise distinct, so no two fields of `UpdatePkg` share a key. */
  lemma UpdatePkgKeysDistinct()
    ensures DistinctKeys(UpdatePkgSerde)
  {
    ExpandKeepsFields(UpdatePkgFields);
    UpdatePkgNamesSnakeCase();
    UpdatePkgNamesDistinct();
    forall i | 0 <= i < |UpdatePkgSerde|
      ensures IsSnakeCase(UpdatePkgSerde[i].name)
    {
      assert UpdatePkgSerde[i].name == UpdatePkgFields[i].name;
    }
    forall i, j | 0 <= i < j < |UpdatePkgSerde|
      ensures UpdatePkgSerde[i].name != UpdatePkgSerde[j].name
    {
      assert UpdatePkgSerde[i].name == UpdatePkgFields[i].name;
      assert UpdatePkgSerde[j].name == UpdatePkgFields[j].name;
    }
    DistinctNamesDistinctKeys(UpdatePkgSerde);
  }

  /** Exactly the three `Option<String>` fields of `UpdatePkg` get the skip attribute. */
  lemma UpdatePkgSkips()
    ensures SkipsOptions(UpdatePkgSerde)
    ensures forall i :: 0 <= i < |UpdatePkgSerde| ==>
      (UpdatePkgSerde[i].skipIfNone <==> i == PkgFileName || i == PkgLink || i == UpdateLog)
  {
    ExpandKeepsFields(UpdatePkgFields);
  }

  /** The stored document of a record holds its fields under their keys, with `None` options left out. */
  lemma StoredDocument(p: UpdatePkg)
    ensures Stores(UpdatePkgSerde, ToDocument(p), p)
  {
    UpdatePkgKeysDistinct();
    UpdatePkgSkips();
    SerializeStores(UpdatePkgSerde, p);
  }

  /** An optional field's key is in the stored document exactly when the field holds `Some`; required keys always are. */
  lemma StoredKeys(p: UpdatePkg)
    ensures Lookup(ToDocument(p), Key(PkgFileName)).Some? <==> p.pkgFileName.Some?
    ensures Lookup(ToDocument(p), Key(PkgLink)).Some? <==> p.pkgLink.Some?
    ensures Lookup(ToDocument(p), Key(UpdateLog)).Some? <==> p.updateLog.Some?
    ensures Lookup(ToDocument(p), Key(ProjectName)).Some? && Lookup(ToDocument(p), Key(AppVersion)).Some?
    ensures Lookup(ToDocument(p), Key(Version)).Some? && Lookup(ToDocument(p), Key(Mandatory)).Some?
    ensures Lookup(ToDocument(p), Key(FullPkg)).Some? && Lookup(ToDocument(p), Key(PlatformField)).Some?
  {
    StoredDocument(p);
  }

  lemma KeyOfTwoWords(i: nat, a: string, b: string)
    requires i < |UpdatePkgFields| && UpdatePkgFields[i].name == a + "_" + b
    requires a != [] && LowerWord(a) && b != [] && LowerWord(b)
    ensures Key(i) == a + [UpperAscii(b[0])] + b[1..]
  {
    ExpandKeepsFields(UpdatePkgFields);
    CamelCaseTwoWords(a, b);
  }

  lemma KeyOfOneWord(i: nat, w: string)
    requires i < |UpdatePkgFields| && UpdatePkgFields[i].name == w
    requires w != [] && LowerWord(w)
    ensures Key(i) == w
  {
    ExpandKeepsFields(UpdatePkgFields);
    CamelCaseFirstWord(w, []);
    assert w + [] == w;
  }

  /** The words of the three filtered field names, proved apart from the keys so the literals stay small. */
  lemma FilterNames()
    ensures UpdatePkgFields[ProjectName].name == "project" + "_" + "name"
    ensures UpdatePkgFields[AppVersion].name == "app" + "_" + "version"
    ensures UpdatePkgFields[PlatformField].name == "platform"
    ensures LowerWord("project") && LowerWord("name") && LowerWord("app") && LowerWord("version") && LowerWord("platform")
    ensures "project" + [UpperAscii('n')] + "ame" == "projectName"
    ensures "app" + [UpperAscii('v')] + "ersion" == "appVersion"
  {
  }

  /** The keys the queries filter on are the stored keys of `project_name`, `app_version` and `platform`. */
  lemma FilterKeys()
    ensures Key(ProjectName) == "projectName"
    ensures Key(AppVersion) == "appVersion"
    ensures Key(PlatformField) == "platform"
  {
    FilterNames();
    KeyOfTwoWords(ProjectName, "project", "name");
    KeyOfTwoWords(AppVersion, "app", "version");
    KeyOfOneWord(PlatformField, "platform");
  }

  lemma KeyOfThreeWords(i: nat, a: string, b: string, c: string)
    requires i < |UpdatePkgFields| && UpdatePkgFields[i].name == a + "_" + b + "_" + c
    requires a != [] && LowerWord(a) && b != [] && LowerWord(b) && c != [] && LowerWord(c)
    ensures Key(i) == a + [UpperAscii(b[0])] + b[1..] + [UpperAscii(c[0])] + c[1..]
  {
    ExpandKeepsFields(UpdatePkgFields);
    CamelCaseThreeWords(a, b, c);
  }

  /** The words of the other six field names, proved apart from the keys so the literals stay small. */
  lemma OtherNames()
    ensures UpdatePkgFields[PkgFileName].name == "pkg" + "_" + "file" + "_" + "name"
    ensures UpdatePkgFields[PkgLink].name == "pkg" + "_" + "link"
    ensures UpdatePkgFields[Version].name == "version"
    ensures UpdatePkgFields[Mandatory].name == "mandatory"
    ensures UpdatePkgFields[UpdateLog].name == "update" + "_" + "log"
    ensures UpdatePkgFields[FullPkg].name == "full" + "_" + "pkg"
    ensures LowerWord("pkg") && LowerWord("file") && LowerWord("name") && LowerWord("link") && LowerWord("version")
    ensures LowerWord("mandatory") && LowerWord("update") && LowerWord("log") && LowerWord("full")
    ensures "pkg" + [UpperAscii('f')] + "ile" + [UpperAscii('n')] + "ame" == "pkgFileName"
    ensures "pkg" + [UpperAscii('l')] + "ink" == "pkgLink"
    ensures "update" + [UpperAscii('l')] + "og" == "updateLog"
    ensures "full" + [UpperAscii('p')] + "kg" == "fullPkg"
  {
  }

  /** The stored keys of the six fields no query filters on. */
  lemma OtherKeys()
    ensures Key(PkgFileName) == "pkgFileName"
    ensures Key(PkgLink) == "pkgLink"
    ensures Key(Version) == "version"
    ensures Key(Mandatory) == "mandatory"
    ensures Key(UpdateLog) == "updateLog"
    ensures Key(FullPkg) == "fullPkg"
  {
    OtherNames();
    KeyOfThreeWords(PkgFileName, "pkg", "file", "name");
    KeyOfTwoWords(PkgLink, "pkg", "link");
    KeyOfOneWord(Version, "version");
    KeyOfOneWord(Mandatory, "mandatory");
    KeyOfTwoWords(UpdateLog, "update", "log");
    KeyOfTwoWords(FullPkg, "full", "pkg");
  }

  /** A stored record matches the filter `{projectName, platform}` of `find_new_version` exactly when it is in that partition. */
  lemma PartitionFilter(p: UpdatePkg, project: string, platform: Platform)
    ensures Lookup(ToDocument(p), "projectName") == Some(BString(project))
        && Lookup(ToDocument(p), "platform") == Some(BString(PlatformTag(platform)))
      <==> InPartition(p, project, platform)
  {
    StoredDocument(p);
    FilterKeys();
  }

  /** A stored record matches the filter `{projectName, appVersion, platform}` of `find_by_version` exactly when `MatchesVersion` holds. */
  lemma VersionFilter(p: UpdatePkg, project: string, platform: Platform, appVersion: string)
    ensures Lookup(ToDocument(p), "projectName") == Some(BString(project))
        && Lookup(ToDocument(p), "appVersion") == Some(BString(appVersion))
        && Lookup(ToDocument(p), "platform") == Some(BString(PlatformTag(platform)))
      <==> MatchesVersion(p, project, platform, appVersion)
  {
    PartitionFilter(p, project, platform);
    GroupFilter(p, project, appVersion);
  }

  /** A stored record matches the filter `{projectName, appVersion}` of `remove` exactly when it is in that group. */
  lemma GroupFilter(p: UpdatePkg, project: string, appVersion: string)
    ensures Lookup(ToDocument(p), "projectName") == Some(BString(project))
        && Lookup(ToDocument(p), "appVersion") == Some(BString(appVersion))
      <==> InGroup(p, project, appVersion)
  {
    StoredDocument(p);
    FilterKeys();
  }

  /** Deserialising a stored record gives the same record back. */
  lemma RoundTrip(p: UpdatePkg)
    ensures FromDocument(ToDocument(p)) == Success(p)
  {
    StoredDocument(p);
    ExpandKeepsFields(UpdatePkgFields);
    DeserializeStored(UpdatePkgSerde, ToDocument(p), p);
  }
}
