# cpush update-package server: publish and removal core

cpush is a small HTTP server that distributes application update packages.
An operator publishes a package, which is a binary plus a metadata record. The
record holds the project, the `app_version`, a per-partition sequence number,
the mandatory flag, the release notes, the platform and whether it is a full
package or a patch. The operator can also withdraw a release. This project
models the server's publish and removal logic in Dafny and proves its
guarantees. Two stores take part:

- **File store.** The directory `./pkgs`, modelled by the class
  `Pkg.FileStore` with the flag `dirExists` and the set of stored names
  `files`.
- **Metadata store.** The MongoDB collection `pkg`, modelled by the class
  `Pkg.MetaStore` with the sequence `records` in insertion order.

What the environment does is an explicit parameter of each operation: a
failing query, an error from `create_dir_all`, `persist`, `insert_one`,
`remove_file` or `delete_many`, and a failing existence probe. The fault
datatypes carry it:

- `UploadFaults`;
- `FileFaults`, `RemoveFaults` and `RemoveRequestFaults`.

The clock reading that names the stored file is the parameter `ts`.

Files:

- `wrappers.dfy`: `Option`, `Result`, and `Outcome<E>` (`Pass` or `Fail(error)`), which stands for `anyhow::Result<()>`.
- `lex.dfy`: byte-wise lexicographic `Less` on strings, which is Rust's `String` `<`, and its order laws. Dafny's own `<` on sequences means "proper prefix", so it is not used.
- `pkg.dfy`: module `Pkg`, for `src/pkg/mod.rs`. It holds:
  - `Platform` and its storage tag, and the `UpdatePkg` record;
  - the two store classes;
  - the queries `find_new_version` and `find_by_version`, and `save`;
  - `del_file`, and `remove` with its cursor loop.
- `skip_serialize_none.dfy`: module `SkipSerializeNone`, for the `skip_serialize_none!` macro of `src/lib.rs`. It holds:
  - the token muncher as a recursive function over field declarations;
  - serde's camelCase renaming;
  - serialisation into a document that omits skipped `None` fields.
- `pkg_document.dfy`: module `PkgDocument`, the macro applied to `UpdatePkg`. It holds the stored document, the derived deserialiser and the round trip.
- `api.dfy`: module `Api`, for `src/api/mod.rs`. The handlers `upload` and `remove` are the methods `Upload` and `RemoveHandler` over the two stores. Each is proved against a function that gives the response and both new stores: `Publish` and `RemoveRequest`. The lemmas state what the handlers promise.

Points where the code's behaviour may be unexpected:

- **Order of checks.** `upload` checks the version (src/api/mod.rs:42-52) before the file extension (:54-63), so a bad file type is reported only after the version is accepted.
- **Success response.** Success answers `ok(0)` (src/api/mod.rs:106). The assigned sequence number is not returned.
- **Rejection rule.** A publish is rejected only when the latest `app_version` is strictly greater (:46), so re-publishing an equal version is accepted with the next sequence number.
- **String comparison.** Versions compare as strings (`Lex.TenSortsBelowNine`). After `1.9.0`, a request for `1.10.0` is therefore rejected.
- **Removal scope.** `remove` finds the release on one platform (:122-131), then deletes files and records of that `(project, app_version)` on every platform (src/pkg/mod.rs:92-100).

## Model

| member | source | states |
|---|---|---|
| Lex.Less | src/api/mod.rs:46 | Rust's `<` on `String`: byte-wise lexicographic order, a proper prefix sorting first; also the order of the `appVersion` sort at src/pkg/mod.rs:68; its laws are the lemmas below |
| Lex.LessIrreflexive | src/api/mod.rs:46 | no string is greater than itself, so an equal `app_version` is never rejected |
| Lex.LessTransitive | src/api/mod.rs:46 | the string order used for rejection is transitive |
| Lex.LessTrichotomy | src/api/mod.rs:46 | any two distinct strings are ordered one way or the other |
| Lex.LessAsymmetric | src/api/mod.rs:46 | two strings are never each greater than the other |
| Lex.NotLessTransitive | src/pkg/mod.rs:67-69 | "not below" is transitive, as the `appVersion` sort of the latest-record query requires |
| Lex.PrefixIsLess | src/api/mod.rs:46 | a proper prefix sorts before its extensions |
| Lex.TenSortsBelowNine | src/api/mod.rs:46 | `"1.10.0"` sorts below `"1.9.0"` in string order although it is not a prefix |
| Pkg.PlatformTag | src/pkg/mod.rs:17-21 | the stored and filtered value of a platform is the name of its variant (`Android`, `Ios`, `Full`); its properties are `Pkg.PlatformFromTag`, `Pkg.PlatformTagRoundTrip` and `Pkg.PlatformTagInjective` |
| Pkg.PlatformFromTag | src/pkg/mod.rs:10-21 | reading a tag gives the platform whose tag it is, and fails exactly for strings other than `Android`, `Ios`, `Full` |
| Pkg.PlatformTagRoundTrip | src/pkg/mod.rs:17-21 | the stored tag of every platform reads back as that platform |
| Pkg.PlatformTagInjective | src/pkg/mod.rs:17-21 | two platforms have the same tag iff they are equal |
| Pkg.InPartition | src/pkg/mod.rs:63-66 | the filter `{projectName, platform}` of `find_new_version` on a record; `PkgDocument.PartitionFilter` ties it to the stored keys |
| Pkg.InGroup | src/pkg/mod.rs:92-95 | the filter `{projectName, appVersion}` of `remove`, on every platform; `PkgDocument.GroupFilter` ties it to the stored keys |
| Pkg.MatchesVersion | src/pkg/mod.rs:81-85 | the filter `{projectName, appVersion, platform}` of `find_by_version`; `PkgDocument.VersionFilter` ties it to the stored keys |
| Pkg.FileStore.CreateDirAll | src/api/mod.rs:69-71 | the directory exists afterwards unless creation fails; no file changes |
| Pkg.FileStore.Persist | src/api/mod.rs:84-86 | the name is added exactly when persisting succeeds, which needs the directory; otherwise nothing changes and the error is reported |
| Pkg.FileStore.RemoveFile | src/pkg/mod.rs:110 | the name is removed exactly when it exists and no error occurs; otherwise nothing changes |
| Pkg.MetaStore.InsertOne | src/pkg/mod.rs:53 | on success the record is appended at the end; on error the collection is unchanged |
| Pkg.MetaStore.DeleteMany | src/pkg/mod.rs:100 | on success exactly the records outside the `(project, app_version)` group remain, in order; on error nothing changes |
| Pkg.Matching | src/pkg/mod.rs:92-96 | holds exactly the records of the `(project, app_version)` group, on any platform |
| Pkg.WithoutGroup | src/pkg/mod.rs:100 | holds exactly the records outside the group |
| Pkg.GroupSplit | src/pkg/mod.rs:92-100 | the group and the rest together are a permutation of the collection |
| Pkg.Ties | src/pkg/mod.rs:63-69 | holds exactly the records of the `(project, platform)` partition with the given `app_version` |
| Pkg.TopRecord | src/pkg/mod.rs:63-69 | None iff the partition is empty; otherwise a record of the partition |
| Pkg.TopRecordIsMaximal | src/pkg/mod.rs:67-69 | no record of the partition has an `app_version` greater than `TopRecord`'s |
| Pkg.TopRecordTiesMaximal | src/pkg/mod.rs:67-69 | a record of the partition that no record exceeds has `TopRecord`'s `app_version` |
| Pkg.FindNewVersion | src/pkg/mod.rs:57-72 | for every choice among tied records: None iff the partition is empty; otherwise a record of the collection in that partition |
| Pkg.FindNewVersionIsMaximal | src/pkg/mod.rs:67-69 | whichever tie is returned, no record of the partition has a greater `app_version` |
| Pkg.FindNewVersionCoversTies | src/pkg/mod.rs:67-69 | every record of the partition that no record exceeds is returned for some choice among the ties, so the sort on `appVersion` alone decides nothing more |
| Pkg.FindByVersion | src/pkg/mod.rs:74-88 | None iff no record matches project, `app_version` and platform; otherwise a record of the collection matching all three |
| Pkg.Save | src/pkg/mod.rs:51-55 | success appends exactly the record; an error leaves the collection unchanged |
| Pkg.DelFileEffect | src/pkg/mod.rs:104-113 | removes at most the record's own file; removes it unless its probe fails, and keeps the directory as it was when the probe fails; fails iff the file exists, its probe succeeds and removal errs |
| Pkg.DelFileNoFileIsNoOp | src/pkg/mod.rs:105-109 | a record without a file, or whose file is absent, succeeds and changes nothing |
| Pkg.DelFileIdempotent | src/pkg/mod.rs:104-113 | repeating a successful `del_file` succeeds with the same directory |
| Pkg.DelFile | src/pkg/mod.rs:104-113 | the method does to the directory what `DelFileEffect` says and reports its error |
| Pkg.DelFiles | src/pkg/mod.rs:96-99 | the cursor loop as a sweep: `del_file` on each record in turn, stopping at the first error; its properties are the `DelFiles…` lemmas below |
| Pkg.FileNames | src/pkg/mod.rs:96-99 | holds exactly the file names the given records carry |
| Pkg.DelFilesRemovesGroupFiles | src/pkg/mod.rs:96-99 | the sweep over the group only removes the group's files; when it completes, every group file whose probe succeeds is gone |
| Pkg.DelFilesOfAbsentFiles | src/pkg/mod.rs:96-99 | a sweep over records whose files are all absent changes nothing and succeeds |
| Pkg.DelFilesStep | src/pkg/mod.rs:97-98 | a sweep one record longer applies `del_file` to that record after the shorter sweep |
| Pkg.DelFilesStopsAtError | src/pkg/mod.rs:98 | after the first failing `del_file` the later records are not visited |
| Pkg.DelFilesLoop | src/pkg/mod.rs:96-99 | the cursor loop leaves the directory as the sweep says and fails with the sweep's first error |
| Pkg.RemoveEffect | src/pkg/mod.rs:90-101 | `remove` on values: a failing `find` or `del_file` leaves the records, `delete_many` runs only after the sweep succeeded; its properties are the `Remove…` lemmas below |
| Pkg.Remove | src/pkg/mod.rs:90-101 | both stores and the result are those of `RemoveEffect`: the sweep, then `delete_many` only if the sweep succeeded |
| Pkg.RemoveClearsGroup | src/pkg/mod.rs:100 | after a successful removal no record of the group remains, on any platform |
| Pkg.RemoveDeletesGroupFiles | src/pkg/mod.rs:96-100 | after a successful removal the file of every group record is absent, except where the existence probe failed |
| Pkg.RemoveKeepsOthers | src/pkg/mod.rs:92-100 | records outside the group all remain, none is added, and only the group's files can disappear |
| Pkg.RemoveFilesBeforeMetadata | src/pkg/mod.rs:96-100 | records change only on success, to exactly the records outside the group; whenever records change, the group's files are already gone |
| SkipSerializeNone.Munch | src/lib.rs:15-27 | each step of the muncher appends the next field after those already accumulated, keeping its name and marking `Option` fields to skip |
| SkipSerializeNone.Expand | src/lib.rs:28-29 | the macro's entry rule: munch the declarations from an empty accumulator; `SkipSerializeNone.ExpandKeepsFields` states the result |
| SkipSerializeNone.ExpandKeepsFields | src/lib.rs:28-29 | the expanded struct has the declared fields, in order, and exactly the `Option` fields carry the skip attribute |
| SkipSerializeNone.CamelFrom | src/lib.rs:10 | serde's camelCase pass over the rest of a name: `_` dropped, a letter after it capitalised, the first letter of the name lower-cased |
| SkipSerializeNone.CamelCase | src/lib.rs:10 | the key `rename_all = "camelCase"` gives a field; its properties are the camelCase lemmas below |
| SkipSerializeNone.CamelFromDropsUnderscores | src/lib.rs:10 | the camelCase pass drops every `_` and no other character |
| SkipSerializeNone.CamelCaseHasNoUnderscore | src/lib.rs:10 | a key has no `_` and is the field name's length minus its underscores |
| SkipSerializeNone.CamelFromLowerWord | src/lib.rs:10 | lower-case letters pass through unchanged |
| SkipSerializeNone.CamelFromConcat | src/lib.rs:10 | renaming a name made of a word and a remainder renames the word, then the remainder |
| SkipSerializeNone.CamelCaseFirstWord | src/lib.rs:10 | the first word of a field name is kept as it is (`full` of `full_pkg`) |
| SkipSerializeNone.CamelCaseNextWord | src/lib.rs:10 | every later word loses its `_` and is capitalised (`_pkg` to `Pkg`) |
| SkipSerializeNone.CamelCaseTwoWords | src/lib.rs:10 | a two-word name becomes the first word and the capitalised second (`app_version` to `appVersion`) |
| SkipSerializeNone.CamelCaseThreeWords | src/lib.rs:10 | a three-word name becomes the first word and the other two capitalised (`pkg_file_name` to `pkgFileName`) |
| SkipSerializeNone.SnakeTailDrop | src/lib.rs:10 | a suffix of a snake_case tail is a snake_case tail |
| SkipSerializeNone.CamelTailRoundTrip | src/lib.rs:10 | reading a renamed snake_case tail back gives the original |
| SkipSerializeNone.CamelCaseRoundTrip | src/lib.rs:10 | for a snake_case field name, reading the camelCase key back gives the field name |
| SkipSerializeNone.CamelCaseInjective | src/lib.rs:10 | distinct snake_case field names get distinct keys |
| SkipSerializeNone.Lookup | src/lib.rs:9 | a key lookup finds nothing iff no entry has the key, and otherwise returns an entry's value |
| SkipSerializeNone.Serialize | src/lib.rs:9-26 | the derived serialiser: each field under its key, in declaration order, except a `None` that carries the skip attribute; its properties are the serialisation lemmas below |
| SkipSerializeNone.DistinctNamesDistinctKeys | src/lib.rs:10 | distinct snake_case names give a struct whose keys are pairwise distinct |
| SkipSerializeNone.SerializeOnlyFieldKeys | src/lib.rs:9-13 | a key that no field has is absent from the document |
| SkipSerializeNone.LookupSerialized | src/lib.rs:15-20 | under distinct keys, a field's key holds its value, except that a skipped `None` has no key at all |
| SkipSerializeNone.SerializeAt | src/lib.rs:15-29 | an emitted field sits at the position counted by the emitted fields before it |
| SkipSerializeNone.SerializeLength | src/lib.rs:15-26 | the document has one entry per emitted field |
| SkipSerializeNone.SerializeKeepsDeclarationOrder | src/lib.rs:15-29 | of two emitted fields, the earlier-declared one comes first |
| PkgDocument.FieldValues | src/pkg/mod.rs:23-35 | one value per declared `UpdatePkg` field |
| PkgDocument.ToDocument | src/pkg/mod.rs:23-35 | the document `insert_one` stores for a record: `Serialize` over the macro's expansion of `UpdatePkg` |
| PkgDocument.Deserialize | src/lib.rs:9 | the derived deserialiser: every key read with its type; a missing or mistyped required key fails, a missing option reads as `None` |
| PkgDocument.FromDocument | src/lib.rs:9 | `Deserialize` over the macro's expansion of `UpdatePkg`; `PkgDocument.RoundTrip` states that it inverts `ToDocument` |
| PkgDocument.SerializeStores | src/lib.rs:15-26 | the document holds every field of the record under its key, and no key for a `None` option |
| PkgDocument.SerializeStoresFront | src/pkg/mod.rs:25-27 | the same, for `project_name`, `pkg_file_name`, `pkg_link` |
| PkgDocument.SerializeStoresMiddle | src/pkg/mod.rs:28-30 | the same, for `app_version`, `version`, `mandatory` |
| PkgDocument.SerializeStoresBack | src/pkg/mod.rs:31-33 | the same, for `update_log`, `full_pkg`, `platform` |
| PkgDocument.DeserializeStored | src/lib.rs:9 | a document holding the record's fields under their keys deserialises to the record, an absent option reading as `None` |
| PkgDocument.UpdatePkgNamesSnakeCase | src/pkg/mod.rs:25-33 | every `UpdatePkg` field name is snake_case |
| PkgDocument.FirstNamesSnakeCase | src/pkg/mod.rs:25-27 | `project_name`, `pkg_file_name`, `pkg_link` are snake_case |
| PkgDocument.MiddleNamesSnakeCase | src/pkg/mod.rs:28-30 | `app_version`, `version`, `mandatory` are snake_case |
| PkgDocument.LastNamesSnakeCase | src/pkg/mod.rs:31-33 | `update_log`, `full_pkg`, `platform` are snake_case |
| PkgDocument.UpdatePkgNamesDistinct | src/pkg/mod.rs:25-33 | the field names are pairwise distinct |
| PkgDocument.UpdatePkgKeysDistinct | src/pkg/mod.rs:23-35 | no two `UpdatePkg` fields share a document key |
| PkgDocument.UpdatePkgSkips | src/pkg/mod.rs:23-35 | exactly `pkg_file_name`, `pkg_link` and `update_log` carry the skip attribute |
| PkgDocument.StoredDocument | src/pkg/mod.rs:23-35 | the stored document of a record holds each of its fields under its key |
| PkgDocument.StoredKeys | src/lib.rs:15-26 | an optional key is present iff the field is `Some`; every other key is always present (the literal keys are `PkgDocument.FilterKeys` and `PkgDocument.OtherKeys`) |
| PkgDocument.KeyOfTwoWords | src/lib.rs:10 | the key of a field named `a_b` is `a` followed by `b` capitalised |
| PkgDocument.KeyOfOneWord | src/lib.rs:10 | the key of a one-word field is its name |
| PkgDocument.KeyOfThreeWords | src/lib.rs:10 | the key of a field named `a_b_c` is `a` followed by `b` and `c` capitalised |
| PkgDocument.FilterNames | src/pkg/mod.rs:25-33 | `project_name` and `app_version` are two lower-case words and `platform` one, spelling `projectName` and `appVersion` once capitalised |
| PkgDocument.FilterKeys | src/pkg/mod.rs:64-65 | the stored keys of `project_name`, `app_version` and `platform` are the literal keys `projectName`, `appVersion` and `platform` that the queries filter on (also :82-84, :93-94) |
| PkgDocument.OtherNames | src/pkg/mod.rs:25-33 | the words of the other six field names and the capitalised keys they spell |
| PkgDocument.OtherKeys | src/pkg/mod.rs:25-33 | the stored keys of the other six fields are `pkgFileName`, `pkgLink`, `version`, `mandatory`, `updateLog` and `fullPkg` |
| PkgDocument.PartitionFilter | src/pkg/mod.rs:63-66 | a stored record matches `{projectName, platform}` iff `InPartition` holds of the record |
| PkgDocument.VersionFilter | src/pkg/mod.rs:81-85 | a stored record matches `{projectName, appVersion, platform}` iff `MatchesVersion` holds of the record |
| PkgDocument.GroupFilter | src/pkg/mod.rs:92-95 | a stored record matches `{projectName, appVersion}` iff `InGroup` holds of the record |
| PkgDocument.RoundTrip | src/lib.rs:9-10 | deserialising the stored document of a record gives back the record |
| Api.ResolveVersion | src/api/mod.rs:45-52 | empty partition gives 0; rejection iff the latest `app_version` is strictly greater; overflow iff accepted at `u32::MAX`; otherwise latest sequence number plus one |
| Api.Extension | src/api/mod.rs:58 | `split('.').last()`: the text after the last `.`, or the whole name; its properties are the `Extension…` lemmas below |
| Api.ExtensionIsLastSegment | src/api/mod.rs:58 | the extension has no `.`, is a suffix of the name, and is the whole name or preceded by a `.` |
| Api.ExtensionOfDotless | src/api/mod.rs:58 | a name without `.` is its own extension |
| Api.ExtensionAfterLastDot | src/api/mod.rs:58 | the extension of `front.ext` is `ext` whenever `ext` has no `.` |
| Api.AllowedExt | src/api/mod.rs:61 | the accepted extensions: exactly `zip`, `ipa` and `apk` |
| Api.IsTimestamp | src/api/mod.rs:76 | the form of `%Y%m%d%H%M%S`: fourteen digits |
| Api.AllowedExtHasNoDot | src/api/mod.rs:61 | none of `zip`, `ipa`, `apk` contains a `.` |
| Api.StoredFileName | src/api/mod.rs:72-78 | the stored name `{project}_{version}_{timestamp}.{ext}`; `Api.StoredFileNameParts` states that it splits back into its parts |
| Api.StoredFileNameParts | src/api/mod.rs:72-78 | the stored name starts with the project and then the version, ends with the timestamp, `.` and the extension, and its extension is that extension |
| Api.FileNamesCanCollide | src/api/mod.rs:72-78 | (`a_b`, `1`) and (`a`, `b_1`) get the same stored name at the same second |
| Api.IsFullPkg | src/api/mod.rs:87-89 | `full_pkg` is false iff a `zip` was uploaded |
| Api.BuildRecord | src/api/mod.rs:92-102 | the record built from the form, the sequence number, the stored name and `full_pkg` |
| Api.InsertStep | src/api/mod.rs:103-106 | `save`, then `ok(0)` with the record appended, or the error with the collection unchanged |
| Api.PlaceFile | src/api/mod.rs:54-90 | the file step in the code's order: name, extension, probe, `create_dir_all`, `persist`; `Api.StoreUpload` is proved against it |
| Api.Publish | src/api/mod.rs:35-107 | `upload` on values: query, sequence number, file step, insert; `Api.Upload` is proved against it and the `Publish…` lemmas state its properties |
| Api.RemoveRequest | src/api/mod.rs:115-139 | `remove` on values: lookup, `不存在`, then `Pkg.RemoveEffect` on the found release; `Api.RemoveHandler` is proved against it |
| Api.Upload | src/api/mod.rs:35-107 | response and both new stores are those `Publish` gives for the old stores |
| Api.StoreUpload | src/api/mod.rs:54-90 | the directory afterwards, the stored name and `full_pkg`, or the refusal, are those `PlaceFile` gives |
| Api.RemoveHandler | src/api/mod.rs:115-139 | response and both new stores are those `RemoveRequest` gives for the old stores |
| Api.PublishRejectsOlder | src/api/mod.rs:46-47 | a strictly greater latest `app_version` answers `已有更新的版本` and changes neither store |
| Api.PublishChecksBeforeSideEffects | src/api/mod.rs:42-68 | a failed query, a file without name or with a bad extension, or a failed probe answers its error and changes neither store |
| Api.PublishFailureAddsNoRecord | src/api/mod.rs:35-107 | no failed publish adds a record; the only file it can leave is the stored one when the insert fails |
| Api.PublishPlacementFailure | src/api/mod.rs:80-86 | a `persist` error inserts no record and stores no file |
| Api.PublishSuccess | src/api/mod.rs:92-106 | a success appends exactly one record carrying the form's fields, sequence number 0 or latest plus one, the stored file iff one was uploaded, and `full_pkg` false iff it was a `zip` |
| Api.PublishStoresCheckedExtension | src/api/mod.rs:58-87 | the stored name carries the uploaded file's extension, which is an allowed one |
| Api.PublishOverflow | src/api/mod.rs:49 | an accepted version whose latest sequence number is `u32::MAX` panics without side effect |
| Api.PublishPreservesConsistent | src/api/mod.rs:80-106 | every publish keeps "each record's file is in the file store" |
| Api.ConsistentAppend | src/api/mod.rs:103 | appending a record whose file is stored, with no file removed, keeps every record's file present |
| Api.PairwisePrefix | src/api/mod.rs:45-52 | every prefix keeps a property that holds of every two records in insertion order |
| Api.PairwiseAppend | src/api/mod.rs:103 | appending a record that stands in the relation to every earlier record keeps the property |
| Api.PublishAppendsAbove | src/api/mod.rs:45-52 | whichever tie the query returns, a successful upload appends a record whose `app_version` is no smaller than any in its partition and whose sequence number exceeds the returned record's |
| Api.PublishPreservesAppOrdered | src/api/mod.rs:45-52 | every publish keeps `app_version`s non-decreasing within each partition, whichever tie the query returns |
| Api.PublishPreservesSequenced | src/api/mod.rs:45-52 | when the query returns the record with the partition's largest sequence number, a publish keeps sequence numbers strictly increasing and `app_version`s non-decreasing within each partition |
| Api.SequencedLastIsAnswer | src/pkg/mod.rs:67-69 | in a sequenced collection the last record inserted into a partition is one possible answer of the query, and it carries the largest sequence number |
| Api.EqualRepublishRepeatsSequence | src/api/mod.rs:45-49 | two records of `app_version` `1`, numbered 0 and 1: when the query returns the first, republishing `1` appends a second record numbered 1, and the collection is no longer sequenced |
| Api.WithoutGroupKeepsPairwise | src/pkg/mod.rs:100 | deleting a group keeps every property that holds of every two records in insertion order |
| Api.RemoveRequestNotFound | src/api/mod.rs:132-134 | with no matching record, `remove` answers `不存在` and changes nothing |
| Api.RemoveRequestTwice | src/api/mod.rs:122-138 | after a successful removal, removing the same release again answers `不存在` |
| Api.RemoveRequestPreservesPairwise | src/api/mod.rs:135 | every removal keeps every such pairwise property, among them `Sequenced` and `AppOrdered` |
| Api.RemoveRequestPreservesConsistent | src/api/mod.rs:135-138 | a successful removal keeps every remaining record's file present, as long as no file is shared across releases |
| Api.ConsistentAfterSweep | src/pkg/mod.rs:96-100 | dropping the group's records, and only the group's files, keeps the remaining records' files present |

## Left out

- Windows placement path (src/api/mod.rs:80-83), not modelled: only the `persist` path is. Its `?` errors would be one more `Raised` response with no record inserted, as on the `persist` path.
- HTTP, multipart parsing, `api_response` JSON wrapping: out of scope. Responses are the datatype `Api.Response` (`Ok(0)`, `Err(500, msg)`; `Raised` for an error propagated with `?`, `Panicked` for the `u32` overflow panic).
- The clock (`chrono::Local::now()`): it is the parameter `ts`. `IsTimestamp` describes its fourteen-digit form.
- Ordering in concurrent requests: the model is sequential. Two concurrent publishes can read the same latest record and get the same sequence number, which the model does not express.
- Logging, configuration loading, the database connection, `create_index`, `index` and the server bootstrap: they are I/O or only affect performance.
- Pkg.FindNewVersion: MongoDB does not specify which of several records with an equal maximal `appVersion` `find_one` returns, because the sort is on `appVersion` alone (src/pkg/mod.rs:67-69). The choice is the parameter `UploadFaults.tie`, and every maximal record is a possible answer (`Pkg.FindNewVersionCoversTies`).
- Api.PublishPreservesSequenced: strict increase of sequence numbers is promised only when the query answers with the tied record that carries the partition's largest sequence number, for instance the one inserted last (`Api.SequencedLastIsAnswer`). For any other answer, republishing an equal `app_version` can repeat a sequence number (`Api.EqualRepublishRepeatsSequence`). For every answer only `Api.PublishPreservesAppOrdered` and `Api.PublishAppendsAbove` hold.
- Api.PublishAppendsAbove: the new sequence number exceeds the returned record's, not necessarily every earlier one in the partition, for the reason above.
- Api.ResolveVersion: `Overflow`, and `Panicked` in `Api.Publish`, model a build with overflow checks. In a release build without them, `pkg.version + 1` at src/api/mod.rs:49 wraps to 0 and the upload inserts a record with sequence number 0; that build is not modelled.
- Pkg.Remove: a cursor error ends the `while let Some(Ok(item))` loop silently (src/pkg/mod.rs:97). The model assumes the cursor yields every matching record. A failing `find` is `RemoveFaults.findError`.
- Pkg.Remove: MongoDB does not promise an order for a cursor without a sort. The model visits the group in insertion order, a modelling choice. It decides only which files a sweep that fails has already removed. `Pkg.FindByVersion` likewise returns the first match in insertion order; which match is returned does not matter, because `remove` uses only its project and `app_version`, which every match shares.
- Pkg.DelFileEffect: `try_exists(..).unwrap_or(false)` makes a failing probe count as "absent", so that file is kept and `del_file` succeeds. `Pkg.RemoveDeletesGroupFiles` therefore excludes names whose probe fails (`FileFaults.probeFails`).
- Pkg.DelFileEffect: `FileFaults` is given per file name, so a probe or removal that fails for a name fails on every visit of that name. Two group records can carry the same stored name (same project, version, second and extension on two platforms); a removal error that happens only on such a second visit is not modelled.
- Api.RemoveRequestPreservesConsistent: stated only for a successful removal, and only when no record outside the release shares a file name with one inside it (`Api.FileNamesCanCollide` shows such names exist). A failing removal can leave records whose files are already deleted.
- Api.PublishFailureAddsNoRecord: allows the stored file to remain after a failed insert, as the code does. The orphaned file is not cleaned up.
- Api.Extension: `split('.').last()` always yields an element, so the `else` branch at src/api/mod.rs:58-60 cannot be taken and has no counterpart. A file named `zip`, without a dot, has the extension `zip`.
- Api.PlaceFile: a stored name is taken to be an entry of `./pkgs` (`Pkg.FileStore.files`). The code does not guarantee that: `path.join(&new_file_name)` at src/api/mod.rs:79 replaces the base when the name is absolute, and `project_name` is client text, so `project_name = "/tmp/x"` makes `persist` write `/tmp/x_1_<ts>.zip` outside `./pkgs`. `del_file` still probes `./pkgs/{name}` (src/pkg/mod.rs:108), finds nothing and succeeds, leaving that file in place. For such names `Api.PublishPreservesConsistent` and `Pkg.RemoveDeletesGroupFiles` hold of the model and not of the program; path resolution is not modelled.
- Pkg.MetaStore.InsertOne: an error is modelled as "not applied". MongoDB can report a write-concern error for `insert_one` (src/pkg/mod.rs:53) after the document was written, so `Api.PublishFailureAddsNoRecord` holds only for errors that mean the write did not happen. The insert still runs only after the file step.
- Pkg.MetaStore.DeleteMany: an error is modelled as "not applied". `delete_many` (src/pkg/mod.rs:100) is not atomic across documents and can fail after deleting part of the group, so the clause of `Pkg.RemoveFilesBeforeMetadata` that records change only on success holds only for errors that deleted nothing. `delete_many` still runs only after the sweep succeeded.
- SkipSerializeNone.CamelCaseRoundTrip: field names are taken to be lower-case ASCII letters and single `_` separators. That covers every `UpdatePkg` field; serde's handling of digits and other characters is not modelled.
- Byte-level BSON encoding: out of scope. A document is modelled as the ordered list of key/value pairs serde writes, and `version` is read back as a `u32` range check.
