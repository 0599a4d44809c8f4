# pytest-minio-mock, modelled in Dafny

pytest-minio-mock replaces the MinIO client in a test suite with an
in-memory object store. This project models that store and proves
properties of the model. The store has three layers:

- **Version history of one key** (`MockMinioObject`). This is an
  insertion-ordered map from version id to version record, plus a pointer
  to the latest version. What writes, reads, deletes and `stat` do depends
  on the bucket's versioning mode: Off, Enabled or Suspended.
- **Bucket** (`MockMinioBucket`). This maps object names to histories and
  provides prefix / start-after / directory listing.
- **Servers registry and client facade** (`MockMinioServers`,
  `MockMinioServer`, `MockMinioClient`). Every client of an endpoint shares
  that endpoint's dict of buckets.

The project also models the listing-argument check of `utils.py` and the
five S3 error constructors of `exceptions.py`.

Modules, one per concept:

| file | module | models |
|---|---|---|
| `wrappers.dfy` | `Wrappers` | `Option` and `Result`, standing in for `None` and for raised exceptions |
| `ordered_maps.dfy` | `OrderedMaps` | Python dicts as sequences of pairs. Assigning to a present key keeps its position; `del` closes the gap. |
| `strings.dfy` | `Strings` | `str` `<`, `startswith`, `strip(c)`, `find(c)` and substring `in` |
| `errors.dfy` | `Errors` | `exceptions.py`, plus `ValueError` |
| `version_ids.dfy` | `VersionIds` | `"null"` or UUID version ids, and their canonical text form |
| `versions.dfy` | `Versions` | `MockMinioObjectVersion` and `MockMinioObject` |
| `buckets.dfy` | `Buckets` | `MockMinioBucket`, except listing |
| `listing.dfy` | `Listing` | `MockMinioBucket.list_objects` |
| `client.dfy` | `Client` | `MockMinioServer`, `MockMinioServers` and `MockMinioClient` |
| `list_checks.dfy` | `ListChecks` | `_list_objects_checks` |

Three inputs of the original become parameters:

- The fresh id that `uuid4()` draws is the parameter `newUid`.
- The time `datetime.now()` stamps is the parameter `now`, a logical clock.
- The hostname/URL validators' verdict is the parameter `endpointValid`.

Every operation is a pure function from the old state to a new state or a
`Result`.

Where the code and the documented intent disagree, the model follows the code:

- A read that reaches a delete marker fails with `method_not_allowed`. This
  happens even when no version id was given, where S3 would say
  `no_such_key`.
- A version-less remove under Suspended sets the marker flag of the
  *latest* version. That is not necessarily the `"null"` slot.
- `stat_object` without a version id reads the `"null"` slot, not latest,
  and reports delete markers like any other version.
- Listing walks names in insertion order, not sorted order.
- The history is described as holding at most one version under Off. The
  code only makes this true after an Off write: a bucket switched from
  Enabled back to Off keeps its older versions until the next write.
  The model keeps the code's behaviour.

## Model

| member | source | states |
|---|---|---|
| `OrderedMaps.Keys` | pytest_minio_mock/plugin.py:682-683 | `list(d)`: the keys in insertion order, one per entry. |
| `OrderedMaps.Get` | pytest_minio_mock/plugin.py:272-278 | `d[k]` and `k in d`: a value is found iff `k` is a key, and it is the value stored with `k`. |
| `OrderedMaps.Put` | pytest_minio_mock/plugin.py:141-146 | Assigning to a dict key: the key keeps its position if present, or is appended. Its value is the new one, every other key keeps its value, distinct keys stay distinct. |
| `OrderedMaps.PutKeepsPositions` | pytest_minio_mock/plugin.py:141-146 | Assigning to a key leaves every other pair at its position. |
| `OrderedMaps.PutAddsOnly` | pytest_minio_mock/plugin.py:141-146 | Assigning to a key adds no pair except the assigned one. |
| `OrderedMaps.PutAbsentAppends` | pytest_minio_mock/plugin.py:141-146 | Assigning to an absent key appends the pair at the end. |
| `OrderedMaps.Remove` | pytest_minio_mock/plugin.py:217 | `del d[k]`: the result has distinct keys, which are exactly the old keys other than `k`. Its length drops by one iff `k` was present. |
| `OrderedMaps.RemoveClosesGap` | pytest_minio_mock/plugin.py:217 | Deleting a present key removes exactly its entry and keeps the order of the rest. |
| `OrderedMaps.Last` | pytest_minio_mock/plugin.py:219-221 | `list(d.values())[-1]`: the most recently inserted entry; the map is the others followed by it. |
| `Strings.LexLess` | pytest_minio_mock/plugin.py:391-392 | Python's string order, by code point with a proper prefix first. No string is below itself. |
| `Strings.LexLessTransitive` | pytest_minio_mock/plugin.py:391-392 | The string order used for `object_name > start_after` is transitive. |
| `Strings.LexLessTotal` | pytest_minio_mock/plugin.py:391-392 | Of two different strings, one is below the other. |
| `Strings.ProperPrefixIsLess` | pytest_minio_mock/plugin.py:391-392 | A proper prefix sorts first, unlike Dafny's own `<` on sequences. |
| `Strings.Strip` | pytest_minio_mock/plugin.py:397 | `strip("/")` leaves no `/` at either end, and changes nothing in a string with no `/`. |
| `Strings.StripCutsRuns` | pytest_minio_mock/plugin.py:397 | `strip("/")` is the string with its leading and its trailing run of `/` cut off and the middle kept: a slice `s[i..j]` with only `/` before `i` and after `j`. |
| `Strings.Find` | pytest_minio_mock/plugin.py:398 | `find("/")` is -1 iff there is no `/`; otherwise it is the index of the first one. |
| `Errors.NoSuchBucket` | pytest_minio_mock/exceptions.py:4-14 | `no_such_bucket`: code 404, resource `"/" + bucket`, no object name, recognised by its message as a missing bucket. |
| `Errors.NoSuchKey` | pytest_minio_mock/exceptions.py:17-27 | `no_such_key`: code 404, resource `"/" + bucket + "/" + object`, both names carried, recognised by its message as a missing key. |
| `Errors.InvalidVersion` | pytest_minio_mock/exceptions.py:30-40 | `invalid_version`: code 422, resource `"/" + bucket + "/" + object`, both names carried, recognised by its message as a malformed version id. |
| `Errors.NoSuchVersion` | pytest_minio_mock/exceptions.py:43-53 | `no_such_version`: code 404, resource `"/" + bucket + "/" + object`, both names carried, recognised by its message as a missing version. |
| `Errors.MethodNotAllowed` | pytest_minio_mock/exceptions.py:56-66 | `method_not_allowed`: code 403, resource `"/" + bucket + "/" + object`, both names carried, recognised by its message as a refused method. |
| `Errors.MessagesIdentifyKind` | pytest_minio_mock/exceptions.py:4-66 | The five messages are pairwise distinct: the kind of every constructed error is recovered from its message. |
| `Errors.ErrorFields` | pytest_minio_mock/exceptions.py:4-66 | The codes are 404/404/422/404/403. `no_such_bucket` names only `"/" + bucket` and no object; the others name `"/" + bucket + "/" + object` and the object. |
| `Errors.NotFoundSaysDoesNotExist` | pytest_minio_mock/exceptions.py:4-53 | The messages of the three "not found" errors each contain "does not exist". |
| `Errors.RejectionsCarryPhrases` | pytest_minio_mock/exceptions.py:30-66 | `invalid_version` says "Invalid version"; `method_not_allowed` says "not allowed against this resource". |
| `VersionIds.ParseUuid` | pytest_minio_mock/plugin.py:266-268 | `UUID(text)` succeeds exactly on UUID text. The value it yields, written back as 32 digits, is the text's digits in lower case: the parse ignores case. |
| `VersionIds.VersionIdText` | pytest_minio_mock/plugin.py:62-64 | The `version_id` property: `None` exactly for the `"null"` slot; otherwise UUID text that parses back to the version's UUID. |
| `VersionIds.ParseFormattedUuid` | pytest_minio_mock/plugin.py:62-64 | The text a version id is handed out as is canonical UUID text and parses back to the same UUID. |
| `VersionIds.FormatParsedUuid` | pytest_minio_mock/plugin.py:266-268 | Parsed UUID text is written back with its digits in lower case and its hyphens in place, so lower-case UUID text comes back unchanged. |
| `Versions.NewVersion` | pytest_minio_mock/plugin.py:30-48 | A new version record keeps its payload, id, marker flag and metadata, is stamped with the current time, and its size is the payload's length. |
| `Versions.Latest` | pytest_minio_mock/plugin.py:130-131 | `get_latest()` is the version stored under the latest id. |
| `Versions.PutObjectVersion` | pytest_minio_mock/plugin.py:133-146 | The new version is stored under `id` and becomes latest, with size equal to its payload's length. Other ids keep their versions. The id keeps its position or is appended. |
| `Versions.PutObject` | pytest_minio_mock/plugin.py:148-175 | In every mode the payload just written is latest, with size equal to the payload length, whatever `length` says. Off leaves exactly one version, under `"null"`. Enabled appends an unused fresh id and leaves the other versions alone. Suspended writes `"null"` in place or at the end and leaves the other versions alone. |
| `Versions.NewObject` | pytest_minio_mock/plugin.py:80-114 | A new history holds exactly the first write, as latest. |
| `Versions.Unspecified` | pytest_minio_mock/plugin.py:263-264 | The version arguments Python treats as false, so as "no id given": `None` and `""`. |
| `Versions.CheckVersionId` | pytest_minio_mock/plugin.py:260-270 | No id or `""` gives "unspecified", or `"null"` with `exclude_none`. `"null"` gives the null slot. Any other text succeeds iff it is UUID text, and yields that UUID. A failure is always `invalid_version`. |
| `Versions.CheckRenderedVersionId` | pytest_minio_mock/plugin.py:260-270 | The id text a version reports reads back as that version. The null slot is reported as `None`, which reads back as "unspecified". |
| `Versions.CheckObjectVersion` | pytest_minio_mock/plugin.py:272-278 | The lookup succeeds iff the id is stored, and returns the version stored under it; otherwise it fails with `no_such_version`. |
| `Versions.GetObject` | pytest_minio_mock/plugin.py:177-197 | A read never returns a delete marker and only returns stored versions. It fails only with `invalid_version`, `no_such_version` or `method_not_allowed`. |
| `Versions.GetWhenOff` | pytest_minio_mock/plugin.py:180-188 | Under Off the requested id is ignored, even a malformed one. The read is of the `"null"` slot, and gives `no_such_version` when there is none. |
| `Versions.GetUnspecified` | pytest_minio_mock/plugin.py:186-190 | With versioning on, a read without an id is a read of latest. |
| `Versions.GetExplicit` | pytest_minio_mock/plugin.py:191-196 | With versioning on, an explicit id reads exactly its version, or gives `no_such_version` if absent. A delete marker gives `method_not_allowed`. |
| `Versions.GetMalformed` | pytest_minio_mock/plugin.py:266-270 | With versioning on, a malformed id gives `invalid_version`. |
| `Versions.GetByListedId` | pytest_minio_mock/plugin.py:62-64 | Every stored UUID version can be read through the id text it is reported with. |
| `Versions.PutThenGet` | pytest_minio_mock/plugin.py:148-197 | After a write, a read without an id returns the bytes written, in every mode. |
| `Versions.DeleteVersion` | pytest_minio_mock/plugin.py:213-221 | Deleting one version removes exactly that entry, and an absent id changes nothing. If the deleted entry was latest, latest moves to the last remaining entry. The history stays valid. |
| `Versions.MarkLatestDeleted` | pytest_minio_mock/plugin.py:243 | Only the latest version's marker flag is set, in place. The ids and every other version are unchanged. |
| `Versions.RemoveObject` | pytest_minio_mock/plugin.py:210-243 | A remove keeps the history valid. It fails iff the id text is malformed, and then with `invalid_version`, in every mode. The per-mode lemmas below pin each branch. |
| `Versions.EnabledRemoveAppendsMarker` | pytest_minio_mock/plugin.py:224-237 | Enabled, no id, latest not a marker, fresh id unused: exactly one delete marker is appended under the fresh id, and it becomes latest. |
| `Versions.EnabledRemoveLeavesMarker` | pytest_minio_mock/plugin.py:224-237 | Enabled, no id: afterwards latest is a delete marker and the history is non-empty. |
| `Versions.EnabledRemoveOnMarker` | pytest_minio_mock/plugin.py:229-231 | Enabled, no id, latest already a delete marker: the history is returned unchanged, whatever payload the marker carries. |
| `Versions.EnabledRemoveIdempotent` | pytest_minio_mock/plugin.py:229-231 | An Enabled version-less remove always succeeds, and repeating it with no write in between changes nothing. |
| `Versions.RemoveExplicit` | pytest_minio_mock/plugin.py:213-222 | With versioning on, an explicit id removes exactly that entry from its position, or nothing if absent. Latest is kept, or moves to the last remaining entry if it was removed. |
| `Versions.SuspendedRemoveMarksLatest` | pytest_minio_mock/plugin.py:239-243 | Suspended, no id: latest becomes a delete marker in place. The ids and their number and order are unchanged, and so is every other version. |
| `Versions.SortKey` | pytest_minio_mock/plugin.py:204-207 | The sort key of `list_versions`: the marker flag, then the time. |
| `Versions.SortsBefore` | pytest_minio_mock/plugin.py:204-207 | Sorting on `(is_delete_marker, -timestamp)`: a version goes before a marker, and within each group newer goes before older. |
| `Versions.SortsBeforeIsStrict` | pytest_minio_mock/plugin.py:204-207 | That order is strict: irreflexive, asymmetric and transitive. |
| `Versions.InsertInOrder` | pytest_minio_mock/plugin.py:202-208 | One insertion-sort step adds exactly the one entry: the result is the old entries plus it, as a multiset. |
| `Versions.InsertKeepsOrder` | pytest_minio_mock/plugin.py:202-208 | Inserting into a sequence in listing order keeps it in listing order. |
| `Versions.InsertKeys` | pytest_minio_mock/plugin.py:202-208 | Inserting adds exactly the inserted id, and ids stay distinct if it was new. |
| `Versions.SortInListingOrder` | pytest_minio_mock/plugin.py:202-208 | The sort is a permutation (same multiset, same ids, distinct ids kept). It is in listing order: versions before delete markers, newer before older within each group. |
| `Versions.TiesShareSortKey` | pytest_minio_mock/plugin.py:202-208 | Two versions tie in the sort exactly when their sort keys `(is_delete_marker, last_modified)` are equal. |
| `Versions.InsertIsStable` | pytest_minio_mock/plugin.py:202-208 | An inserted entry goes in front of the entries it ties with and keeps their order. |
| `Versions.SortIsStable` | pytest_minio_mock/plugin.py:202-208 | `sorted` is stable: for every sort key, the entries with that key appear in the order they have in the input. |
| `Versions.ListVersions` | pytest_minio_mock/plugin.py:199-208 | `list_versions` lists every version exactly once, markers after versions, newest first within each group, and versions that tie in map order. |
| `Versions.Info` | pytest_minio_mock/plugin.py:251-258 | The `Object` a stat returns names the bucket and the object, and carries the version's time, size and metadata. Its id is none exactly for the `"null"` slot, and otherwise text that parses back to the version's UUID. |
| `Versions.StatObject` | pytest_minio_mock/plugin.py:245-258 | A stat reports a stored version, or fails only with `invalid_version` or `no_such_version`. |
| `Versions.StatExplicit` | pytest_minio_mock/plugin.py:245-258 | An explicit id that parses reports exactly the version stored under it, delete marker or not, or gives `no_such_version` if there is none. |
| `Versions.StatMalformed` | pytest_minio_mock/plugin.py:266-270 | A malformed id gives `invalid_version`. |
| `Versions.StatByListedId` | pytest_minio_mock/plugin.py:62-64 | Every stored version can be stated through the id text it is reported with. |
| `Versions.StatUnspecifiedIsNullSlot` | pytest_minio_mock/plugin.py:249-250 | A stat without an id is a stat of `"null"`: it reports that slot, delete marker or not, or gives `no_such_version`. |
| `Buckets.NewBucket` | pytest_minio_mock/plugin.py:282-294 | A new bucket is consistent and empty. |
| `Buckets.ObjectAt` | pytest_minio_mock/plugin.py:438-442 | The history filed under a name is stored, non-empty, and knows its own name and bucket. |
| `Buckets.PutObject` | pytest_minio_mock/plugin.py:311-357 | The first write of a name files `NewObject` of the payload at the end of the bucket. A later write files the history-level `put_object` of the name's history, in place, so that mode's rules apply: older versions are kept under Enabled and Suspended, and Off leaves only the `"null"` version. The name's latest version is the payload written, under the fresh id iff Enabled. Other names keep their values and positions, and the bucket stays consistent. |
| `Buckets.RemoveObject` | pytest_minio_mock/plugin.py:359-372 | Removing an absent name changes nothing, without looking at the id. Under Off the name is deleted with the map-level `Remove`, so the names after it move up one place and the order of the rest is kept (`OrderedMaps.RemoveClosesGap`). Otherwise the history-level remove runs under the bucket's mode. Its failure is passed on. An emptied history takes the name out in the same way. Any other result is filed under the name, and the bucket keeps the same names in the same order. Other names keep their values and no name is added. |
| `Buckets.FileHistory` | pytest_minio_mock/plugin.py:326-357 | Filing a stored history under its name keeps the name's position or appends it. Afterwards the name holds exactly that history, other names are untouched, and the bucket stays consistent. |
| `Buckets.StoreHistory` | pytest_minio_mock/plugin.py:368-372 | After a delete, the name stays in the bucket iff its history still holds a version. If it stays, it holds that history and the names and their order are unchanged. If it goes, the bucket's map is the map-level `Remove` of the name, which closes the gap and keeps the order (`OrderedMaps.RemoveClosesGap`). Other names keep their values. |
| `Buckets.DropObject` | pytest_minio_mock/plugin.py:364-367 | Deleting a name is the map-level `Remove`: only that name leaves, and the names after it move up one place, so the others keep their order (`OrderedMaps.RemoveClosesGap`). The other names keep their values and the bucket stays consistent. |
| `Buckets.RemoveKeepsNameIff` | pytest_minio_mock/plugin.py:368-372 | With versioning on, a removed name stays iff its history is non-empty afterwards. So every stored object has at least one version. |
| `Buckets.RemoveMalformedFails` | pytest_minio_mock/plugin.py:359-372 | With versioning on, removing a present name with a malformed id gives `invalid_version`. |
| `Buckets.GetObject` | pytest_minio_mock/plugin.py:374-379 | A name not in the bucket gives `no_such_key`; otherwise the history's read runs under the bucket's mode. A delete marker is never returned. |
| `Buckets.StatObject` | pytest_minio_mock/plugin.py:444-449 | A name not in the bucket gives `no_such_key`; otherwise the result is the history-level stat of that name. |
| `Buckets.PutThenGet` | pytest_minio_mock/plugin.py:311-379 | After a write to a bucket, a read of that name without an id returns the bytes written, in every mode. |
| `Buckets.RemoveThenGetWhenOff` | pytest_minio_mock/plugin.py:364-367 | Under Off, a removed name gives `no_such_key`. |
| `Buckets.EnabledRemoveHides` | pytest_minio_mock/plugin.py:359-379 | Enabled, no id: the name stays in the bucket, but a read without an id gives `method_not_allowed`. |
| `Listing.BoolText` | pytest_minio_mock/plugin.py:419-421 | `str(b).lower()` is `"true"` exactly for true. |
| `Listing.RecordFields` | pytest_minio_mock/plugin.py:414-436 | The record `Record` builds for a version names the bucket and the object and carries the version's time, marker flag and metadata. Its id is text that parses back to the version's UUID, or none for `"null"`. `is_latest` is `"true"` exactly for the latest version. |
| `Listing.Selected` | pytest_minio_mock/plugin.py:391-393 | A name is listed only if it starts with the prefix and, when a start-after name is given, is above it in string order. |
| `Listing.SubPath` | pytest_minio_mock/plugin.py:397 | What follows the prefix, with `/` stripped from both ends; `Strings.Strip` and `Strings.StripCutsRuns` say what that leaves. |
| `Listing.Place` | pytest_minio_mock/plugin.py:390-409 | A name is skipped iff it lacks the prefix or is not above a non-empty start-after. Recursive listing never makes a directory. Non-recursive listing lists a name as a file iff its stripped remainder has no `/`. A directory is the prefix, then a non-empty `/`-free segment, then `/`. |
| `Listing.PlaceDirIsFirstSegment` | pytest_minio_mock/plugin.py:396-400 | A directory entry is the prefix, then the stripped remainder up to and including its first `/`. This holds whether or not the remainder began with `/`. |
| `Listing.DirIsPrefixOfName` | pytest_minio_mock/plugin.py:397-400 | If no `/` follows the prefix, the directory entry is a prefix of the name. |
| `Listing.LeadingSlashDirIsNotPrefix` | pytest_minio_mock/plugin.py:397-400 | An example: `"/x/y"` listed from the root gives the directory `"x/"`, which is not a prefix of the name. `Listing.PlaceDirIsFirstSegment` states the general rule. |
| `Listing.VersionRecords` | pytest_minio_mock/plugin.py:412-424 | One record per version, flagged latest exactly when its id is the latest id. |
| `Listing.KeyRecords` | pytest_minio_mock/plugin.py:412-436 | With versions, one record per version. Without, a single `is_latest == "true"` record of latest, or none if latest is a delete marker. |
| `Listing.KeyRecordsNamed` | pytest_minio_mock/plugin.py:412-436 | Every record of a name is an object record naming that bucket and name. |
| `Listing.OneLatestRecord` | pytest_minio_mock/plugin.py:412-424 | With versions, the records follow `list_versions` order, and exactly one record, the latest version's, has `is_latest == "true"`. |
| `Listing.ListFrom` | pytest_minio_mock/plugin.py:388-436 | Every item names the bucket and starts with the prefix. A directory item is non-recursive, not yet seen, and well formed. A record belongs to a kept name of the bucket, and when non-recursive that name has a single segment below the prefix. |
| `Listing.ContributionListed` | pytest_minio_mock/plugin.py:390-436 | Everything one name contributes satisfies the item rules of a listing. A directory item is the directory `Place` gives that name. |
| `Listing.ListedDirsDistinct` | pytest_minio_mock/plugin.py:399-406 | No directory is listed twice. |
| `Listing.ListedDirs` | pytest_minio_mock/plugin.py:388-409 | The directories listed are exactly those the kept names stand for, minus those already seen. |
| `Listing.ListedRecords` | pytest_minio_mock/plugin.py:388-436 | The records listed are exactly the records of the file-like kept names, in map order. |
| `Listing.ListObjects` | pytest_minio_mock/plugin.py:381-436 | Every item of a bucket listing names the bucket, starts with the prefix, and satisfies the item rules above. |
| `Listing.ListObjectsShape` | pytest_minio_mock/plugin.py:381-436 | A bucket listing holds each directory of the kept names once, plus the records of the file-like kept names in map order. |
| `Client.Connect` | pytest_minio_mock/plugin.py:470-473 | Connecting returns the endpoint's server. An unknown endpoint gets an empty server at the end of the registry. A known endpoint leaves the registry unchanged. Other endpoints are untouched. |
| `Client.ConnectIdempotent` | pytest_minio_mock/plugin.py:470-473 | Connecting twice is connecting once. |
| `Client.Reset` | pytest_minio_mock/plugin.py:475-476 | After a reset no endpoint is known. |
| `Client.ResetForgetsBuckets` | pytest_minio_mock/plugin.py:470-476 | After a reset, connecting to any endpoint gives a server with no buckets. |
| `Client.BucketsOf` | pytest_minio_mock/plugin.py:505-506 | A connected client's bucket dict is its endpoint server's, and it is valid. |
| `Client.WithBuckets` | pytest_minio_mock/plugin.py:505-506 | A change made through a client lands in its endpoint's server; other servers are untouched. |
| `Client.SharedWithinEndpoint` | pytest_minio_mock/plugin.py:505-506 | Clients of the same endpoint see each other's changes; clients of other endpoints do not. |
| `Client.NewClient` | pytest_minio_mock/plugin.py:480-503 | An empty endpoint gives `ValueError("base_url is empty")`, checked first. An endpoint the validators reject gives `ValueError("base_url <e> is not valid")`. Any other endpoint makes a client for it. |
| `Client.ConnectClient` | pytest_minio_mock/plugin.py:505-506 | After connecting, the client's endpoint is known. A new endpoint starts with no buckets; a known one changes nothing. |
| `Client.CheckBucket` | pytest_minio_mock/plugin.py:747-751 | A bucket lookup succeeds iff the bucket exists, and returns that bucket; otherwise it fails with `no_such_bucket`. |
| `Client.ListBuckets` | pytest_minio_mock/plugin.py:682-683 | The bucket names, in creation order. |
| `Client.BucketExists` | pytest_minio_mock/plugin.py:685-690 | True exactly for the listed names. |
| `Client.MakeBucket` | pytest_minio_mock/plugin.py:692-704 | Making a bucket always succeeds and gives an empty bucket with versioning Off. It replaces any bucket of that name in place, and other buckets are untouched. |
| `Client.SetBucketVersioning` | pytest_minio_mock/plugin.py:706-709 | Only the mode of that bucket changes; a missing bucket gives `no_such_bucket`. |
| `Client.GetBucketVersioning` | pytest_minio_mock/plugin.py:711-712 | Returns the bucket's mode; a missing bucket gives `no_such_bucket`. |
| `Client.PutObject` | pytest_minio_mock/plugin.py:592-623 | An upload fails iff the bucket is missing, with `no_such_bucket`. Otherwise that bucket becomes the result of the bucket-level write, every other bucket is untouched, and the store stays valid. |
| `Client.GetObject` | pytest_minio_mock/plugin.py:529-544 | A download returns the payload of the version the bucket read gives, or that read's error; a missing bucket gives `no_such_bucket`. |
| `Client.StatObject` | pytest_minio_mock/plugin.py:726-738 | A missing bucket gives `no_such_bucket`; otherwise the result is the bucket-level stat. A success reports the requested bucket and name. |
| `Client.ListObjects` | pytest_minio_mock/plugin.py:714-724 | A missing bucket gives `no_such_bucket` when the listing is asked for; otherwise the result is the bucket-level listing. Every listed item names the bucket and starts with the prefix. |
| `Client.RemoveObject` | pytest_minio_mock/plugin.py:740-745 | A missing bucket gives `no_such_bucket`. Otherwise a failure of the bucket-level remove is passed on, and a success replaces that bucket by its result. Other buckets are untouched and the store stays valid. |
| `Client.MissingBucket` | pytest_minio_mock/plugin.py:747-751 | Every bucket and object operation on a missing bucket fails with `no_such_bucket`. |
| `Client.MakeBucketStartsEmpty` | pytest_minio_mock/plugin.py:692-704 | A made bucket exists and has versioning Off. Reads give `no_such_key` and listings are empty, even if a bucket of that name held objects before. |
| `Client.SetThenGetVersioning` | pytest_minio_mock/plugin.py:706-712 | The mode set is the mode read back. |
| `Client.PutThenGet` | pytest_minio_mock/plugin.py:529-623 | Through the client, an upload followed by a download without a version id returns the uploaded bytes. |
| `Client.SharedUpload` | pytest_minio_mock/plugin.py:505-506 | What one client of an endpoint uploads, another client of that endpoint downloads. |
| `ListChecks.ListObjectsChecks` | pytest_minio_mock/utils.py:1-15 | API v1 always fails first. A missing start-after becomes `""`, and a given one passes through. No delimiter means recursive, `"/"` means non-recursive, any other delimiter fails. |
| `ListChecks.ChecksPassIff` | pytest_minio_mock/utils.py:4-14 | The checks pass exactly for API v2 with no delimiter or `"/"`. |

## Left out

- pytest fixtures and the patching of `Minio.__new__` are test-harness plumbing.
- Wrapping the payload in `HTTPResponse`/`HTTPConnection`, and `copy.deepcopy` of a `BytesIO`: `get_object` returns the version's bytes.
- File I/O in `fget_object` and `fput_object`: `fput_object` is `put_object` with the file's bytes.
- The hostname/URL validators are a foreign library; their verdict is the parameter `endpointValid`.
- `uuid4()` and `datetime.now()` are replaced by the parameters `newUid` and `now`. `now` is a natural number, so the float `.timestamp()` of the sort key becomes `now` itself.
- VersionIds.ParseUuid: accepts only the canonical 36-character 8-4-4-4-12 form, in either case. Any other spelling `UUID()` accepts is not modelled: it drops braces, a `urn:uuid:` prefix and hyphens wherever they are, and `int(_, 16)` then takes a sign, `_`, surrounding whitespace and `0x`.
- Aliasing: a version keeps the caller's `metadata` dict and payload stream by reference, and `stat_object` and `list_objects` hand that same dict back. So a caller who mutates it changes the stored version. The model's values are immutable, so this sharing is not modelled.
- A payload passed as a stream: the source sizes it by reading from the stream's current position and then rewinds it. The model takes the payload as a byte sequence, so a stream that is not at position 0 is not modelled.
- Inert parameters are not modelled: `offset` and `length` of `get_object`, `content_type`, `sse`, `progress`, `part_size`, `num_parallel_uploads`, `tags`, `retention`, `legal_hold`, request headers, extra query parameters, credentials, region and transport. `location` and `object_lock` are stored but never read.
- The return values `"Upload successful"` of `put_object` and `True` of `make_bucket` are constants. The model returns the new store instead.
- `request_id` and `host_id` of the S3 errors are always `None` and are not fields of the model.
- A `metadata` of `None` is the empty map `map[]`.
- The `isinstance` check of `set_bucket_versioning`: Dafny's types enforce it.
- Presigned URLs are plain string formatting.
- `_delete_objects`, `copy_object` and `compose_object` are not part of this model: `plugin.py` does not implement them.
- Clients hold the dict their server held when they connected. After `reset` they keep the old dict, while new clients get new servers; the model indexes clients by endpoint and does not track these stale references.
- An unconnected client has its own empty `buckets` dict. The model describes connected clients, as the fixture makes them.
- The `RuntimeError("Implementation error")` of the `versions` property on an empty history never happens, because a bucket drops empty histories. The object operations require a non-empty history (`Stored`).
- The generator of `list_objects` is a finite sequence, so laziness is not modelled. The bucket is still checked when the listing is asked for.
