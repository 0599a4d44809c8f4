/** One key's version history: `MockMinioObjectVersion` and
    `MockMinioObject` of pytest_minio_mock/plugin.py.

    A `VersionedObject` keeps an insertion-ordered map from version id to
    version plus a pointer to the latest version. Writes, reads, deletes and
    `stat` all depend on the bucket's versioning mode, which the bucket
    passes in. The source draws fresh ids with `uuid4()` and stamps versions
    with `datetime.now()`; here both arrive as parameters, `newUid` and
    `now`. */
module Versions {
  import opened Wrappers
  import opened OrderedMaps
  import opened VersionIds
  import opened Errors

  newtype byte = x: int | 0 <= x < 256

  type Bytes = seq<byte>

  type Metadata = map<string, string>

  /** A bucket's versioning status. */
  datatype Mode = Off | Enabled | Suspended

  /** One stored version. `size` is computed from the payload when the
      version is made; a delete marker carries an empty payload. */
  datatype Version = Version(data: Bytes, size: nat, id: VersionId, isDeleteMarker: bool,
                             metadata: Metadata, lastModified: nat)

  /** `MockMinioObjectVersion(...)`: the size is the payload's length. */
  function NewVersion(data: Bytes, id: VersionId, isDeleteMarker: bool, metadata: Metadata,
                      now: nat): (v: Version)
    ensures v.size == |v.data| && v.data == data && v.id == id
    ensures v.isDeleteMarker == isDeleteMarker && v.metadata == metadata && v.lastModified == now
  {
    Version(data, |data|, id, isDeleteMarker, metadata, now)
  }

  datatype VersionedObject = VersionedObject(bucketName: string, objectName: string,
                                             versions: OMap<VersionId, Version>,
                                             latest: VersionId)

  /** Every entry is filed under its own id. */
  predicate KeysMatchIds(m: OMap<VersionId, Version>) {
    forall p :: p in m ==> p.1.id == p.0
  }

  /** The invariant every operation keeps: distinct ids, each entry under
      its own id, and a latest pointer that names an entry whenever there
      is one. */
  predicate Valid(o: VersionedObject) {
    && Wf(o.versions)
    && KeysMatchIds(o.versions)
    && (o.versions != [] ==> o.latest in Keys(o.versions))
  }

  /** An object as a bucket holds it: valid and with at least one version. */
  predicate Stored(o: VersionedObject) {
    Valid(o) && o.versions != []
  }

  /** `get_latest()`. */
  function Latest(o: VersionedObject): (v: Version)
    requires Stored(o)
    ensures (o.latest, v) in o.versions && v.id == o.latest
  {
    Lookup(o.versions, o.latest)
  }

  /** `put_object_version`: store a new version under `id` (replacing, in
      place, whatever was there) and point latest at it. */
  function PutObjectVersion(o: VersionedObject, data: Bytes, id: VersionId, isDeleteMarker: bool,
                            metadata: Metadata, now: nat): (r: VersionedObject)
    requires Valid(o)
    ensures Stored(r) && r.latest == id
    ensures Latest(r) == NewVersion(data, id, isDeleteMarker, metadata, now)
    ensures forall v :: v != id ==> Get(r.versions, v) == Get(o.versions, v)
    ensures Keys(r.versions) == if id in Keys(o.versions) then Keys(o.versions) else Keys(o.versions) + [id]
    ensures r.bucketName == o.bucketName && r.objectName == o.objectName
  {
    PutAddsOnly(o.versions, id, NewVersion(data, id, isDeleteMarker, metadata, now));
    o.(latest := id, versions := Put(o.versions, id, NewVersion(data, id, isDeleteMarker, metadata, now)))
  }

  /** `put_object`. Off throws the history away and writes the `"null"`
      slot; Suspended writes the `"null"` slot and keeps the rest; Enabled
      adds a version under the fresh id `newUid`. `length` is accepted and ignored:
      the size always comes from the payload. */
  function PutObject(o: VersionedObject, data: Bytes, length: int, metadata: Metadata, mode: Mode,
                     newUid: Uuid, now: nat): (r: VersionedObject)
    requires Valid(o)
    ensures Stored(r)
    ensures r.latest == if mode == Enabled then Uid(newUid) else Null
    ensures Latest(r) == Version(data, |data|, r.latest, false, metadata, now)
    ensures mode == Off ==> r.versions == [(Null, Latest(r))]
    ensures mode != Off ==> forall v :: v != r.latest ==> Get(r.versions, v) == Get(o.versions, v)
    ensures mode == Enabled && Uid(newUid) !in Keys(o.versions) ==>
      Keys(r.versions) == Keys(o.versions) + [Uid(newUid)]
    ensures mode == Suspended ==>
      Keys(r.versions) == if Null in Keys(o.versions) then Keys(o.versions) else Keys(o.versions) + [Null]
    ensures r.bucketName == o.bucketName && r.objectName == o.objectName
  {
    var base := if mode == Off then o.(versions := []) else o;
    var r := PutObjectVersion(base, data, if mode == Enabled then Uid(newUid) else Null, false, metadata, now);
    assert mode == Off ==> r.versions == [(Null, Latest(r))] by {
      if mode == Off {
        assert Keys(r.versions) == [Null];
      }
    }
    r
  }

  /** `MockMinioObject(...)`: a new history holding the first write. */
  function NewObject(bucketName: string, objectName: string, data: Bytes, length: int,
                     metadata: Metadata, mode: Mode, newUid: Uuid, now: nat): (r: VersionedObject)
    ensures Stored(r) && |r.versions| == 1
    ensures r.bucketName == bucketName && r.objectName == objectName
    ensures r.latest == if mode == Enabled then Uid(newUid) else Null
    ensures Latest(r) == Version(data, |data|, r.latest, false, metadata, now)
  {
    PutObject(VersionedObject(bucketName, objectName, [], Null), data, length, metadata, mode, newUid, now)
  }

  // ---------------------------------------------------------------------
  // Version-id arguments

  /** A version argument Python treats as "not given": `None` or `""`. */
  predicate Unspecified(text: Option<string>) {
    text == None || text == Some("")
  }

  /** `__check_version_id`: no id (or `"null"` with `exclude_none`), the
      `"null"` slot, a UUID, or `invalid_version`. */
  function CheckVersionId(o: VersionedObject, text: Option<string>, excludeNone: bool)
    : (r: Result<Option<VersionId>, Error>)
    ensures Unspecified(text) ==> r == Success(if excludeNone then Some(Null) else None)
    ensures text == Some("null") ==> r == Success(Some(Null))
    ensures !Unspecified(text) && text != Some("null") ==>
      (r.Success? <==> IsUuidText(text.value))
    ensures r.Success? && !Unspecified(text) && text != Some("null") ==>
      r.value == Some(Uid(ParseUuid(text.value).value))
    ensures r.Failure? ==> r.error == InvalidVersion(o.bucketName, o.objectName)
    ensures excludeNone && r.Success? ==> r.value.Some?
  {
    if Unspecified(text) then Success(if excludeNone then Some(Null) else None)
    else if text.value == "null" then Success(Some(Null))
    else match ParseUuid(text.value)
      case Some(n) => Success(Some(Uid(n)))
      case None => Failure(InvalidVersion(o.bucketName, o.objectName))
  }

  /** What the source's `version_id` property hands out reads back as the
      same version, except that the `"null"` slot is handed out as `None`,
      which reads back as "no version given". */
  lemma {:induction false} CheckRenderedVersionId(o: VersionedObject, v: VersionId)
    ensures CheckVersionId(o, VersionIdText(v), false) == Success(if v == Null then None else Some(v))
  {
    if v.Uid? {
      ParseFormattedUuid(v.value);
    }
  }

  /** `__check_object_version`: the version stored under `id`, or
      `no_such_version`. */
  function CheckObjectVersion(o: VersionedObject, id: VersionId): (r: Result<Version, Error>)
    ensures r.Success? <==> id in Keys(o.versions)
    ensures r.Success? ==> (id, r.value) in o.versions
    ensures r.Failure? ==> r.error == NoSuchVersion(o.bucketName, o.objectName)
  {
    match Get(o.versions, id)
    case Some(v) => Success(v)
    case None => Failure(NoSuchVersion(o.bucketName, o.objectName))
  }

  // ---------------------------------------------------------------------
  // Reads

  /** `get_object`. Under Off any requested id is ignored and the `"null"`
      slot is read; otherwise no id means latest. A delete marker is never
      returned: reaching one gives `method_not_allowed`, whether or not an
      id was asked for. */
  function GetObject(o: VersionedObject, text: Option<string>, mode: Mode): (r: Result<Version, Error>)
    requires Stored(o)
    ensures r.Success? ==> !r.value.isDeleteMarker && (r.value.id, r.value) in o.versions
    ensures r.Failure? ==> r.error in {InvalidVersion(o.bucketName, o.objectName),
                                       NoSuchVersion(o.bucketName, o.objectName),
                                       MethodNotAllowed(o.bucketName, o.objectName)}
  {
    var requested := if mode == Off then None else text;
    var id :- CheckVersionId(o, requested, false);
    var v :- if id.None? then (if mode == Off then CheckObjectVersion(o, Null) else Success(Latest(o)))
             else CheckObjectVersion(o, id.value);
    if v.isDeleteMarker then Failure(MethodNotAllowed(o.bucketName, o.objectName)) else Success(v)
  }

  /** The outcome of reading one stored version. */
  function ReadOutcome(o: VersionedObject, v: Version): Result<Version, Error> {
    if v.isDeleteMarker then Failure(MethodNotAllowed(o.bucketName, o.objectName)) else Success(v)
  }

  /** Under Off the requested id does not matter, not even a malformed one:
      the read is of the `"null"` slot, and fails with `no_such_version`
      when there is none. */
  lemma GetWhenOff(o: VersionedObject, text: Option<string>)
    requires Stored(o)
    ensures GetObject(o, text, Off) == match Get(o.versions, Null)
      case None => Failure(NoSuchVersion(o.bucketName, o.objectName))
      case Some(v) => ReadOutcome(o, v)
  {
  }

  /** With versioning on, a read without an id is a read of latest. */
  lemma GetUnspecified(o: VersionedObject, text: Option<string>, mode: Mode)
    requires Stored(o) && mode != Off && Unspecified(text)
    ensures GetObject(o, text, mode) == ReadOutcome(o, Latest(o))
  {
  }

  /** With versioning on, an explicit id that parses reads exactly the
      version stored under it, or fails with `no_such_version`. */
  lemma GetExplicit(o: VersionedObject, text: Option<string>, mode: Mode, id: VersionId)
    requires Stored(o) && mode != Off
    requires CheckVersionId(o, text, false) == Success(Some(id))
    ensures GetObject(o, text, mode) == match Get(o.versions, id)
      case None => Failure(NoSuchVersion(o.bucketName, o.objectName))
      case Some(v) => ReadOutcome(o, v)
  {
  }

  /** With versioning on, a malformed id is rejected before anything is
      looked up. */
  lemma GetMalformed(o: VersionedObject, text: Option<string>, mode: Mode)
    requires Stored(o) && mode != Off
    requires !Unspecified(text) && text != Some("null") && !IsUuidText(text.value)
    ensures GetObject(o, text, mode) == Failure(InvalidVersion(o.bucketName, o.objectName))
  {
  }

  /** Every stored UUID version can be read back through the id text a
      listing hands out; a delete marker is refused. */
  lemma GetByListedId(o: VersionedObject, mode: Mode, n: Uuid)
    requires Stored(o) && mode != Off && Uid(n) in Keys(o.versions)
    ensures GetObject(o, VersionIdText(Uid(n)), mode) == ReadOutcome(o, Lookup(o.versions, Uid(n)))
  {
    CheckRenderedVersionId(o, Uid(n));
  }

  /** A write followed by a read without an id gives back the bytes just
      written, in every mode. */
  lemma PutThenGet(o: VersionedObject, data: Bytes, length: int, metadata: Metadata, mode: Mode,
                   newUid: Uuid, now: nat)
    requires Valid(o)
    ensures var r := PutObject(o, data, length, metadata, mode, newUid, now);
      GetObject(r, None, mode) == Success(Latest(r))
    ensures GetObject(PutObject(o, data, length, metadata, mode, newUid, now), None, mode).value.data == data
  {
    var r := PutObject(o, data, length, metadata, mode, newUid, now);
    if mode == Off {
      assert Get(r.versions, Null) == Some(Latest(r));
    }
  }

  // ---------------------------------------------------------------------
  // Deletes

  /** `_delete_version`: drop the entry under `id` if there is one; if it
      was latest, latest moves to the last remaining entry in map order. */
  function DeleteVersion(o: VersionedObject, id: VersionId): (r: VersionedObject)
    requires Valid(o)
    ensures Valid(r)
    ensures r.versions == Remove(o.versions, id)
    ensures id !in Keys(o.versions) ==> r == o
    ensures id != o.latest ==> r.latest == o.latest
    ensures id == o.latest && r.versions != [] ==> r.latest == Last(r.versions).0
    ensures r.bucketName == o.bucketName && r.objectName == o.objectName
  {
    if id !in Keys(o.versions) then
      RemoveAbsent(o.versions, id);
      o
    else
      var rest := Remove(o.versions, id);
      if rest != [] && id == o.latest then
        KeyAt(rest, |rest| - 1);
        o.(versions := rest, latest := Last(rest).1.id)
      else
        o.(versions := rest)
  }

  /** The suspended-mode soft delete: the latest version's marker flag is
      set in place; nothing moves, nothing is added. */
  function MarkLatestDeleted(o: VersionedObject): (r: VersionedObject)
    requires Stored(o)
    ensures Stored(r) && r.latest == o.latest
    ensures Keys(r.versions) == Keys(o.versions)
    ensures Latest(r) == Latest(o).(isDeleteMarker := true)
    ensures forall v :: v != o.latest ==> Get(r.versions, v) == Get(o.versions, v)
    ensures r.bucketName == o.bucketName && r.objectName == o.objectName
  {
    PutObjectVersionRecord(o, Latest(o).(isDeleteMarker := true))
  }

  /** Store an existing version record again under its own id. */
  function PutObjectVersionRecord(o: VersionedObject, v: Version): (r: VersionedObject)
    requires Stored(o) && v.id == o.latest
    ensures Stored(r) && r.latest == o.latest
    ensures Keys(r.versions) == Keys(o.versions)
    ensures Get(r.versions, o.latest) == Some(v)
    ensures forall x :: x != o.latest ==> Get(r.versions, x) == Get(o.versions, x)
    ensures r.bucketName == o.bucketName && r.objectName == o.objectName
  {
    PutAddsOnly(o.versions, o.latest, v);
    o.(versions := Put(o.versions, o.latest, v))
  }

  /** `remove_object` on one key. The id is checked first, in every mode.
      Enabled: an explicit id is hard-deleted; no id appends a delete marker
      under the newUid id unless latest already is one. Suspended: an
      explicit id is hard-deleted; no id flags latest as deleted. Off never
      reaches here from a bucket and changes nothing. */
  function RemoveObject(o: VersionedObject, text: Option<string>, mode: Mode, newUid: Uuid, now: nat)
    : (r: Result<VersionedObject, Error>)
    requires Stored(o)
    ensures r.Success? ==> Valid(r.value)
    ensures r.Success? ==> r.value.bucketName == o.bucketName && r.value.objectName == o.objectName
    ensures r.Failure? ==> r.error == InvalidVersion(o.bucketName, o.objectName)
    ensures r.Failure? <==> CheckVersionId(o, text, false).Failure?
  {
    var id :- CheckVersionId(o, text, false);
    if mode == Enabled then
      if id.Some? then Success(DeleteVersion(o, id.value))
      else if Latest(o).isDeleteMarker then Success(o)
      else Success(PutObjectVersion(o, [], Uid(newUid), true, map[], now))
    else if mode == Suspended then
      if id.Some? then Success(DeleteVersion(o, id.value))
      else Success(MarkLatestDeleted(o))
    else
      Success(o)
  }

  /** The delete marker an Enabled version-less remove appends. */
  function DeleteMarker(newUid: Uuid, now: nat): Version {
    NewVersion([], Uid(newUid), true, map[], now)
  }

  /** Enabled, no id, latest not a marker, newUid id unused: exactly one
      delete marker is appended under the newUid id and becomes latest. */
  lemma EnabledRemoveAppendsMarker(o: VersionedObject, text: Option<string>, newUid: Uuid, now: nat)
    requires Stored(o) && Unspecified(text) && !Latest(o).isDeleteMarker
    requires Uid(newUid) !in Keys(o.versions)
    ensures RemoveObject(o, text, Enabled, newUid, now)
      == Success(o.(versions := o.versions + [(Uid(newUid), DeleteMarker(newUid, now))], latest := Uid(newUid)))
  {
    assert CheckVersionId(o, text, false) == Success(None);
    PutAbsentAppends(o.versions, Uid(newUid), DeleteMarker(newUid, now));
    assert RemoveObject(o, text, Enabled, newUid, now)
      == Success(PutObjectVersion(o, [], Uid(newUid), true, map[], now));
  }

  /** Enabled, no id: afterwards latest is a delete marker, whatever the
      history held before. */
  lemma EnabledRemoveLeavesMarker(o: VersionedObject, text: Option<string>, newUid: Uuid, now: nat)
    requires Stored(o) && Unspecified(text)
    ensures RemoveObject(o, text, Enabled, newUid, now).Success?
    ensures var r := RemoveObject(o, text, Enabled, newUid, now).value;
      Stored(r) && Latest(r).isDeleteMarker
  {
    assert CheckVersionId(o, text, false) == Success(None);
  }

  /** Enabled, no id, latest already a delete marker: nothing changes,
      whatever else the marker carries (a Suspended remove leaves the
      payload of the version it flags). */
  lemma EnabledRemoveOnMarker(o: VersionedObject, text: Option<string>, newUid: Uuid, now: nat)
    requires Stored(o) && Unspecified(text) && Latest(o).isDeleteMarker
    ensures RemoveObject(o, text, Enabled, newUid, now) == Success(o)
  {
    assert CheckVersionId(o, text, false) == Success(None);
  }

  /** Repeating an Enabled version-less remove without a write in between
      changes nothing. */
  lemma EnabledRemoveIdempotent(o: VersionedObject, text: Option<string>, newUid: Uuid, now: nat,
                                newUid2: Uuid, now2: nat)
    requires Stored(o) && Unspecified(text)
    ensures RemoveObject(o, text, Enabled, newUid, now).Success?
    ensures var once := RemoveObject(o, text, Enabled, newUid, now).value;
      RemoveObject(once, text, Enabled, newUid2, now2) == Success(once)
  {
    EnabledRemoveLeavesMarker(o, text, newUid, now);
    EnabledRemoveOnMarker(RemoveObject(o, text, Enabled, newUid, now).value, text, newUid2, now2);
  }

  /** With versioning on, an explicit id deletes exactly that entry (or
      nothing, if absent); when it was latest, latest moves to the most
      recently inserted entry that remains. */
  lemma RemoveExplicit(o: VersionedObject, text: Option<string>, mode: Mode, newUid: Uuid, now: nat,
                       id: VersionId)
    requires Stored(o) && mode != Off
    requires CheckVersionId(o, text, false) == Success(Some(id))
    ensures RemoveObject(o, text, mode, newUid, now).Success?
    ensures var r := RemoveObject(o, text, mode, newUid, now).value;
      && (id !in Keys(o.versions) ==> r == o)
      && (id in Keys(o.versions) ==>
            r.versions == o.versions[..IndexOf(o.versions, id)] + o.versions[IndexOf(o.versions, id) + 1..])
      && (id != o.latest ==> r.latest == o.latest)
      && (id == o.latest && r.versions != [] ==> r.latest == Last(r.versions).0)
  {
    if id in Keys(o.versions) {
      RemoveClosesGap(o.versions, id);
    }
  }

  /** Suspended, no id: the latest version (not necessarily the `"null"`
      slot) becomes a delete marker in place; the number and order of
      versions do not change. */
  lemma SuspendedRemoveMarksLatest(o: VersionedObject, text: Option<string>, newUid: Uuid, now: nat)
    requires Stored(o) && Unspecified(text)
    ensures RemoveObject(o, text, Suspended, newUid, now).Success?
    ensures var r := RemoveObject(o, text, Suspended, newUid, now).value;
      && Stored(r) && r.latest == o.latest
      && Keys(r.versions) == Keys(o.versions) && |r.versions| == |o.versions|
      && Latest(r) == Latest(o).(isDeleteMarker := true)
      && forall v :: v != o.latest ==> Get(r.versions, v) == Get(o.versions, v)
  {
  }

  // ---------------------------------------------------------------------
  // Version order

  /** The order of `list_versions`, which sorts on the key
      `(is_delete_marker, -last_modified)`: versions before delete markers,
      and newer before older within each group. */
  predicate SortsBefore(a: Version, b: Version) {
    || (!a.isDeleteMarker && b.isDeleteMarker)
    || (a.isDeleteMarker == b.isDeleteMarker && a.lastModified > b.lastModified)
  }

  /** `SortsBefore` is a strict order: irreflexive, asymmetric and
      transitive. */
  lemma SortsBeforeIsStrict(a: Version, b: Version, c: Version)
    ensures !SortsBefore(a, a)
    ensures SortsBefore(a, b) ==> !SortsBefore(b, a)
    ensures SortsBefore(a, b) && SortsBefore(b, c) ==> SortsBefore(a, c)
  {
  }

  /** No entry sorts before an entry that precedes it. */
  predicate InListingOrder(s: OMap<VersionId, Version>) {
    forall i, j :: 0 <= i < j < |s| ==> !SortsBefore(s[j].1, s[i].1)
  }

  /** One step of a stable insertion sort: `p` goes before the first entry
      that does not sort before it. */
  function InsertInOrder(p: (VersionId, Version), s: OMap<VersionId, Version>)
    : (r: OMap<VersionId, Version>)
    ensures multiset(r) == multiset(s) + multiset{p} && |r| == |s| + 1
  {
    if s == [] then [p]
    else if !SortsBefore(s[0].1, p.1) then [p] + s
    else
      assert s == [s[0]] + s[1..];
      [s[0]] + InsertInOrder(p, s[1..])
  }

  /** "Does not sort before" is transitive. */
  lemma NotBeforeTransitive(a: Version, b: Version, c: Version)
    requires !SortsBefore(a, b) && !SortsBefore(b, c)
    ensures !SortsBefore(a, c)
  {
  }

  /** An entry that nothing in an ordered sequence sorts before can go in
      front of it. */
  lemma ConsInOrder(p: (VersionId, Version), s: OMap<VersionId, Version>)
    requires InListingOrder(s)
    requires forall j :: 0 <= j < |s| ==> !SortsBefore(s[j].1, p.1)
    ensures InListingOrder([p] + s)
  {
    var r := [p] + s;
    forall i, j | 0 <= i < j < |r| ensures !SortsBefore(r[j].1, r[i].1) {
      assert r[j] == s[j - 1];
      if i > 0 {
        assert r[i] == s[i - 1];
      }
    }
  }

  /** Inserting into an ordered history keeps it ordered. */
  lemma {:induction false} InsertKeepsOrder(p: (VersionId, Version), s: OMap<VersionId, Version>)
    requires InListingOrder(s)
    ensures InListingOrder(InsertInOrder(p, s))
  {
    if s == [] {
    } else if !SortsBefore(s[0].1, p.1) {
      forall j | 0 <= j < |s| ensures !SortsBefore(s[j].1, p.1) {
        if j > 0 {
          NotBeforeTransitive(s[j].1, s[0].1, p.1);
        }
      }
      ConsInOrder(p, s);
    } else {
      var rest := InsertInOrder(p, s[1..]);
      InsertKeepsOrder(p, s[1..]);
      assert InsertInOrder(p, s) == [s[0]] + rest;
      forall j | 0 <= j < |rest| ensures !SortsBefore(rest[j].1, s[0].1) {
        assert rest[j] in multiset(rest);
        if rest[j] != p {
          assert rest[j] in s[1..];
          var k :| 0 <= k < |s[1..]| && s[1..][k] == rest[j];
          assert s[k + 1] == rest[j];
        }
      }
      ConsInOrder(s[0], rest);
    }
  }

  /** Inserting adds exactly the inserted key, and keeps keys distinct when
      that key is new. */
  lemma {:induction false} InsertKeys(p: (VersionId, Version), s: OMap<VersionId, Version>)
    ensures forall k :: k in Keys(InsertInOrder(p, s)) <==> k == p.0 || k in Keys(s)
    ensures Wf(s) && p.0 !in Keys(s) ==> Wf(InsertInOrder(p, s))
  {
    if s == [] {
    } else if !SortsBefore(s[0].1, p.1) {
      KeysCons(p, s);
      assert ([p] + s)[1..] == s;
    } else {
      var rest := InsertInOrder(p, s[1..]);
      InsertKeys(p, s[1..]);
      assert s == [s[0]] + s[1..];
      KeysCons(s[0], rest);
      KeysCons(s[0], s[1..]);
      assert ([s[0]] + rest)[1..] == rest;
    }
  }

  /** Python's `sorted`, which is stable: a stable insertion sort. */
  function SortInListingOrder(s: OMap<VersionId, Version>): (r: OMap<VersionId, Version>)
    ensures InListingOrder(r)
    ensures multiset(r) == multiset(s) && |r| == |s|
    ensures forall k :: k in Keys(r) <==> k in Keys(s)
    ensures Wf(s) ==> Wf(r)
  {
    if s == [] then []
    else
      var sorted := SortInListingOrder(s[1..]);
      KeysCons(s[0], s[1..]);
      assert s == [s[0]] + s[1..];
      InsertKeepsOrder(s[0], sorted);
      InsertKeys(s[0], sorted);
      InsertInOrder(s[0], sorted)
  }

  /** The key `list_versions` sorts on. Two versions tie, neither sorting
      before the other, exactly when their keys are equal. */
  function SortKey(v: Version): (bool, nat) {
    (v.isDeleteMarker, v.lastModified)
  }

  lemma TiesShareSortKey(a: Version, b: Version)
    ensures !SortsBefore(a, b) && !SortsBefore(b, a) <==> SortKey(a) == SortKey(b)
  {
  }

  /** The entries of `s` whose sort key is `k`, in their order in `s`. */
  function WithSortKey(s: OMap<VersionId, Version>, k: (bool, nat)): OMap<VersionId, Version> {
    if s == [] then []
    else (if SortKey(s[0].1) == k then [s[0]] else []) + WithSortKey(s[1..], k)
  }

  /** An inserted entry goes in front of the entries it ties with. */
  lemma {:induction false} InsertIsStable(p: (VersionId, Version), s: OMap<VersionId, Version>,
                                          k: (bool, nat))
    ensures WithSortKey(InsertInOrder(p, s), k)
      == (if SortKey(p.1) == k then [p] else []) + WithSortKey(s, k)
  {
    if s == [] || !SortsBefore(s[0].1, p.1) {
      assert InsertInOrder(p, s) == [p] + s;
      WithSortKeyCons(p, s, k);
    } else {
      InsertIsStable(p, s[1..], k);
      InsertPastStable(p, s, k);
    }
  }

  /** The step past an entry that sorts before the inserted one, which
      therefore does not tie with it. */
  lemma InsertPastStable(p: (VersionId, Version), s: OMap<VersionId, Version>, k: (bool, nat))
    requires s != [] && SortsBefore(s[0].1, p.1)
    requires WithSortKey(InsertInOrder(p, s[1..]), k)
      == (if SortKey(p.1) == k then [p] else []) + WithSortKey(s[1..], k)
    ensures WithSortKey(InsertInOrder(p, s), k)
      == (if SortKey(p.1) == k then [p] else []) + WithSortKey(s, k)
  {
    var rest := InsertInOrder(p, s[1..]);
    assert InsertInOrder(p, s) == [s[0]] + rest;
    WithSortKeyCons(s[0], rest, k);
    assert WithSortKey(s, k) == (if SortKey(s[0].1) == k then [s[0]] else []) + WithSortKey(s[1..], k);
    if SortKey(p.1) == k {
      assert SortKey(s[0].1) != k;
    }
  }

  lemma WithSortKeyCons(p: (VersionId, Version), s: OMap<VersionId, Version>, k: (bool, nat))
    ensures WithSortKey([p] + s, k) == (if SortKey(p.1) == k then [p] else []) + WithSortKey(s, k)
  {
    assert ([p] + s)[1..] == s;
  }

  /** `sorted` is stable: the entries that tie on the sort key keep the
      order they have in the input. */
  lemma {:induction false} SortIsStable(s: OMap<VersionId, Version>, k: (bool, nat))
    ensures WithSortKey(SortInListingOrder(s), k) == WithSortKey(s, k)
  {
    if s != [] {
      SortIsStable(s[1..], k);
      InsertIsStable(s[0], SortInListingOrder(s[1..]), k);
    }
  }

  /** `list_versions`: every version exactly once, versions before delete
      markers, newest first within each group. */
  function ListVersions(o: VersionedObject): (r: OMap<VersionId, Version>)
    requires Valid(o)
    ensures InListingOrder(r)
    ensures multiset(r) == multiset(o.versions) && |r| == |o.versions|
    ensures Wf(r) && forall k :: k in Keys(r) <==> k in Keys(o.versions)
    ensures forall k :: WithSortKey(r, k) == WithSortKey(o.versions, k)
  {
    forall k ensures WithSortKey(SortInListingOrder(o.versions), k) == WithSortKey(o.versions, k) {
      SortIsStable(o.versions, k);
    }
    SortInListingOrder(o.versions)
  }

  // ---------------------------------------------------------------------
  // Stat

  /** What `stat_object` reports. */
  datatype ObjectInfo = ObjectInfo(bucketName: string, objectName: string, lastModified: nat,
                                   versionId: Option<string>, size: nat, metadata: Metadata)

  function Info(o: VersionedObject, v: Version): (r: ObjectInfo)
    ensures r.bucketName == o.bucketName && r.objectName == o.objectName
    ensures r.versionId.None? <==> v.id.Null?
    ensures r.versionId.Some? ==> ParseUuid(r.versionId.value) == Some(v.id.value)
    ensures r.lastModified == v.lastModified && r.size == v.size && r.metadata == v.metadata
  {
    ObjectInfo(o.bucketName, o.objectName, v.lastModified, VersionIdText(v.id), v.size, v.metadata)
  }

  /** `stat_object`. No id means the `"null"` slot, not latest, and delete
      markers are reported like any other version. */
  function StatObject(o: VersionedObject, text: Option<string>): (r: Result<ObjectInfo, Error>)
    ensures r.Success? ==> exists p :: p in o.versions && r.value == Info(o, p.1)
    ensures r.Failure? ==> r.error in {InvalidVersion(o.bucketName, o.objectName),
                                       NoSuchVersion(o.bucketName, o.objectName)}
  {
    var id :- CheckVersionId(o, text, true);
    var v :- CheckObjectVersion(o, id.value);
    Success(Info(o, v))
  }

  /** An explicit id that parses is a stat of exactly the version stored
      under it, or `no_such_version`. */
  lemma StatExplicit(o: VersionedObject, text: Option<string>, id: VersionId)
    requires CheckVersionId(o, text, false) == Success(Some(id))
    ensures StatObject(o, text) == match Get(o.versions, id)
      case None => Failure(NoSuchVersion(o.bucketName, o.objectName))
      case Some(v) => Success(Info(o, v))
  {
  }

  /** A malformed id is rejected before anything is looked up. */
  lemma StatMalformed(o: VersionedObject, text: Option<string>)
    requires !Unspecified(text) && text != Some("null") && !IsUuidText(text.value)
    ensures StatObject(o, text) == Failure(InvalidVersion(o.bucketName, o.objectName))
  {
  }

  /** Every stored version can be stated through the id text a listing
      hands out for it. */
  lemma StatByListedId(o: VersionedObject, v: VersionId)
    requires v in Keys(o.versions)
    ensures StatObject(o, VersionIdText(v)) == Success(Info(o, Lookup(o.versions, v)))
  {
    CheckRenderedVersionId(o, v);
  }

  /** A stat without an id is a stat of the `"null"` slot, marker or not. */
  lemma StatUnspecifiedIsNullSlot(o: VersionedObject, text: Option<string>)
    requires Unspecified(text)
    ensures StatObject(o, text) == StatObject(o, Some("null"))
    ensures StatObject(o, text) == match Get(o.versions, Null)
      case None => Failure(NoSuchVersion(o.bucketName, o.objectName))
      case Some(v) => Success(Info(o, v))
  {
  }
}
