/** One bucket: `MockMinioBucket` of pytest_minio_mock/plugin.py.

    A bucket maps object names to version histories, in insertion order,
    and carries the versioning mode that every object operation is run
    under. An object whose last version goes away leaves the bucket. */
module Buckets {
  import opened Wrappers
  import opened OrderedMaps
  import opened VersionIds
  import opened Errors
  import opened Versions

  datatype Bucket = Bucket(name: string, mode: Mode, objects: OMap<string, VersionedObject>,
                           location: Option<string>, objectLock: bool)

  /** Each object is filed under its own name, knows which bucket it is in,
      and holds at least one version. */
  predicate Consistent(b: Bucket) {
    && Wf(b.objects)
    && forall p :: p in b.objects ==>
         p.1.objectName == p.0 && p.1.bucketName == b.name && Stored(p.1)
  }

  /** `MockMinioBucket(...)`: no objects yet. */
  function NewBucket(name: string, mode: Mode, location: Option<string>, objectLock: bool)
    : (r: Bucket)
    ensures Consistent(r) && r.objects == [] && r.name == name && r.mode == mode
  {
    Bucket(name, mode, [], location, objectLock)
  }

  /** The history filed under `name`. */
  function ObjectAt(b: Bucket, name: string): (o: VersionedObject)
    requires Consistent(b) && name in Keys(b.objects)
    ensures Stored(o) && o.objectName == name && o.bucketName == b.name
    ensures (name, o) in b.objects
  {
    Lookup(b.objects, name)
  }

  /** Replacing one history by a stored history of the same name keeps the
      bucket consistent. */
  lemma {:induction false} PutKeepsConsistent(b: Bucket, name: string, o: VersionedObject)
    requires Consistent(b)
    requires Stored(o) && o.objectName == name && o.bucketName == b.name
    ensures Consistent(b.(objects := Put(b.objects, name, o)))
  {
    PutAddsOnly(b.objects, name, o);
  }

  /** Dropping a history keeps the bucket consistent. */
  lemma {:induction false} RemoveKeepsConsistent(b: Bucket, name: string)
    requires Consistent(b)
    ensures Consistent(b.(objects := Remove(b.objects, name)))
  {
  }

  // ---------------------------------------------------------------------
  // Writes and deletes

  /** `put_object`: the first write of a name creates its history at the
      end of the bucket, later writes extend it in place. Either way the
      latest version of `name` is the payload just written. */
  function PutObject(b: Bucket, name: string, data: Bytes, length: int, metadata: Metadata,
                     newUid: Uuid, now: nat): (r: Bucket)
    requires Consistent(b)
    ensures Consistent(r)
    ensures r.name == b.name && r.mode == b.mode
    ensures Keys(r.objects) == if name in Keys(b.objects) then Keys(b.objects) else Keys(b.objects) + [name]
    ensures Latest(ObjectAt(r, name)) ==
      Version(data, |data|, if b.mode == Enabled then Uid(newUid) else Null, false, metadata, now)
    ensures forall n :: n != name ==> Get(r.objects, n) == Get(b.objects, n)
    ensures name in Keys(b.objects) ==>
      ObjectAt(r, name) == Versions.PutObject(ObjectAt(b, name), data, length, metadata, b.mode, newUid, now)
    ensures name !in Keys(b.objects) ==>
      ObjectAt(r, name) == NewObject(b.name, name, data, length, metadata, b.mode, newUid, now)
  {
    var o := if name in Keys(b.objects)
             then Versions.PutObject(ObjectAt(b, name), data, length, metadata, b.mode, newUid, now)
             else NewObject(b.name, name, data, length, metadata, b.mode, newUid, now);
    FileHistory(b, name, o)
  }

  /** `objects[name] = o` for a stored history of that name: the name keeps
      its position or goes last, and no other name changes. */
  function FileHistory(b: Bucket, name: string, o: VersionedObject): (r: Bucket)
    requires Consistent(b)
    requires Stored(o) && o.objectName == name && o.bucketName == b.name
    ensures Consistent(r) && r.name == b.name && r.mode == b.mode
    ensures Keys(r.objects) == if name in Keys(b.objects) then Keys(b.objects) else Keys(b.objects) + [name]
    ensures name in Keys(r.objects) && ObjectAt(r, name) == o
    ensures forall n :: n != name ==> Get(r.objects, n) == Get(b.objects, n)
  {
    PutKeepsConsistent(b, name, o);
    b.(objects := Put(b.objects, name, o))
  }

  /** `remove_object`. A name that is not there is not an error and its
      version argument is not even looked at. Under Off the whole history
      goes. Otherwise the history's own remove runs under the bucket's
      mode, and if no version is left the name leaves the bucket. */
  function RemoveObject(b: Bucket, name: string, text: Option<string>, newUid: Uuid, now: nat)
    : (r: Result<Bucket, Error>)
    requires Consistent(b)
    ensures r.Success? ==> Consistent(r.value) && r.value.name == b.name && r.value.mode == b.mode
    ensures r.Success? ==> forall n :: n != name ==> Get(r.value.objects, n) == Get(b.objects, n)
    ensures r.Success? ==> forall n :: n in Keys(r.value.objects) ==> n in Keys(b.objects)
    ensures name !in Keys(b.objects) ==> r == Success(b)
    ensures b.mode == Off ==> r.Success? && name !in Keys(r.value.objects)
    ensures name in Keys(b.objects) && b.mode == Off ==> r.Success? && r.value.objects == Remove(b.objects, name)
    ensures r.Failure? ==> r.error == InvalidVersion(b.name, name)
    ensures name in Keys(b.objects) && b.mode != Off ==>
      match Versions.RemoveObject(ObjectAt(b, name), text, b.mode, newUid, now)
      case Failure(e) => r == Failure(e)
      case Success(o) =>
        && r.Success?
        && (if o.versions == [] then
              name !in Keys(r.value.objects) && r.value.objects == Remove(b.objects, name)
            else
              Get(r.value.objects, name) == Some(o) && Keys(r.value.objects) == Keys(b.objects))
  {
    if name !in Keys(b.objects) then Success(b)
    else if b.mode == Off then Success(DropObject(b, name))
    else
      match Versions.RemoveObject(ObjectAt(b, name), text, b.mode, newUid, now)
      case Failure(e) => Failure(e)
      case Success(o) => Success(StoreHistory(b, name, o))
  }

  /** File a history after a delete: a history with no version left takes
      its name out of the bucket. */
  function StoreHistory(b: Bucket, name: string, o: VersionedObject): (r: Bucket)
    requires Consistent(b) && name in Keys(b.objects)
    requires Versions.Valid(o) && o.objectName == name && o.bucketName == b.name
    ensures Consistent(r) && r.name == b.name && r.mode == b.mode
    ensures forall n :: n != name ==> Get(r.objects, n) == Get(b.objects, n)
    ensures forall n :: n in Keys(r.objects) ==> n in Keys(b.objects)
    ensures name in Keys(r.objects) <==> o.versions != []
    ensures o.versions != [] ==> Get(r.objects, name) == Some(o)
    ensures o.versions != [] ==> Keys(r.objects) == Keys(b.objects)
    ensures o.versions == [] ==> r.objects == Remove(b.objects, name)
  {
    if o.versions == [] then DropObject(b, name)
    else FileHistory(b, name, o)
  }

  /** `del objects[name]`: the map-level remove, so the name leaves and
      the names after it move up one place (`RemoveClosesGap`). */
  function DropObject(b: Bucket, name: string): (r: Bucket)
    requires Consistent(b)
    ensures Consistent(r) && r.name == b.name && r.mode == b.mode
    ensures name !in Keys(r.objects)
    ensures r.objects == Remove(b.objects, name)
    ensures forall n :: n != name ==> Get(r.objects, n) == Get(b.objects, n)
    ensures forall n :: n in Keys(r.objects) ==> n in Keys(b.objects)
  {
    RemoveKeepsConsistent(b, name);
    forall n | n != name ensures Get(Remove(b.objects, name), n) == Get(b.objects, n) {
      RemoveGet(b.objects, name, n);
    }
    b.(objects := Remove(b.objects, name))
  }

  /** With versioning on, a name stays in the bucket after a remove
      exactly when its history still holds a version. */
  lemma RemoveKeepsNameIff(b: Bucket, name: string, text: Option<string>, newUid: Uuid, now: nat)
    requires Consistent(b) && b.mode != Off && name in Keys(b.objects)
    requires RemoveObject(b, name, text, newUid, now).Success?
    ensures Versions.RemoveObject(ObjectAt(b, name), text, b.mode, newUid, now).Success?
    ensures name in Keys(RemoveObject(b, name, text, newUid, now).value.objects)
      <==> Versions.RemoveObject(ObjectAt(b, name), text, b.mode, newUid, now).value.versions != []
  {
  }

  /** With versioning on, removing a present name with a malformed id
      fails with `invalid_version` and changes nothing. */
  lemma RemoveMalformedFails(b: Bucket, name: string, text: Option<string>, newUid: Uuid, now: nat)
    requires Consistent(b) && b.mode != Off && name in Keys(b.objects)
    requires !Unspecified(text) && text != Some("null") && !IsUuidText(text.value)
    ensures RemoveObject(b, name, text, newUid, now) == Failure(InvalidVersion(b.name, name))
  {
  }

  // ---------------------------------------------------------------------
  // Reads

  /** `get_object`: `no_such_key` for a name that is not there, otherwise
      the history's read under the bucket's mode. */
  function GetObject(b: Bucket, name: string, text: Option<string>): (r: Result<Version, Error>)
    requires Consistent(b)
    ensures name !in Keys(b.objects) ==> r == Failure(NoSuchKey(b.name, name))
    ensures name in Keys(b.objects) ==> r == Versions.GetObject(ObjectAt(b, name), text, b.mode)
    ensures r.Success? ==> !r.value.isDeleteMarker
  {
    if name !in Keys(b.objects) then Failure(NoSuchKey(b.name, name))
    else Versions.GetObject(ObjectAt(b, name), text, b.mode)
  }

  /** `stat_object`: `no_such_key` for a name that is not there, otherwise
      the history's stat. */
  function StatObject(b: Bucket, name: string, text: Option<string>): (r: Result<ObjectInfo, Error>)
    requires Consistent(b)
    ensures name !in Keys(b.objects) ==> r == Failure(NoSuchKey(b.name, name))
    ensures r.Success? ==> r.value.bucketName == b.name && r.value.objectName == name
    ensures name in Keys(b.objects) ==> r == Versions.StatObject(ObjectAt(b, name), text)
  {
    if name !in Keys(b.objects) then Failure(NoSuchKey(b.name, name))
    else Versions.StatObject(ObjectAt(b, name), text)
  }

  /** Writing a name and reading it back without a version id gives the
      payload just written, in every mode and whether or not the name was
      there before. */
  lemma PutThenGet(b: Bucket, name: string, data: Bytes, length: int, metadata: Metadata,
                   newUid: Uuid, now: nat)
    requires Consistent(b)
    ensures var r := PutObject(b, name, data, length, metadata, newUid, now);
      GetObject(r, name, None) == Success(Latest(ObjectAt(r, name)))
    ensures GetObject(PutObject(b, name, data, length, metadata, newUid, now), name, None).value.data
      == data
  {
    var base := if name in Keys(b.objects) then ObjectAt(b, name)
                else VersionedObject(b.name, name, [], Null);
    Versions.PutThenGet(base, data, length, metadata, b.mode, newUid, now);
    var r := PutObject(b, name, data, length, metadata, newUid, now);
    assert ObjectAt(r, name) == Versions.PutObject(base, data, length, metadata, b.mode, newUid, now);
  }

  /** Under Off a remove makes the name unreadable. */
  lemma RemoveThenGetWhenOff(b: Bucket, name: string, text: Option<string>, newUid: Uuid, now: nat)
    requires Consistent(b) && b.mode == Off
    ensures var r := RemoveObject(b, name, text, newUid, now).value;
      GetObject(r, name, None) == Failure(NoSuchKey(b.name, name))
  {
  }

  /** With versioning enabled, a version-less remove of a name makes it
      unreadable without an id, and the name stays listed. */
  lemma EnabledRemoveHides(b: Bucket, name: string, text: Option<string>, newUid: Uuid, now: nat)
    requires Consistent(b) && b.mode == Enabled && Unspecified(text)
    requires name in Keys(b.objects)
    ensures RemoveObject(b, name, text, newUid, now).Success?
    ensures var r := RemoveObject(b, name, text, newUid, now).value;
      && name in Keys(r.objects)
      && GetObject(r, name, None) == Failure(MethodNotAllowed(b.name, name))
  {
    var o := ObjectAt(b, name);
    EnabledRemoveLeavesMarker(o, text, newUid, now);
    var o' := Versions.RemoveObject(o, text, Enabled, newUid, now).value;
    var r := StoreHistory(b, name, o');
    assert RemoveObject(b, name, text, newUid, now) == Success(r);
    assert ObjectAt(r, name) == o';
    GetUnspecified(o', None, Enabled);
  }
}
