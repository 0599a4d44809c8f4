/** `MockMinioBucket.list_objects` of pytest_minio_mock/plugin.py.

    A listing walks the bucket's names in insertion order (not sorted)
    and keeps those under the prefix and, when a start-after name is
    given, above it in string order. A recursive listing yields every
    kept name as records. A non-recursive listing strips `/` from both
    ends of what follows the prefix; if a `/` is left, the name stands
    for a directory, `prefix` plus the first segment plus `/`, yielded
    once; otherwise the name is yielded as records. A name's records are
    one per version, in `list_versions` order, when versions are asked
    for; otherwise one record for the latest version, or none when that
    version is a delete marker. */
module Listing {
  import opened Wrappers
  import opened OrderedMaps
  import opened VersionIds
  import opened Versions
  import opened Buckets
  import Strings

  /** One yielded item: a directory carries only its name, an object
      record carries one version's details. */
  datatype Entry =
    | DirEntry(bucketName: string, objectName: string)
    | ObjectEntry(bucketName: string, objectName: string, lastModified: nat,
                  versionId: Option<string>, isLatest: string, isDeleteMarker: bool,
                  metadata: Metadata)

  /** `str(b).lower()`. */
  function BoolText(b: bool): (t: string)
    ensures t == "true" <==> b
  {
    if b then "true" else "false"
  }

  /** The record of version `v` of `name`. */
  function Record(bucketName: string, name: string, v: Version, isLatest: bool): Entry {
    ObjectEntry(bucketName, name, v.lastModified, VersionIdText(v.id), BoolText(isLatest),
                v.isDeleteMarker, v.metadata)
  }

  /** A record carries its version's id as the text a request takes back
      (none for the `"null"` slot), and `"true"` in `is_latest` exactly for
      the latest version. */
  lemma RecordFields(bucketName: string, name: string, v: Version, isLatest: bool)
    ensures var e := Record(bucketName, name, v, isLatest);
      && e.ObjectEntry? && e.bucketName == bucketName && e.objectName == name
      && (e.versionId.None? <==> v.id.Null?)
      && (e.versionId.Some? ==> ParseUuid(e.versionId.value) == Some(v.id.value))
      && (e.isLatest == "true" <==> isLatest)
      && e.lastModified == v.lastModified && e.isDeleteMarker == v.isDeleteMarker
      && e.metadata == v.metadata
  {
  }

  // ---------------------------------------------------------------------
  // Where a name goes

  /** A name is kept when it starts with the prefix and, if a start-after
      name is given, is above it. */
  predicate Selected(name: string, prefix: string, startAfter: string) {
    Strings.StartsWith(name, prefix) && (startAfter == "" || Strings.LexLess(startAfter, name))
  }

  /** What follows the prefix, with `/` stripped from both ends. */
  function SubPath(name: string, prefix: string): string
    requires Strings.StartsWith(name, prefix)
  {
    Strings.Strip(name[|prefix|..], '/')
  }

  /** A directory name under `prefix`: the prefix, then a non-empty
      segment free of `/`, then `/`. */
  predicate IsDirName(d: string, prefix: string) {
    && |d| >= |prefix| + 2
    && d[..|prefix|] == prefix
    && d[|d| - 1] == '/'
    && '/' !in d[|prefix|..|d| - 1]
  }

  datatype Placement = Skip | AsDir(dirName: string) | AsFile

  /** How one name contributes to a listing. */
  function Place(name: string, prefix: string, recursive: bool, startAfter: string): (p: Placement)
    ensures p.Skip? <==> !Selected(name, prefix, startAfter)
    ensures recursive ==> !p.AsDir?
    ensures !recursive && Selected(name, prefix, startAfter) ==>
      (p.AsFile? <==> '/' !in SubPath(name, prefix))
    ensures p.AsDir? ==> IsDirName(p.dirName, prefix)
  {
    if !Selected(name, prefix, startAfter) then Skip
    else if recursive then AsFile
    else
      var sub := SubPath(name, prefix);
      var idx := Strings.Find(sub, '/');
      if idx == -1 then AsFile
      else
        DirNameOfSegment(prefix, sub, idx);
        AsDir(prefix + sub[..idx + 1])
  }

  /** The prefix, then a stripped sub-path up to and including its first
      `/`, is a directory name. */
  lemma DirNameOfSegment(prefix: string, sub: string, idx: int)
    requires 0 <= idx < |sub| && sub[idx] == '/' && '/' !in sub[..idx] && sub[0] != '/'
    ensures IsDirName(prefix + sub[..idx + 1], prefix)
    ensures (prefix + sub[..idx + 1])[|prefix|..] <= sub
  {
    var d := prefix + sub[..idx + 1];
    assert d[..|prefix|] == prefix;
    assert d[|prefix|..|d| - 1] == sub[..idx];
    assert d[|prefix|..] == sub[..idx + 1];
  }

  /** A directory entry is the prefix followed by the stripped remainder up
      to and including its first `/`: with `IsDirName`, the part after the
      prefix is a `/`-free segment and a `/` that begin the remainder. */
  lemma PlaceDirIsFirstSegment(name: string, prefix: string, recursive: bool, startAfter: string)
    ensures var p := Place(name, prefix, recursive, startAfter);
      p.AsDir? ==> IsDirName(p.dirName, prefix) && p.dirName[|prefix|..] <= SubPath(name, prefix)
  {
    if Place(name, prefix, recursive, startAfter).AsDir? {
      var sub := SubPath(name, prefix);
      DirNameOfSegment(prefix, sub, Strings.Find(sub, '/'));
    }
  }

  /** When the name does not have a `/` right after the prefix, its
      directory entry is a prefix of the name itself. (With a `/` there,
      the stripped slashes are missing from the directory name.) */
  lemma DirIsPrefixOfName(name: string, prefix: string, recursive: bool, startAfter: string)
    requires Place(name, prefix, recursive, startAfter).AsDir?
    requires name[|prefix|] != '/'
    ensures Place(name, prefix, recursive, startAfter).dirName <= name
  {
    var rest := name[|prefix|..];
    assert Strings.StripLeft(rest, '/') == rest;
    var sub := SubPath(name, prefix);
    assert sub == rest[..|sub|];
  }

  /** A name whose remainder starts with `/` gives a directory name that
      is not a prefix of it: `"/x/y"` listed from the root gives `"x/"`. */
  lemma LeadingSlashDirIsNotPrefix()
    ensures Place("/x/y", "", false, "") == AsDir("x/")
    ensures !("x/" <= "/x/y")
  {
    var name := "/x/y";
    assert name[1..] == "x/y";
    assert Strings.StripLeft("x/y", '/') == "x/y";
    assert Strings.StripLeft(name, '/') == "x/y";
    assert Strings.StripRight("x/y", '/') == "x/y";
    assert name[0..] == name;
    assert SubPath(name, "") == "x/y";
    assert Strings.Find("x/y", '/') == 1;
    assert "" + "x/y"[..2] == "x/";
    assert "x/"[0] != name[0];
  }

  // ---------------------------------------------------------------------
  // Records of one name

  /** One record per entry of `s`, flagged latest when its id is `latest`. */
  function VersionRecords(bucketName: string, name: string, latest: VersionId,
                          s: OMap<VersionId, Version>): (r: seq<Entry>)
    ensures |r| == |s|
    ensures forall i :: 0 <= i < |s| ==> r[i] == Record(bucketName, name, s[i].1, s[i].0 == latest)
  {
    if s == [] then []
    else [Record(bucketName, name, s[0].1, s[0].0 == latest)]
         + VersionRecords(bucketName, name, latest, s[1..])
  }

  /** The records a kept file-like name contributes. */
  function KeyRecords(bucketName: string, name: string, o: VersionedObject, includeVersion: bool)
    : (r: seq<Entry>)
    requires Stored(o)
    ensures includeVersion ==> |r| == |o.versions|
    ensures !includeVersion ==>
      r == if Latest(o).isDeleteMarker then [] else [Record(bucketName, name, Latest(o), true)]
  {
    if includeVersion then VersionRecords(bucketName, name, o.latest, ListVersions(o))
    else if Latest(o).isDeleteMarker then []
    else [Record(bucketName, name, Latest(o), true)]
  }

  /** Every record of a name is an object record of that bucket and name. */
  lemma KeyRecordsNamed(bucketName: string, name: string, o: VersionedObject, includeVersion: bool)
    requires Stored(o)
    ensures forall e :: e in KeyRecords(bucketName, name, o, includeVersion) ==>
      e.ObjectEntry? && e.bucketName == bucketName && e.objectName == name
  {
    var r := KeyRecords(bucketName, name, o, includeVersion);
    forall e | e in r ensures e.ObjectEntry? && e.bucketName == bucketName && e.objectName == name {
      var i :| 0 <= i < |r| && r[i] == e;
    }
  }

  /** With versions, a name's records are its versions in `list_versions`
      order, and exactly one of them, the latest version's, says
      `is_latest == "true"`. */
  lemma {:induction false} OneLatestRecord(bucketName: string, name: string, o: VersionedObject)
    requires Stored(o)
    ensures var r := KeyRecords(bucketName, name, o, true);
      && (forall i :: 0 <= i < |r| ==>
            r[i] == Record(bucketName, name, ListVersions(o)[i].1, ListVersions(o)[i].0 == o.latest))
      && (exists i :: 0 <= i < |r| && r[i] == Record(bucketName, name, Latest(o), true))
      && (forall i, j ::
            (0 <= i < |r| && 0 <= j < |r| && r[i].isLatest == "true" && r[j].isLatest == "true")
            ==> i == j)
  {
    var s := ListVersions(o);
    var r := KeyRecords(bucketName, name, o, true);
    var k := IndexOf(s, o.latest);
    assert s[k] in multiset(o.versions);
    MemberIsLookup(o.versions, s[k]);
    assert r[k] == Record(bucketName, name, Latest(o), true);
    forall i, j | 0 <= i < |r| && 0 <= j < |r| && r[i].isLatest == "true" && r[j].isLatest == "true"
      ensures i == j
    {
      KeyPositionUnique(s, i, j);
    }
  }

  // ---------------------------------------------------------------------
  // The walk

  predicate AllStored(objs: OMap<string, VersionedObject>) {
    forall p :: p in objs ==> Stored(p.1)
  }

  /** What every item of a walk satisfies: it names the bucket and starts
      with the prefix; a directory item is not recursive, not among the
      directories already seen, and well formed; a record belongs to one
      of `keys` that is kept and, when not recursive, has a single segment
      below the prefix. */
  predicate ListedItem(e: Entry, bucketName: string, keys: seq<string>, prefix: string,
                       recursive: bool, startAfter: string, seen: set<string>)
  {
    && e.bucketName == bucketName
    && Strings.StartsWith(e.objectName, prefix)
    && (e.DirEntry? ==> !recursive && e.objectName !in seen && IsDirName(e.objectName, prefix))
    && (e.ObjectEntry? ==>
          && e.objectName in keys
          && Selected(e.objectName, prefix, startAfter)
          && (!recursive ==> '/' !in SubPath(e.objectName, prefix)))
  }

  /** An item stays listed for more keys and fewer seen directories. */
  lemma ListedItemWeaken(e: Entry, bucketName: string, keys: seq<string>, keys': seq<string>,
                         prefix: string, recursive: bool, startAfter: string,
                         seen: set<string>, seen': set<string>)
    requires ListedItem(e, bucketName, keys, prefix, recursive, startAfter, seen)
    requires forall k :: k in keys ==> k in keys'
    requires seen' <= seen
    ensures ListedItem(e, bucketName, keys', prefix, recursive, startAfter, seen')
  {
  }

  /** The walk over the names from some point on, with `seen` the
      directory names already yielded. */
  function ListFrom(bucketName: string, objs: OMap<string, VersionedObject>, prefix: string,
                    recursive: bool, startAfter: string, includeVersion: bool, seen: set<string>)
    : (r: seq<Entry>)
    requires AllStored(objs)
    ensures forall e :: e in r ==>
      ListedItem(e, bucketName, Keys(objs), prefix, recursive, startAfter, seen)
    decreases |objs|
  {
    if objs == [] then []
    else
      var name := objs[0].0;
      var tail := objs[1..];
      KeysCons(objs[0], tail);
      assert objs == [objs[0]] + tail;
      assert AllStored(tail);
      var p := Place(name, prefix, recursive, startAfter);
      var seen' := if p.AsDir? then seen + {p.dirName} else seen;
      var head := Contribution(bucketName, name, objs[0].1, prefix, recursive, startAfter,
                               includeVersion, seen);
      var rest := ListFrom(bucketName, tail, prefix, recursive, startAfter, includeVersion, seen');
      ContributionListed(bucketName, name, objs[0].1, prefix, recursive, startAfter,
                         includeVersion, seen);
      forall e | e in rest
        ensures ListedItem(e, bucketName, Keys(objs), prefix, recursive, startAfter, seen)
      {
        ListedItemWeaken(e, bucketName, Keys(tail), Keys(objs), prefix, recursive, startAfter,
                         seen', seen);
      }
      forall e | e in head
        ensures ListedItem(e, bucketName, Keys(objs), prefix, recursive, startAfter, seen)
      {
        ListedItemWeaken(e, bucketName, [name], Keys(objs), prefix, recursive, startAfter,
                         seen, seen);
      }
      head + rest
  }

  /** One step of the walk: the first name's contribution, then the rest
      of the walk with that name's directory marked as seen. */
  lemma ListFromStep(bucketName: string, objs: OMap<string, VersionedObject>, prefix: string,
                     recursive: bool, startAfter: string, includeVersion: bool, seen: set<string>)
    requires AllStored(objs) && objs != []
    ensures AllStored(objs[1..])
    ensures var p := Place(objs[0].0, prefix, recursive, startAfter);
      ListFrom(bucketName, objs, prefix, recursive, startAfter, includeVersion, seen)
      == Contribution(bucketName, objs[0].0, objs[0].1, prefix, recursive, startAfter,
                      includeVersion, seen)
         + ListFrom(bucketName, objs[1..], prefix, recursive, startAfter, includeVersion,
                    if p.AsDir? then seen + {p.dirName} else seen)
  {
  }

  /** What one name adds to the walk: a directory item the first time its
      directory comes up, its records if it is file-like, nothing
      otherwise. */
  function Contribution(bucketName: string, name: string, o: VersionedObject, prefix: string,
                        recursive: bool, startAfter: string, includeVersion: bool,
                        seen: set<string>): (r: seq<Entry>)
    requires Stored(o)
    ensures Place(name, prefix, recursive, startAfter).AsDir? ==>
      var d := Place(name, prefix, recursive, startAfter).dirName;
      r == if d in seen then [] else [DirEntry(bucketName, d)]
    ensures Place(name, prefix, recursive, startAfter).AsFile? ==>
      r == KeyRecords(bucketName, name, o, includeVersion)
    ensures Place(name, prefix, recursive, startAfter).Skip? ==> r == []
  {
    match Place(name, prefix, recursive, startAfter)
    case Skip => []
    case AsDir(d) => if d in seen then [] else [DirEntry(bucketName, d)]
    case AsFile => KeyRecords(bucketName, name, o, includeVersion)
  }

  /** Everything one name contributes is a listed item, and a directory
      item is the directory `Place` gives the name. */
  lemma ContributionListed(bucketName: string, name: string, o: VersionedObject, prefix: string,
                           recursive: bool, startAfter: string, includeVersion: bool,
                           seen: set<string>)
    requires Stored(o)
    ensures var r := Contribution(bucketName, name, o, prefix, recursive, startAfter,
                                  includeVersion, seen);
      forall e :: e in r ==> ListedItem(e, bucketName, [name], prefix, recursive, startAfter, seen)
    ensures var r := Contribution(bucketName, name, o, prefix, recursive, startAfter,
                                  includeVersion, seen);
      forall e :: e in r && e.DirEntry? ==>
        Place(name, prefix, recursive, startAfter).AsDir?
        && e.objectName == Place(name, prefix, recursive, startAfter).dirName
  {
    var p := Place(name, prefix, recursive, startAfter);
    var r := Contribution(bucketName, name, o, prefix, recursive, startAfter, includeVersion, seen);
    if p.Skip? {
      assert r == [];
    } else if p.AsDir? {
      DirNameStartsWithPrefix(p.dirName, prefix);
      if p.dirName in seen {
        assert r == [];
      } else {
        assert r == [DirEntry(bucketName, p.dirName)];
        assert ListedItem(r[0], bucketName, [name], prefix, recursive, startAfter, seen);
      }
    } else {
      KeyRecordsNamed(bucketName, name, o, includeVersion);
      forall e | e in r
        ensures ListedItem(e, bucketName, [name], prefix, recursive, startAfter, seen)
      {
        assert e.ObjectEntry? && e.objectName == name;
      }
    }
  }

  /** A directory name under a prefix starts with it. */
  lemma DirNameStartsWithPrefix(d: string, prefix: string)
    requires IsDirName(d, prefix)
    ensures Strings.StartsWith(d, prefix)
  {
  }

  /** `list_objects` on a bucket. */
  function ListObjects(b: Bucket, prefix: string, recursive: bool, startAfter: string,
                       includeVersion: bool): (r: seq<Entry>)
    requires Consistent(b)
    ensures forall e :: e in r ==>
      ListedItem(e, b.name, Keys(b.objects), prefix, recursive, startAfter, {})
  {
    ListFrom(b.name, b.objects, prefix, recursive, startAfter, includeVersion, {})
  }

  /** Two pieces without repeated directory names, and without a
      directory name in common, concatenate to one without repeats. */
  lemma ConcatDistinctDirs(a: seq<Entry>, b: seq<Entry>)
    requires forall i, j :: 0 <= i < j < |a| && a[i].DirEntry? && a[j].DirEntry? ==> a[i].objectName != a[j].objectName
    requires forall i, j :: 0 <= i < j < |b| && b[i].DirEntry? && b[j].DirEntry? ==> b[i].objectName != b[j].objectName
    requires forall i, j :: 0 <= i < |a| && 0 <= j < |b| && a[i].DirEntry? && b[j].DirEntry? ==>
      a[i].objectName != b[j].objectName
    ensures var r := a + b;
      forall i, j :: 0 <= i < j < |r| && r[i].DirEntry? && r[j].DirEntry? ==> r[i].objectName != r[j].objectName
  {
    var r := a + b;
    forall i, j | 0 <= i < j < |r| && r[i].DirEntry? && r[j].DirEntry?
      ensures r[i].objectName != r[j].objectName
    {
      if j < |a| {
        assert r[i] == a[i] && r[j] == a[j];
      } else if i < |a| {
        assert r[i] == a[i] && r[j] == b[j - |a|];
      } else {
        assert r[i] == b[i - |a|] && r[j] == b[j - |a|];
      }
    }
  }

  /** No directory is yielded twice. */
  lemma {:induction false} ListedDirsDistinct(bucketName: string, objs: OMap<string, VersionedObject>,
                                              prefix: string, recursive: bool, startAfter: string,
                                              includeVersion: bool, seen: set<string>)
    requires AllStored(objs)
    ensures var r := ListFrom(bucketName, objs, prefix, recursive, startAfter, includeVersion, seen);
      forall i, j :: 0 <= i < j < |r| && r[i].DirEntry? && r[j].DirEntry? ==>
        r[i].objectName != r[j].objectName
    decreases |objs|
  {
    if objs != [] {
      var name := objs[0].0;
      var tail := objs[1..];
      ListFromStep(bucketName, objs, prefix, recursive, startAfter, includeVersion, seen);
      var p := Place(name, prefix, recursive, startAfter);
      var seen' := if p.AsDir? then seen + {p.dirName} else seen;
      var head := Contribution(bucketName, name, objs[0].1, prefix, recursive, startAfter,
                               includeVersion, seen);
      var rest := ListFrom(bucketName, tail, prefix, recursive, startAfter, includeVersion, seen');
      ListedDirsDistinct(bucketName, tail, prefix, recursive, startAfter, includeVersion, seen');
      ContributionListed(bucketName, name, objs[0].1, prefix, recursive, startAfter,
                         includeVersion, seen);
      forall i, j | 0 <= i < |head| && 0 <= j < |rest| && head[i].DirEntry? && rest[j].DirEntry?
        ensures head[i].objectName != rest[j].objectName
      {
        assert head[i] in head && rest[j] in rest;
      }
      ConcatDistinctDirs(head, rest);
    }
  }

  // ---------------------------------------------------------------------
  // Reference definitions

  /** The directory names the names of `objs` stand for. */
  function DirsOf(objs: OMap<string, VersionedObject>, prefix: string, recursive: bool,
                  startAfter: string): set<string>
  {
    set k | k in Keys(objs) && Place(k, prefix, recursive, startAfter).AsDir?
      :: Place(k, prefix, recursive, startAfter).dirName
  }

  /** The directory names a sequence of items holds. */
  function DirNames(r: seq<Entry>): set<string> {
    set e | e in r && e.DirEntry? :: e.objectName
  }

  /** A walk yields every directory that some name stands for, except the
      ones already seen. */
  lemma {:induction false} ListedDirs(bucketName: string, objs: OMap<string, VersionedObject>,
                                      prefix: string, recursive: bool, startAfter: string,
                                      includeVersion: bool, seen: set<string>)
    requires AllStored(objs)
    ensures DirNames(ListFrom(bucketName, objs, prefix, recursive, startAfter, includeVersion, seen))
      == DirsOf(objs, prefix, recursive, startAfter) - seen
    decreases |objs|
  {
    if objs == [] {
      assert DirsOf(objs, prefix, recursive, startAfter) == {};
    } else {
      var name := objs[0].0;
      var tail := objs[1..];
      ListFromStep(bucketName, objs, prefix, recursive, startAfter, includeVersion, seen);
      var p := Place(name, prefix, recursive, startAfter);
      var seen' := if p.AsDir? then seen + {p.dirName} else seen;
      var head := Contribution(bucketName, name, objs[0].1, prefix, recursive, startAfter,
                               includeVersion, seen);
      var rest := ListFrom(bucketName, tail, prefix, recursive, startAfter, includeVersion, seen');
      ListedDirs(bucketName, tail, prefix, recursive, startAfter, includeVersion, seen');
      DirNamesAppend(head, rest);
      DirsOfStep(objs, prefix, recursive, startAfter);
      ContributionDirs(bucketName, name, objs[0].1, prefix, recursive, startAfter, includeVersion, seen);
      var d := if p.AsDir? then p.dirName else "";
      SeenStep(d, p.AsDir?, seen, DirsOf(tail, prefix, recursive, startAfter));
    }
  }

  /** Marking a directory as seen, then removing the seen ones, is removing
      the seen ones from the directory and the rest together. */
  lemma SeenStep(d: string, isDir: bool, seen: set<string>, later: set<string>)
    ensures (if isDir && d !in seen then {d} else {}) + (later - (if isDir then seen + {d} else seen))
      == ((if isDir then {d} else {}) + later) - seen
  {
  }

  /** The directory a name contributes, if it is the first time it comes up. */
  lemma ContributionDirs(bucketName: string, name: string, o: VersionedObject, prefix: string,
                         recursive: bool, startAfter: string, includeVersion: bool,
                         seen: set<string>)
    requires Stored(o)
    ensures var p := Place(name, prefix, recursive, startAfter);
      DirNames(Contribution(bucketName, name, o, prefix, recursive, startAfter, includeVersion, seen))
      == if p.AsDir? && p.dirName !in seen then {p.dirName} else {}
  {
    var r := Contribution(bucketName, name, o, prefix, recursive, startAfter, includeVersion, seen);
    ContributionListed(bucketName, name, o, prefix, recursive, startAfter, includeVersion, seen);
    forall e | e in r && e.DirEntry?
      ensures Place(name, prefix, recursive, startAfter).AsDir?
    {
    }
  }

  /** The directories of a map: the first name's, if any, and the rest's. */
  lemma DirsOfStep(objs: OMap<string, VersionedObject>, prefix: string, recursive: bool,
                   startAfter: string)
    requires objs != []
    ensures var p := Place(objs[0].0, prefix, recursive, startAfter);
      DirsOf(objs, prefix, recursive, startAfter)
      == (if p.AsDir? then {p.dirName} else {}) + DirsOf(objs[1..], prefix, recursive, startAfter)
  {
    KeysCons(objs[0], objs[1..]);
    assert objs == [objs[0]] + objs[1..];
  }

  lemma DirNamesAppend(a: seq<Entry>, b: seq<Entry>)
    ensures DirNames(a + b) == DirNames(a) + DirNames(b)
  {
  }

  /** The records of every file-like kept name, in map order. */
  function FileRecords(bucketName: string, objs: OMap<string, VersionedObject>, prefix: string,
                       recursive: bool, startAfter: string, includeVersion: bool): seq<Entry>
    requires AllStored(objs)
    decreases |objs|
  {
    if objs == [] then []
    else
      assert AllStored(objs[1..]) by {
        forall p | p in objs[1..] ensures Stored(p.1) {
          assert p in objs;
        }
      }
      (if Place(objs[0].0, prefix, recursive, startAfter).AsFile?
       then KeyRecords(bucketName, objs[0].0, objs[0].1, includeVersion) else [])
      + FileRecords(bucketName, objs[1..], prefix, recursive, startAfter, includeVersion)
  }

  /** The object records of a sequence of items, in order. */
  function Records(r: seq<Entry>): (f: seq<Entry>)
    ensures forall e :: e in f <==> e in r && e.ObjectEntry?
  {
    if r == [] then []
    else (if r[0].ObjectEntry? then [r[0]] else []) + Records(r[1..])
  }

  lemma {:induction false} RecordsAppend(a: seq<Entry>, b: seq<Entry>)
    ensures Records(a + b) == Records(a) + Records(b)
  {
    if a == [] {
      assert a + b == b;
    } else {
      assert (a + b)[0] == a[0];
      assert (a + b)[1..] == a[1..] + b;
      RecordsAppend(a[1..], b);
    }
  }

  /** Directory handling never drops or reorders a record: the records a
      walk yields are exactly those of its file-like names, in map order,
      whatever was seen before. */
  lemma {:induction false} ListedRecords(bucketName: string, objs: OMap<string, VersionedObject>,
                                         prefix: string, recursive: bool, startAfter: string,
                                         includeVersion: bool, seen: set<string>)
    requires AllStored(objs)
    ensures Records(ListFrom(bucketName, objs, prefix, recursive, startAfter, includeVersion, seen))
      == FileRecords(bucketName, objs, prefix, recursive, startAfter, includeVersion)
    decreases |objs|
  {
    if objs != [] {
      var name := objs[0].0;
      var tail := objs[1..];
      ListFromStep(bucketName, objs, prefix, recursive, startAfter, includeVersion, seen);
      var p := Place(name, prefix, recursive, startAfter);
      var seen' := if p.AsDir? then seen + {p.dirName} else seen;
      var head := Contribution(bucketName, name, objs[0].1, prefix, recursive, startAfter,
                               includeVersion, seen);
      var rest := ListFrom(bucketName, tail, prefix, recursive, startAfter, includeVersion, seen');
      ListedRecords(bucketName, tail, prefix, recursive, startAfter, includeVersion, seen');
      RecordsAppend(head, rest);
      if p.AsFile? {
        RecordsOfRecords(head);
      } else if p.AsDir? && p.dirName !in seen {
        assert Records(head) == [];
      }
    }
  }

  /** A sequence of object records is its own record list. */
  lemma {:induction false} RecordsOfRecords(k: seq<Entry>)
    requires forall e :: e in k ==> e.ObjectEntry?
    ensures Records(k) == k
  {
    if k != [] {
      assert k[0] in k;
      RecordsOfRecords(k[1..]);
      assert k == [k[0]] + k[1..];
    }
  }

  /** A bucket listing, in full: each directory some kept name stands for,
      once; and the records of the file-like kept names, in map order. */
  lemma ListObjectsShape(b: Bucket, prefix: string, recursive: bool, startAfter: string,
                         includeVersion: bool)
    requires Consistent(b)
    ensures var r := ListObjects(b, prefix, recursive, startAfter, includeVersion);
      && DirNames(r) == DirsOf(b.objects, prefix, recursive, startAfter)
      && (forall i, j :: 0 <= i < j < |r| && r[i].DirEntry? && r[j].DirEntry? ==>
            r[i].objectName != r[j].objectName)
      && Records(r) == FileRecords(b.name, b.objects, prefix, recursive, startAfter, includeVersion)
  {
    ListedDirs(b.name, b.objects, prefix, recursive, startAfter, includeVersion, {});
    ListedDirsDistinct(b.name, b.objects, prefix, recursive, startAfter, includeVersion, {});
    ListedRecords(b.name, b.objects, prefix, recursive, startAfter, includeVersion, {});
  }
}
