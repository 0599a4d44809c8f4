/** The servers registry and the client facade: `MockMinioServer`,
    `MockMinioServers` and `MockMinioClient` of pytest_minio_mock/plugin.py.

    The registry maps endpoints to servers, each owning a dict of buckets.
    A connected client's `buckets` attribute is that dict of its
    endpoint's server, so every client of one endpoint sees the same
    buckets. The facade operations are stated on the bucket dict the
    client refers to; `BucketsOf` and `WithBuckets` read and write it
    through the registry. */
module Client {
  import opened Wrappers
  import opened OrderedMaps
  import opened VersionIds
  import opened Errors
  import opened Versions
  import opened Buckets
  import opened Listing
  import Strings

  /** A server's buckets by name, in creation order. */
  type BucketMap = OMap<string, Bucket>

  /** Each bucket is filed under its own name and is consistent. */
  predicate StoreValid(bs: BucketMap) {
    && Wf(bs)
    && forall p :: p in bs ==> p.1.name == p.0 && Consistent(p.1)
  }

  datatype Server = Server(baseUrl: string, buckets: BucketMap)

  datatype Servers = Servers(servers: OMap<string, Server>)

  /** Each server is filed under its own endpoint and holds a valid store. */
  predicate ServersValid(s: Servers) {
    && Wf(s.servers)
    && forall p :: p in s.servers ==> p.1.baseUrl == p.0 && StoreValid(p.1.buckets)
  }

  // ---------------------------------------------------------------------
  // The registry

  /** `MockMinioServers.connect`: the server of `endpoint`, created empty
      (at the end of the registry) the first time the endpoint is seen. */
  function Connect(s: Servers, endpoint: string): (r: (Servers, Server))
    requires ServersValid(s)
    ensures ServersValid(r.0)
    ensures Get(r.0.servers, endpoint) == Some(r.1) && r.1.baseUrl == endpoint
    ensures endpoint in Keys(s.servers) ==> r.0 == s
    ensures endpoint !in Keys(s.servers) ==>
      r.1.buckets == [] && Keys(r.0.servers) == Keys(s.servers) + [endpoint]
    ensures forall e :: e != endpoint ==> Get(r.0.servers, e) == Get(s.servers, e)
  {
    match Get(s.servers, endpoint)
    case Some(server) =>
      MemberIsLookup(s.servers, (endpoint, server));
      (s, server)
    case None =>
      var server := Server(endpoint, []);
      PutAddsOnly(s.servers, endpoint, server);
      (Servers(Put(s.servers, endpoint, server)), server)
  }

  /** Connecting twice is connecting once. */
  lemma ConnectIdempotent(s: Servers, endpoint: string)
    requires ServersValid(s)
    ensures Connect(Connect(s, endpoint).0, endpoint) == Connect(s, endpoint)
  {
  }

  /** `MockMinioServers.reset`: every server is forgotten. */
  function Reset(s: Servers): (r: Servers)
    ensures ServersValid(r) && forall e :: e !in Keys(r.servers)
  {
    Servers([])
  }

  /** After a reset, connecting to any endpoint gives a server with no
      buckets, whatever it held before. */
  lemma ResetForgetsBuckets(s: Servers, endpoint: string)
    ensures Connect(Reset(s), endpoint).1.buckets == []
  {
  }

  /** The bucket dict a client of `endpoint` refers to once connected. */
  function BucketsOf(s: Servers, endpoint: string): (bs: BucketMap)
    requires ServersValid(s) && endpoint in Keys(s.servers)
    ensures StoreValid(bs)
  {
    var server := Lookup(s.servers, endpoint);
    MemberIsLookup(s.servers, (endpoint, server));
    server.buckets
  }

  /** The registry after a client of `endpoint` changed its bucket dict to
      `bs`: that server holds `bs`, every other server is untouched. */
  function WithBuckets(s: Servers, endpoint: string, bs: BucketMap): (r: Servers)
    requires ServersValid(s) && endpoint in Keys(s.servers) && StoreValid(bs)
    ensures ServersValid(r) && Keys(r.servers) == Keys(s.servers)
    ensures BucketsOf(r, endpoint) == bs
    ensures forall e :: e != endpoint ==> Get(r.servers, e) == Get(s.servers, e)
  {
    PutAddsOnly(s.servers, endpoint, Server(endpoint, bs));
    Servers(Put(s.servers, endpoint, Server(endpoint, bs)))
  }

  /** What one client of an endpoint does is seen by every client of that
      endpoint and by no client of another. */
  lemma SharedWithinEndpoint(s: Servers, endpoint: string, other: string, bs: BucketMap)
    requires ServersValid(s) && endpoint in Keys(s.servers) && StoreValid(bs)
    requires other in Keys(s.servers)
    ensures BucketsOf(WithBuckets(s, endpoint, bs), other)
      == if other == endpoint then bs else BucketsOf(s, other)
  {
  }

  // ---------------------------------------------------------------------
  // Clients

  datatype MinioClient = MinioClient(baseUrl: string)

  /** `MockMinioClient(endpoint, ...)`. An empty endpoint is refused first;
      `endpointValid` is the verdict of the hostname/URL validators, which
      are not part of this model. Credentials, region and transport
      arguments are accepted and never used, so they are left out. */
  function NewClient(endpoint: string, endpointValid: bool): (r: Result<MinioClient, Error>)
    ensures r.Success? <==> endpoint != "" && endpointValid
    ensures endpoint == "" ==> r == Failure(ValueError("base_url is empty"))
    ensures endpoint != "" && !endpointValid ==>
      r == Failure(ValueError("base_url " + endpoint + " is not valid"))
    ensures r.Success? ==> r.value.baseUrl == endpoint
  {
    if endpoint == "" then Failure(ValueError("base_url is empty"))
    else if !endpointValid then Failure(ValueError("base_url " + endpoint + " is not valid"))
    else Success(MinioClient(endpoint))
  }

  /** `MockMinioClient.connect`: the registry after the client's endpoint
      is connected; the client then refers to `BucketsOf` its endpoint. */
  function ConnectClient(s: Servers, c: MinioClient): (r: Servers)
    requires ServersValid(s)
    ensures ServersValid(r) && c.baseUrl in Keys(r.servers)
    ensures c.baseUrl in Keys(s.servers) ==> r == s
    ensures c.baseUrl !in Keys(s.servers) ==> BucketsOf(r, c.baseUrl) == []
  {
    Connect(s, c.baseUrl).0
  }

  // ---------------------------------------------------------------------
  // Bucket operations, on the bucket dict a client refers to

  /** `__check_bucket`: the bucket of that name, or `no_such_bucket`. */
  function CheckBucket(bs: BucketMap, name: string): (r: Result<Bucket, Error>)
    requires StoreValid(bs)
    ensures r.Success? <==> name in Keys(bs)
    ensures r.Success? ==> (name, r.value) in bs && r.value.name == name && Consistent(r.value)
    ensures r.Failure? ==> r.error == NoSuchBucket(name)
  {
    match Get(bs, name)
    case Some(b) => Success(b)
    case None => Failure(NoSuchBucket(name))
  }

  /** `list_buckets`: the bucket names, in creation order. */
  function ListBuckets(bs: BucketMap): (r: seq<string>)
    ensures |r| == |bs|
    ensures forall i :: 0 <= i < |bs| ==> r[i] == bs[i].0
  {
    KeysPointwise(bs);
    Keys(bs)
  }

  /** `bucket_exists`. */
  function BucketExists(bs: BucketMap, name: string): (r: bool)
    ensures r <==> name in ListBuckets(bs)
  {
    Get(bs, name).Some?
  }

  /** Store a changed bucket under its name. */
  function UpdateBucket(bs: BucketMap, b: Bucket): (r: BucketMap)
    requires StoreValid(bs) && b.name in Keys(bs) && Consistent(b)
    ensures StoreValid(r) && Keys(r) == Keys(bs)
    ensures Get(r, b.name) == Some(b)
    ensures forall n :: n != b.name ==> Get(r, n) == Get(bs, n)
  {
    PutAddsOnly(bs, b.name, b);
    Put(bs, b.name, b)
  }

  /** `make_bucket`: a fresh bucket with versioning off, replacing (in
      place) any bucket of that name together with all its objects. It
      always succeeds. */
  function MakeBucket(bs: BucketMap, name: string, location: Option<string>, objectLock: bool)
    : (r: BucketMap)
    requires StoreValid(bs)
    ensures StoreValid(r)
    ensures Keys(r) == if name in Keys(bs) then Keys(bs) else Keys(bs) + [name]
    ensures Get(r, name) == Some(Bucket(name, Off, [], location, objectLock))
    ensures forall n :: n != name ==> Get(r, n) == Get(bs, n)
  {
    PutAddsOnly(bs, name, NewBucket(name, Off, location, objectLock));
    Put(bs, name, NewBucket(name, Off, location, objectLock))
  }

  /** `set_bucket_versioning`: only the mode of that bucket changes. The
      type check on the configuration object is not modelled: every `Mode`
      is a configuration. */
  function SetBucketVersioning(bs: BucketMap, name: string, mode: Mode): (r: Result<BucketMap, Error>)
    requires StoreValid(bs)
    ensures r.Failure? <==> name !in Keys(bs)
    ensures r.Failure? ==> r.error == NoSuchBucket(name)
    ensures r.Success? ==>
      && StoreValid(r.value) && Keys(r.value) == Keys(bs)
      && Get(r.value, name) == Some(Lookup(bs, name).(mode := mode))
      && forall n :: n != name ==> Get(r.value, n) == Get(bs, n)
  {
    var b :- CheckBucket(bs, name);
    MemberIsLookup(bs, (name, b));
    Success(UpdateBucket(bs, b.(mode := mode)))
  }

  /** `get_bucket_versioning`. */
  function GetBucketVersioning(bs: BucketMap, name: string): (r: Result<Mode, Error>)
    requires StoreValid(bs)
    ensures r.Failure? <==> name !in Keys(bs)
    ensures r.Failure? ==> r.error == NoSuchBucket(name)
    ensures r.Success? ==> r.value == Lookup(bs, name).mode
  {
    var b :- CheckBucket(bs, name);
    MemberIsLookup(bs, (name, b));
    Success(b.mode)
  }

  // ---------------------------------------------------------------------
  // Object operations

  /** `put_object` (and `fput_object`, once the file is read): the write
      goes to the named bucket under its versioning mode. */
  function PutObject(bs: BucketMap, bucket: string, name: string, data: Bytes, length: int,
                     metadata: Metadata, newUid: Uuid, now: nat): (r: Result<BucketMap, Error>)
    requires StoreValid(bs)
    ensures r.Failure? <==> bucket !in Keys(bs)
    ensures r.Failure? ==> r.error == NoSuchBucket(bucket)
    ensures r.Success? ==>
      && StoreValid(r.value) && Keys(r.value) == Keys(bs)
      && Get(r.value, bucket)
         == Some(Buckets.PutObject(Lookup(bs, bucket), name, data, length, metadata, newUid, now))
      && forall n :: n != bucket ==> Get(r.value, n) == Get(bs, n)
  {
    var b :- CheckBucket(bs, bucket);
    MemberIsLookup(bs, (bucket, b));
    Success(UpdateBucket(bs, Buckets.PutObject(b, name, data, length, metadata, newUid, now)))
  }

  /** `get_object`: the payload of the version read. */
  function GetObject(bs: BucketMap, bucket: string, name: string, text: Option<string>)
    : (r: Result<Bytes, Error>)
    requires StoreValid(bs)
    ensures bucket !in Keys(bs) ==> r == Failure(NoSuchBucket(bucket))
    ensures bucket in Keys(bs) ==>
      r == match Buckets.GetObject(Lookup(bs, bucket), name, text)
        case Success(v) => Success(v.data)
        case Failure(e) => Failure(e)
  {
    var b :- CheckBucket(bs, bucket);
    MemberIsLookup(bs, (bucket, b));
    var v :- Buckets.GetObject(b, name, text);
    Success(v.data)
  }

  /** `stat_object`. */
  function StatObject(bs: BucketMap, bucket: string, name: string, text: Option<string>)
    : (r: Result<ObjectInfo, Error>)
    requires StoreValid(bs)
    ensures bucket !in Keys(bs) ==> r == Failure(NoSuchBucket(bucket))
    ensures bucket in Keys(bs) ==> r == Buckets.StatObject(Lookup(bs, bucket), name, text)
    ensures r.Success? ==> r.value.bucketName == bucket && r.value.objectName == name
  {
    var b :- CheckBucket(bs, bucket);
    MemberIsLookup(bs, (bucket, b));
    Buckets.StatObject(b, name, text)
  }

  /** `list_objects`: the bucket is checked when the listing is asked for. */
  function ListObjects(bs: BucketMap, bucket: string, prefix: string, recursive: bool,
                       startAfter: string, includeVersion: bool): (r: Result<seq<Entry>, Error>)
    requires StoreValid(bs)
    ensures bucket !in Keys(bs) ==> r == Failure(NoSuchBucket(bucket))
    ensures bucket in Keys(bs) ==>
      r == Success(Listing.ListObjects(Lookup(bs, bucket), prefix, recursive, startAfter, includeVersion))
    ensures r.Success? ==> forall e :: e in r.value ==>
      e.bucketName == bucket && Strings.StartsWith(e.objectName, prefix)
  {
    var b :- CheckBucket(bs, bucket);
    MemberIsLookup(bs, (bucket, b));
    Success(Listing.ListObjects(b, prefix, recursive, startAfter, includeVersion))
  }

  /** `remove_object`. */
  function RemoveObject(bs: BucketMap, bucket: string, name: string, text: Option<string>,
                        newUid: Uuid, now: nat): (r: Result<BucketMap, Error>)
    requires StoreValid(bs)
    ensures bucket !in Keys(bs) ==> r == Failure(NoSuchBucket(bucket))
    ensures r.Failure? ==> r.error in {NoSuchBucket(bucket), InvalidVersion(bucket, name)}
    ensures bucket in Keys(bs) ==>
      match Buckets.RemoveObject(Lookup(bs, bucket), name, text, newUid, now)
      case Success(b') => r.Success? && Get(r.value, bucket) == Some(b')
      case Failure(e) => r == Failure(e)
    ensures r.Success? ==>
      && StoreValid(r.value) && Keys(r.value) == Keys(bs)
      && forall n :: n != bucket ==> Get(r.value, n) == Get(bs, n)
  {
    var b :- CheckBucket(bs, bucket);
    MemberIsLookup(bs, (bucket, b));
    var b' :- Buckets.RemoveObject(b, name, text, newUid, now);
    Success(UpdateBucket(bs, b'))
  }

  // ---------------------------------------------------------------------
  // Properties across operations

  /** Every bucket and object operation on a bucket that does not exist
      fails with `no_such_bucket` and nothing else. */
  lemma MissingBucket(bs: BucketMap, bucket: string, name: string, text: Option<string>,
                      data: Bytes, length: int, metadata: Metadata, mode: Mode,
                      prefix: string, recursive: bool, startAfter: string, includeVersion: bool,
                      newUid: Uuid, now: nat)
    requires StoreValid(bs) && !BucketExists(bs, bucket)
    ensures SetBucketVersioning(bs, bucket, mode) == Failure(NoSuchBucket(bucket))
    ensures GetBucketVersioning(bs, bucket) == Failure(NoSuchBucket(bucket))
    ensures PutObject(bs, bucket, name, data, length, metadata, newUid, now) == Failure(NoSuchBucket(bucket))
    ensures GetObject(bs, bucket, name, text) == Failure(NoSuchBucket(bucket))
    ensures StatObject(bs, bucket, name, text) == Failure(NoSuchBucket(bucket))
    ensures ListObjects(bs, bucket, prefix, recursive, startAfter, includeVersion)
      == Failure(NoSuchBucket(bucket))
    ensures RemoveObject(bs, bucket, name, text, newUid, now) == Failure(NoSuchBucket(bucket))
  {
  }

  /** A made bucket exists, is listed, has versioning off and holds no
      objects, even if a bucket of that name held objects before. */
  lemma MakeBucketStartsEmpty(bs: BucketMap, bucket: string, location: Option<string>,
                              objectLock: bool, name: string, text: Option<string>,
                              prefix: string, recursive: bool, startAfter: string,
                              includeVersion: bool)
    requires StoreValid(bs)
    ensures var r := MakeBucket(bs, bucket, location, objectLock);
      && BucketExists(r, bucket)
      && GetBucketVersioning(r, bucket) == Success(Off)
      && GetObject(r, bucket, name, text) == Failure(NoSuchKey(bucket, name))
      && ListObjects(r, bucket, prefix, recursive, startAfter, includeVersion) == Success([])
  {
    var r := MakeBucket(bs, bucket, location, objectLock);
    assert bucket in Keys(r);
    MemberIsLookup(r, (bucket, Bucket(bucket, Off, [], location, objectLock)));
  }

  /** The mode set is the mode read back. */
  lemma SetThenGetVersioning(bs: BucketMap, bucket: string, mode: Mode)
    requires StoreValid(bs) && BucketExists(bs, bucket)
    ensures GetBucketVersioning(SetBucketVersioning(bs, bucket, mode).value, bucket) == Success(mode)
  {
    var r := SetBucketVersioning(bs, bucket, mode).value;
    MemberIsLookup(r, (bucket, Lookup(bs, bucket).(mode := mode)));
  }

  /** Through the facade, an upload followed by a download without a
      version id gives back the uploaded bytes, in every versioning mode. */
  lemma PutThenGet(bs: BucketMap, bucket: string, name: string, data: Bytes, length: int,
                   metadata: Metadata, newUid: Uuid, now: nat)
    requires StoreValid(bs) && BucketExists(bs, bucket)
    ensures PutObject(bs, bucket, name, data, length, metadata, newUid, now).Success?
    ensures GetObject(PutObject(bs, bucket, name, data, length, metadata, newUid, now).value,
                      bucket, name, None) == Success(data)
  {
    var b := CheckBucket(bs, bucket).value;
    var b' := Buckets.PutObject(b, name, data, length, metadata, newUid, now);
    var r := PutObject(bs, bucket, name, data, length, metadata, newUid, now).value;
    assert r == UpdateBucket(bs, b');
    MemberIsLookup(r, (bucket, b'));
    Buckets.PutThenGet(b, name, data, length, metadata, newUid, now);
  }

  /** Two clients of one endpoint: what the first uploads, the second
      downloads. */
  lemma SharedUpload(s: Servers, c1: MinioClient, c2: MinioClient, bucket: string, name: string,
                     data: Bytes, length: int, metadata: Metadata, newUid: Uuid, now: nat)
    requires ServersValid(s) && c1.baseUrl == c2.baseUrl && c1.baseUrl in Keys(s.servers)
    requires BucketExists(BucketsOf(s, c1.baseUrl), bucket)
    ensures var put := PutObject(BucketsOf(s, c1.baseUrl), bucket, name, data, length, metadata,
                                 newUid, now);
      && put.Success?
      && GetObject(BucketsOf(WithBuckets(s, c1.baseUrl, put.value), c2.baseUrl), bucket, name, None)
         == Success(data)
  {
    PutThenGet(BucketsOf(s, c1.baseUrl), bucket, name, data, length, metadata, newUid, now);
  }
}
