/** The object store the facade drives, standing in for the MinIO client: the
    calls the facade makes, as transitions of a store snapshot, and a `Store`
    class whose methods perform them. A logical clock stamps every write. */
module ObjectStore {
  import opened Outcomes
  import opened PathStrings
  import opened Objects
  import opened Listing

  datatype BucketInfo = BucketInfo(name: string, created: Option<int>)

  /** Everything the store holds: its buckets, in creation order, and the clock. */
  datatype Snapshot = Snapshot(buckets: seq<Bucket>, clock: nat)

  /** The outcome of a call and the store after it. */
  datatype Step = Step(status: Status, state: Snapshot)

  function BucketNames(bs: seq<Bucket>): set<string> {
    if bs == [] then {} else {bs[0].name} + BucketNames(bs[1..])
  }

  /** Bucket names are distinct and well-formed, and so is every bucket's content. */
  predicate ValidBuckets(bs: seq<Bucket>) {
    bs == [] ||
    (&& bs[0].name !in BucketNames(bs[1..]) && WellFormedBucketName(bs[0].name)
     && ValidEntries(bs[0].entries) && ValidBuckets(bs[1..]))
  }

  predicate ValidSnapshot(s: Snapshot) {
    ValidBuckets(s.buckets)
  }

  function FindBucket(bs: seq<Bucket>, name: string): (r: Option<Bucket>)
    ensures r.None? <==> name !in BucketNames(bs)
    ensures r.Some? ==> r.value.name == name
    ensures r.Some? && ValidBuckets(bs) ==> ValidEntries(r.value.entries)
    ensures r.Some? && ValidBuckets(bs) ==> WellFormedBucketName(name)
  {
    if bs == [] then None
    else if bs[0].name == name then Some(bs[0])
    else FindBucket(bs[1..], name)
  }

  /** The buckets with the content of bucket `name` replaced by `es`. */
  function SetEntries(bs: seq<Bucket>, name: string, es: seq<Entry>): (r: seq<Bucket>)
    ensures BucketNames(r) == BucketNames(bs)
    ensures ValidBuckets(bs) && ValidEntries(es) ==> ValidBuckets(r)
    ensures forall n :: n != name ==> FindBucket(r, n) == FindBucket(bs, n)
    ensures name in BucketNames(bs) ==> FindBucket(r, name).value.entries == es
  {
    if bs == [] then []
    else if bs[0].name == name then [bs[0].(entries := es)] + bs[1..]
    else [bs[0]] + SetEntries(bs[1..], name, es)
  }

  /** The buckets without bucket `name`. */
  function DropBucket(bs: seq<Bucket>, name: string): (r: seq<Bucket>)
    ensures BucketNames(r) == BucketNames(bs) - {name}
    ensures ValidBuckets(bs) ==> ValidBuckets(r)
    ensures forall n :: n != name ==> FindBucket(r, n) == FindBucket(bs, n)
  {
    if bs == [] then []
    else if bs[0].name == name then DropBucket(bs[1..], name)
    else [bs[0]] + DropBucket(bs[1..], name)
  }

  lemma {:induction false} FindBucketAt(bs: seq<Bucket>, i: nat)
    requires ValidBuckets(bs) && i < |bs|
    ensures FindBucket(bs, bs[i].name) == Some(bs[i])
  {
    if i > 0 {
      assert bs[1..][i - 1] == bs[i];
      FindBucketAt(bs[1..], i - 1);
      BucketNamesAt(bs[1..], i - 1);
    }
  }

  lemma {:induction false} BucketNamesAt(bs: seq<Bucket>, i: nat)
    requires i < |bs|
    ensures bs[i].name in BucketNames(bs)
  {
    if i > 0 {
      assert bs[1..][i - 1] == bs[i];
      BucketNamesAt(bs[1..], i - 1);
    }
  }

  /** `bucket_exists` */
  function BucketExistsIn(s: Snapshot, name: string): bool {
    name in BucketNames(s.buckets)
  }

  /** The entries of bucket `name`, empty when there is no such bucket. */
  function EntriesOf(s: Snapshot, name: string): seq<Entry> {
    match FindBucket(s.buckets, name)
    case None => []
    case Some(b) => b.entries
  }

  /** `make_bucket`: the new bucket is empty and stamped with the clock. */
  function MakeBucketStep(s: Snapshot, name: string): (r: Step)
    ensures ValidSnapshot(s) ==> ValidSnapshot(r.state)
    ensures r.status.Done? <==> WellFormedBucketName(name) && !BucketExistsIn(s, name)
    ensures r.status.Done? ==> BucketExistsIn(r.state, name) && EntriesOf(r.state, name) == []
    ensures r.status.Failed? ==> r.state == s
    ensures forall n :: n != name ==> FindBucket(r.state.buckets, n) == FindBucket(s.buckets, n)
  {
    if !WellFormedBucketName(name) then Step(Failed(InvalidBucketName), s)
    else if BucketExistsIn(s, name) then Step(Failed(BucketAlreadyExists), s)
    else
      var bs := s.buckets + [Bucket(name, Some(s.clock), [])];
      NewBucketFacts(s.buckets, Bucket(name, Some(s.clock), []));
      Step(Done, Snapshot(bs, s.clock + 1))
  }

  lemma {:induction false} NewBucketFacts(bs: seq<Bucket>, b: Bucket)
    requires b.name !in BucketNames(bs)
    ensures BucketNames(bs + [b]) == BucketNames(bs) + {b.name}
    ensures FindBucket(bs + [b], b.name) == Some(b)
    ensures forall n :: n != b.name ==> FindBucket(bs + [b], n) == FindBucket(bs, n)
    ensures ValidBuckets(bs) && WellFormedBucketName(b.name) && ValidEntries(b.entries) ==>
      ValidBuckets(bs + [b])
  {
    if bs != [] {
      assert (bs + [b])[1..] == bs[1..] + [b];
      NewBucketFacts(bs[1..], b);
    } else {
      assert [b][1..] == [];
    }
  }

  /** `put_object`: store `data` under `key`, stamped with the clock. */
  function PutObjectStep(s: Snapshot, bucket: string, key: string, data: seq<Byte>,
                         headers: Option<seq<(string, string)>>): (r: Step)
    ensures ValidSnapshot(s) ==> ValidSnapshot(r.state)
    ensures !WellFormedBucketName(bucket) ==> r.status == Failed(InvalidBucketName)
    ensures WellFormedBucketName(bucket) && !WellFormedKey(key) ==> r.status == Failed(InvalidObjectName)
    ensures WellFormedBucketName(bucket) && WellFormedKey(key) ==>
      (r.status.Done? <==> BucketExistsIn(s, bucket))
    ensures r.status.Failed? ==> r.state == s
    ensures r.status.Done? ==>
      Lookup(EntriesOf(r.state, bucket), key) == Some(Obj(data, Some(s.clock), headers))
    ensures r.status.Done? && ValidSnapshot(s) ==> forall k :: k != key ==>
      Lookup(EntriesOf(r.state, bucket), k) == Lookup(EntriesOf(s, bucket), k)
    ensures forall n :: n != bucket ==> FindBucket(r.state.buckets, n) == FindBucket(s.buckets, n)
    ensures BucketNames(r.state.buckets) == BucketNames(s.buckets)
  {
    if !WellFormedBucketName(bucket) then Step(Failed(InvalidBucketName), s)
    else if !WellFormedKey(key) then Step(Failed(InvalidObjectName), s)
    else
      match FindBucket(s.buckets, bucket)
      case None => Step(Failed(NoSuchBucket), s)
      case Some(b) =>
        var o := Obj(data, Some(s.clock), headers);
        var es := Upsert(b.entries, key, o);
        if ValidSnapshot(s) then
          UpsertValid(b.entries, key, o);
          Step(Done, Snapshot(SetEntries(s.buckets, bucket, es), s.clock + 1))
        else
          assert Lookup(es, key) == Some(o) by { UpsertFinds(b.entries, key, o); }
          Step(Done, Snapshot(SetEntries(s.buckets, bucket, es), s.clock + 1))
  }

  lemma {:induction false} UpsertFinds(es: seq<Entry>, k: string, o: Obj)
    ensures Lookup(Upsert(es, k, o), k) == Some(o)
  {
    if es != [] && es[0].key != k {
      UpsertFinds(es[1..], k, o);
      assert ([es[0]] + Upsert(es[1..], k, o))[1..] == Upsert(es[1..], k, o);
    }
  }

  /** `get_object` / `stat_object` */
  function GetObjectOf(s: Snapshot, bucket: string, key: string): (r: Result<Obj>)
    ensures r.Ok? <==> BucketExistsIn(s, bucket) && key in Keys(EntriesOf(s, bucket))
    ensures r.Ok? ==> Lookup(EntriesOf(s, bucket), key) == Some(r.value)
    ensures r.Err? ==> r.error == (if BucketExistsIn(s, bucket) then NoSuchKey else NoSuchBucket)
  {
    match FindBucket(s.buckets, bucket)
    case None => Err(NoSuchBucket)
    case Some(b) =>
      match Lookup(b.entries, key)
      case None => Err(NoSuchKey)
      case Some(o) => Ok(o)
  }

  /** `remove_object`: removing a key that is not there succeeds. */
  function RemoveObjectStep(s: Snapshot, bucket: string, key: string): (r: Step)
    ensures ValidSnapshot(s) ==> ValidSnapshot(r.state)
    ensures r.status.Done? <==> BucketExistsIn(s, bucket)
    ensures r.status.Failed? ==> r.status.error == NoSuchBucket && r.state == s
    ensures r.status.Done? ==> EntriesOf(r.state, bucket) == Without(EntriesOf(s, bucket), {key})
    ensures forall n :: n != bucket ==> FindBucket(r.state.buckets, n) == FindBucket(s.buckets, n)
    ensures BucketNames(r.state.buckets) == BucketNames(s.buckets) && r.state.clock == s.clock
  {
    match FindBucket(s.buckets, bucket)
    case None => Step(Failed(NoSuchBucket), s)
    case Some(b) =>
      var r := Step(Done, s.(buckets := SetEntries(s.buckets, bucket, Without(b.entries, {key}))));
      if ValidSnapshot(s) then WithoutValid(b.entries, {key}); r else r
  }

  /** `remove_objects`: the per-key errors it reports are not raised, so the
      call has no outcome of its own. */
  function RemoveObjectsState(s: Snapshot, bucket: string, keys: set<string>): (r: Snapshot)
    ensures ValidSnapshot(s) ==> ValidSnapshot(r)
    ensures BucketExistsIn(s, bucket) ==> EntriesOf(r, bucket) == Without(EntriesOf(s, bucket), keys)
    ensures !BucketExistsIn(s, bucket) ==> r == s
    ensures forall n :: n != bucket ==> FindBucket(r.buckets, n) == FindBucket(s.buckets, n)
    ensures BucketNames(r.buckets) == BucketNames(s.buckets) && r.clock == s.clock
  {
    match FindBucket(s.buckets, bucket)
    case None => s
    case Some(b) =>
      var r := s.(buckets := SetEntries(s.buckets, bucket, Without(b.entries, keys)));
      if ValidSnapshot(s) then WithoutValid(b.entries, keys); r else r
  }

  /** `remove_bucket`: only an empty bucket can be removed. */
  function RemoveBucketStep(s: Snapshot, bucket: string): (r: Step)
    ensures ValidSnapshot(s) ==> ValidSnapshot(r.state)
    ensures r.status.Done? <==> BucketExistsIn(s, bucket) && EntriesOf(s, bucket) == []
    ensures r.status.Failed? ==> r.state == s
    ensures r.status.Failed? ==>
      r.status.error == (if BucketExistsIn(s, bucket) then BucketNotEmpty else NoSuchBucket)
    ensures r.status.Done? ==> !BucketExistsIn(r.state, bucket)
    ensures forall n :: n != bucket ==> FindBucket(r.state.buckets, n) == FindBucket(s.buckets, n)
  {
    match FindBucket(s.buckets, bucket)
    case None => Step(Failed(NoSuchBucket), s)
    case Some(b) =>
      if b.entries != [] then Step(Failed(BucketNotEmpty), s)
      else Step(Done, s.(buckets := DropBucket(s.buckets, bucket)))
  }

  /** `copy_object`: the destination receives the source's bytes and metadata,
      stamped with the clock. The destination's name is checked first, then the
      source, then the destination bucket. */
  function CopyObjectStep(s: Snapshot, bucket: string, key: string,
                          srcBucket: string, srcKey: string): (r: Step)
    ensures ValidSnapshot(s) ==> ValidSnapshot(r.state)
    ensures r.status.Done? <==>
      && WellFormedBucketName(bucket) && WellFormedKey(key)
      && GetObjectOf(s, srcBucket, srcKey).Ok? && BucketExistsIn(s, bucket)
    ensures r.status.Failed? ==> r.state == s
    ensures r.status.Done? ==>
      var src := GetObjectOf(s, srcBucket, srcKey).value;
      r == PutObjectStep(s, bucket, key, src.data, src.headers)
  {
    if !WellFormedBucketName(bucket) then Step(Failed(InvalidBucketName), s)
    else if !WellFormedKey(key) then Step(Failed(InvalidObjectName), s)
    else
      match GetObjectOf(s, srcBucket, srcKey)
      case Err(e) => Step(Failed(e), s)
      case Ok(src) => PutObjectStep(s, bucket, key, src.data, src.headers)
  }

  /** `list_objects(bucket, prefix)`: the bucket's name is checked first. */
  function ListObjectsOf(s: Snapshot, bucket: string, prefix: string): (r: Result<seq<Listed>>)
    ensures r.Err? <==> !WellFormedBucketName(bucket) || !BucketExistsIn(s, bucket)
    ensures r.Err? ==> r.error == (if WellFormedBucketName(bucket) then NoSuchBucket else InvalidBucketName)
    ensures ValidSnapshot(s) ==> (r.Err? <==> !BucketExistsIn(s, bucket))
    ensures r.Ok? ==> r.value == List(bucket, EntriesOf(s, bucket), prefix)
  {
    var found := FindBucket(s.buckets, bucket);
    if !WellFormedBucketName(bucket) then Err(InvalidBucketName)
    else
    match found
    case None => Err(NoSuchBucket)
    case Some(b) => Ok(List(bucket, b.entries, prefix))
  }

  /** `list_buckets`, in creation order. */
  function ListBucketsOf(s: Snapshot): (r: seq<BucketInfo>)
    ensures |r| == |s.buckets|
    ensures forall i :: 0 <= i < |r| ==> r[i] == BucketInfo(s.buckets[i].name, s.buckets[i].created)
  {
    seq(|s.buckets|, i requires 0 <= i < |s.buckets| => BucketInfo(s.buckets[i].name, s.buckets[i].created))
  }

  // ---------------------------------------------------------------------------

  /** The store. Its methods are the client calls, each the transition above. */
  class Store {
    var buckets: seq<Bucket>
    var clock: nat

    function Model(): Snapshot
      reads this
    {
      Snapshot(buckets, clock)
    }

    ghost predicate Valid()
      reads this
    {
      ValidSnapshot(Model())
    }

    constructor ()
      ensures Model() == Snapshot([], 0)
      ensures Valid()
    {
      buckets := [];
      clock := 0;
    }

    method BucketExists(name: string) returns (r: bool)
      ensures r == BucketExistsIn(Model(), name)
    {
      r := FindBucket(buckets, name).Some?;
    }

    method MakeBucket(name: string) returns (st: Status)
      requires Valid()
      modifies this
      ensures Valid()
      ensures Step(st, Model()) == MakeBucketStep(old(Model()), name)
    {
      var step := MakeBucketStep(Model(), name);
      if step.status.Done? {
        buckets := buckets + [Bucket(name, Some(clock), [])];
        clock := clock + 1;
      }
      st := step.status;
    }

    method PutObject(bucket: string, key: string, data: seq<Byte>,
                     headers: Option<seq<(string, string)>>) returns (st: Status)
      requires Valid()
      modifies this
      ensures Valid()
      ensures Step(st, Model()) == PutObjectStep(old(Model()), bucket, key, data, headers)
    {
      if !WellFormedBucketName(bucket) {
        return Failed(InvalidBucketName);
      }
      if !WellFormedKey(key) {
        return Failed(InvalidObjectName);
      }
      var found := FindBucket(buckets, bucket);
      if found.None? {
        return Failed(NoSuchBucket);
      }
      var o := Obj(data, Some(clock), headers);
      UpsertValid(found.value.entries, key, o);
      buckets := SetEntries(buckets, bucket, Upsert(found.value.entries, key, o));
      clock := clock + 1;
      st := Done;
    }

    method GetObject(bucket: string, key: string) returns (r: Result<Obj>)
      ensures r.Ok? <==> BucketExistsIn(Model(), bucket) && key in Keys(EntriesOf(Model(), bucket))
      ensures r.Ok? ==> Lookup(EntriesOf(Model(), bucket), key) == Some(r.value)
      ensures r.Err? ==> r.error == (if BucketExistsIn(Model(), bucket) then NoSuchKey else NoSuchBucket)
      ensures r == GetObjectOf(Model(), bucket, key)
    {
      var found := FindBucket(buckets, bucket);
      if found.None? {
        return Err(NoSuchBucket);
      }
      var o := Lookup(found.value.entries, key);
      if o.None? {
        return Err(NoSuchKey);
      }
      r := Ok(o.value);
    }

    method RemoveObject(bucket: string, key: string) returns (st: Status)
      requires Valid()
      modifies this
      ensures Valid()
      ensures Step(st, Model()) == RemoveObjectStep(old(Model()), bucket, key)
    {
      var found := FindBucket(buckets, bucket);
      if found.None? {
        return Failed(NoSuchBucket);
      }
      WithoutValid(found.value.entries, {key});
      buckets := SetEntries(buckets, bucket, Without(found.value.entries, {key}));
      st := Done;
    }

    method RemoveObjects(bucket: string, keys: seq<string>)
      requires Valid()
      modifies this
      ensures Valid()
      ensures Model() == RemoveObjectsState(old(Model()), bucket, set k | k in keys)
    {
      var found := FindBucket(buckets, bucket);
      if found.Some? {
        WithoutValid(found.value.entries, set k | k in keys);
        buckets := SetEntries(buckets, bucket, Without(found.value.entries, set k | k in keys));
      }
    }

    method RemoveBucket(bucket: string) returns (st: Status)
      requires Valid()
      modifies this
      ensures Valid()
      ensures Step(st, Model()) == RemoveBucketStep(old(Model()), bucket)
    {
      var found := FindBucket(buckets, bucket);
      if found.None? {
        return Failed(NoSuchBucket);
      }
      if found.value.entries != [] {
        return Failed(BucketNotEmpty);
      }
      buckets := DropBucket(buckets, bucket);
      st := Done;
    }

    method CopyObject(bucket: string, key: string, srcBucket: string, srcKey: string)
      returns (st: Status)
      requires Valid()
      modifies this
      ensures Valid()
      ensures Step(st, Model()) == CopyObjectStep(old(Model()), bucket, key, srcBucket, srcKey)
    {
      if !WellFormedBucketName(bucket) {
        return Failed(InvalidBucketName);
      }
      if !WellFormedKey(key) {
        return Failed(InvalidObjectName);
      }
      var src := GetObject(srcBucket, srcKey);
      if src.Err? {
        return Failed(src.error);
      }
      st := PutObject(bucket, key, src.value.data, src.value.headers);
    }

    method ListObjects(bucket: string, prefix: string) returns (r: Result<seq<Listed>>)
      ensures r == ListObjectsOf(Model(), bucket, prefix)
    {
      if !WellFormedBucketName(bucket) {
        return Err(InvalidBucketName);
      }
      var found := FindBucket(buckets, bucket);
      if found.None? {
        return Err(NoSuchBucket);
      }
      r := Ok(List(bucket, found.value.entries, prefix));
    }

    method ListBuckets() returns (r: seq<BucketInfo>)
      ensures r == ListBucketsOf(Model())
    {
      r := [];
      for i := 0 to |buckets|
        invariant r == ListBucketsOf(Snapshot(buckets[..i], clock))
      {
        r := r + [BucketInfo(buckets[i].name, buckets[i].created)];
      }
      assert buckets[..|buckets|] == buckets;
    }
  }
}
