/** The writing operations of `Pyminio` that work on one path: `mkdirs`,
    `put_data` and `rm`, as transitions of the store snapshot. */
module Writes {
  import opened Outcomes
  import opened PathStrings
  import opened Paths
  import opened Metadata
  import opened Objects
  import opened Listing
  import opened ObjectStore
  import opened Reads
  import opened Removal

  // ---------------------------------------------------------------------------
  // mkdirs

  /** `mkdirs(path)`: the path must name a directory other than the root; the
      bucket is made when missing, and a directory inside it is marked by an
      empty object whose key is the directory's prefix. */
  function MkdirsStep(s: Snapshot, path: string): (r: Step)
    ensures ValidSnapshot(s) ==> ValidSnapshot(r.state)
  {
    match ValidateDirectory(path)
    case Err(e) => Step(Failed(e), s)
    case Ok(m) =>
      if m.IsRoot() then Step(Failed(InvalidOperand), s)
      else
        var made := if BucketExistsIn(s, m.bucket) then Step(Done, s) else MakeBucketStep(s, m.bucket);
        if made.status.Failed? || m.IsBucket() then made
        else PutObjectStep(made.state, m.bucket, m.prefix, [], None)
  }

  /** `mkdirs` refuses a path that is not a directory, and the root. */
  lemma MkdirsRefuses(s: Snapshot, path: string)
    ensures ValidateDirectory(path).Err? ==>
      MkdirsStep(s, path) == Step(Failed(ValidateDirectory(path).error), s)
    ensures RootDirectory(path) ==> MkdirsStep(s, path) == Step(Failed(InvalidOperand), s)
  {
  }

  /** The objects of a snapshot, without their timestamps. */
  function Content(o: Option<Obj>): Option<(seq<Byte>, Option<seq<(string, string)>>)> {
    match o
    case None => None
    case Some(x) => Some((x.data, x.headers))
  }

  /** Two snapshots hold the same buckets and the same objects, whatever their
      timestamps. */
  ghost predicate SameObjects(s1: Snapshot, s2: Snapshot) {
    && BucketNames(s1.buckets) == BucketNames(s2.buckets)
    && forall n, k :: Content(Lookup(EntriesOf(s1, n), k)) == Content(Lookup(EntriesOf(s2, n), k))
  }

  /** `mkdirs` of any directory except the root succeeds; afterwards the path
      is a directory, its marker (for a directory inside a bucket) is an empty
      object without metadata, and no other object has changed. */
  lemma MkdirsMakes(s: Snapshot, path: string)
    requires ValidSnapshot(s) && ValidateDirectory(path).Ok? && !RootDirectory(path)
    ensures var m, r := ValidateDirectory(path).value, MkdirsStep(s, path);
      && r.status.Done?
      && IsDirectory(r.state, path) == Ok(true)
      && BucketExistsIn(r.state, m.bucket)
      && (!m.IsBucket() ==> Content(Lookup(EntriesOf(r.state, m.bucket), m.prefix)) == Some(([], None)))
      && (forall n, k :: (n != m.bucket || k != m.prefix) ==>
            Lookup(EntriesOf(r.state, n), k) == Lookup(EntriesOf(s, n), k))
  {
    var m := ValidateDirectory(path).value;
    MatchFields(path);
    BucketMade(s, m.bucket);
    var made := if BucketExistsIn(s, m.bucket) then Step(Done, s) else MakeBucketStep(s, m.bucket);
    var r := MkdirsStep(s, path);
    if !m.IsBucket() {
      assert WellFormedKey(m.prefix);
      assert r == PutObjectStep(made.state, m.bucket, m.prefix, [], None);
      MarkerPut(made.state, m.bucket, m.prefix);
      assert StartsWith(m.prefix, m.prefix);
    }
    IsDirectoryMeaning(r.state, path);
  }

  /** The first half of `mkdirs`: the bucket exists afterwards, and no object
      has changed. */
  lemma BucketMade(s: Snapshot, b: string)
    requires ValidSnapshot(s) && WellFormedBucketName(b)
    ensures var made := if BucketExistsIn(s, b) then Step(Done, s) else MakeBucketStep(s, b);
      && made.status.Done? && BucketExistsIn(made.state, b) && ValidSnapshot(made.state)
      && forall n, k :: Lookup(EntriesOf(made.state, n), k) == Lookup(EntriesOf(s, n), k)
  {
    var made := if BucketExistsIn(s, b) then Step(Done, s) else MakeBucketStep(s, b);
    forall n, k ensures Lookup(EntriesOf(made.state, n), k) == Lookup(EntriesOf(s, n), k) {
      if n != b {
        assert FindBucket(made.state.buckets, n) == FindBucket(s.buckets, n);
      }
    }
  }

  /** The second half: the empty marker is put, and nothing else changes. */
  lemma MarkerPut(s: Snapshot, b: string, key: string)
    requires ValidSnapshot(s) && WellFormedBucketName(b) && WellFormedKey(key) && BucketExistsIn(s, b)
    ensures var r := PutObjectStep(s, b, key, [], None);
      && r.status.Done?
      && Content(Lookup(EntriesOf(r.state, b), key)) == Some(([], None))
      && key in Keys(EntriesOf(r.state, b))
      && BucketExistsIn(r.state, b)
      && forall n, k :: (n != b || k != key) ==> Lookup(EntriesOf(r.state, n), k) == Lookup(EntriesOf(s, n), k)
  {
    var r := PutObjectStep(s, b, key, [], None);
    forall n, k | n != b || k != key
      ensures Lookup(EntriesOf(r.state, n), k) == Lookup(EntriesOf(s, n), k)
    {
      if n != b {
        assert FindBucket(r.state.buckets, n) == FindBucket(s.buckets, n);
      }
    }
  }

  /** `mkdirs` is idempotent up to timestamps: a second call succeeds and
      leaves the same buckets and objects. */
  lemma MkdirsIdempotent(s: Snapshot, path: string)
    requires ValidSnapshot(s) && MkdirsStep(s, path).status.Done?
    ensures var s1 := MkdirsStep(s, path).state;
      var r := MkdirsStep(s1, path);
      r.status.Done? && SameObjects(s1, r.state)
  {
    var m := ValidateDirectory(path).value;
    MkdirsMakes(s, path);
    var s1 := MkdirsStep(s, path).state;
    MkdirsMakes(s1, path);
    var r := MkdirsStep(s1, path);
    assert BucketExistsIn(s1, m.bucket);
    forall x ensures x in BucketNames(s1.buckets) <==> x in BucketNames(r.state.buckets) {
      if !m.IsBucket() {
        assert r == PutObjectStep(s1, m.bucket, m.prefix, [], None);
      }
    }
  }

  // ---------------------------------------------------------------------------
  // put_data

  /** `put_data(path, data, metadata)`: one `put_object` at the path's bucket
      and key. */
  function PutDataStep(s: Snapshot, path: string, data: seq<Byte>,
                       headers: Option<seq<(string, string)>>): (r: Step)
    ensures ValidSnapshot(s) ==> ValidSnapshot(r.state)
  {
    match Match(path)
    case Err(e) => Step(Failed(e), s)
    case Ok(m) => PutObjectStep(s, m.bucket, m.RelativePath(), data, headers)
  }

  /** What `put_data` writes, `get` reads back: the bytes, the file name, and
      the cleaned metadata over the size and the clock's timestamp; no other
      object changes. */
  lemma PutDataThenGet(s: Snapshot, path: string, data: seq<Byte>, headers: Option<seq<(string, string)>>)
    requires ValidSnapshot(s) && Match(path).Ok? && Match(path).value.IsFile()
    requires BucketExistsIn(s, Match(path).value.bucket)
    ensures var m, r := Match(path).value, PutDataStep(s, path, data, headers);
      && r.status.Done?
      && Get(r.state, path)
           == Ok(File(m.filename, path, Merge(false, Some(s.clock), Some(|data|), ExtractMetadata(headers)), data))
      && (forall n, k :: (n != m.bucket || k != m.RelativePath()) ==>
            Lookup(EntriesOf(r.state, n), k) == Lookup(EntriesOf(s, n), k))
  {
    var m := Match(path).value;
    if m.IsRoot() { MatchRootParts(path); }
    MatchFields(path);
    FileKeyWellFormed(m);
    var key := m.prefix + m.filename;
    var r := PutDataStep(s, path, data, headers);
    assert r == PutObjectStep(s, m.bucket, key, data, headers);
    PutKeepsOthers(s, m.bucket, key, data, headers);
    assert Lookup(EntriesOf(r.state, m.bucket), key) == Some(Obj(data, Some(s.clock), headers));
    GetFile(r.state, path);
  }

  /** A successful put leaves every other (bucket, key) pair as it was. */
  lemma PutKeepsOthers(s: Snapshot, b: string, key: string, data: seq<Byte>,
                       headers: Option<seq<(string, string)>>)
    requires ValidSnapshot(s) && PutObjectStep(s, b, key, data, headers).status.Done?
    ensures var r := PutObjectStep(s, b, key, data, headers);
      forall n, k :: (n != b || k != key) ==>
        Lookup(EntriesOf(r.state, n), k) == Lookup(EntriesOf(s, n), k)
  {
    var r := PutObjectStep(s, b, key, data, headers);
    forall n, k | n != b || k != key
      ensures Lookup(EntriesOf(r.state, n), k) == Lookup(EntriesOf(s, n), k)
    {
      if n != b {
        assert FindBucket(r.state.buckets, n) == FindBucket(s.buckets, n);
      }
    }
  }

  /** The key of a resolved file is one the store accepts. */
  lemma FileKeyWellFormed(m: PathRef)
    requires Shaped(m) && m.IsFile()
    ensures m.RelativePath() == m.prefix + m.filename
    ensures WellFormedBucketName(m.bucket) && WellFormedKey(m.prefix + m.filename)
  {
    var e, f := m.prefix, m.filename;
    assert f[0] != '/' by { assert f[0] in f; }
    NoSlashNoDoubleSlash(f);
    if e == [] {
      assert e + f == f;
    } else {
      NoDoubleSlashConcat(e, f);
      assert (e + f)[0] == e[0];
    }
  }

  /** `put_data` fails, changing nothing, on a path that does not resolve, on
      a bare bucket or the root, and in a missing bucket. */
  lemma PutDataRefuses(s: Snapshot, path: string, data: seq<Byte>, headers: Option<seq<(string, string)>>)
    ensures Match(path).Err? ==> PutDataStep(s, path, data, headers) == Step(Failed(Match(path).error), s)
    ensures Match(path).Ok? && Match(path).value.IsBucket() ==>
      PutDataStep(s, path, data, headers).status.Failed? && PutDataStep(s, path, data, headers).state == s
    ensures Match(path).Ok? && !BucketExistsIn(s, Match(path).value.bucket) ==>
      PutDataStep(s, path, data, headers).status.Failed? && PutDataStep(s, path, data, headers).state == s
  {
    if Match(path).Ok? && !BucketExistsIn(s, Match(path).value.bucket) {
      var m := Match(path).value;
      assert PutDataStep(s, path, data, headers) == PutObjectStep(s, m.bucket, m.RelativePath(), data, headers);
    }
  }

  // ---------------------------------------------------------------------------
  // rm

  /** `rm(path, recursive)`: a directory (as `isdir` decides) goes to `rmdir`;
      anything else is one `remove_object` of the path's key. */
  function RmStep(s: Snapshot, path: string, recursive: bool): (r: Step)
    requires ValidSnapshot(s)
    ensures ValidSnapshot(r.state)
  {
    match IsDirectory(s, path)
    case Err(e) => Step(Failed(e), s)
    case Ok(isDir) =>
      if isDir then RmdirStep(s, path, recursive)
      else
        var m := Match(path).value;
        RemoveObjectStep(s, m.bucket, m.RelativePath())
  }

  /** `rm` of a file removes its key, after which the file does not exist; in
      a missing bucket it fails with `NoSuchBucket`; a directory goes to
      `rmdir`. */
  lemma RmFile(s: Snapshot, path: string, recursive: bool)
    requires ValidSnapshot(s) && Match(path).Ok? && Match(path).value.IsFile()
    ensures var m, r := Match(path).value, RmStep(s, path, recursive);
      && (BucketExistsIn(s, m.bucket) ==>
            && r == Step(Done, RemoveObjectsState(s, m.bucket, {m.prefix + m.filename}))
            && !Exists(r.state, path))
      && (!BucketExistsIn(s, m.bucket) ==> r == Step(Failed(NoSuchBucket), s))
  {
    var m := Match(path).value;
    if m.IsRoot() { MatchRootParts(path); }
    MatchFields(path);
    IsDirectoryMeaning(s, path);
    var r := RmStep(s, path, recursive);
    if BucketExistsIn(s, m.bucket) {
      RemoveOneIsRemoveObjects(s, m.bucket, m.prefix + m.filename);
      ExistsMeaning(r.state, path);
    }
  }

  /** `rm` sends what `isdir` calls a directory to `rmdir`. */
  lemma RmDirectory(s: Snapshot, path: string, recursive: bool)
    requires ValidSnapshot(s) && IsDirectory(s, path) == Ok(true)
    ensures RmStep(s, path, recursive) == RmdirStep(s, path, recursive)
  {
  }

  /** `rm` of a path that does not exist, in an existing bucket, succeeds and
      changes nothing. */
  lemma RmMissing(s: Snapshot, path: string, recursive: bool)
    requires ValidSnapshot(s) && Match(path).Ok? && !Exists(s, path)
    requires BucketExistsIn(s, Match(path).value.bucket)
    ensures RmStep(s, path, recursive) == Step(Done, s)
  {
    var m := Match(path).value;
    ExistsMeaning(s, path);
    IsDirectoryMeaning(s, path);
    MatchFields(path);
    var es := EntriesOf(s, m.bucket);
    assert m.RelativePath() !in Keys(es) by {
      if m.IsDir() {
        assert m.RelativePath() == m.prefix;
        assert StartsWith(m.prefix, m.prefix);
      }
    }
    RemoveOneIsRemoveObjects(s, m.bucket, m.RelativePath());
    RemovePresent(s, m.bucket, {m.RelativePath()}, {});
    RemoveNothing(s, m.bucket);
  }
}
