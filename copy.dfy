/** `cp`, `copy_recursively` and `mv`: the copying operations of `Pyminio`, as
    transitions of the store snapshot. `copy_recursively` walks the source
    tree breadth first, making each leaf directory at the target as it meets
    it, and then copies the files it collected, one `cp` each, in the order it
    met them. */
module Copying {
  import opened Outcomes
  import opened PathStrings
  import opened Paths
  import opened Objects
  import opened Listing
  import opened ObjectStore
  import opened Views
  import opened Walks
  import opened Reads
  import opened Removal
  import opened Writes

  // ---------------------------------------------------------------------------
  // Where a recursive copy writes

  /** The directory a tree is copied into: the target's prefix, with the
      one-character last segment that `Match` leaves out put back. */
  function TargetDir(tm: PathRef): string
    requires |tm.path| > 0
  {
    if EndsWithSlash(tm.path) then tm.prefix else tm.prefix + [tm.path[|tm.path| - 1]] + "/"
  }

  /** The target lies neither inside the source directory `p` of bucket `b`
      nor around it. */
  predicate Apart(b: string, p: string, tm: PathRef)
    requires |tm.path| > 0
  {
    b != tm.bucket || (!StartsWith(TargetDir(tm), p) && !StartsWith(p, TargetDir(tm)))
  }

  /** The arguments of a recursive copy that this model covers: the source is
      the directory `p` of bucket `b`, written as its canonical path ending in
      '/'; the target is a canonical directory path other than the root, apart
      from the source. */
  predicate CopyLayout(fromPath: string, toPath: string, b: string, p: string) {
    && BucketName(b) && DirPrefix(p) && fromPath == Compose(b, p, "")
    && |toPath| > 0 && Match(toPath).Ok? && Match(toPath).value.path == toPath
    && Match(toPath).value.IsDir() && !Match(toPath).value.IsRoot()
    && Apart(b, p, Match(toPath).value)
  }

  /** Every directory of the worklist is a directory prefix inside `p`. */
  predicate Within(pending: seq<string>, p: string) {
    forall i :: 0 <= i < |pending| ==> DirPrefix(pending[i]) && StartsWith(pending[i], p)
  }

  // ---------------------------------------------------------------------------
  // The part of a bucket inside the source directory

  /** The entries whose keys lie inside `p`, in order. */
  function Below(es: seq<Entry>, p: string): (r: seq<Entry>)
    ensures forall k :: k in Keys(r) <==> k in Keys(es) && StartsWith(k, p)
  {
    if es == [] then []
    else
      var t := Below(es[1..], p);
      assert Keys(([es[0]] + t)[1..]) == Keys(t) by { assert ([es[0]] + t)[1..] == t; }
      (if StartsWith(es[0].key, p) then [es[0]] + t else t)
  }

  /** The keys inside the source directory. */
  function SourceKeys(s: Snapshot, b: string, p: string): set<string> {
    Keys(Below(EntriesOf(s, b), p))
  }

  /** Two snapshots agree on bucket `b` inside `p`: the bucket exists in both
      or in neither, and the entries inside `p` are the same, in order. */
  predicate SameSource(s0: Snapshot, s: Snapshot, b: string, p: string) {
    && BucketExistsIn(s, b) == BucketExistsIn(s0, b)
    && Below(EntriesOf(s, b), p) == Below(EntriesOf(s0, b), p)
  }

  /** Listing a directory inside `p` sees only the entries inside `p`. */
  lemma {:induction false} ListFromBelow(bk: string, es: seq<Entry>, p: string, d: string, seen: set<string>)
    requires StartsWith(d, p)
    ensures ListFrom(bk, es, d, seen) == ListFrom(bk, Below(es, p), d, seen)
  {
    if es != [] {
      var k := es[0].key;
      ListFromBelow(bk, es[1..], p, d, seen);
      if Deeper(k, d) {
        ListFromBelow(bk, es[1..], p, d, seen + {Group(k, d)});
      }
      if StartsWith(k, p) {
        var t := Below(es[1..], p);
        assert Below(es, p) == [es[0]] + t;
        assert ([es[0]] + t)[1..] == t;
      } else {
        if StartsWith(k, d) { StartsWithTrans(k, d, p); }
      }
    }
  }

  /** Snapshots that agree inside `p` list every directory inside `p` alike. */
  lemma SameListing(s0: Snapshot, s: Snapshot, b: string, p: string, d: string)
    requires SameSource(s0, s, b, p) && StartsWith(d, p)
    ensures ObjectsAt(s, DirRef(b, d)) == ObjectsAt(s0, DirRef(b, d))
  {
    ListFromBelow(b, EntriesOf(s, b), p, d, {});
    ListFromBelow(b, EntriesOf(s0, b), p, d, {});
  }

  /** An object outside `p` leaves the entries inside `p` as they were. */
  lemma {:induction false} BelowUpsert(es: seq<Entry>, k: string, o: Obj, p: string)
    requires !StartsWith(k, p)
    ensures Below(Upsert(es, k, o), p) == Below(es, p)
  {
    if es != [] && es[0].key != k {
      BelowUpsert(es[1..], k, o, p);
      var t := Upsert(es[1..], k, o);
      assert Upsert(es, k, o) == [es[0]] + t;
      assert ([es[0]] + t)[1..] == t;
    } else if es != [] {
      assert Upsert(es, k, o) == [Entry(k, o)] + es[1..];
      assert ([Entry(k, o)] + es[1..])[1..] == es[1..];
    }
  }

  /** Inside `p`, what a bucket holds is what its entries inside `p` hold. */
  lemma {:induction false} LookupBelow(es: seq<Entry>, p: string, k: string)
    requires StartsWith(k, p)
    ensures Lookup(Below(es, p), k) == Lookup(es, k)
  {
    if es != [] {
      LookupBelow(es[1..], p, k);
      var t := Below(es[1..], p);
      if StartsWith(es[0].key, p) {
        assert Below(es, p) == [es[0]] + t;
        assert ([es[0]] + t)[1..] == t;
      }
    }
  }

  /** `put_object` outside `p` keeps bucket `b` inside `p`. */
  lemma PutKeeps(s: Snapshot, bucket: string, key: string, data: seq<Byte>,
                 headers: Option<seq<(string, string)>>, b: string, p: string)
    requires bucket != b || !StartsWith(key, p)
    ensures SameSource(s, PutObjectStep(s, bucket, key, data, headers).state, b, p)
  {
    var r := PutObjectStep(s, bucket, key, data, headers);
    if bucket != b {
      assert FindBucket(r.state.buckets, b) == FindBucket(s.buckets, b);
    } else if r.status.Done? {
      var bk := FindBucket(s.buckets, bucket).value;
      var o := Obj(data, Some(s.clock), headers);
      assert r.state.buckets == SetEntries(s.buckets, bucket, Upsert(bk.entries, key, o));
      BelowUpsert(bk.entries, key, o, p);
    }
  }

  /** `copy_object` to a key outside `p` keeps bucket `b` inside `p`. */
  lemma CopyKeeps(s: Snapshot, bucket: string, key: string, srcBucket: string, srcKey: string,
                  b: string, p: string)
    requires bucket != b || !StartsWith(key, p)
    ensures SameSource(s, CopyObjectStep(s, bucket, key, srcBucket, srcKey).state, b, p)
  {
    var r := CopyObjectStep(s, bucket, key, srcBucket, srcKey);
    if r.status.Done? {
      var src := GetObjectOf(s, srcBucket, srcKey).value;
      PutKeeps(s, bucket, key, src.data, src.headers, b, p);
    }
  }

  /** `mkdirs` of a directory outside `p` succeeds and keeps bucket `b`
      inside `p`. */
  lemma MkdirsKeeps(s: Snapshot, path: string, b: string, p: string)
    requires ValidSnapshot(s) && BucketExistsIn(s, b)
    requires ValidateDirectory(path).Ok? && !ValidateDirectory(path).value.IsRoot()
    requires var m := ValidateDirectory(path).value; m.bucket != b || !StartsWith(m.prefix, p)
    ensures MkdirsStep(s, path).status.Done?
    ensures SameSource(s, MkdirsStep(s, path).state, b, p)
  {
    var m := ValidateDirectory(path).value;
    MkdirsMakes(s, path);
    MatchFields(path);
    var made := if BucketExistsIn(s, m.bucket) then Step(Done, s) else MakeBucketStep(s, m.bucket);
    assert SameSource(s, made.state, b, p) by {
      if !BucketExistsIn(s, m.bucket) {
        assert m.bucket != b;
        assert FindBucket(made.state.buckets, b) == FindBucket(s.buckets, b);
      }
    }
    if !m.IsBucket() {
      PutKeeps(made.state, m.bucket, m.prefix, [], None, b, p);
    }
  }

  // ---------------------------------------------------------------------------
  // Shapes of the paths a recursive copy computes

  /** Two directory prefixes, one after the other, make a directory prefix. */
  lemma DirPrefixConcat(x: string, y: string)
    requires DirPrefix(x) && DirPrefix(y)
    ensures DirPrefix(x + y)
  {
    if x == [] {
      assert x + y == y;
    } else if y == [] {
      assert x + y == x;
    } else {
      NoDoubleSlashConcat(x, y);
      assert (x + y)[0] == x[0];
      assert (x + y)[|x + y| - 1] == y[|y| - 1];
    }
  }

  /** What follows a directory prefix `p` in a directory prefix `d` inside it
      is a directory prefix. */
  lemma RestDirPrefix(d: string, p: string)
    requires DirPrefix(d) && DirPrefix(p) && StartsWith(d, p)
    ensures DirPrefix(d[|p|..])
  {
    var r := d[|p|..];
    NoDoubleSlashSlice(d, |p|, |d|);
    assert d[|p|..|d|] == r;
    if r != [] {
      assert r[|r| - 1] == d[|d| - 1] && r[0] == d[|p|];
      if p != [] {
        assert d[..|p|][|p| - 1] == d[|p| - 1];
        assert !DoubleSlashAt(d, |p| - 1);
      }
    }
  }

  /** The key of a file that lies in `p`, after `p`: not empty, relative and
      without empty components. */
  lemma RestOfKey(k: string, p: string)
    requires WellFormedKey(k) && !EndsWithSlash(k) && DirPrefix(p) && StartsWith(k, p)
    ensures var r := k[|p|..]; r != [] && r[0] != '/' && NoDoubleSlash(r) && !EndsWithSlash(r)
  {
    var r := k[|p|..];
    if p != [] {
      assert k[..|p|] == p;
      assert k[..|p|][|p| - 1] == k[|p| - 1];
      assert |p| < |k| by { assert |p| != |k| by { assert k[..|k|] == k; } }
      assert !DoubleSlashAt(k, |p| - 1);
      assert r[0] == k[|p|];
    } else {
      assert r == k;
    }
    NoDoubleSlashSlice(k, |p|, |k|);
    assert k[|p|..|k|] == r;
    assert r[|r| - 1] == k[|k| - 1];
  }

  /** The directory part of a key: everything up to its base name. */
  function DirPart(k: string): string {
    k[..|k| - |Basename(k)|]
  }

  /** A file key is its directory part, a directory prefix, followed by its
      base name, which is not empty; the directory part of a key inside `p`
      lies inside `p`. */
  lemma KeySplit(k: string, p: string)
    requires WellFormedKey(k) && !EndsWithSlash(k) && DirPrefix(p) && StartsWith(k, p)
    ensures k == DirPart(k) + Basename(k)
    ensures DirPrefix(DirPart(k)) && Basename(k) != [] && '/' !in Basename(k)
    ensures StartsWith(DirPart(k), p)
  {
    var f := Basename(k);
    var e := DirPart(k);
    assert k == e + f by { assert k[|k| - |f|..] == f; }
    match LastIndexOf(k, '/')
    case None =>
      assert f == k;
    case Some(i) =>
      assert f == k[i + 1..] && k[i] == '/' && k[|k| - 1] != '/';
      assert e == k[..i + 1];
      DirPartAt(k, p, i);
  }

  /** The directory part of a key whose last '/' is at `i`. */
  lemma DirPartAt(k: string, p: string, i: nat)
    requires WellFormedKey(k) && DirPrefix(p) && StartsWith(k, p)
    requires i < |k| && k[i] == '/' && '/' !in k[i + 1..]
    ensures DirPrefix(k[..i + 1]) && StartsWith(k[..i + 1], p)
  {
    var e := k[..i + 1];
    assert e[|e| - 1] == k[i] && e[0] == k[0];
    NoDoubleSlashSlice(k, 0, |e|);
    if p != [] {
      PrefixBeforeLastSlash(k, p, i);
      assert e[..|p|] == k[..|p|];
    }
  }

  /** A prefix ending in '/' ends at or before the last '/'. */
  lemma PrefixBeforeLastSlash(k: string, p: string, i: nat)
    requires StartsWith(k, p) && EndsWithSlash(p)
    requires i < |k| && '/' !in k[i + 1..]
    ensures |p| <= i + 1
  {
    assert k[..|p|][|p| - 1] == k[|p| - 1];
  }

  /** The part of a path after the source directory's path is the part of the
      directory or key after `p`. */
  lemma StripSource(b: string, p: string, x: string)
    requires StartsWith(x, p)
    ensures StripPrefix("/" + b + "/" + x, Compose(b, p, "")) == x[|p|..]
  {
    var full, from := "/" + b + "/" + x, Compose(b, p, "");
    assert from == "/" + b + "/" + p;
    assert full[..|from|] == from by { assert x[..|p|] == p; }
    assert full[|from|..] == x[|p|..];
  }

  /** `join(path, rel)` for a directory reference and a relative part `rel`
      that is empty or starts with a component: the directory the reference
      names, followed by `rel`. */
  lemma JoinDir(tm: PathRef, rel: string)
    requires Shaped(tm) && tm.filename == "" && (rel == [] || rel[0] != '/')
    ensures |tm.path| > 0 && DirPrefix(TargetDir(tm))
    ensures Join(tm.path, rel) == Compose(tm.bucket, TargetDir(tm), rel)
  {
    var b, e := tm.bucket, tm.prefix;
    var d := Compose(b, e, "");
    assert d == "/" + b + "/" + e;
    assert EndsWithSlash(d) by { if e != [] { assert d[|d| - 1] == e[|e| - 1]; } }
    if tm.path == d {
      assert d + rel == Compose(b, e, rel);
    } else {
      var c := tm.path[|tm.path| - 1];
      assert tm.path == Compose(b, e, [c]);
      ExtendPrefix(e, c);
      assert tm.path + "/" + rel == Compose(b, e + [c] + "/", rel);
    }
  }

  /** The same for a canonical directory path other than the root. */
  lemma JoinTarget(toPath: string, rel: string)
    requires |toPath| > 0 && Match(toPath).Ok? && Match(toPath).value.path == toPath
    requires Match(toPath).value.IsDir() && !Match(toPath).value.IsRoot()
    requires rel == [] || rel[0] != '/'
    ensures var tm := Match(toPath).value;
      && DirPrefix(TargetDir(tm)) && BucketName(tm.bucket)
      && Join(toPath, rel) == Compose(tm.bucket, TargetDir(tm), rel)
  {
    MatchFields(toPath);
    JoinDir(Match(toPath).value, rel);
  }

  /** `join(to_path, d.replace(from_path, ''))` for a directory `d` inside the
      source: the directory `d` corresponds to at the target. */
  function LeafTarget(fromPath: string, toPath: string, b: string, d: string): string {
    Join(toPath, StripPrefix(Compose(b, d, ""), fromPath))
  }

  /** The directory a leaf `d` is made as: the target directory followed by
      what follows `p` in `d`. It is a directory outside the source. */
  lemma LeafTargetShape(fromPath: string, toPath: string, b: string, p: string, d: string)
    requires CopyLayout(fromPath, toPath, b, p) && DirPrefix(d) && StartsWith(d, p)
    ensures var tm := Match(toPath).value;
      var x := TargetDir(tm) + d[|p|..];
      && DirPrefix(x)
      && ValidateDirectory(LeafTarget(fromPath, toPath, b, d)) == Ok(DirRef(tm.bucket, x))
      && (tm.bucket != b || !StartsWith(x, p))
  {
    var tm := Match(toPath).value;
    var rel := d[|p|..];
    RestDirPrefix(d, p);
    LeafTargetIs(fromPath, toPath, b, p, d);
    JoinTarget(toPath, rel);
    var t := TargetDir(tm);
    DirPrefixConcat(t, rel);
    ComposeRel(tm.bucket, t, rel);
    DirRefOf(tm.bucket, t + rel);
    if tm.bucket == b {
      OutsideSource(p, t, rel);
    }
  }

  lemma LeafTargetIs(fromPath: string, toPath: string, b: string, p: string, d: string)
    requires fromPath == Compose(b, p, "") && StartsWith(d, p)
    ensures LeafTarget(fromPath, toPath, b, d) == Join(toPath, d[|p|..])
  {
    StripSource(b, p, d);
    assert Compose(b, d, "") == "/" + b + "/" + d;
  }

  lemma ComposeRel(b: string, t: string, rel: string)
    ensures Compose(b, t, rel) == Compose(b, t + rel, "")
  {
  }

  /** A directory prefix of a bucket, written out, validates to its reference. */
  lemma DirRefOf(b: string, x: string)
    requires BucketName(b) && DirPrefix(x)
    ensures ValidateDirectory(Compose(b, x, "")) == Ok(DirRef(b, x))
  {
    MatchCompose(b, x, "");
  }

  /** Anything written under a target directory apart from `p` lies outside `p`. */
  lemma OutsideSource(p: string, t: string, rel: string)
    requires !StartsWith(t, p) && !StartsWith(p, t)
    ensures !StartsWith(t + rel, p)
  {
    if |p| <= |t| {
      assert (t + rel)[..|p|] == t[..|p|];
    } else {
      assert (t + rel)[..|t|] == t;
    }
  }

  // ---------------------------------------------------------------------------
  // The walk

  /** A file to copy: the source path and the target path. */
  datatype Task = Task(fromPath: string, toPath: string)

  /** The copy job `copy_recursively` records for the file `k` of bucket `b`. */
  function FileTask(fromPath: string, toPath: string, b: string, k: string): Task {
    var objPath := "/" + b + "/" + k;
    Task(objPath, Join(toPath, StripPrefix(objPath, fromPath)))
  }

  function FileTasks(fromPath: string, toPath: string, b: string, ks: seq<string>): (r: seq<Task>)
    ensures |r| == |ks|
  {
    if ks == [] then [] else [FileTask(fromPath, toPath, b, ks[0])] + FileTasks(fromPath, toPath, b, ks[1..])
  }

  /** How the walk ended, the copy jobs it recorded and the store after it. */
  datatype WalkOut = WalkOut(status: Status, tasks: seq<Task>, state: Snapshot)

  /** The sub-directories a listing reports are inside the source: they are
      directory prefixes inside the listed directory. */
  lemma ChildrenInside(s: Snapshot, b: string, p: string, d: string, l: seq<Listed>)
    requires ValidSnapshot(s) && ObjectsAt(s, DirRef(b, d)) == Ok(l) && StartsWith(d, p)
    ensures ChildrenOf(SourceKeys(s, b, p), d, DirItems(l))
    ensures forall g :: g in DirItems(l) ==> DirPrefix(g) && StartsWith(g, p)
  {
    var es := EntriesOf(s, b);
    ChildrenFacts(s, b, d, l);
    assert ValidEntries(es);
    var dirs := DirItems(l);
    if dirs != [] {
      var k :| k in Keys(es) && StartsWith(k, d);
      StartsWithTrans(k, d, p);
      assert k in SourceKeys(s, b, p);
    }
    forall g | g in dirs ensures DirPrefix(g) && StartsWith(g, p) {
      var k :| k in Keys(es) && Deeper(k, d) && Group(k, d) == g;
      assert WellFormedKey(k);
      assert g == k[..|g|];
      NoDoubleSlashSlice(k, 0, |g|);
      StartsWithTrans(g, d, p);
    }
  }

  lemma WithinNext(pending: seq<string>, dirs: seq<string>, p: string)
    requires pending != [] && Within(pending, p)
    requires forall g :: g in dirs ==> DirPrefix(g) && StartsWith(g, p)
    ensures Within(pending[1..] + dirs, p)
  {
    var next := pending[1..] + dirs;
    forall i | 0 <= i < |next| ensures DirPrefix(next[i]) && StartsWith(next[i], p) {
      if i < |pending| - 1 { assert next[i] == pending[i + 1]; } else { assert next[i] in dirs; }
    }
  }

  /** The walk of `copy_recursively(from_path, to_path)` over the source
      directory `p` of bucket `b`: the first directory of the worklist is
      listed; its files are recorded as tasks; when it has no sub-directory it
      is made at the target; its sub-directories join the worklist. A
      directory of the worklist stands for its path `"/" + b + "/" + d`. */
  function CopyWalk(s: Snapshot, fromPath: string, toPath: string, b: string, p: string,
                    pending: seq<string>, tasks: seq<Task>): (r: WalkOut)
    requires CopyLayout(fromPath, toPath, b, p) && ValidSnapshot(s) && BucketExistsIn(s, b)
    requires Ready(pending) && Within(pending, p)
    ensures ValidSnapshot(r.state)
    decreases Reach(SourceKeys(s, b, p), pending), |pending|
  {
    if pending == [] then WalkOut(Done, tasks, s)
    else
      var d := pending[0];
      match ObjectsAt(s, DirRef(b, d))
      case Err(e) => WalkOut(Failed(e), tasks, s)
      case Ok(l) =>
        var dirs := DirItems(l);
        var tasks' := tasks + FileTasks(fromPath, toPath, b, FileItems(l));
        var made := if dirs == [] then MkdirsStep(s, LeafTarget(fromPath, toPath, b, d)) else Step(Done, s);
        if made.status.Failed? then WalkOut(made.status, tasks', made.state)
        else
          ChildrenInside(s, b, p, d, l);
          LeafTargetShape(fromPath, toPath, b, p, d);
          MkdirsKeeps(s, LeafTarget(fromPath, toPath, b, d), b, p);
          var K := SourceKeys(s, b, p);
          StepShrinks(K, K, pending, dirs);
          WithinNext(pending, dirs, p);
          CopyWalk(made.state, fromPath, toPath, b, p, pending[1..] + dirs, tasks')
  }

  /** `mkdirs` of each path in turn, stopping at the first that fails. */
  function MkdirsAll(s: Snapshot, paths: seq<string>): (r: Step)
    requires ValidSnapshot(s)
    ensures ValidSnapshot(r.state)
    decreases |paths|
  {
    if paths == [] then Step(Done, s)
    else
      var made := MkdirsStep(s, paths[0]);
      if made.status.Failed? then made else MkdirsAll(made.state, paths[1..])
  }

  /** The target paths of the leaf directories `ds`. */
  function LeafTargets(fromPath: string, toPath: string, b: string, ds: seq<string>): (r: seq<string>)
    ensures |r| == |ds|
    ensures forall i :: 0 <= i < |ds| ==> r[i] == LeafTarget(fromPath, toPath, b, ds[i])
  {
    if ds == [] then [] else [LeafTarget(fromPath, toPath, b, ds[0])] + LeafTargets(fromPath, toPath, b, ds[1..])
  }

  lemma {:induction false} FileTasksConcat(fromPath: string, toPath: string, b: string, xs: seq<string>, ys: seq<string>)
    ensures FileTasks(fromPath, toPath, b, xs + ys)
         == FileTasks(fromPath, toPath, b, xs) + FileTasks(fromPath, toPath, b, ys)
  {
    if xs == [] {
      assert xs + ys == ys;
    } else {
      assert (xs + ys)[1..] == xs[1..] + ys;
      FileTasksConcat(fromPath, toPath, b, xs[1..], ys);
    }
  }

  /** The walk of `copy_recursively` finds what the plain walk of the source
      finds: it records one task per file, in the order the plain walk finds
      them, and makes the target of every leaf, in the order the plain walk
      finds the leaves; all of these succeed and the source is left as it
      was. */
  lemma {:induction false} CopyWalkIsWalk(s0: Snapshot, s: Snapshot, fromPath: string, toPath: string,
                                          b: string, p: string, pending: seq<string>, tasks: seq<Task>)
    requires CopyLayout(fromPath, toPath, b, p) && ValidSnapshot(s0) && ValidSnapshot(s)
    requires BucketExistsIn(s0, b) && SameSource(s0, s, b, p)
    requires Ready(pending) && Within(pending, p)
    ensures Walk(s0, b, pending, [], []).Ok?
    ensures var w := Walk(s0, b, pending, [], []).value;
      var m := MkdirsAll(s, LeafTargets(fromPath, toPath, b, w.1));
      && m.status.Done? && SameSource(s0, m.state, b, p)
      && CopyWalk(s, fromPath, toPath, b, p, pending, tasks)
         == WalkOut(Done, tasks + FileTasks(fromPath, toPath, b, w.0), m.state)
    decreases Reach(SourceKeys(s0, b, p), pending), |pending|
  {
    WalkAccumulates(s0, b, pending, [], []);
    if pending == [] {
      assert tasks + [] == tasks;
    } else {
      var d := pending[0];
      CopyWalkStep(s0, s, fromPath, toPath, b, p, pending, tasks);
      var l := ObjectsAt(s0, DirRef(b, d)).value;
      var dirs, found := DirItems(l), FileItems(l);
      var next := pending[1..] + dirs;
      var t := LeafTarget(fromPath, toPath, b, d);
      var made := if dirs == [] then MkdirsStep(s, t) else Step(Done, s);
      var tasks' := tasks + FileTasks(fromPath, toPath, b, found);
      CopyWalkIsWalk(s0, made.state, fromPath, toPath, b, p, next, tasks');
      WalkUnfold(s0, b, pending);
      var w1 := Walk(s0, b, next, [], []).value;
      FileTasksConcat(fromPath, toPath, b, found, w1.0);
      AppendAssoc(tasks, FileTasks(fromPath, toPath, b, found), FileTasks(fromPath, toPath, b, w1.0));
      LeafMarksStep(s, fromPath, toPath, b, d, dirs, w1.1);
    }
  }

  /** One turn of the walk: the directory at the head of the worklist is
      listed, its leaf mark made, and the walk goes on from the next worklist
      with the files of the listing recorded. */
  lemma CopyWalkStep(s0: Snapshot, s: Snapshot, fromPath: string, toPath: string,
                     b: string, p: string, pending: seq<string>, tasks: seq<Task>)
    requires CopyLayout(fromPath, toPath, b, p) && ValidSnapshot(s0) && ValidSnapshot(s)
    requires BucketExistsIn(s0, b) && SameSource(s0, s, b, p)
    requires Ready(pending) && Within(pending, p) && pending != []
    ensures ObjectsAt(s0, DirRef(b, pending[0])).Ok?
    ensures var d, l := pending[0], ObjectsAt(s0, DirRef(b, pending[0])).value;
      var dirs, K := DirItems(l), SourceKeys(s0, b, p);
      var next := pending[1..] + dirs;
      var made := if dirs == [] then MkdirsStep(s, LeafTarget(fromPath, toPath, b, d)) else Step(Done, s);
      && made.status.Done? && SameSource(s0, made.state, b, p)
      && Ready(next) && Within(next, p)
      && (Reach(K, next) < Reach(K, pending) || (Reach(K, next) == Reach(K, pending) && |next| < |pending|))
      && CopyWalk(s, fromPath, toPath, b, p, pending, tasks)
         == CopyWalk(made.state, fromPath, toPath, b, p, next, tasks + FileTasks(fromPath, toPath, b, FileItems(l)))
  {
    var d := pending[0];
    assert d in pending;
    SameListing(s0, s, b, p, d);
    var l := ObjectsAt(s0, DirRef(b, d)).value;
    var dirs := DirItems(l);
    ChildrenInside(s0, b, p, d, l);
    var K := SourceKeys(s0, b, p);
    StepShrinks(K, K, pending, dirs);
    WithinNext(pending, dirs, p);
    var t := LeafTarget(fromPath, toPath, b, d);
    LeafTargetShape(fromPath, toPath, b, p, d);
    MkdirsKeeps(s, t, b, p);
  }

  /** The leaf marks of the walk: the head's, when it has no sub-directory,
      then those of the rest. */
  lemma LeafMarksStep(s: Snapshot, fromPath: string, toPath: string, b: string, d: string,
                      dirs: seq<string>, rest: seq<string>)
    requires ValidSnapshot(s)
    requires var made := if dirs == [] then MkdirsStep(s, LeafTarget(fromPath, toPath, b, d)) else Step(Done, s);
      made.status.Done?
    ensures var made := if dirs == [] then MkdirsStep(s, LeafTarget(fromPath, toPath, b, d)) else Step(Done, s);
      MkdirsAll(s, LeafTargets(fromPath, toPath, b, if dirs == [] then [d] + rest else rest))
      == MkdirsAll(made.state, LeafTargets(fromPath, toPath, b, rest))
  {
    if dirs == [] {
      var ts := LeafTargets(fromPath, toPath, b, [d] + rest);
      assert ([d] + rest)[1..] == rest;
      assert ts[1..] == LeafTargets(fromPath, toPath, b, rest);
    }
  }

  /** Where `cp(from_path, to_path)` copies from and to: `Match(from_path)`,
      then `_get_destination`. */
  function CpTarget(s: Snapshot, fromPath: string, toPath: string): (r: Result<(PathRef, PathRef)>)
    ensures r.Err? <==> Match(fromPath).Err? || GetDestination(s, fromPath, toPath).Err?
    ensures r.Ok? ==> Ok(r.value.0) == Match(fromPath) && Ok(r.value.1) == GetDestination(s, fromPath, toPath)
  {
    match Match(fromPath)
    case Err(e) => Err(e)
    case Ok(fm) =>
      match GetDestination(s, fromPath, toPath)
      case Err(e) => Err(e)
      case Ok(tm) => Ok((fm, tm))
  }

  /** The last part of `cp` when it is not recursive: a directory is refused;
      a file is one `copy_object` from its key to the destination's key. */
  function CopyOne(s: Snapshot, fm: PathRef, tm: PathRef): (r: Step)
    ensures ValidSnapshot(s) ==> ValidSnapshot(r.state)
  {
    if fm.IsDir() then Step(Failed(InvalidOperand), s)
    else CopyObjectStep(s, tm.bucket, tm.RelativePath(), fm.bucket, fm.RelativePath())
  }

  /** `cp(from_path, to_path)` without `recursive`, as `copy_recursively`
      calls it for each file it collected. */
  function CopyFileStep(s: Snapshot, fromPath: string, toPath: string): (r: Step)
    ensures ValidSnapshot(s) ==> ValidSnapshot(r.state)
  {
    match CpTarget(s, fromPath, toPath)
    case Err(e) => Step(Failed(e), s)
    case Ok((fm, tm)) => CopyOne(s, fm, tm)
  }

  /** The copy loop of `copy_recursively`: each task in turn, stopping at the
      first that fails. */
  function CopyAll(s: Snapshot, tasks: seq<Task>): (r: Step)
    requires ValidSnapshot(s)
    ensures ValidSnapshot(r.state)
    decreases |tasks|
  {
    if tasks == [] then Step(Done, s)
    else
      var c := CopyFileStep(s, tasks[0].fromPath, tasks[0].toPath);
      if c.status.Failed? then c else CopyAll(c.state, tasks[1..])
  }

  // ---------------------------------------------------------------------------
  // copy_recursively

  /** The arguments of `copy_recursively` the model covers: a source that is
      a directory other than the root lies apart from the target, as
      `CopyLayout` says. */
  predicate CopyFits(fromPath: string, toPath: string) {
    var v := ValidateDirectory(fromPath);
    v.Ok? && !v.value.IsRoot() ==> CopyLayout(fromPath, toPath, v.value.bucket, v.value.prefix)
  }

  /** `copy_recursively(from_path, to_path)`: the source must be a
      directory; when its first listing fails (a missing bucket, or the root,
      whose empty bucket name is never a bucket) nothing is done; otherwise
      the walk runs and then the copy loop. */
  function CopyRecursivelyStep(s: Snapshot, fromPath: string, toPath: string): (r: Step)
    requires ValidSnapshot(s) && CopyFits(fromPath, toPath)
    ensures ValidSnapshot(r.state)
  {
    match ValidateDirectory(fromPath)
    case Err(e) => Step(Failed(e), s)
    case Ok(fm) =>
      match ObjectsAt(s, fm)
      case Err(e) => Step(Failed(e), s)
      case Ok(_) =>
        if fm.IsRoot() then
          MatchRootParts(fromPath);
          assert false;
          Step(Done, s)
        else
          var b, p := fm.bucket, fm.prefix;
          assert p[..|p|] == p;
          var w := CopyWalk(s, fromPath, toPath, b, p, [p], []);
          if w.status.Failed? then Step(w.status, w.state) else CopyAll(w.state, w.tasks)
  }

  // ---------------------------------------------------------------------------
  // cp and mv

  /** The arguments of a recursive `cp` the model covers: a directory source
      lies apart from its destination, as `CopyFits` says. */
  predicate CpFits(s: Snapshot, fromPath: string, toPath: string) {
    var t := CpTarget(s, fromPath, toPath);
    t.Ok? && t.value.0.IsDir() ==> CopyFits(t.value.0.path, t.value.1.path)
  }

  /** `cp(from_path, to_path, recursive)`. */
  function CpStep(s: Snapshot, fromPath: string, toPath: string, recursive: bool): (r: Step)
    requires ValidSnapshot(s) && (recursive ==> CpFits(s, fromPath, toPath))
    ensures ValidSnapshot(r.state)
  {
    match CpTarget(s, fromPath, toPath)
    case Err(e) => Step(Failed(e), s)
    case Ok((fm, tm)) =>
      if fm.IsDir() && recursive then CopyRecursivelyStep(s, fm.path, tm.path)
      else CopyOne(s, fm, tm)
  }

  /** `mv(from_path, to_path, recursive)`: the destination is worked out
      first; then `cp`, and whether or not it failed, `rm` of the source when
      both the source and the destination exist. A failing `rm` reports its
      own error; otherwise `mv` reports what `cp` did. */
  function MvStep(s: Snapshot, fromPath: string, toPath: string, recursive: bool): (r: Step)
    requires ValidSnapshot(s) && (recursive ==> CpFits(s, fromPath, toPath))
    ensures ValidSnapshot(r.state)
  {
    match GetDestination(s, fromPath, toPath)
    case Err(e) => Step(Failed(e), s)
    case Ok(tm) =>
      var c := CpStep(s, fromPath, toPath, recursive);
      if Exists(c.state, fromPath) && Exists(c.state, tm.path) then
        var d := RmStep(c.state, fromPath, recursive);
        if d.status.Failed? then d else Step(c.status, d.state)
      else c
  }

  // ---------------------------------------------------------------------------
  // What a recursive copy does

  /** The key file `k` of the source is copied to. */
  function TargetKey(tm: PathRef, p: string, k: string): string
    requires |tm.path| > 0 && |p| <= |k|
  {
    TargetDir(tm) + k[|p|..]
  }

  /** `join(x, f)` for a directory prefix and a name. */
  lemma JoinName(x: string, f: string)
    requires DirPrefix(x) && f != [] && '/' !in f
    ensures Join(x, f) == x + f
  {
    assert f[0] in f;
  }

  lemma TailOfConcat(e: string, f: string, n: nat)
    requires n <= |e|
    ensures (e + f)[n..] == e[n..] + f
  {
  }

  lemma ComposeKey(b: string, e: string, f: string)
    ensures "/" + b + "/" + (e + f) == Compose(b, e, f)
  {
  }

  lemma ComposeShift(b: string, t: string, x: string, f: string)
    ensures Compose(b, t, x + f) == Compose(b, t + x, f)
    ensures t + (x + f) == (t + x) + f
  {
  }

  /** The two paths of the copy job of file `k`: the key's directory part and
      base name, under bucket `b` and under the target directory. */
  lemma FileTaskPaths(fromPath: string, toPath: string, b: string, p: string, k: string)
    requires CopyLayout(fromPath, toPath, b, p)
    requires WellFormedKey(k) && !EndsWithSlash(k) && StartsWith(k, p)
    ensures |p| <= |DirPart(k)| <= |k|
    ensures var tm, t := Match(toPath).value, FileTask(fromPath, toPath, b, k);
      var e, f := DirPart(k), Basename(k);
      var x := TargetDir(tm) + e[|p|..];
      && DirPrefix(e) && DirPrefix(x) && f != [] && '/' !in f && BucketName(tm.bucket)
      && e + f == k && x + f == TargetKey(tm, p, k)
      && t.fromPath == Compose(b, e, f) && t.toPath == Compose(tm.bucket, x, f)
  {
    var tm := Match(toPath).value;
    var T := TargetDir(tm);
    KeySplit(k, p);
    var e, f := DirPart(k), Basename(k);
    var rel := k[|p|..];
    RestOfKey(k, p);
    StripSource(b, p, k);
    JoinTarget(toPath, rel);
    RestDirPrefix(e, p);
    var e' := e[|p|..];
    TailOfConcat(e, f, |p|);
    DirPrefixConcat(T, e');
    ComposeKey(b, e, f);
    ComposeShift(tm.bucket, T, e', f);
  }

  /** The copy job of a file `k` of the source: the `cp` it makes copies `k` to
      its key under the target directory, except that a key whose base name
      has one character resolves to a directory, which `cp` refuses without
      `recursive`. */
  lemma FileTaskCopies(s: Snapshot, fromPath: string, toPath: string, b: string, p: string, k: string)
    requires CopyLayout(fromPath, toPath, b, p)
    requires WellFormedKey(k) && !EndsWithSlash(k) && StartsWith(k, p)
    ensures |p| <= |k|
    ensures var t, tm := FileTask(fromPath, toPath, b, k), Match(toPath).value;
      CopyFileStep(s, t.fromPath, t.toPath) ==
        if |Basename(k)| == 1 then Step(Failed(InvalidOperand), s)
        else CopyObjectStep(s, tm.bucket, TargetKey(tm, p, k), b, k)
  {
    FileTaskPaths(fromPath, toPath, b, p, k);
    var tm := Match(toPath).value;
    var e, f := DirPart(k), Basename(k);
    var x := TargetDir(tm) + e[|p|..];
    CopyComposed(s, b, e, tm.bucket, x, f);
  }

  /** `cp` from `"/" + b + "/" + e + f` to `"/" + tb + "/" + x + f`. */
  lemma CopyComposed(s: Snapshot, b: string, e: string, tb: string, x: string, f: string)
    requires BucketName(b) && BucketName(tb) && DirPrefix(e) && DirPrefix(x) && f != [] && '/' !in f
    ensures CopyFileStep(s, Compose(b, e, f), Compose(tb, x, f)) ==
      if |f| == 1 then Step(Failed(InvalidOperand), s)
      else CopyObjectStep(s, tb, x + f, b, e + f)
  {
    MatchComposeAny(b, e, f);
    MatchComposeAny(tb, x, f);
    if |f| == 1 {
      assert |Compose(b, e, f)| >= 3;
      GetDestinationCases(s, Compose(b, e, f), Compose(tb, x, f));
    } else {
      JoinName(e, f);
      JoinName(x, f);
    }
  }

  /** The keys the files `ks` are copied to. */
  function TargetKeys(tm: PathRef, p: string, ks: seq<string>): set<string>
    requires |tm.path| > 0
  {
    set k | k in ks && |p| <= |k| :: TargetKey(tm, p, k)
  }

  /** Every key of `ks` is a file of bucket `b` inside `p`. */
  predicate FilesIn(s: Snapshot, b: string, p: string, ks: seq<string>) {
    forall k :: k in ks ==> k in Keys(EntriesOf(s, b)) && StartsWith(k, p) && !EndsWithSlash(k)
  }

  /** Different files of the source go to different keys. */
  lemma TargetKeyDistinct(tm: PathRef, p: string, k1: string, k2: string)
    requires |tm.path| > 0 && StartsWith(k1, p) && StartsWith(k2, p) && k1 != k2
    ensures TargetKey(tm, p, k1) != TargetKey(tm, p, k2)
  {
    var t := TargetDir(tm);
    assert (t + k1[|p|..])[|t|..] == k1[|p|..];
    assert (t + k2[|p|..])[|t|..] == k2[|p|..];
    assert k1 == k1[..|p|] + k1[|p|..];
    assert k2 == k2[..|p|] + k2[|p|..];
  }

  /** The copy of one file of the source whose base name is longer than one
      character: the target key holds the source's bytes and metadata, nothing
      else changes, the source stays as it was. */
  lemma CopyOneFile(s0: Snapshot, s: Snapshot, fromPath: string, toPath: string, b: string, p: string, k: string)
    requires CopyLayout(fromPath, toPath, b, p) && ValidSnapshot(s0) && ValidSnapshot(s)
    requires BucketExistsIn(s0, b) && SameSource(s0, s, b, p)
    requires BucketExistsIn(s, Match(toPath).value.bucket)
    requires k in Keys(EntriesOf(s0, b)) && StartsWith(k, p) && !EndsWithSlash(k) && |Basename(k)| != 1
    ensures var tm, t := Match(toPath).value, FileTask(fromPath, toPath, b, k);
      var c := CopyFileStep(s, t.fromPath, t.toPath);
      && c.status.Done?
      && Content(Lookup(EntriesOf(c.state, tm.bucket), TargetKey(tm, p, k))) == Content(Lookup(EntriesOf(s0, b), k))
      && (forall n, q :: (n != tm.bucket || q != TargetKey(tm, p, k)) ==>
            Lookup(EntriesOf(c.state, n), q) == Lookup(EntriesOf(s, n), q))
      && SameSource(s0, c.state, b, p) && BucketExistsIn(c.state, tm.bucket)
  {
    var tm := Match(toPath).value;
    assert ValidEntries(EntriesOf(s0, b));
    assert WellFormedKey(k);
    FileTaskCopies(s, fromPath, toPath, b, p, k);
    FileTaskPaths(fromPath, toPath, b, p, k);
    var tk := TargetKey(tm, p, k);
    var x := TargetDir(tm) + DirPart(k)[|p|..];
    FileKeyShape(x, Basename(k));
    LookupBelow(EntriesOf(s0, b), p, k);
    LookupBelow(EntriesOf(s, b), p, k);
    assert k in Keys(Below(EntriesOf(s, b), p));
    CopyObjectCopies(s, tm.bucket, tk, b, k);
    if tm.bucket == b {
      OutsideSource(p, TargetDir(tm), k[|p|..]);
    }
    CopyKeeps(s, tm.bucket, tk, b, k, b, p);
  }

  /** A directory prefix followed by a name is a key the store accepts. */
  lemma FileKeyShape(x: string, f: string)
    requires DirPrefix(x) && f != [] && '/' !in f
    ensures WellFormedKey(x + f)
  {
    assert f[0] in f;
    NoSlashNoDoubleSlash(f);
    if x == [] {
      assert x + f == f;
    } else {
      NoDoubleSlashConcat(x, f);
      assert (x + f)[0] == x[0];
    }
  }

  /** Going from `s1` to `s2` changed no key of bucket `tb` but those in
      `written`, and no other bucket. */
  ghost predicate Untouched(s1: Snapshot, s2: Snapshot, tb: string, written: set<string>) {
    forall n, q {:trigger Lookup(EntriesOf(s2, n), q)} ::
      (n != tb || q !in written) ==> Lookup(EntriesOf(s2, n), q) == Lookup(EntriesOf(s1, n), q)
  }

  lemma Untouched2(s1: Snapshot, s2: Snapshot, s3: Snapshot, tb: string, k: string, written: set<string>)
    requires forall n, q :: (n != tb || q != k) ==> Lookup(EntriesOf(s2, n), q) == Lookup(EntriesOf(s1, n), q)
    requires Untouched(s2, s3, tb, written)
    ensures Untouched(s1, s3, tb, {k} + written)
  {
    forall n, q | n != tb || q !in {k} + written
      ensures Lookup(EntriesOf(s3, n), q) == Lookup(EntriesOf(s1, n), q)
    {
      assert Lookup(EntriesOf(s3, n), q) == Lookup(EntriesOf(s2, n), q);
    }
  }

  /** The rest of a list of distinct files of the source is one too, and no
      base name in it has one character when none in the list has. */
  lemma FilesTail(s: Snapshot, b: string, p: string, ks: seq<string>)
    requires ks != [] && Distinct(ks) && FilesIn(s, b, p, ks)
    ensures Distinct(ks[1..]) && FilesIn(s, b, p, ks[1..])
    ensures (forall x :: x in ks ==> |Basename(x)| != 1) <==>
      |Basename(ks[0])| != 1 && (forall x :: x in ks[1..] ==> |Basename(x)| != 1)
  {
    forall x | x in ks[1..] ensures x in ks { }
    forall x | x in ks ensures x == ks[0] || x in ks[1..] { }
  }

  /** The target keys of a list of distinct files of the source: the first
      file's, apart from the rest's. */
  lemma TargetKeysCons(tm: PathRef, p: string, ks: seq<string>)
    requires |tm.path| > 0 && ks != [] && Distinct(ks) && forall x :: x in ks ==> StartsWith(x, p)
    ensures |p| <= |ks[0]|
    ensures TargetKey(tm, p, ks[0]) !in TargetKeys(tm, p, ks[1..])
    ensures TargetKeys(tm, p, ks) == {TargetKey(tm, p, ks[0])} + TargetKeys(tm, p, ks[1..])
  {
    var k, rest := ks[0], ks[1..];
    assert k in ks;
    var tk := TargetKey(tm, p, k);
    forall y | y in rest && |p| <= |y| ensures TargetKey(tm, p, y) != tk {
      var j :| 0 <= j < |rest| && rest[j] == y;
      assert ks[j + 1] == y && y in ks;
      TargetKeyDistinct(tm, p, k, y);
    }
    forall x ensures x in TargetKeys(tm, p, ks) <==> x in {tk} + TargetKeys(tm, p, rest) {
      if x in TargetKeys(tm, p, ks) {
        var y :| y in ks && |p| <= |y| && TargetKey(tm, p, y) == x;
        if y != k { assert y in rest; }
      }
      if x in TargetKeys(tm, p, rest) {
        var y :| y in rest && |p| <= |y| && TargetKey(tm, p, y) == x;
        assert y in ks;
      }
    }
  }

  /** The copy loop over the files `ks` of the source, in order: it
      succeeds exactly when no base name has one character, fails only with
      `InvalidOperand`; when it succeeds every file's key under the target
      holds the file's bytes and metadata; keys it does not copy to are left
      alone, and so is the source. */
  lemma {:induction false} CopyAllCopies(s0: Snapshot, s: Snapshot, fromPath: string, toPath: string,
                                         b: string, p: string, ks: seq<string>)
    requires CopyLayout(fromPath, toPath, b, p) && ValidSnapshot(s0) && ValidSnapshot(s)
    requires BucketExistsIn(s0, b) && SameSource(s0, s, b, p)
    requires BucketExistsIn(s, Match(toPath).value.bucket)
    requires Distinct(ks) && FilesIn(s0, b, p, ks)
    ensures var tm, r := Match(toPath).value, CopyAll(s, FileTasks(fromPath, toPath, b, ks));
      && (r.status.Done? <==> forall k :: k in ks ==> |Basename(k)| != 1)
      && (r.status.Failed? ==> r.status.error == InvalidOperand)
      && (r.status.Done? ==> forall k :: k in ks ==>
            Content(Lookup(EntriesOf(r.state, tm.bucket), TargetKey(tm, p, k))) == Content(Lookup(EntriesOf(s0, b), k)))
      && Untouched(s, r.state, tm.bucket, TargetKeys(tm, p, ks))
      && SameSource(s0, r.state, b, p) && BucketExistsIn(r.state, tm.bucket)
    decreases |ks|
  {
    var tm := Match(toPath).value;
    var tasks := FileTasks(fromPath, toPath, b, ks);
    if ks != [] {
      var k, rest := ks[0], ks[1..];
      assert k in ks;
      assert tasks[0] == FileTask(fromPath, toPath, b, k) && tasks[1..] == FileTasks(fromPath, toPath, b, rest);
      assert ValidEntries(EntriesOf(s0, b));
      FileTaskCopies(s, fromPath, toPath, b, p, k);
      if |Basename(k)| != 1 {
        CopyOneFile(s0, s, fromPath, toPath, b, p, k);
        var c := CopyFileStep(s, tasks[0].fromPath, tasks[0].toPath);
        FilesTail(s0, b, p, ks);
        CopyAllCopies(s0, c.state, fromPath, toPath, b, p, rest);
        var r := CopyAll(c.state, FileTasks(fromPath, toPath, b, rest));
        assert r == CopyAll(s, tasks);
        var tk := TargetKey(tm, p, k);
        TargetKeysCons(tm, p, ks);
        Untouched2(s, c.state, r.state, tm.bucket, tk, TargetKeys(tm, p, rest));
      } else {
        assert CopyAll(s, tasks) == Step(Failed(InvalidOperand), s);
      }
    }
  }

  /** The directory `x` of bucket `tb` is there: the bucket exists and, for
      a directory inside it, its marker key is present. */
  ghost predicate Marked(st: Snapshot, tb: string, x: string) {
    BucketExistsIn(st, tb) && (x == [] || x in Keys(EntriesOf(st, tb)))
  }

  /** The `mkdirs` of the leaves `ds` all succeed and make each leaf's
      target directory; a directory that was there stays. */
  lemma {:induction false} MkdirsAllMarks(s: Snapshot, fromPath: string, toPath: string, b: string, p: string,
                                          ds: seq<string>)
    requires CopyLayout(fromPath, toPath, b, p) && ValidSnapshot(s)
    requires forall d :: d in ds ==> DirPrefix(d) && StartsWith(d, p)
    ensures var tm, m := Match(toPath).value, MkdirsAll(s, LeafTargets(fromPath, toPath, b, ds));
      && m.status.Done?
      && (forall d :: d in ds ==> |p| <= |d| && Marked(m.state, tm.bucket, TargetDir(tm) + d[|p|..]))
      && (forall x :: Marked(s, tm.bucket, x) ==> Marked(m.state, tm.bucket, x))
    decreases |ds|
  {
    var tm := Match(toPath).value;
    if ds != [] {
      var d := ds[0];
      assert d in ds;
      var t := LeafTarget(fromPath, toPath, b, d);
      LeafTargetShape(fromPath, toPath, b, p, d);
      MkdirsMarks(s, t);
      var s1 := MkdirsStep(s, t).state;
      assert LeafTargets(fromPath, toPath, b, ds)[1..] == LeafTargets(fromPath, toPath, b, ds[1..]);
      forall e | e in ds[1..] ensures DirPrefix(e) && StartsWith(e, p) {
        assert e in ds;
      }
      MkdirsAllMarks(s1, fromPath, toPath, b, p, ds[1..]);
      forall e | e in ds ensures e == d || e in ds[1..] { }
    }
  }

  /** `mkdirs` of a directory other than the root marks it, and keeps every
      directory of every bucket that was there. */
  lemma MkdirsMarks(s: Snapshot, path: string)
    requires ValidSnapshot(s) && ValidateDirectory(path).Ok? && !ValidateDirectory(path).value.IsRoot()
    ensures var m, r := ValidateDirectory(path).value, MkdirsStep(s, path);
      && r.status.Done? && Marked(r.state, m.bucket, m.prefix)
      && forall n, x :: Marked(s, n, x) ==> Marked(r.state, n, x)
  {
    var m := ValidateDirectory(path).value;
    MkdirsMakes(s, path);
    MatchFields(path);
    var r := MkdirsStep(s, path);
    forall n, x | Marked(s, n, x) ensures Marked(r.state, n, x) {
      if x != [] && (n != m.bucket || x != m.prefix) {
        assert Lookup(EntriesOf(r.state, n), x) == Lookup(EntriesOf(s, n), x);
      }
      if n != m.bucket {
        assert FindBucket(r.state.buckets, n) == FindBucket(s.buckets, n);
      }
    }
  }

  /** A marked directory is a directory to `isdir`. */
  lemma MarkedIsDirectory(st: Snapshot, tb: string, x: string)
    requires ValidSnapshot(st) && BucketName(tb) && DirPrefix(x) && Marked(st, tb, x)
    ensures IsDirectory(st, Compose(tb, x, "")) == Ok(true)
  {
    DirRefOf(tb, x);
    IsDirectoryMeaning(st, Compose(tb, x, ""));
    if x != [] {
      assert x[..|x|] == x;
      assert StartsWith(x, x);
    }
  }

  /** A directory of the keys is a directory prefix. */
  lemma KeyDirPrefix(es: seq<Entry>, q: string)
    requires ValidEntries(es) && KeyDir(Keys(es), q)
    ensures DirPrefix(q)
  {
    var k :| k in Keys(es) && StartsWith(k, q);
    assert WellFormedKey(k);
    assert q == k[..|q|];
    NoDoubleSlashSlice(k, 0, |q|);
    assert q[0] == k[0];
  }

  /** A key a file is copied to is not a directory marker. */
  lemma TargetKeyIsFile(tm: PathRef, p: string, k: string)
    requires |tm.path| > 0 && DirPrefix(p) && WellFormedKey(k) && !EndsWithSlash(k) && StartsWith(k, p)
    ensures TargetKey(tm, p, k) != [] && !EndsWithSlash(TargetKey(tm, p, k))
  {
    RestOfKey(k, p);
    var r := k[|p|..];
    assert (TargetDir(tm) + r)[|TargetDir(tm) + r| - 1] == r[|r| - 1];
  }

  /** The walk of a worklist that is not empty meets a leaf: the last
      directory it lists has no sub-directory. */
  lemma {:induction false} WalkHasLeaf(s: Snapshot, b: string, pending: seq<string>)
    requires ValidSnapshot(s) && Ready(pending) && BucketExistsIn(s, b) && pending != []
    ensures Walk(s, b, pending, [], []).Ok? && Walk(s, b, pending, [], []).value.1 != []
    decreases Reach(Keys(EntriesOf(s, b)), pending), |pending|
  {
    WalkUnfold(s, b, pending);
    var l := ObjectsAt(s, DirRef(b, pending[0])).value;
    var dirs := DirItems(l);
    var next := pending[1..] + dirs;
    if dirs != [] {
      ChildrenFacts(s, b, pending[0], l);
      var K := Keys(EntriesOf(s, b));
      StepShrinks(K, K, pending, dirs);
      WalkHasLeaf(s, b, next);
    }
  }

  /** `copy_recursively` refuses a source that is not a directory; from the
      root its first listing fails with `InvalidBucketName`, because the
      root's bucket name is empty, and from a missing bucket with
      `NoSuchBucket`; in each case nothing changes. */
  lemma CopyRecursivelyRefuses(s: Snapshot, fromPath: string, toPath: string)
    requires ValidSnapshot(s) && CopyFits(fromPath, toPath)
    ensures ValidateDirectory(fromPath).Err? ==>
      CopyRecursivelyStep(s, fromPath, toPath) == Step(Failed(ValidateDirectory(fromPath).error), s)
    ensures RootDirectory(fromPath) ==>
      CopyRecursivelyStep(s, fromPath, toPath) == Step(Failed(InvalidBucketName), s)
    ensures ValidateDirectory(fromPath).Ok? && !ValidateDirectory(fromPath).value.IsRoot()
            && !BucketExistsIn(s, ValidateDirectory(fromPath).value.bucket) ==>
      CopyRecursivelyStep(s, fromPath, toPath) == Step(Failed(NoSuchBucket), s)
  {
    if RootDirectory(fromPath) {
      MatchRootParts(fromPath);
    } else if ValidateDirectory(fromPath).Ok? {
      MatchFields(fromPath);
    }
  }

  /** The order of `copy_recursively`: first the `mkdirs` of every leaf, in
      the order the breadth-first walk of the source meets them, then one
      `cp` per file, in the order the walk meets the files. */
  lemma CopyRecursivelyOrder(s: Snapshot, fromPath: string, toPath: string)
    requires ValidSnapshot(s) && CopyFits(fromPath, toPath)
    requires ValidateDirectory(fromPath).Ok? && !ValidateDirectory(fromPath).value.IsRoot()
    requires BucketExistsIn(s, ValidateDirectory(fromPath).value.bucket)
    ensures var fm := ValidateDirectory(fromPath).value;
      Walk(s, fm.bucket, [fm.prefix], [], []).Ok?
    ensures var fm := ValidateDirectory(fromPath).value;
      var b, p := fm.bucket, fm.prefix;
      var w := Walk(s, b, [p], [], []).value;
      var m := MkdirsAll(s, LeafTargets(fromPath, toPath, b, w.1));
      && m.status.Done? && SameSource(s, m.state, b, p)
      && CopyRecursivelyStep(s, fromPath, toPath) == CopyAll(m.state, FileTasks(fromPath, toPath, b, w.0))
  {
    var fm := ValidateDirectory(fromPath).value;
    var b, p := fm.bucket, fm.prefix;
    CopyRecursivelyUnfold(s, fromPath, toPath);
    CopyWalkIsWalk(s, s, fromPath, toPath, b, p, [p], []);
    var w := Walk(s, b, [p], [], []).value;
    assert [] + FileTasks(fromPath, toPath, b, w.0) == FileTasks(fromPath, toPath, b, w.0);
  }

  /** From an existing directory other than the root, `copy_recursively` is
      the walk from its prefix followed, when the walk succeeds, by the copy
      loop over the tasks the walk recorded. */
  lemma CopyRecursivelyUnfold(s: Snapshot, fromPath: string, toPath: string)
    requires ValidSnapshot(s) && CopyFits(fromPath, toPath)
    requires ValidateDirectory(fromPath).Ok? && !ValidateDirectory(fromPath).value.IsRoot()
    requires BucketExistsIn(s, ValidateDirectory(fromPath).value.bucket)
    ensures var fm := ValidateDirectory(fromPath).value;
      var b, p := fm.bucket, fm.prefix;
      && CopyLayout(fromPath, toPath, b, p) && BucketExistsIn(s, b) && Ready([p]) && Within([p], p)
      && var w := CopyWalk(s, fromPath, toPath, b, p, [p], []);
         CopyRecursivelyStep(s, fromPath, toPath) ==
           if w.status.Failed? then Step(w.status, w.state) else CopyAll(w.state, w.tasks)
  {
    var fm := ValidateDirectory(fromPath).value;
    var p := fm.prefix;
    assert p[..|p|] == p;
    WalkStart(p);
  }

  /** A file of the source directory `p`. */
  ghost predicate SourceFile(es: seq<Entry>, p: string, k: string) {
    k in Keys(es) && !EndsWithSlash(k) && StartsWith(k, p)
  }

  /** A leaf of the source directory `p`: `p` itself or a directory of the
      keys inside it, with no sub-directory. */
  ghost predicate SourceLeaf(es: seq<Entry>, p: string, q: string) {
    (q == p || (KeyDir(Keys(es), q) && Under(q, p))) && SubDirs(es, q) == {}
  }

  /** A marked directory stays marked through copies to file keys. */
  lemma LeafStaysMarked(s1: Snapshot, s2: Snapshot, tm: PathRef, p: string, ks: seq<string>, x: string)
    requires |tm.path| > 0 && DirPrefix(p) && DirPrefix(x)
    requires forall k :: k in ks ==> WellFormedKey(k) && !EndsWithSlash(k) && StartsWith(k, p)
    requires Untouched(s1, s2, tm.bucket, TargetKeys(tm, p, ks))
    requires Marked(s1, tm.bucket, x) && BucketExistsIn(s2, tm.bucket)
    ensures Marked(s2, tm.bucket, x)
  {
    if x != [] {
      forall k | k in ks && |p| <= |k| ensures TargetKey(tm, p, k) != x {
        TargetKeyIsFile(tm, p, k);
      }
      assert x !in TargetKeys(tm, p, ks);
      assert Lookup(EntriesOf(s2, tm.bucket), x) == Lookup(EntriesOf(s1, tm.bucket), x);
    }
  }

  /** The breadth-first walk from `p` finds exactly the files and the leaves
      of `p`, each file once, and at least one leaf. */
  lemma WalkShape(s: Snapshot, b: string, p: string)
    requires ValidSnapshot(s) && BucketExistsIn(s, b) && DirPrefix(p)
    ensures Walk(s, b, [p], [], []).Ok?
    ensures var es, w := EntriesOf(s, b), Walk(s, b, [p], [], []).value;
      && Distinct(w.0) && FilesIn(s, b, p, w.0)
      && (forall k :: k in w.0 <==> SourceFile(es, p, k))
      && (forall q :: q in w.1 <==> SourceLeaf(es, p, q))
      && (forall q :: q in w.1 ==> DirPrefix(q) && StartsWith(q, p))
      && w.1 != []
  {
    var es := EntriesOf(s, b);
    assert ValidEntries(es);
    WalkFrom(s, b, p);
    var w := Walk(s, b, [p], [], []).value;
    forall q | q in w.1 ensures DirPrefix(q) && StartsWith(q, p) {
      if q != p { KeyDirPrefix(es, q); } else { assert q[..|q|] == q; }
    }
    WalkHasLeaf(s, b, [p]);
  }

  /** The first stage makes every leaf's target directory, and so the target
      bucket. */
  lemma LeafStage(s: Snapshot, fromPath: string, toPath: string, b: string, p: string)
    requires CopyLayout(fromPath, toPath, b, p) && ValidSnapshot(s) && BucketExistsIn(s, b)
    ensures Walk(s, b, [p], [], []).Ok?
    ensures var tm, w := Match(toPath).value, Walk(s, b, [p], [], []).value;
      var m := MkdirsAll(s, LeafTargets(fromPath, toPath, b, w.1));
      && m.status.Done? && BucketExistsIn(m.state, tm.bucket)
      && forall q :: q in w.1 ==> |p| <= |q| && Marked(m.state, tm.bucket, TargetDir(tm) + q[|p|..])
  {
    WalkShape(s, b, p);
    var w := Walk(s, b, [p], [], []).value;
    MkdirsAllMarks(s, fromPath, toPath, b, p, w.1);
    assert w.1[0] in w.1;
  }

  /** What `copy_recursively` from an existing directory `p` of a bucket
      does: it succeeds exactly when no file inside `p` has a one-character
      base name, and otherwise fails with `InvalidOperand`; on success every
      file's key under the target holds the file's bytes and metadata; the
      source is left as it was; and, whatever the outcome, no other bucket
      changes and no key of the target bucket changes but the copies of the
      source's files and the markers of its leaves. */
  lemma CopyRecursivelyCopies(s: Snapshot, fromPath: string, toPath: string)
    requires ValidSnapshot(s) && CopyFits(fromPath, toPath)
    requires ValidateDirectory(fromPath).Ok? && !ValidateDirectory(fromPath).value.IsRoot()
    requires BucketExistsIn(s, ValidateDirectory(fromPath).value.bucket)
    ensures var fm, tm := ValidateDirectory(fromPath).value, Match(toPath).value;
      var p, es := fm.prefix, EntriesOf(s, fm.bucket);
      var r := CopyRecursivelyStep(s, fromPath, toPath);
      && |tm.path| > 0
      && (r.status.Done? <==> forall k :: SourceFile(es, p, k) ==> |Basename(k)| != 1)
      && (r.status.Failed? ==> r.status.error == InvalidOperand)
      && (r.status.Done? ==> forall k :: SourceFile(es, p, k) ==>
            Content(Lookup(EntriesOf(r.state, tm.bucket), TargetKey(tm, p, k))) == Content(Lookup(es, k)))
      && SameSource(s, r.state, fm.bucket, p)
      && OtherBucketsKept(s, r.state, tm.bucket)
      && (forall q :: !CopiedTo(es, p, tm, q) ==>
            Lookup(EntriesOf(r.state, tm.bucket), q) == Lookup(EntriesOf(s, tm.bucket), q))
  {
    var fm := ValidateDirectory(fromPath).value;
    CopyRecursivelyOrder(s, fromPath, toPath);
    CopyTree(s, fromPath, toPath, fm.bucket, fm.prefix);
    CopyTreeFrame(s, fromPath, toPath, fm.bucket, fm.prefix);
  }

  /** The two stages together, for the source directory `p` of bucket `b`. */
  lemma CopyTree(s: Snapshot, fromPath: string, toPath: string, b: string, p: string)
    requires CopyLayout(fromPath, toPath, b, p) && ValidSnapshot(s) && BucketExistsIn(s, b)
    ensures Walk(s, b, [p], [], []).Ok?
    ensures var tm, es, w := Match(toPath).value, EntriesOf(s, b), Walk(s, b, [p], [], []).value;
      var m := MkdirsAll(s, LeafTargets(fromPath, toPath, b, w.1));
      var r := CopyAll(m.state, FileTasks(fromPath, toPath, b, w.0));
      && (r.status.Done? <==> forall k :: SourceFile(es, p, k) ==> |Basename(k)| != 1)
      && (r.status.Failed? ==> r.status.error == InvalidOperand)
      && (r.status.Done? ==> forall k :: SourceFile(es, p, k) ==>
            Content(Lookup(EntriesOf(r.state, tm.bucket), TargetKey(tm, p, k))) == Content(Lookup(es, k)))
      && SameSource(s, r.state, b, p)
  {
    WalkShape(s, b, p);
    LeafStage(s, fromPath, toPath, b, p);
    var w := Walk(s, b, [p], [], []).value;
    var m := MkdirsAll(s, LeafTargets(fromPath, toPath, b, w.1));
    WalkStart(p);
    CopyWalkIsWalk(s, s, fromPath, toPath, b, p, [p], []);
    CopyAllCopies(s, m.state, fromPath, toPath, b, p, w.0);
  }

  /** The walk starts from the source directory alone. */
  lemma WalkStart(p: string)
    requires DirPrefix(p)
    ensures Ready([p]) && Within([p], p)
  {
    assert StartsWith(p, p);
  }

  /** Whether or not `copy_recursively` from an existing directory `p`
      succeeds, every leaf directory of the source is a directory at the
      target afterwards. */
  lemma CopyRecursivelyLeaves(s: Snapshot, fromPath: string, toPath: string)
    requires ValidSnapshot(s) && CopyFits(fromPath, toPath)
    requires ValidateDirectory(fromPath).Ok? && !ValidateDirectory(fromPath).value.IsRoot()
    requires BucketExistsIn(s, ValidateDirectory(fromPath).value.bucket)
    ensures var fm, tm := ValidateDirectory(fromPath).value, Match(toPath).value;
      var p, es := fm.prefix, EntriesOf(s, fm.bucket);
      var r := CopyRecursivelyStep(s, fromPath, toPath);
      && |tm.path| > 0
      && forall q :: SourceLeaf(es, p, q) ==>
           |p| <= |q| && IsDirectory(r.state, Compose(tm.bucket, TargetDir(tm) + q[|p|..], "")) == Ok(true)
  {
    var fm := ValidateDirectory(fromPath).value;
    CopyRecursivelyOrder(s, fromPath, toPath);
    LeafTree(s, fromPath, toPath, fm.bucket, fm.prefix);
  }

  /** The leaves at the target after both stages, for the source directory
      `p` of bucket `b`. */
  lemma LeafTree(s: Snapshot, fromPath: string, toPath: string, b: string, p: string)
    requires CopyLayout(fromPath, toPath, b, p) && ValidSnapshot(s) && BucketExistsIn(s, b)
    ensures Walk(s, b, [p], [], []).Ok?
    ensures var tm, es, w := Match(toPath).value, EntriesOf(s, b), Walk(s, b, [p], [], []).value;
      var m := MkdirsAll(s, LeafTargets(fromPath, toPath, b, w.1));
      var r := CopyAll(m.state, FileTasks(fromPath, toPath, b, w.0));
      forall q :: SourceLeaf(es, p, q) ==>
        |p| <= |q| && IsDirectory(r.state, Compose(tm.bucket, TargetDir(tm) + q[|p|..], "")) == Ok(true)
  {
    var tm, es := Match(toPath).value, EntriesOf(s, b);
    WalkShape(s, b, p);
    LeafStage(s, fromPath, toPath, b, p);
    var w := Walk(s, b, [p], [], []).value;
    var m := MkdirsAll(s, LeafTargets(fromPath, toPath, b, w.1));
    FileStage(s, fromPath, toPath, b, p);
    var r := CopyAll(m.state, FileTasks(fromPath, toPath, b, w.0));
    LeafTreeAt(s, m.state, r.state, fromPath, toPath, b, p, w.0, w.1);
  }

  /** `LeafTree` once the walk and both stages have run. */
  lemma LeafTreeAt(s: Snapshot, s1: Snapshot, s2: Snapshot, fromPath: string, toPath: string,
                   b: string, p: string, ks: seq<string>, leaves: seq<string>)
    requires CopyLayout(fromPath, toPath, b, p) && ValidSnapshot(s) && ValidSnapshot(s2)
    requires FilesIn(s, b, p, ks)
    requires forall q :: q in leaves <==> SourceLeaf(EntriesOf(s, b), p, q)
    requires forall q :: q in leaves ==> DirPrefix(q) && StartsWith(q, p)
    requires var tm := Match(toPath).value;
      && Untouched(s1, s2, tm.bucket, TargetKeys(tm, p, ks)) && BucketExistsIn(s2, tm.bucket)
      && forall q :: q in leaves ==> |p| <= |q| && Marked(s1, tm.bucket, TargetDir(tm) + q[|p|..])
    ensures var tm := Match(toPath).value;
      forall q :: SourceLeaf(EntriesOf(s, b), p, q) ==>
        |p| <= |q| && IsDirectory(s2, Compose(tm.bucket, TargetDir(tm) + q[|p|..], "")) == Ok(true)
  {
    assert forall k :: k in ks ==> WellFormedKey(k) by {
      assert ValidEntries(EntriesOf(s, b));
    }
    LeavesAtTarget(s1, s2, fromPath, toPath, b, p, ks, leaves);
  }

  /** The file copies after the first stage touch only the copies' own keys
      in the target bucket. */
  lemma FileStage(s: Snapshot, fromPath: string, toPath: string, b: string, p: string)
    requires CopyLayout(fromPath, toPath, b, p) && ValidSnapshot(s) && BucketExistsIn(s, b)
    ensures Walk(s, b, [p], [], []).Ok?
    ensures var tm, w := Match(toPath).value, Walk(s, b, [p], [], []).value;
      var m := MkdirsAll(s, LeafTargets(fromPath, toPath, b, w.1));
      var r := CopyAll(m.state, FileTasks(fromPath, toPath, b, w.0));
      && ValidSnapshot(r.state) && BucketExistsIn(r.state, tm.bucket)
      && Untouched(m.state, r.state, tm.bucket, TargetKeys(tm, p, w.0))
  {
    WalkShape(s, b, p);
    LeafStage(s, fromPath, toPath, b, p);
    var w := Walk(s, b, [p], [], []).value;
    var m := MkdirsAll(s, LeafTargets(fromPath, toPath, b, w.1));
    WalkStart(p);
    CopyWalkIsWalk(s, s, fromPath, toPath, b, p, [p], []);
    CopyAllCopies(s, m.state, fromPath, toPath, b, p, w.0);
  }

  /** Every leaf marked by the first stage is a directory after the second. */
  lemma LeavesAtTarget(s1: Snapshot, s2: Snapshot, fromPath: string, toPath: string, b: string, p: string,
                       ks: seq<string>, leaves: seq<string>)
    requires CopyLayout(fromPath, toPath, b, p) && ValidSnapshot(s2)
    requires forall q :: q in leaves ==> DirPrefix(q) && StartsWith(q, p)
    requires forall k :: k in ks ==> WellFormedKey(k) && !EndsWithSlash(k) && StartsWith(k, p)
    requires var tm := Match(toPath).value;
      && Untouched(s1, s2, tm.bucket, TargetKeys(tm, p, ks)) && BucketExistsIn(s2, tm.bucket)
      && forall q :: q in leaves ==> |p| <= |q| && Marked(s1, tm.bucket, TargetDir(tm) + q[|p|..])
    ensures var tm := Match(toPath).value;
      forall q :: q in leaves ==>
        |p| <= |q| && IsDirectory(s2, Compose(tm.bucket, TargetDir(tm) + q[|p|..], "")) == Ok(true)
  {
    forall q | q in leaves
      ensures |p| <= |q| && IsDirectory(s2, Compose(Match(toPath).value.bucket,
                                                    TargetDir(Match(toPath).value) + q[|p|..], "")) == Ok(true)
    {
      LeafAtTarget(s1, s2, fromPath, toPath, b, p, ks, q);
    }
  }

  /** The target directory of a leaf, marked by the first stage, survives
      the second. */
  lemma LeafAtTarget(s1: Snapshot, s2: Snapshot, fromPath: string, toPath: string, b: string, p: string,
                     ks: seq<string>, q: string)
    requires CopyLayout(fromPath, toPath, b, p) && ValidSnapshot(s2)
    requires DirPrefix(q) && StartsWith(q, p)
    requires forall k :: k in ks ==> WellFormedKey(k) && !EndsWithSlash(k) && StartsWith(k, p)
    requires var tm := Match(toPath).value;
      && Untouched(s1, s2, tm.bucket, TargetKeys(tm, p, ks))
      && Marked(s1, tm.bucket, TargetDir(tm) + q[|p|..]) && BucketExistsIn(s2, tm.bucket)
    ensures var tm := Match(toPath).value;
      IsDirectory(s2, Compose(tm.bucket, TargetDir(tm) + q[|p|..], "")) == Ok(true)
  {
    var tm := Match(toPath).value;
    var x := TargetDir(tm) + q[|p|..];
    LeafTargetShape(fromPath, toPath, b, p, q);
    JoinTarget(toPath, "");
    LeafStaysMarked(s1, s2, tm, p, ks, x);
    MarkedIsDirectory(s2, tm.bucket, x);
  }

  // ---------------------------------------------------------------------------
  // What a recursive copy leaves alone

  /** Going from `s1` to `s2` changed no bucket other than `tb`: each is
      there in both or in neither, with the same creation time and entries. */
  ghost predicate OtherBucketsKept(s1: Snapshot, s2: Snapshot, tb: string) {
    forall n :: n != tb ==> FindBucket(s2.buckets, n) == FindBucket(s1.buckets, n)
  }

  /** The marker keys the leaves `ds` of the source are made at. */
  function LeafMarks(tm: PathRef, p: string, ds: seq<string>): set<string>
    requires |tm.path| > 0
  {
    set d | d in ds && |p| <= |d| :: TargetDir(tm) + d[|p|..]
  }

  /** A key of the target bucket a recursive copy from `p` may write: the
      copy of a file of the source, or the marker of a leaf of the source. */
  ghost predicate CopiedTo(es: seq<Entry>, p: string, tm: PathRef, q: string)
    requires |tm.path| > 0
  {
    || (exists k :: SourceFile(es, p, k) && |p| <= |k| && q == TargetKey(tm, p, k))
    || (exists d :: SourceLeaf(es, p, d) && |p| <= |d| && q == TargetDir(tm) + d[|p|..])
  }

  lemma UntouchedWithin(s1: Snapshot, s2: Snapshot, tb: string, a: set<string>, b: set<string>)
    requires Untouched(s1, s2, tb, a) && a <= b
    ensures Untouched(s1, s2, tb, b)
  {
  }

  lemma UntouchedThen(s1: Snapshot, s2: Snapshot, s3: Snapshot, tb: string, a: set<string>, b: set<string>)
    requires Untouched(s1, s2, tb, a) && Untouched(s2, s3, tb, b)
    ensures Untouched(s1, s3, tb, a + b)
  {
    forall n, q | n != tb || q !in a + b
      ensures Lookup(EntriesOf(s3, n), q) == Lookup(EntriesOf(s1, n), q)
    {
      assert Lookup(EntriesOf(s3, n), q) == Lookup(EntriesOf(s2, n), q);
    }
  }

  /** The `mkdirs` of the leaves `ds` write only their markers in the target
      bucket, and change no other bucket. */
  lemma {:induction false} MkdirsAllFrame(s: Snapshot, fromPath: string, toPath: string, b: string, p: string,
                                          ds: seq<string>)
    requires CopyLayout(fromPath, toPath, b, p) && ValidSnapshot(s)
    requires forall d :: d in ds ==> DirPrefix(d) && StartsWith(d, p)
    ensures var tm, m := Match(toPath).value, MkdirsAll(s, LeafTargets(fromPath, toPath, b, ds));
      && OtherBucketsKept(s, m.state, tm.bucket)
      && Untouched(s, m.state, tm.bucket, LeafMarks(tm, p, ds))
    decreases |ds|
  {
    var tm := Match(toPath).value;
    if ds != [] {
      var d := ds[0];
      assert d in ds;
      var t := LeafTarget(fromPath, toPath, b, d);
      MkdirsLeafFrame(s, fromPath, toPath, b, p, d);
      var s1 := MkdirsStep(s, t).state;
      assert LeafTargets(fromPath, toPath, b, ds)[1..] == LeafTargets(fromPath, toPath, b, ds[1..]);
      forall e | e in ds[1..] ensures DirPrefix(e) && StartsWith(e, p) {
        assert e in ds;
      }
      MkdirsAllFrame(s1, fromPath, toPath, b, p, ds[1..]);
      var m := MkdirsAll(s1, LeafTargets(fromPath, toPath, b, ds[1..]));
      var x := TargetDir(tm) + d[|p|..];
      Untouched2(s, s1, m.state, tm.bucket, x, LeafMarks(tm, p, ds[1..]));
      LeafMarksCons(tm, p, ds);
    }
  }

  /** The `mkdirs` of one leaf `d` succeeds, writes only its marker in the
      target bucket, and changes no other bucket. */
  lemma MkdirsLeafFrame(s: Snapshot, fromPath: string, toPath: string, b: string, p: string, d: string)
    requires CopyLayout(fromPath, toPath, b, p) && ValidSnapshot(s) && DirPrefix(d) && StartsWith(d, p)
    ensures var tm, r := Match(toPath).value, MkdirsStep(s, LeafTarget(fromPath, toPath, b, d));
      var x := TargetDir(tm) + d[|p|..];
      && r.status.Done?
      && OtherBucketsKept(s, r.state, tm.bucket)
      && forall n, q :: (n != tm.bucket || q != x) ==> Lookup(EntriesOf(r.state, n), q) == Lookup(EntriesOf(s, n), q)
  {
    var t := LeafTarget(fromPath, toPath, b, d);
    LeafTargetShape(fromPath, toPath, b, p, d);
    MkdirsMakes(s, t);
    MkdirsOtherBuckets(s, t);
  }

  /** One `mkdirs` changes no bucket other than its path's. */
  lemma MkdirsOtherBuckets(s: Snapshot, path: string)
    requires ValidateDirectory(path).Ok? && !ValidateDirectory(path).value.IsRoot()
    ensures var m := ValidateDirectory(path).value;
      forall n :: n != m.bucket ==> FindBucket(MkdirsStep(s, path).state.buckets, n) == FindBucket(s.buckets, n)
  {
    var m := ValidateDirectory(path).value;
    var made := if BucketExistsIn(s, m.bucket) then Step(Done, s) else MakeBucketStep(s, m.bucket);
    assert forall n :: n != m.bucket ==> FindBucket(made.state.buckets, n) == FindBucket(s.buckets, n);
  }

  /** The markers of the leaves `ds`: the first leaf's and the rest's. */
  lemma LeafMarksCons(tm: PathRef, p: string, ds: seq<string>)
    requires |tm.path| > 0 && ds != [] && |p| <= |ds[0]|
    ensures LeafMarks(tm, p, ds) == {TargetDir(tm) + ds[0][|p|..]} + LeafMarks(tm, p, ds[1..])
  {
    assert ds[0] in ds;
    forall e | e in ds ensures e == ds[0] || e in ds[1..] { }
    forall e | e in ds[1..] ensures e in ds { }
  }

  /** The copy loop over files of the source changes no bucket other than
      the target's. */
  lemma {:induction false} CopyAllKeepsBuckets(s0: Snapshot, s: Snapshot, fromPath: string, toPath: string,
                                               b: string, p: string, ks: seq<string>)
    requires CopyLayout(fromPath, toPath, b, p) && ValidSnapshot(s0) && ValidSnapshot(s)
    requires FilesIn(s0, b, p, ks)
    ensures OtherBucketsKept(s, CopyAll(s, FileTasks(fromPath, toPath, b, ks)).state, Match(toPath).value.bucket)
    decreases |ks|
  {
    var tasks := FileTasks(fromPath, toPath, b, ks);
    if ks != [] {
      var k := ks[0];
      assert k in ks;
      assert tasks[0] == FileTask(fromPath, toPath, b, k) && tasks[1..] == FileTasks(fromPath, toPath, b, ks[1..]);
      assert ValidEntries(EntriesOf(s0, b));
      FileTaskCopies(s, fromPath, toPath, b, p, k);
      var c := CopyFileStep(s, tasks[0].fromPath, tasks[0].toPath);
      if c.status.Done? {
        forall x | x in ks[1..] ensures x in ks { }
        CopyAllKeepsBuckets(s0, c.state, fromPath, toPath, b, p, ks[1..]);
      }
    }
  }

  /** Both stages of a recursive copy from `p` together write only the
      copies of the source's files and the markers of its leaves in the
      target bucket, and change no other bucket. */
  lemma CopyTreeFrame(s: Snapshot, fromPath: string, toPath: string, b: string, p: string)
    requires CopyLayout(fromPath, toPath, b, p) && ValidSnapshot(s) && BucketExistsIn(s, b)
    ensures Walk(s, b, [p], [], []).Ok?
    ensures var tm, es, w := Match(toPath).value, EntriesOf(s, b), Walk(s, b, [p], [], []).value;
      var m := MkdirsAll(s, LeafTargets(fromPath, toPath, b, w.1));
      var r := CopyAll(m.state, FileTasks(fromPath, toPath, b, w.0));
      && OtherBucketsKept(s, r.state, tm.bucket)
      && forall q :: !CopiedTo(es, p, tm, q) ==>
           Lookup(EntriesOf(r.state, tm.bucket), q) == Lookup(EntriesOf(s, tm.bucket), q)
  {
    var tm, es := Match(toPath).value, EntriesOf(s, b);
    WalkShape(s, b, p);
    var w := Walk(s, b, [p], [], []).value;
    var m := MkdirsAll(s, LeafTargets(fromPath, toPath, b, w.1));
    MkdirsAllFrame(s, fromPath, toPath, b, p, w.1);
    FileStage(s, fromPath, toPath, b, p);
    var r := CopyAll(m.state, FileTasks(fromPath, toPath, b, w.0));
    CopyAllKeepsBuckets(s, m.state, fromPath, toPath, b, p, w.0);
    UntouchedThen(s, m.state, r.state, tm.bucket, LeafMarks(tm, p, w.1), TargetKeys(tm, p, w.0));
    forall q | !CopiedTo(es, p, tm, q)
      ensures Lookup(EntriesOf(r.state, tm.bucket), q) == Lookup(EntriesOf(s, tm.bucket), q)
    {
      assert q !in LeafMarks(tm, p, w.1);
      assert q !in TargetKeys(tm, p, w.0);
    }
  }

  // ---------------------------------------------------------------------------
  // What cp and mv do

  /** `cp` fails, changing nothing, when the source does not resolve, when
      `_get_destination` fails (a directory copied onto a file among them),
      and for a directory source without `recursive`. */
  lemma CpRefuses(s: Snapshot, fromPath: string, toPath: string, recursive: bool)
    requires ValidSnapshot(s) && (recursive ==> CpFits(s, fromPath, toPath))
    ensures Match(fromPath).Err? ==>
      CpStep(s, fromPath, toPath, recursive) == Step(Failed(Match(fromPath).error), s)
    ensures Match(fromPath).Ok? && GetDestination(s, fromPath, toPath).Err? ==>
      CpStep(s, fromPath, toPath, recursive) == Step(Failed(GetDestination(s, fromPath, toPath).error), s)
    ensures Match(fromPath).Ok? && Match(fromPath).value.IsDir() && Match(toPath).Ok? && Match(toPath).value.IsFile() ==>
      CpStep(s, fromPath, toPath, recursive) == Step(Failed(InvalidOperand), s)
    ensures Match(fromPath).Ok? && Match(fromPath).value.IsDir() && !recursive ==>
      CpStep(s, fromPath, toPath, recursive).status.Failed? && CpStep(s, fromPath, toPath, recursive).state == s
  {
    if Match(fromPath).Ok? && Match(toPath).Ok? {
      GetDestinationCases(s, fromPath, toPath);
    }
  }

  /** A recursive `cp` of a directory is `copy_recursively` from the
      directory to where `_get_destination` puts it. */
  lemma CpRecursive(s: Snapshot, fromPath: string, toPath: string)
    requires ValidSnapshot(s) && CpFits(s, fromPath, toPath)
    requires Match(fromPath).Ok? && Match(fromPath).value.IsDir() && GetDestination(s, fromPath, toPath).Ok?
    ensures CopyFits(Match(fromPath).value.path, GetDestination(s, fromPath, toPath).value.path)
    ensures CpStep(s, fromPath, toPath, true)
         == CopyRecursivelyStep(s, Match(fromPath).value.path, GetDestination(s, fromPath, toPath).value.path)
  {
  }

  /** Where `_get_destination` sends a file: a file that resolves to itself. */
  lemma FileDestination(s: Snapshot, fromPath: string, toPath: string)
    requires Match(fromPath).Ok? && Match(fromPath).value.IsFile() && GetDestination(s, fromPath, toPath).Ok?
    ensures var tm := GetDestination(s, fromPath, toPath).value;
      Resolved(tm) && tm.IsFile() && !tm.IsRoot()
  {
    var fm, dm := Match(fromPath).value, Match(toPath).value;
    MatchResolved(fromPath);
    MatchResolved(toPath);
    InferDestinationCases(fm, dm);
    if dm.IsDir() {
      MatchResolved(Join(dm.path, fm.filename));
    }
    var tm := GetDestination(s, fromPath, toPath).value;
    ResolvedRoot(tm);
  }

  /** `cp` of a file: it succeeds exactly when the source exists and the
      destination's bucket does; the destination then holds the source's
      bytes and metadata and nothing else changes; a failure changes
      nothing. */
  lemma CpFileCopies(s: Snapshot, fromPath: string, toPath: string, recursive: bool)
    requires ValidSnapshot(s) && (recursive ==> CpFits(s, fromPath, toPath))
    requires Match(fromPath).Ok? && Match(fromPath).value.IsFile() && GetDestination(s, fromPath, toPath).Ok?
    ensures var fm, tm := Match(fromPath).value, GetDestination(s, fromPath, toPath).value;
      var r := CpStep(s, fromPath, toPath, recursive);
      && tm.IsFile()
      && (r.status.Done? <==> Exists(s, fromPath) && BucketExistsIn(s, tm.bucket))
      && (r.status.Failed? ==> r.state == s)
      && (r.status.Done? ==>
            Content(Lookup(EntriesOf(r.state, tm.bucket), tm.RelativePath()))
              == Content(Lookup(EntriesOf(s, fm.bucket), fm.RelativePath())))
      && (r.status.Done? ==> forall n, q :: (n != tm.bucket || q != tm.RelativePath()) ==>
            Lookup(EntriesOf(r.state, n), q) == Lookup(EntriesOf(s, n), q))
  {
    var fm, tm := Match(fromPath).value, GetDestination(s, fromPath, toPath).value;
    FileDestination(s, fromPath, toPath);
    if fm.IsRoot() { MatchRootParts(fromPath); }
    MatchFields(fromPath);
    MatchFields(tm.path);
    FileKeyWellFormed(tm);
    ExistsMeaning(s, fromPath);
    assert CpStep(s, fromPath, toPath, recursive)
        == CopyObjectStep(s, tm.bucket, tm.RelativePath(), fm.bucket, fm.RelativePath());
    CopyObjectCopies(s, tm.bucket, tm.RelativePath(), fm.bucket, fm.RelativePath());
  }

  /** `copy_object` to an acceptable key: it succeeds exactly when the
      source object and the target bucket exist; the target key then holds
      the source's bytes and metadata and nothing else changes. */
  lemma CopyObjectCopies(s: Snapshot, bucket: string, key: string, srcBucket: string, srcKey: string)
    requires ValidSnapshot(s) && WellFormedBucketName(bucket) && WellFormedKey(key)
    ensures var r := CopyObjectStep(s, bucket, key, srcBucket, srcKey);
      && (r.status.Done? <==>
            BucketExistsIn(s, srcBucket) && srcKey in Keys(EntriesOf(s, srcBucket)) && BucketExistsIn(s, bucket))
      && (r.status.Failed? ==> r.state == s)
      && (r.status.Done? ==>
            Content(Lookup(EntriesOf(r.state, bucket), key)) == Content(Lookup(EntriesOf(s, srcBucket), srcKey)))
      && (r.status.Done? ==> forall n, q :: (n != bucket || q != key) ==>
            Lookup(EntriesOf(r.state, n), q) == Lookup(EntriesOf(s, n), q))
  {
    var r := CopyObjectStep(s, bucket, key, srcBucket, srcKey);
    if r.status.Done? {
      forall n, q | n != bucket || q != key
        ensures Lookup(EntriesOf(r.state, n), q) == Lookup(EntriesOf(s, n), q)
      {
        if n != bucket {
          assert FindBucket(r.state.buckets, n) == FindBucket(s.buckets, n);
        }
      }
    }
  }

  /** `mv` does nothing, not even the copy, when `_get_destination` fails. */
  lemma MvRefuses(s: Snapshot, fromPath: string, toPath: string, recursive: bool)
    requires ValidSnapshot(s) && (recursive ==> CpFits(s, fromPath, toPath))
    ensures GetDestination(s, fromPath, toPath).Err? ==>
      MvStep(s, fromPath, toPath, recursive) == Step(Failed(GetDestination(s, fromPath, toPath).error), s)
  {
  }

  /** The guard of `mv`: after the copy, whether it failed or not, the
      source is removed only when both it and the destination exist; an error
      of that removal replaces the copy's outcome, and otherwise `mv` reports
      the copy's outcome. */
  lemma MvGuard(s: Snapshot, fromPath: string, toPath: string, recursive: bool)
    requires ValidSnapshot(s) && (recursive ==> CpFits(s, fromPath, toPath))
    requires GetDestination(s, fromPath, toPath).Ok?
    ensures var tm, c := GetDestination(s, fromPath, toPath).value, CpStep(s, fromPath, toPath, recursive);
      var r := MvStep(s, fromPath, toPath, recursive);
      && (!(Exists(c.state, fromPath) && Exists(c.state, tm.path)) ==> r == c)
      && (Exists(c.state, fromPath) && Exists(c.state, tm.path) ==>
            var d := RmStep(c.state, fromPath, recursive);
            && r.state == d.state
            && (d.status.Failed? ==> r.status == d.status)
            && (d.status.Done? ==> r.status == c.status))
  {
  }

  /** Removing key `k` of bucket `b` leaves every other key of every bucket. */
  lemma RemoveKeeps(s: Snapshot, b: string, k: string, n: string, q: string)
    requires n != b || q != k
    ensures Lookup(EntriesOf(RemoveObjectsState(s, b, {k}), n), q) == Lookup(EntriesOf(s, n), q)
  {
    var r := RemoveObjectsState(s, b, {k});
    if n != b {
      assert FindBucket(r.buckets, n) == FindBucket(s.buckets, n);
    } else if BucketExistsIn(s, b) {
      WithoutLookup(EntriesOf(s, b), {k}, q);
    }
  }

  /** A key present in a bucket means the bucket exists. */
  lemma KeyInBucket(s: Snapshot, b: string, k: string)
    requires k in Keys(EntriesOf(s, b))
    ensures BucketExistsIn(s, b)
  {
  }

  /** `mv` of an existing file to another key in an existing bucket: it
      succeeds; the destination then holds the source's bytes and metadata
      and exists, the source no longer exists, and no other key changes. */
  lemma MvFile(s: Snapshot, fromPath: string, toPath: string, recursive: bool)
    requires ValidSnapshot(s) && (recursive ==> CpFits(s, fromPath, toPath))
    requires Match(fromPath).Ok? && Match(fromPath).value.IsFile() && Exists(s, fromPath)
    requires GetDestination(s, fromPath, toPath).Ok?
    requires var fm, tm := Match(fromPath).value, GetDestination(s, fromPath, toPath).value;
      BucketExistsIn(s, tm.bucket) && (tm.bucket != fm.bucket || tm.RelativePath() != fm.RelativePath())
    ensures var fm, tm := Match(fromPath).value, GetDestination(s, fromPath, toPath).value;
      var r := MvStep(s, fromPath, toPath, recursive);
      && r.status.Done?
      && !Exists(r.state, fromPath) && Exists(r.state, tm.path)
      && Content(Lookup(EntriesOf(r.state, tm.bucket), tm.RelativePath()))
           == Content(Lookup(EntriesOf(s, fm.bucket), fm.RelativePath()))
      && forall n, q :: (n != tm.bucket || q != tm.RelativePath()) && (n != fm.bucket || q != fm.RelativePath()) ==>
           Lookup(EntriesOf(r.state, n), q) == Lookup(EntriesOf(s, n), q)
  {
    var fm, tm := Match(fromPath).value, GetDestination(s, fromPath, toPath).value;
    var fk, tk := fm.RelativePath(), tm.RelativePath();
    CpFileCopies(s, fromPath, toPath, recursive);
    FileDestination(s, fromPath, toPath);
    if fm.IsRoot() { MatchRootParts(fromPath); }
    MatchFields(fromPath);
    MatchFields(tm.path);
    var c := CpStep(s, fromPath, toPath, recursive);
    ExistsMeaning(s, fromPath);
    assert Lookup(EntriesOf(c.state, fm.bucket), fk) == Lookup(EntriesOf(s, fm.bucket), fk);
    KeyInBucket(c.state, fm.bucket, fk);
    ExistsMeaning(c.state, fromPath);
    KeyInBucket(c.state, tm.bucket, tk);
    ExistsMeaning(c.state, tm.path);
    RmFile(c.state, fromPath, recursive);
    var gone := RemoveObjectsState(c.state, fm.bucket, {fk});
    assert MvStep(s, fromPath, toPath, recursive) == Step(Done, gone);
    RemoveKeeps(c.state, fm.bucket, fk, tm.bucket, tk);
    ExistsMeaning(gone, tm.path);
    forall n, q | (n != tm.bucket || q != tk) && (n != fm.bucket || q != fk)
      ensures Lookup(EntriesOf(gone, n), q) == Lookup(EntriesOf(s, n), q)
    {
      RemoveKeeps(c.state, fm.bucket, fk, n, q);
    }
  }

  /** `mv` of an existing file onto itself: the copy succeeds, both paths
      then exist, and so the file is removed. */
  lemma MvOntoItself(s: Snapshot, path: string, recursive: bool)
    requires ValidSnapshot(s) && (recursive ==> CpFits(s, path, path))
    requires Match(path).Ok? && Match(path).value.IsFile() && Exists(s, path)
    ensures GetDestination(s, path, path) == Match(path)
    ensures MvStep(s, path, path, recursive).status.Done?
    ensures !Exists(MvStep(s, path, path, recursive).state, path)
  {
    SelfDestination(s, path);
    SelfCopy(s, path, recursive);
    MvGuard(s, path, path, recursive);
    var c := CpStep(s, path, path, recursive);
    RmFile(c.state, path, recursive);
  }

  /** A file is its own destination. */
  lemma SelfDestination(s: Snapshot, path: string)
    requires Match(path).Ok? && Match(path).value.IsFile()
    ensures GetDestination(s, path, path) == Match(path)
  {
    var m := Match(path).value;
    MatchResolved(path);
    InferDestinationCases(m, m);
  }

  /** Copying an existing file onto itself succeeds, and the file still
      exists afterwards. */
  lemma SelfCopy(s: Snapshot, path: string, recursive: bool)
    requires ValidSnapshot(s) && (recursive ==> CpFits(s, path, path))
    requires Match(path).Ok? && Match(path).value.IsFile() && Exists(s, path)
    requires GetDestination(s, path, path) == Match(path)
    ensures var c := CpStep(s, path, path, recursive);
      && c.status.Done? && Exists(c.state, path) && Exists(c.state, Match(path).value.path)
      && BucketExistsIn(c.state, Match(path).value.bucket)
  {
    var m := Match(path).value;
    CpFileCopies(s, path, path, recursive);
    if m.IsRoot() { MatchRootParts(path); }
    MatchFields(path);
    ExistsMeaning(s, path);
    var c := CpStep(s, path, path, recursive);
    KeyInBucket(c.state, m.bucket, m.RelativePath());
    ExistsMeaning(c.state, path);
    MatchResolved(path);
    ExistsMeaning(c.state, m.path);
  }

  // ---------------------------------------------------------------------------
  // The relative part as written

  /** The copy job as the code writes it, with `obj_path.replace(from_path, '')`:
      every occurrence of the source path is deleted, not only the leading one. */
  function FileTaskAsWritten(fromPath: string, toPath: string, b: string, k: string): (t: Task)
    ensures t.fromPath == "/" + b + "/" + k
  {
    var objPath := "/" + b + "/" + k;
    Task(objPath, Join(toPath, RemoveAll(objPath, fromPath)))
  }

  /** The leaf directory as the code writes it, with `d.replace(from_path, '')`. */
  function LeafTargetAsWritten(fromPath: string, toPath: string, b: string, d: string): string {
    Join(toPath, RemoveAll(Compose(b, d, ""), fromPath))
  }

  /** Copying `/b/` to `/c/` when the source holds the file `xy/b/fg` and
      the leaf directory `xy/b/`. As written, the leaf target is `/c/xy`,
      which resolves as a file, so its `mkdirs` refuses it as not a
      directory and the copy fails before any file is copied; the file's
      target would have been `/c/xyfg`. The intended targets are the
      directory `/c/xy/b/` and the file `/c/xy/b/fg`. */
  lemma CopyAsWrittenDropsRepeatedPath()
    ensures Match("/b/xy/b/fg") == Ok(PathRef("/b/xy/b/fg", "b", "xy/b/", "fg"))
    ensures FileTaskAsWritten("/b/", "/c/", "b", "xy/b/fg") == Task("/b/xy/b/fg", "/c/xyfg")
    ensures FileTask("/b/", "/c/", "b", "xy/b/fg") == Task("/b/xy/b/fg", "/c/xy/b/fg")
    ensures LeafTargetAsWritten("/b/", "/c/", "b", "xy/b/") == "/c/xy"
    ensures ValidateDirectory("/c/xy") == Err(NotADirectory)
    ensures LeafTarget("/b/", "/c/", "b", "xy/b/") == "/c/xy/b/"
    ensures ValidateDirectory("/c/xy/b/") == Ok(PathRef("/c/xy/b/", "c", "xy/b/", ""))
  {
    RepeatedFile("/b/", "/c/", "b", "xy/b/fg");
    RepeatedLeaf("/b/", "/c/", "b", "xy/b/");
    ResolveSourceFile();
    ResolveWrittenLeaf();
    ResolveIntendedLeaf();
  }

  lemma RepeatedPrefix()
    ensures DirPrefix("xy/b/")
  {
    var e := "xy/b/";
    forall i | 0 <= i < |e| - 1 ensures !DoubleSlashAt(e, i) {
      assert e[i] != '/' || e[i + 1] != '/';
    }
  }

  /** The example's source file resolves as the file `fg` in `xy/b/`. */
  lemma ResolveSourceFile()
    ensures Match("/b/xy/b/fg") == Ok(PathRef("/b/xy/b/fg", "b", "xy/b/", "fg"))
  {
    assert Compose("b", "xy/b/", "fg") == "/b/xy/b/fg";
    RepeatedPrefix();
    MatchComposeAny("b", "xy/b/", "fg");
  }

  /** The intended leaf target resolves as the directory `xy/b/`. */
  lemma ResolveIntendedLeaf()
    ensures Match("/c/xy/b/") == Ok(PathRef("/c/xy/b/", "c", "xy/b/", ""))
  {
    assert Compose("c", "xy/b/", "") == "/c/xy/b/";
    RepeatedPrefix();
    MatchComposeAny("c", "xy/b/", "");
  }

  /** The as-written leaf target resolves as the file `xy` at the top of `c`. */
  lemma ResolveWrittenLeaf()
    ensures Match("/c/xy") == Ok(PathRef("/c/xy", "c", "", "xy"))
  {
    assert Compose("c", "", "xy") == "/c/xy";
    MatchComposeAny("c", "", "xy");
  }

  lemma RepeatedFile(from: string, to: string, b: string, k: string)
    requires from == "/b/" && to == "/c/" && b == "b" && k == "xy/b/fg"
    ensures FileTaskAsWritten(from, to, b, k) == Task("/b/xy/b/fg", "/c/xyfg")
    ensures FileTask(from, to, b, k) == Task("/b/xy/b/fg", "/c/xy/b/fg")
  {
    var file := from + ("xy" + (from + "fg"));
    assert "/" + b + "/" + k == file;
    RepeatedFileAsWritten(from, to, file);
    RepeatedFileIntended(from, to, file);
  }

  lemma RepeatedFileAsWritten(from: string, to: string, file: string)
    requires from == "/b/" && to == "/c/" && file == from + ("xy" + (from + "fg"))
    ensures Join(to, RemoveAll(file, from)) == "/c/xyfg"
  {
    RemoveAllKeep('g', [], from);
    RemoveAllKeep('f', "g", from);
    assert ['f'] + "g" == "fg" && ['g'] + [] == "g";
    RemoveRepeated(from, "fg");
    assert EndsWithSlash(to);
    assert to + "xyfg" == "/c/xyfg";
  }

  lemma RepeatedFileIntended(from: string, to: string, file: string)
    requires from == "/b/" && to == "/c/" && file == from + ("xy" + (from + "fg"))
    ensures Join(to, StripPrefix(file, from)) == "/c/xy/b/fg"
  {
    SkipLead(from, "xy" + (from + "fg"));
    assert EndsWithSlash(to);
    assert to + ("xy" + (from + "fg")) == "/c/xy/b/fg";
  }

  lemma RepeatedLeaf(from: string, to: string, b: string, d: string)
    requires from == "/b/" && to == "/c/" && b == "b" && d == "xy/b/"
    ensures LeafTargetAsWritten(from, to, b, d) == "/c/xy"
    ensures LeafTarget(from, to, b, d) == "/c/xy/b/"
  {
    var dir := from + ("xy" + from);
    assert Compose(b, d, "") == dir;
    RepeatedLeafAsWritten(from, to, dir);
    RepeatedLeafIntended(from, to, dir);
  }

  lemma RepeatedLeafAsWritten(from: string, to: string, dir: string)
    requires from == "/b/" && to == "/c/" && dir == from + ("xy" + from)
    ensures Join(to, RemoveAll(dir, from)) == "/c/xy"
  {
    RemoveRepeated(from, []);
    assert from + [] == from && "xy" + [] == "xy";
    assert EndsWithSlash(to);
    assert to + "xy" == "/c/xy";
  }

  lemma RepeatedLeafIntended(from: string, to: string, dir: string)
    requires from == "/b/" && to == "/c/" && dir == from + ("xy" + from)
    ensures Join(to, StripPrefix(dir, from)) == "/c/xy/b/"
  {
    SkipLead(from, "xy" + from);
    assert EndsWithSlash(to);
    assert to + ("xy" + from) == "/c/xy/b/";
  }

  /** `pat + a` with `pat` cut off its front is `a`. */
  lemma SkipLead(pat: string, a: string)
    ensures StartsWith(pat + a, pat) && StripPrefix(pat + a, pat) == a
  {
    assert (pat + a)[..|pat|] == pat;
  }

  /** `replace` keeps a leading character the pattern cannot start with. */
  lemma RemoveAllKeep(c: char, a: string, pat: string)
    requires pat != [] && pat[0] != c
    ensures RemoveAll([c] + a, pat) == [c] + RemoveAll(a, pat)
  {
    var s := [c] + a;
    assert !StartsWith(s, pat) by {
      if |pat| <= |s| { assert s[..|pat|][0] == c; }
    }
    assert s[1..] == a;
  }

  /** The source path, two characters it cannot start with, the source path
      again and a tail the deletion leaves alone: only the two characters and
      the tail are left. */
  lemma RemoveRepeated(pat: string, tail: string)
    requires pat != [] && pat[0] != 'x' && pat[0] != 'y' && RemoveAll(tail, pat) == tail
    ensures RemoveAll(pat + ("xy" + (pat + tail)), pat) == "xy" + tail
  {
    RemoveAllLead(pat, "xy" + (pat + tail));
    RemoveAllKeepPair(pat + tail, pat);
    RemoveAllLead(pat, tail);
  }

  /** `replace` keeps a leading `xy` when the pattern starts with neither letter. */
  lemma RemoveAllKeepPair(a: string, pat: string)
    requires pat != [] && pat[0] != 'x' && pat[0] != 'y'
    ensures RemoveAll("xy" + a, pat) == "xy" + RemoveAll(a, pat)
  {
    assert "xy" + a == ['x'] + (['y'] + a);
    RemoveAllKeep('x', ['y'] + a, pat);
    RemoveAllKeep('y', a, pat);
    assert ['x'] + (['y'] + RemoveAll(a, pat)) == "xy" + RemoveAll(a, pat);
  }

  /** For a file `k` under the source directory `p` of bucket `b`, the code
      as written and the intended code agree exactly when the source path does
      not occur again in what follows it in the file's path. */
  lemma FileTaskAsWrittenAgrees(fromPath: string, toPath: string, b: string, p: string, k: string)
    requires fromPath == Compose(b, p, "") && StartsWith(k, p)
    ensures var objPath := "/" + b + "/" + k;
      RemoveAll(objPath, fromPath) == StripPrefix(objPath, fromPath) <==> !Contains(k[|p|..], fromPath)
    ensures !Contains(k[|p|..], fromPath) ==>
      FileTaskAsWritten(fromPath, toPath, b, k) == FileTask(fromPath, toPath, b, k)
    ensures FileTask(fromPath, toPath, b, k) == Task("/" + b + "/" + k, Join(toPath, k[|p|..]))
  {
    var rest := k[|p|..];
    assert k == p + rest;
    assert "/" + b + "/" + k == fromPath + rest;
    RemoveAllAfterLead(fromPath, rest);
    SkipLead(fromPath, rest);
  }

  /** For a directory `d` under the source directory `p`, the leaf target as
      written and the intended one agree exactly when the source path does not
      occur again in what follows it. */
  lemma LeafTargetAsWrittenAgrees(fromPath: string, toPath: string, b: string, p: string, d: string)
    requires fromPath == Compose(b, p, "") && StartsWith(d, p)
    ensures var dirPath := Compose(b, d, "");
      RemoveAll(dirPath, fromPath) == StripPrefix(dirPath, fromPath) <==> !Contains(d[|p|..], fromPath)
    ensures !Contains(d[|p|..], fromPath) ==>
      LeafTargetAsWritten(fromPath, toPath, b, d) == LeafTarget(fromPath, toPath, b, d)
    ensures LeafTarget(fromPath, toPath, b, d) == Join(toPath, d[|p|..])
  {
    var rest := d[|p|..];
    assert d == p + rest;
    assert Compose(b, d, "") == fromPath + rest;
    RemoveAllAfterLead(fromPath, rest);
    SkipLead(fromPath, rest);
  }
}
