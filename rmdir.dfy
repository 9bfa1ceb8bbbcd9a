/** `rmdir`, `truncate` and the walk of `rmdir` as transitions of the store:
    the worklist loop that lists each directory, removes its files, queues its
    sub-directories and removes the marker of a directory with none, and then
    the removal of the bucket itself. */
module Removal {
  import opened Outcomes
  import opened PathStrings
  import opened Paths
  import opened Objects
  import opened Listing
  import opened ObjectStore
  import opened Views
  import opened Walks

  /** The store after one pass of the loop of `rmdir` over directory `d`,
      whose listing is `l`: its files removed, and its marker too when it has
      no sub-directory and is not the bucket itself. */
  function RmdirPass(s: Snapshot, b: string, d: string, l: seq<Listed>): (r: Snapshot)
    requires ValidSnapshot(s) && BucketExistsIn(s, b)
    ensures ValidSnapshot(r) && BucketExistsIn(r, b)
    ensures Keys(EntriesOf(r, b)) <= Keys(EntriesOf(s, b))
  {
    var files := FileItems(l);
    var s1 := if files != [] then RemoveObjectsState(s, b, set k | k in files) else s;
    if DirItems(l) == [] && d != "" then RemoveObjectStep(s1, b, d).state else s1
  }

  /** The keys one pass removes. */
  function PassRemoves(d: string, l: seq<Listed>): set<string> {
    (set k | k in FileItems(l)) + (if DirItems(l) == [] && d != "" then {d} else {})
  }

  /** A pass is one removal of the keys it names. */
  lemma PassCombines(s: Snapshot, b: string, d: string, l: seq<Listed>)
    requires ValidSnapshot(s) && BucketExistsIn(s, b)
    ensures || RmdirPass(s, b, d, l) == RemoveObjectsState(s, b, PassRemoves(d, l))
            || (RmdirPass(s, b, d, l) == s && PassRemoves(d, l) == {})
  {
    var files := FileItems(l);
    var F := set k | k in files;
    var marker := DirItems(l) == [] && d != "";
    if files != [] {
      var s1 := RemoveObjectsState(s, b, F);
      if marker {
        RemoveOneIsRemoveObjects(s1, b, d);
        RemoveTwice(s, b, F, {d});
        assert PassRemoves(d, l) == F + {d};
      } else {
        assert PassRemoves(d, l) == F;
      }
    } else {
      assert F == {};
      if marker {
        RemoveOneIsRemoveObjects(s, b, d);
        assert PassRemoves(d, l) == {d};
      } else {
        assert PassRemoves(d, l) == {};
      }
    }
  }

  lemma RemoveOneIsRemoveObjects(s: Snapshot, b: string, k: string)
    requires BucketExistsIn(s, b)
    ensures RemoveObjectStep(s, b, k).state == RemoveObjectsState(s, b, {k})
  {
  }

  /** Two removals from one bucket are one removal of both sets of keys. */
  lemma RemoveTwice(s: Snapshot, b: string, A: set<string>, B: set<string>)
    requires BucketExistsIn(s, b)
    ensures RemoveObjectsState(RemoveObjectsState(s, b, A), b, B) == RemoveObjectsState(s, b, A + B)
  {
    var es := FindBucket(s.buckets, b).value.entries;
    WithoutTwice(es, A, B);
    SetEntriesTwice(s.buckets, b, Without(es, A), Without(es, A + B));
  }

  lemma {:induction false} SetEntriesTwice(bs: seq<Bucket>, name: string, x: seq<Entry>, y: seq<Entry>)
    requires name in BucketNames(bs)
    ensures FindBucket(SetEntries(bs, name, x), name).value.entries == x
    ensures SetEntries(SetEntries(bs, name, x), name, y) == SetEntries(bs, name, y)
  {
    if bs[0].name != name {
      SetEntriesTwice(bs[1..], name, x, y);
      assert ([bs[0]] + SetEntries(bs[1..], name, x))[1..] == SetEntries(bs[1..], name, x);
    } else {
      assert ([bs[0].(entries := x)] + bs[1..])[1..] == bs[1..];
    }
  }

  /** Only the keys present matter to a removal. */
  lemma RemovePresent(s: Snapshot, b: string, A: set<string>, B: set<string>)
    requires BucketExistsIn(s, b) && A * Keys(EntriesOf(s, b)) == B * Keys(EntriesOf(s, b))
    ensures RemoveObjectsState(s, b, A) == RemoveObjectsState(s, b, B)
  {
    WithoutPresent(FindBucket(s.buckets, b).value.entries, A, B);
  }

  /** The loop of `rmdir` from the worklist `pending` in bucket `b`, over the
      store as the loop changes it. Without `recursive`, a directory with
      anything in it stops the loop with `DirectoryNotEmpty`. */
  function RmdirLoop(s: Snapshot, b: string, pending: seq<string>, recursive: bool): (r: Step)
    requires ValidSnapshot(s) && Ready(pending)
    ensures ValidSnapshot(r.state)
    decreases Reach(Keys(EntriesOf(s, b)), pending), |pending|
  {
    if pending == [] then Step(Done, s)
    else
      var d := pending[0];
      match ObjectsAt(s, DirRef(b, d))
      case Err(e) => Step(Failed(e), s)
      case Ok(l) =>
        if l != [] && !recursive then Step(Failed(DirectoryNotEmpty), s)
        else
          var s' := RmdirPass(s, b, d, l);
          ChildrenFacts(s, b, d, l);
          StepShrinks(Keys(EntriesOf(s, b)), Keys(EntriesOf(s', b)), pending, DirItems(l));
          RmdirLoop(s', b, pending[1..] + DirItems(l), recursive)
  }

  // ---------------------------------------------------------------------------
  // What a recursive loop removes

  /** Some key of `K` lies inside a sub-directory of `q`. */
  ghost predicate HasSubdir(K: set<string>, q: string) {
    exists x :: x in K && Deeper(x, q)
  }

  /** The keys a recursive loop from the worklist removes: every key inside the
      worklist, except a key ending in '/' that has a sub-directory. */
  ghost function Removed(K: set<string>, pending: seq<string>): set<string> {
    set k | k in K && UnderSome(k, pending) && (EndsWithSlash(k) ==> !HasSubdir(K, k))
  }

  /** Nothing one pass over `d` removes lies inside the worklist that follows. */
  lemma OutsidePass(pending: seq<string>, dirs: seq<string>, y: string)
    requires pending != [] && Ready(pending) && ChildrenOfShape(pending[0], dirs)
    requires UnderSome(y, pending[1..] + dirs)
    ensures y != pending[0] && !Direct(y, pending[0])
  {
    var d := pending[0];
    var e :| e in pending[1..] + dirs && StartsWith(y, e);
    if e in dirs {
      OutsideChild(d, e, y);
    } else {
      var j :| 0 <= j < |pending[1..]| && pending[1..][j] == e;
      assert pending[j + 1] == e;
      OutsideSibling(d, e, y);
    }
  }

  /** Anything inside a sub-directory `e` of `d` lies deeper than `d`. */
  lemma OutsideChild(d: string, e: string, y: string)
    requires StartsWith(e, d) && |e| > |d| && EndsWithSlash(e) && StartsWith(y, e)
    ensures y != d && !Direct(y, d)
  {
    assert y[|d|..][|e| - 1 - |d|] == y[|e| - 1] == e[|e| - 1];
  }

  /** Anything inside a directory not nested with `d` lies outside `d`. */
  lemma OutsideSibling(d: string, e: string, y: string)
    requires !StartsWith(d, e) && !StartsWith(e, d) && StartsWith(y, e)
    ensures y != d && !Direct(y, d)
  {
    if StartsWith(y, d) {
      if |e| <= |d| { StartsWithBoth(y, e, d); } else { StartsWithBoth(y, d, e); }
    }
  }

  /** The keys of a pass over `d`: `d` itself or files directly in it. */
  ghost predicate PassShape(R: set<string>, d: string) {
    forall y :: y in R ==> y == d || Direct(y, d)
  }

  /** Inside the worklist that follows a pass, the pass changed no key's
      sub-directories. */
  lemma SubdirKept(K: set<string>, R: set<string>, pending: seq<string>, dirs: seq<string>, k: string)
    requires pending != [] && Ready(pending) && ChildrenOfShape(pending[0], dirs)
    requires PassShape(R, pending[0]) && UnderSome(k, pending[1..] + dirs)
    ensures HasSubdir(K - R, k) <==> HasSubdir(K, k)
  {
    if HasSubdir(K, k) {
      var x :| x in K && Deeper(x, k);
      var e :| e in pending[1..] + dirs && StartsWith(k, e);
      StartsWithTrans(x, k, e);
      OutsidePass(pending, dirs, x);
      assert x in K - R;
    }
  }

  /** One pass of a recursive loop: what the loop from the worklist removes is
      what the pass removes and what the loop from the next worklist removes. */
  lemma RemovedStep(es: seq<Entry>, R: set<string>, pending: seq<string>, dirs: seq<string>)
    requires ValidEntries(es) && pending != [] && Ready(pending)
    requires ChildrenOfShape(pending[0], dirs)
    requires forall g :: g in dirs <==> g in SubDirs(es, pending[0])
    requires R == FileKeys(es, pending[0]) + (if dirs == [] && pending[0] != "" then {pending[0]} else {})
    ensures (R + Removed(Keys(es) - R, pending[1..] + dirs)) * Keys(es) == Removed(Keys(es), pending)
  {
    var d := pending[0];
    var next := pending[1..] + dirs;
    var K := Keys(es);
    assert PassShape(R, d);
    assert d in pending;
    forall k | k in K
      ensures k in R + Removed(K - R, next) <==> k in Removed(K, pending)
    {
      assert WellFormedKey(k);
      if k == d {
        PassKeyIsMarker(es, pending, dirs);
        if UnderSome(k, next) { OutsidePass(pending, dirs, k); }
      } else if Direct(k, d) {
        DirectNotSlash(k, d);
      } else if Deeper(k, d) {
        var g := Group(k, d);
        assert g in dirs && g in next;
        SubdirKept(K, R, pending, dirs, k);
      } else {
        assert !StartsWith(k, d);
        assert k !in R;
        RestUnder(pending, dirs, k);
        if UnderSome(k, next) { SubdirKept(K, R, pending, dirs, k); }
      }
    }
  }

  /** The marker of the first directory is removed exactly when it has no
      sub-directory. */
  lemma PassKeyIsMarker(es: seq<Entry>, pending: seq<string>, dirs: seq<string>)
    requires pending != [] && Ready(pending) && pending[0] in Keys(es) && pending[0] != ""
    requires forall g :: g in dirs <==> g in SubDirs(es, pending[0])
    ensures pending[0] in Removed(Keys(es), pending) <==> dirs == []
  {
    var d := pending[0];
    assert d in pending && EndsWithSlash(d);
    if HasSubdir(Keys(es), d) {
      var x :| x in Keys(es) && Deeper(x, d);
      assert Group(x, d) in dirs;
    }
    if dirs != [] {
      assert dirs[0] in SubDirs(es, d);
    }
  }

  /** A key outside the first directory lies inside the worklist exactly when
      it lies inside the worklist that follows a pass. */
  lemma RestUnder(pending: seq<string>, dirs: seq<string>, k: string)
    requires pending != [] && ChildrenOfShape(pending[0], dirs) && !StartsWith(k, pending[0])
    ensures UnderSome(k, pending) <==> UnderSome(k, pending[1..] + dirs)
  {
    var d := pending[0];
    if UnderSome(k, pending) {
      var e :| e in pending && StartsWith(k, e);
      var j :| 0 <= j < |pending| && pending[j] == e;
      assert j != 0;
      assert pending[1..][j - 1] == e;
    }
    if UnderSome(k, pending[1..] + dirs) {
      var e :| e in pending[1..] + dirs && StartsWith(k, e);
      if e in dirs { StartsWithTrans(k, e, d); }
      assert e in pending;
    }
  }

  /** A removal of no keys leaves the store as it was. */
  lemma RemoveNothing(s: Snapshot, b: string)
    requires BucketExistsIn(s, b)
    ensures RemoveObjectsState(s, b, {}) == s
  {
    var es := FindBucket(s.buckets, b).value.entries;
    WithoutNone(es);
    SetEntriesSame(s.buckets, b);
  }

  lemma {:induction false} WithoutNone(es: seq<Entry>)
    ensures Without(es, {}) == es
  {
    if es != [] {
      WithoutNone(es[1..]);
    }
  }

  lemma {:induction false} SetEntriesSame(bs: seq<Bucket>, name: string)
    requires name in BucketNames(bs)
    ensures SetEntries(bs, name, FindBucket(bs, name).value.entries) == bs
  {
    if bs[0].name != name {
      SetEntriesSame(bs[1..], name);
    }
  }

  /** A pass followed by a removal is one removal. */
  lemma PassThenRemove(s: Snapshot, b: string, d: string, l: seq<Listed>, X: set<string>)
    requires ValidSnapshot(s) && BucketExistsIn(s, b)
    ensures Keys(EntriesOf(RmdirPass(s, b, d, l), b)) == Keys(EntriesOf(s, b)) - PassRemoves(d, l)
    ensures RemoveObjectsState(RmdirPass(s, b, d, l), b, X) == RemoveObjectsState(s, b, PassRemoves(d, l) + X)
  {
    var R := PassRemoves(d, l);
    PassCombines(s, b, d, l);
    if RmdirPass(s, b, d, l) == RemoveObjectsState(s, b, R) {
      RemoveTwice(s, b, R, X);
    } else {
      assert R + X == X;
    }
  }

  /** The keys a pass removes, in terms of the bucket's entries. */
  lemma PassRemovesKeys(s: Snapshot, b: string, d: string, l: seq<Listed>)
    requires ValidSnapshot(s) && ObjectsAt(s, DirRef(b, d)) == Ok(l)
    ensures PassRemoves(d, l)
         == FileKeys(EntriesOf(s, b), d) + (if DirItems(l) == [] && d != "" then {d} else {})
  {
    ChildrenFacts(s, b, d, l);
  }

  /** One turn of the recursive loop, when the listing succeeds. */
  lemma RmdirLoopTurn(s: Snapshot, b: string, pending: seq<string>, l: seq<Listed>)
    requires ValidSnapshot(s) && Ready(pending) && pending != []
    requires ObjectsAt(s, DirRef(b, pending[0])) == Ok(l)
    ensures Ready(pending[1..] + DirItems(l))
    ensures RmdirLoop(s, b, pending, true)
         == RmdirLoop(RmdirPass(s, b, pending[0], l), b, pending[1..] + DirItems(l), true)
  {
    ChildrenFacts(s, b, pending[0], l);
    NextReady(pending, DirItems(l));
  }

  /** The recursive loop in closed form: it always finishes, and removes
      exactly the keys `Removed` names. */
  lemma {:induction false} RmdirLoopRemoves(s: Snapshot, b: string, pending: seq<string>)
    requires ValidSnapshot(s) && Ready(pending) && BucketExistsIn(s, b)
    ensures RmdirLoop(s, b, pending, true)
         == Step(Done, RemoveObjectsState(s, b, Removed(Keys(EntriesOf(s, b)), pending)))
    decreases Reach(Keys(EntriesOf(s, b)), pending), |pending|
  {
    var K := Keys(EntriesOf(s, b));
    if pending == [] {
      assert Removed(K, pending) == {};
      RemoveNothing(s, b);
    } else {
      var d := pending[0];
      var l := ObjectsAt(s, DirRef(b, d)).value;
      var dirs := DirItems(l);
      var next := pending[1..] + dirs;
      var s' := RmdirPass(s, b, d, l);
      ChildrenFacts(s, b, d, l);
      StepShrinks(K, Keys(EntriesOf(s', b)), pending, dirs);
      RmdirLoopTurn(s, b, pending, l);
      RmdirLoopRemoves(s', b, next);
      var X := Removed(Keys(EntriesOf(s', b)), next);
      PassThenRemove(s, b, d, l, X);
      PassRemovesKeys(s, b, d, l);
      RemovedStep(EntriesOf(s, b), PassRemoves(d, l), pending, dirs);
      RemovePresent(s, b, PassRemoves(d, l) + X, Removed(K, pending));
    }
  }

  /** A listing is empty exactly when no key lies below the directory. */
  lemma EmptyListing(s: Snapshot, b: string, d: string, l: seq<Listed>)
    requires ValidSnapshot(s) && ObjectsAt(s, DirRef(b, d)) == Ok(l)
    ensures l == [] <==> forall k :: k in Keys(EntriesOf(s, b)) ==> !Under(k, d)
  {
    var es := EntriesOf(s, b);
    ChildrenFacts(s, b, d, l);
    if l != [] {
      var x := l[0];
      if x.isDir {
        assert x.objectName in DirItems(l);
        ListedDirUnder(es, d, x.objectName);
      } else {
        assert x.objectName in FileItems(l);
      }
    } else {
      forall k | k in Keys(es) ensures !Under(k, d) {
        ChildOf(es, d, k);
      }
    }
  }

  /** A sub-directory listed in `d` has a key under `d`. */
  lemma ListedDirUnder(es: seq<Entry>, d: string, g: string)
    requires g in SubDirs(es, d)
    ensures exists k :: k in Keys(es) && Under(k, d)
  {
    var k :| k in Keys(es) && Deeper(k, d) && Group(k, d) == g;
  }

  /** A key under `d` is listed in `d`: as a file, or inside a sub-directory. */
  lemma ChildOf(es: seq<Entry>, d: string, k: string)
    requires k in Keys(es)
    ensures Under(k, d) ==> k in FileKeys(es, d) || Group(k, d) in SubDirs(es, d)
  {
  }

  /** The loop without `recursive`, from one directory: it stops on anything
      below the directory and otherwise removes the directory's marker (a bare
      bucket has none). */
  lemma RmdirLoopSingle(s: Snapshot, b: string, p: string)
    requires ValidSnapshot(s) && BucketExistsIn(s, b) && (p == "" || EndsWithSlash(p))
    ensures RmdirLoop(s, b, [p], false)
         == if exists k :: k in Keys(EntriesOf(s, b)) && Under(k, p)
            then Step(Failed(DirectoryNotEmpty), s)
            else Step(Done, if p == "" then s else RemoveObjectsState(s, b, {p}))
  {
    var l := ObjectsAt(s, DirRef(b, p)).value;
    EmptyListing(s, b, p, l);
    if l == [] {
      assert DirItems(l) == [] && FileItems(l) == [];
      assert [p][1..] + DirItems(l) == [];
      if p != "" { RemoveOneIsRemoveObjects(s, b, p); }
    }
  }

  /** `rmdir` of a directory other than the root, resolved to `m`: the loop
      from its prefix and then, for a bare bucket, `remove_bucket`, whose
      `BucketNotEmpty` is raised as `DirectoryNotEmpty`. */
  function RmdirTree(s: Snapshot, m: PathRef, recursive: bool): (r: Step)
    requires ValidSnapshot(s) && (m.prefix == "" || EndsWithSlash(m.prefix))
    ensures ValidSnapshot(r.state)
  {
    var loop := RmdirLoop(s, m.bucket, [m.prefix], recursive);
    if loop.status.Failed? || !m.IsBucket() then loop
    else
      var rb := RemoveBucketStep(loop.state, m.bucket);
      if rb.status == Failed(BucketNotEmpty) then Step(Failed(DirectoryNotEmpty), rb.state) else rb
  }

  predicate RootDirectory(path: string) {
    Match(path).Ok? && Match(path).value.IsRoot()
  }

  /** A name `listdir` reports for the root: a bucket name and '/'. */
  predicate EntryName(n: string) {
    |n| >= 2 && EndsWithSlash(n) && BucketName(n[..|n| - 1])
  }

  /** `join(ROOT, name)` for such a name is the bare bucket. */
  lemma BucketPath(n: string)
    requires EntryName(n)
    ensures var b := n[..|n| - 1];
      && Join(Root, n) == Compose(b, "", "")
      && ValidateDirectory(Join(Root, n)) == Ok(PathRef(Compose(b, "", ""), b, "", ""))
      && !RootDirectory(Join(Root, n))
  {
    var b := n[..|n| - 1];
    assert n == b + "/";
    assert n[0] != '/' by { assert n[0] == b[0]; }
    assert Join(Root, n) == Root + n;
    assert Compose(b, "", "") == Root + n;
    MatchCompose(b, "", "");
  }

  /** The names `listdir` reports for the root are such names. */
  lemma RootEntryNames(s: Snapshot)
    requires ValidSnapshot(s)
    ensures forall i :: 0 <= i < |BucketEntryNames(BucketsSorted(s))| ==>
      EntryName(BucketEntryNames(BucketsSorted(s))[i])
  {
    var bs := BucketsSorted(s);
    var lb := ListBucketsOf(s);
    forall i | 0 <= i < |bs| ensures BucketName(bs[i].name) {
      assert bs[i] in multiset(lb);
      var k :| 0 <= k < |lb| && lb[k] == bs[i];
      BucketNameAt(s.buckets, k);
    }
    forall i | 0 <= i < |bs| ensures EntryName(BucketEntryNames(bs)[i]) {
      var n := BucketEntryNames(bs)[i];
      assert n == bs[i].name + "/";
      assert n[..|n| - 1] == bs[i].name;
    }
  }

  lemma {:induction false} BucketNameAt(bs: seq<Bucket>, i: nat)
    requires ValidBuckets(bs) && i < |bs|
    ensures WellFormedBucketName(bs[i].name)
  {
    if i > 0 {
      assert bs[1..][i - 1] == bs[i];
      BucketNameAt(bs[1..], i - 1);
    }
  }

  /** `rmdir(path, recursive)`: the path must name a directory; the root is
      emptied by `truncate` when `recursive` and refused otherwise. */
  function RmdirStep(s: Snapshot, path: string, recursive: bool): (r: Step)
    requires ValidSnapshot(s)
    ensures ValidSnapshot(r.state)
    decreases if RootDirectory(path) then 1 else 0, 0
  {
    match ValidateDirectory(path)
    case Err(e) => Step(Failed(e), s)
    case Ok(m) =>
      if m.IsRoot() then
        if recursive then
          RootEntryNames(s);
          TruncateFrom(s, BucketEntryNames(BucketsSorted(s)))
        else Step(Failed(DirectoryNotEmpty), s)
      else
        MatchFields(path);
        RmdirTree(s, m, recursive)
  }

  /** The loop of `truncate` over the names `listdir` reported for the root:
      `rmdir(join(ROOT, name), recursive=True)` for each, stopping at the
      first failure. */
  function TruncateFrom(s: Snapshot, names: seq<string>): (r: Step)
    requires ValidSnapshot(s)
    requires forall i :: 0 <= i < |names| ==> EntryName(names[i])
    ensures ValidSnapshot(r.state)
    decreases 0, |names|
  {
    if names == [] then Step(Done, s)
    else
      BucketPath(names[0]);
      var r := RmdirStep(s, Join(Root, names[0]), true);
      if r.status.Failed? then r else TruncateFrom(r.state, names[1..])
  }

  /** `truncate()`: `listdir(ROOT)`, then the loop. */
  function TruncateStep(s: Snapshot): (r: Step)
    requires ValidSnapshot(s)
    ensures ValidSnapshot(r.state)
  {
    RootEntryNames(s);
    TruncateFrom(s, BucketEntryNames(BucketsSorted(s)))
  }

  // ---------------------------------------------------------------------------
  // What rmdir and truncate do

  /** No directory marker has anything in a sub-directory below it: then a
      recursive loop over the whole bucket removes every key. */
  ghost predicate Removable(K: set<string>) {
    forall k :: k in K && EndsWithSlash(k) ==> !HasSubdir(K, k)
  }

  lemma RemovedWhole(K: set<string>)
    ensures Removed(K, [""]) == K <==> Removable(K)
  {
    assert "" in [""];
    forall k | k in K ensures UnderSome(k, [""]) {
      assert StartsWith(k, "");
    }
  }

  lemma {:induction false} KeysEmpty(es: seq<Entry>)
    ensures Keys(es) == {} <==> es == []
  {
    if es != [] {
      assert es[0].key in Keys(es);
    }
  }

  /** A recursive `rmdir` of a bare bucket: it removes the bucket when every
      key goes, and otherwise raises `DirectoryNotEmpty` (the store's
      `BucketNotEmpty`) after removing what the loop removed. */
  lemma RmdirTreeBucket(s: Snapshot, m: PathRef)
    requires ValidSnapshot(s) && m.prefix == "" && m.IsBucket() && BucketExistsIn(s, m.bucket)
    ensures var K, r := Keys(EntriesOf(s, m.bucket)), RmdirTree(s, m, true);
      && (r.status.Done? <==> Removable(K))
      && (r.status.Done? ==> && !BucketExistsIn(r.state, m.bucket)
                             && forall n :: n != m.bucket ==> FindBucket(r.state.buckets, n) == FindBucket(s.buckets, n))
      && (r.status.Failed? ==>
            r == Step(Failed(DirectoryNotEmpty), RemoveObjectsState(s, m.bucket, Removed(K, [""]))))
  {
    var b := m.bucket;
    var K := Keys(EntriesOf(s, b));
    RmdirLoopRemoves(s, b, [""]);
    var s1 := RemoveObjectsState(s, b, Removed(K, [""]));
    BucketLeftEmpty(s, b);
    var rb := RemoveBucketStep(s1, b);
    assert RmdirTree(s, m, true)
      == if rb.status == Failed(BucketNotEmpty) then Step(Failed(DirectoryNotEmpty), rb.state) else rb;
  }

  /** After the loop over the whole bucket, the bucket is still there, and it
      is empty exactly when every key could be removed. */
  lemma BucketLeftEmpty(s: Snapshot, b: string)
    requires ValidSnapshot(s) && BucketExistsIn(s, b)
    ensures var K := Keys(EntriesOf(s, b));
      var s1 := RemoveObjectsState(s, b, Removed(K, [""]));
      && ValidSnapshot(s1) && BucketExistsIn(s1, b)
      && (EntriesOf(s1, b) == [] <==> Removable(K))
  {
    var K := Keys(EntriesOf(s, b));
    var s1 := RemoveObjectsState(s, b, Removed(K, [""]));
    KeysEmpty(EntriesOf(s1, b));
    RemovedWhole(K);
    assert Keys(EntriesOf(s1, b)) == K - Removed(K, [""]);
  }

  /** `rmdir` refuses before touching the store: a path that does not name a
      directory fails as `Match` or the directory guard does; the root without
      `recursive` is not empty; a missing bucket fails with `NoSuchBucket`. */
  lemma RmdirRefuses(s: Snapshot, path: string, recursive: bool)
    requires ValidSnapshot(s)
    ensures ValidateDirectory(path).Err? ==>
      RmdirStep(s, path, recursive) == Step(Failed(ValidateDirectory(path).error), s)
    ensures RootDirectory(path) && !recursive ==>
      RmdirStep(s, path, recursive) == Step(Failed(DirectoryNotEmpty), s)
    ensures ValidateDirectory(path).Ok? && !RootDirectory(path)
            && !BucketExistsIn(s, ValidateDirectory(path).value.bucket) ==>
      RmdirStep(s, path, recursive) == Step(Failed(NoSuchBucket), s)
  {
    if ValidateDirectory(path).Ok? && !RootDirectory(path) {
      MatchFields(path);
    }
  }

  /** A recursive `rmdir` of a directory inside a bucket finishes, and removes
      exactly the keys `Removed` names: everything at or below the directory
      except markers with something in a sub-directory. */
  lemma RmdirRecursive(s: Snapshot, path: string)
    requires ValidSnapshot(s) && ValidateDirectory(path).Ok? && !RootDirectory(path)
    requires !ValidateDirectory(path).value.IsBucket()
    requires BucketExistsIn(s, ValidateDirectory(path).value.bucket)
    ensures var m := ValidateDirectory(path).value;
      RmdirStep(s, path, true)
        == Step(Done, RemoveObjectsState(s, m.bucket, Removed(Keys(EntriesOf(s, m.bucket)), [m.prefix])))
  {
    var m := ValidateDirectory(path).value;
    MatchFields(path);
    RmdirLoopRemoves(s, m.bucket, [m.prefix]);
  }

  /** A recursive `rmdir` of a bare bucket. */
  lemma RmdirBucket(s: Snapshot, path: string)
    requires ValidSnapshot(s) && ValidateDirectory(path).Ok? && !RootDirectory(path)
    requires ValidateDirectory(path).value.IsBucket()
    requires BucketExistsIn(s, ValidateDirectory(path).value.bucket)
    ensures var b := ValidateDirectory(path).value.bucket;
      var K, r := Keys(EntriesOf(s, b)), RmdirStep(s, path, true);
      && (r.status.Done? <==> Removable(K))
      && (r.status.Done? ==> && !BucketExistsIn(r.state, b)
                             && forall n :: n != b ==> FindBucket(r.state.buckets, n) == FindBucket(s.buckets, n))
      && (r.status.Failed? ==>
            r == Step(Failed(DirectoryNotEmpty), RemoveObjectsState(s, b, Removed(K, [""]))))
  {
    MatchFields(path);
    RmdirTreeBucket(s, ValidateDirectory(path).value);
  }

  /** A bucket with nothing below its root is empty. */
  lemma NothingUnderRoot(es: seq<Entry>)
    requires ValidEntries(es) && forall k :: k in Keys(es) ==> !Under(k, "")
    ensures es == []
  {
    if es != [] {
      assert es[0].key in Keys(es);
      assert WellFormedKey(es[0].key) && StartsWith(es[0].key, "");
    }
  }

  lemma RmdirTreeSingle(s: Snapshot, m: PathRef)
    requires ValidSnapshot(s) && (m.prefix == "" || EndsWithSlash(m.prefix))
    requires BucketExistsIn(s, m.bucket) && (m.IsBucket() <==> m.prefix == "")
    ensures var K, r := Keys(EntriesOf(s, m.bucket)), RmdirTree(s, m, false);
      && ((exists k :: k in K && Under(k, m.prefix)) ==> r == Step(Failed(DirectoryNotEmpty), s))
      && ((forall k :: k in K ==> !Under(k, m.prefix)) && !m.IsBucket() ==>
            r == Step(Done, RemoveObjectsState(s, m.bucket, {m.prefix})))
      && ((forall k :: k in K ==> !Under(k, m.prefix)) && m.IsBucket() ==>
            && r.status.Done? && !BucketExistsIn(r.state, m.bucket)
            && forall n :: n != m.bucket ==> FindBucket(r.state.buckets, n) == FindBucket(s.buckets, n))
  {
    RmdirLoopSingle(s, m.bucket, m.prefix);
    if m.IsBucket() && forall k :: k in Keys(EntriesOf(s, m.bucket)) ==> !Under(k, m.prefix) {
      NothingUnderRoot(EntriesOf(s, m.bucket));
    }
  }

  /** `rmdir` without `recursive`: it raises `DirectoryNotEmpty` and changes
      nothing when anything lies below the directory; otherwise it removes the
      directory's marker, or the bare bucket. */
  lemma RmdirNonRecursive(s: Snapshot, path: string)
    requires ValidSnapshot(s) && ValidateDirectory(path).Ok? && !RootDirectory(path)
    requires BucketExistsIn(s, ValidateDirectory(path).value.bucket)
    ensures var m := ValidateDirectory(path).value;
      var K, r := Keys(EntriesOf(s, m.bucket)), RmdirStep(s, path, false);
      && ((exists k :: k in K && Under(k, m.prefix)) ==> r == Step(Failed(DirectoryNotEmpty), s))
      && ((forall k :: k in K ==> !Under(k, m.prefix)) && !m.IsBucket() ==>
            r == Step(Done, RemoveObjectsState(s, m.bucket, {m.prefix})))
      && ((forall k :: k in K ==> !Under(k, m.prefix)) && m.IsBucket() ==>
            && r.status.Done? && !BucketExistsIn(r.state, m.bucket)
            && forall n :: n != m.bucket ==> FindBucket(r.state.buckets, n) == FindBucket(s.buckets, n))
  {
    MatchFields(path);
    RmdirTreeSingle(s, ValidateDirectory(path).value);
  }

  /** A successful recursive `rmdir` keeps the marker of a directory that has
      something in a sub-directory: the loop removes a marker only when its
      listing shows no sub-directory. */
  lemma RmdirKeepsNestedMarker(s: Snapshot, path: string, k: string)
    requires ValidSnapshot(s) && ValidateDirectory(path).Ok? && !RootDirectory(path)
    requires !ValidateDirectory(path).value.IsBucket()
    requires var m := ValidateDirectory(path).value;
      && BucketExistsIn(s, m.bucket) && k in Keys(EntriesOf(s, m.bucket))
      && EndsWithSlash(k) && HasSubdir(Keys(EntriesOf(s, m.bucket)), k)
    ensures var m := ValidateDirectory(path).value;
      var r := RmdirStep(s, path, true);
      r.status.Done? && k in Keys(EntriesOf(r.state, m.bucket))
  {
    var m := ValidateDirectory(path).value;
    RmdirRecursive(s, path);
    assert k !in Removed(Keys(EntriesOf(s, m.bucket)), [m.prefix]);
  }

  // ---------------------------------------------------------------------------
  // truncate

  /** The bucket a name `listdir` reports for the root stands for. */
  function BucketOf(n: string): string
    requires EntryName(n)
  {
    n[..|n| - 1]
  }

  /** One turn of the loop of `truncate`: a recursive `rmdir` of the bare bucket. */
  lemma TruncateOne(s: Snapshot, n: string)
    requires ValidSnapshot(s) && EntryName(n) && BucketExistsIn(s, BucketOf(n))
    ensures var b, r := BucketOf(n), RmdirStep(s, Join(Root, n), true);
      && (r.status.Done? <==> Removable(Keys(EntriesOf(s, b))))
      && (r.status.Done? ==> && !BucketExistsIn(r.state, b)
                             && forall x :: x != b ==> FindBucket(r.state.buckets, x) == FindBucket(s.buckets, x))
      && (r.status.Failed? ==> r.status.error == DirectoryNotEmpty)
  {
    var b := BucketOf(n);
    var m := PathRef(Compose(b, "", ""), b, "", "");
    BucketPath(n);
    MatchFields(Join(Root, n));
    assert RmdirStep(s, Join(Root, n), true) == RmdirTree(s, m, true);
    RmdirTreeBucket(s, m);
  }

  /** The buckets that names `listdir` reported for the root stand for. */
  function BucketsOf(names: seq<string>): set<string>
    requires forall i :: 0 <= i < |names| ==> EntryName(names[i])
  {
    if names == [] then {} else {BucketOf(names[0])} + BucketsOf(names[1..])
  }

  lemma {:induction false} BucketsOfIndex(names: seq<string>, x: string)
    requires forall i :: 0 <= i < |names| ==> EntryName(names[i])
    ensures x in BucketsOf(names) <==> exists i :: 0 <= i < |names| && BucketOf(names[i]) == x
  {
    if names != [] {
      BucketsOfIndex(names[1..], x);
      if exists i :: 0 <= i < |names| && BucketOf(names[i]) == x {
        var i :| 0 <= i < |names| && BucketOf(names[i]) == x;
        if i > 0 { assert names[1..][i - 1] == names[i]; }
      }
    }
  }

  /** Distinct names stand for distinct buckets. */
  lemma BucketOfInjective(n1: string, n2: string)
    requires EntryName(n1) && EntryName(n2) && n1 != n2
    ensures BucketOf(n1) != BucketOf(n2)
  {
    assert n1 == BucketOf(n1) + "/" by { assert n1 == n1[..|n1| - 1] + [n1[|n1| - 1]]; }
    assert n2 == BucketOf(n2) + "/" by { assert n2 == n2[..|n2| - 1] + [n2[|n2| - 1]]; }
  }

  lemma NamesTail(names: seq<string>)
    requires names != [] && Distinct(names)
    requires forall i :: 0 <= i < |names| ==> EntryName(names[i])
    ensures Distinct(names[1..])
    ensures BucketOf(names[0]) !in BucketsOf(names[1..])
  {
    var rest := names[1..];
    BucketsOfIndex(rest, BucketOf(names[0]));
    forall i | 0 <= i < |rest| ensures BucketOf(rest[i]) != BucketOf(names[0]) {
      assert rest[i] == names[i + 1];
      BucketOfInjective(names[i + 1], names[0]);
    }
    forall i, j | 0 <= i < j < |rest| ensures rest[i] != rest[j] {
      assert rest[i] == names[i + 1] && rest[j] == names[j + 1];
    }
  }

  /** The loop of `truncate` over distinct names of existing buckets: it
      finishes exactly when every bucket it visits can be emptied, and then
      those buckets are gone; otherwise it raises `DirectoryNotEmpty`. */
  lemma {:induction false} TruncateFromRemoves(s: Snapshot, names: seq<string>)
    requires ValidSnapshot(s) && Distinct(names)
    requires forall i :: 0 <= i < |names| ==> EntryName(names[i])
    requires BucketsOf(names) <= BucketNames(s.buckets)
    ensures var r := TruncateFrom(s, names);
      && (r.status.Done? <==> forall n :: n in BucketsOf(names) ==> Removable(Keys(EntriesOf(s, n))))
      && (r.status.Done? ==> BucketNames(r.state.buckets) == BucketNames(s.buckets) - BucketsOf(names))
      && (r.status.Failed? ==> r.status.error == DirectoryNotEmpty)
    decreases |names|
  {
    if names != [] {
      var b := BucketOf(names[0]);
      TruncateOne(s, names[0]);
      var r1 := RmdirStep(s, Join(Root, names[0]), true);
      if r1.status.Done? {
        var rest := names[1..];
        NamesTail(names);
        TruncateRest(s, r1.state, b, BucketsOf(rest));
        assert ValidSnapshot(r1.state);
        assert forall i :: 0 <= i < |rest| ==> EntryName(rest[i]) by {
          forall i | 0 <= i < |rest| ensures EntryName(rest[i]) {
            assert rest[i] == names[i + 1];
          }
        }
        assert BucketsOf(rest) <= BucketNames(r1.state.buckets);
        TruncateFromRemoves(r1.state, rest);
        TruncateFromTurn(s, names);
      }
    }
  }

  /** After the first bucket is gone, the others are as they were. */
  lemma TruncateRest(s: Snapshot, s2: Snapshot, b: string, B: set<string>)
    requires b !in B && B <= BucketNames(s.buckets)
    requires !BucketExistsIn(s2, b) && BucketExistsIn(s, b)
    requires forall x :: x != b ==> FindBucket(s2.buckets, x) == FindBucket(s.buckets, x)
    ensures B <= BucketNames(s2.buckets)
    ensures forall n :: n in B ==> EntriesOf(s2, n) == EntriesOf(s, n)
    ensures BucketNames(s2.buckets) == BucketNames(s.buckets) - {b}
  {
    forall x ensures x in BucketNames(s2.buckets) <==> x in BucketNames(s.buckets) - {b} {
      if x != b {
        assert FindBucket(s2.buckets, x) == FindBucket(s.buckets, x);
      }
    }
  }

  lemma TruncateFromTurn(s: Snapshot, names: seq<string>)
    requires ValidSnapshot(s) && names != [] && forall i :: 0 <= i < |names| ==> EntryName(names[i])
    requires RmdirStep(s, Join(Root, names[0]), true).status.Done?
    ensures TruncateFrom(s, names) == TruncateFrom(RmdirStep(s, Join(Root, names[0]), true).state, names[1..])
  {
  }

  lemma {:induction false} BucketNamesDistinct(bs: seq<Bucket>, i: nat, j: nat)
    requires ValidBuckets(bs) && i < j < |bs|
    ensures bs[i].name != bs[j].name
  {
    assert bs[1..][j - 1] == bs[j];
    if i == 0 {
      BucketNamesAt(bs[1..], j - 1);
    } else {
      assert bs[1..][i - 1] == bs[i];
      BucketNamesDistinct(bs[1..], i - 1, j - 1);
    }
  }

  lemma {:induction false} BucketNamesIndex(bs: seq<Bucket>, n: string)
    requires n in BucketNames(bs)
    ensures exists i :: 0 <= i < |bs| && bs[i].name == n
  {
    if bs[0].name != n {
      BucketNamesIndex(bs[1..], n);
      var i :| 0 <= i < |bs[1..]| && bs[1..][i].name == n;
      assert bs[i + 1].name == n;
    }
  }

  predicate DistinctInfoNames(l: seq<BucketInfo>) {
    forall i, j :: 0 <= i < j < |l| ==> l[i].name != l[j].name
  }

  lemma {:induction false} InfoCount(l: seq<BucketInfo>, x: BucketInfo)
    requires DistinctInfoNames(l)
    ensures multiset(l)[x] <= 1
  {
    if l != [] {
      assert l == [l[0]] + l[1..];
      assert DistinctInfoNames(l[1..]) by {
        forall i, j | 0 <= i < j < |l[1..]| ensures l[1..][i].name != l[1..][j].name {
          assert l[1..][i] == l[i + 1] && l[1..][j] == l[j + 1];
        }
      }
      InfoCount(l[1..], x);
      if l[0] == x {
        assert x !in l[1..] by {
          forall j | 0 <= j < |l[1..]| ensures l[1..][j] != x {
            assert l[1..][j] == l[j + 1];
          }
        }
      }
    }
  }

  lemma ListBucketsDistinct(s: Snapshot)
    requires ValidSnapshot(s)
    ensures DistinctInfoNames(ListBucketsOf(s))
  {
    var lb := ListBucketsOf(s);
    forall i, j | 0 <= i < j < |lb| ensures lb[i].name != lb[j].name {
      BucketNamesDistinct(s.buckets, i, j);
    }
  }

  /** A reordering of a sequence with distinct names has distinct names. */
  lemma ReorderedDistinct(lb: seq<BucketInfo>, bs: seq<BucketInfo>)
    requires DistinctInfoNames(lb) && multiset(bs) == multiset(lb)
    ensures DistinctInfoNames(bs)
  {
    forall i, j | 0 <= i < j < |bs| ensures bs[i].name != bs[j].name {
      if bs[i] == bs[j] {
        assert multiset(bs)[bs[i]] >= 2 by {
          assert bs == bs[..i] + [bs[i]] + bs[i + 1..j] + [bs[j]] + bs[j + 1..];
        }
        InfoCount(lb, bs[i]);
      } else {
        assert bs[i] in multiset(lb) && bs[j] in multiset(lb);
        var k :| 0 <= k < |lb| && lb[k] == bs[i];
        var n :| 0 <= n < |lb| && lb[n] == bs[j];
        if k < n { } else { }
      }
    }
  }

  lemma EntryNamesDistinct(bs: seq<BucketInfo>)
    requires DistinctInfoNames(bs)
    ensures Distinct(BucketEntryNames(bs))
  {
    var names := BucketEntryNames(bs);
    forall i, j | 0 <= i < j < |names| ensures names[i] != names[j] {
      assert names[i] == bs[i].name + "/" && names[j] == bs[j].name + "/";
      AppendSlashInjective(bs[i].name, bs[j].name);
    }
  }

  /** `listdir(ROOT)` names every bucket exactly once. */
  lemma RootNamesDistinct(s: Snapshot)
    requires ValidSnapshot(s)
    ensures Distinct(BucketEntryNames(BucketsSorted(s)))
  {
    ListBucketsDistinct(s);
    ReorderedDistinct(ListBucketsOf(s), BucketsSorted(s));
    EntryNamesDistinct(BucketsSorted(s));
  }

  lemma RootNameOfBucket(s: Snapshot, x: string)
    requires ValidSnapshot(s) && x in BucketNames(s.buckets)
    ensures x + "/" in BucketEntryNames(BucketsSorted(s))
  {
    RootNames(s);
    BucketNamesIndex(s.buckets, x);
  }

  lemma BucketOfRootName(s: Snapshot, i: nat)
    requires ValidSnapshot(s) && i < |BucketEntryNames(BucketsSorted(s))|
    requires EntryName(BucketEntryNames(BucketsSorted(s))[i])
    ensures BucketOf(BucketEntryNames(BucketsSorted(s))[i]) in BucketNames(s.buckets)
  {
    var names := BucketEntryNames(BucketsSorted(s));
    RootNames(s);
    assert names[i] in names;
    var k :| 0 <= k < |s.buckets| && names[i] == s.buckets[k].name + "/";
    assert BucketOf(names[i]) == s.buckets[k].name;
    BucketNamesAt(s.buckets, k);
  }

  /** The buckets `listdir(ROOT)` names are the store's buckets. */
  lemma RootNamesAll(s: Snapshot)
    requires ValidSnapshot(s)
    ensures forall i :: 0 <= i < |BucketEntryNames(BucketsSorted(s))| ==>
      EntryName(BucketEntryNames(BucketsSorted(s))[i])
    ensures BucketsOf(BucketEntryNames(BucketsSorted(s))) == BucketNames(s.buckets)
  {
    var names := BucketEntryNames(BucketsSorted(s));
    RootEntryNames(s);
    forall x ensures x in BucketsOf(names) <==> x in BucketNames(s.buckets) {
      BucketsOfIndex(names, x);
      if x in BucketNames(s.buckets) {
        RootNameOfBucket(s, x);
        var i :| 0 <= i < |names| && names[i] == x + "/";
        assert BucketOf(names[i]) == x;
      }
      if x in BucketsOf(names) {
        var i :| 0 <= i < |names| && BucketOf(names[i]) == x;
        BucketOfRootName(s, i);
      }
    }
  }

  /** `truncate()`: it finishes exactly when every bucket can be emptied, and
      then no bucket is left; otherwise it raises `DirectoryNotEmpty`. */
  lemma Truncate(s: Snapshot)
    requires ValidSnapshot(s)
    ensures var r := TruncateStep(s);
      && (r.status.Done? <==> forall n :: n in BucketNames(s.buckets) ==> Removable(Keys(EntriesOf(s, n))))
      && (r.status.Done? ==> BucketNames(r.state.buckets) == {})
      && (r.status.Failed? ==> r.status.error == DirectoryNotEmpty)
  {
    RootNamesAll(s);
    RootNamesDistinct(s);
    TruncateFromRemoves(s, BucketEntryNames(BucketsSorted(s)));
  }

  /** `rmdir` of the root with `recursive` is `truncate()`. */
  lemma RmdirRoot(s: Snapshot, path: string)
    requires ValidSnapshot(s) && RootDirectory(path)
    ensures RmdirStep(s, path, true) == TruncateStep(s)
  {
  }

  lemma AppendSlashInjective(a: string, b: string)
    ensures a + "/" == b + "/" ==> a == b
  {
    if a + "/" == b + "/" {
      assert a == (a + "/")[..|a|];
    }
  }
}
