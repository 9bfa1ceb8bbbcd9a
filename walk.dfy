/** The breadth-first walk over a directory tree that `rmdir` and
    `copy_recursively` share: a worklist of directory prefixes, the first
    popped, listed, and its sub-directories appended. This module holds the
    shape of the worklist, the measure that shows the walk ends, and the walk
    `copy_recursively` makes over a store it does not change. */
module Walks {
  import opened Outcomes
  import opened PathStrings
  import opened Paths
  import opened Objects
  import opened Listing
  import opened ObjectStore
  import opened Views

  // ---------------------------------------------------------------------------
  // Prefixes

  lemma StartsWithTrans(a: string, b: string, c: string)
    requires StartsWith(a, b) && StartsWith(b, c)
    ensures StartsWith(a, c)
  {
    assert a[..|c|] == a[..|b|][..|c|];
  }

  /** Two prefixes of one string: the shorter is a prefix of the longer. */
  lemma StartsWithBoth(x: string, a: string, b: string)
    requires StartsWith(x, a) && StartsWith(x, b) && |a| <= |b|
    ensures StartsWith(b, a)
  {
    assert b[..|a|] == x[..|b|][..|a|];
  }

  predicate Distinct(s: seq<string>) {
    forall i, j :: 0 <= i < j < |s| ==> s[i] != s[j]
  }

  lemma PrependDistinct(n: string, s: seq<string>)
    requires Distinct(s) && n !in s
    ensures Distinct([n] + s)
  {
    var r := [n] + s;
    forall i, j | 0 <= i < j < |r| ensures r[i] != r[j] {
      assert r[j] == s[j - 1];
      if i > 0 { assert r[i] == s[i - 1]; }
    }
  }

  /** Every prefix of a key, the empty one included. */
  ghost function Prefixes(K: set<string>): set<string> {
    set k, i | k in K && 0 <= i <= |k| :: k[..i]
  }

  lemma PrefixIn(K: set<string>, k: string, q: string)
    requires k in K && StartsWith(k, q)
    ensures q in Prefixes(K)
  {
    assert q == k[..|q|];
  }

  /** `q` lies in, or is, one of the directories of the worklist. */
  ghost predicate UnderSome(q: string, pending: seq<string>) {
    exists e :: e in pending && StartsWith(q, e)
  }

  /** The directories of the keys `K` a walk of `pending` may still list: the
      prefixes ending in '/' (and the bucket itself) inside a directory of the
      worklist. */
  ghost function Reach(K: set<string>, pending: seq<string>): set<string> {
    set q | q in Prefixes(K) + {""} && (q == "" || EndsWithSlash(q)) && UnderSome(q, pending)
  }

  /** A worklist of directories: each is the bucket itself or ends in '/', and
      none lies inside another. */
  predicate Ready(pending: seq<string>) {
    && (forall i :: 0 <= i < |pending| ==> pending[i] == "" || EndsWithSlash(pending[i]))
    && (forall i, j :: 0 <= i < |pending| && 0 <= j < |pending| && i != j ==>
          !StartsWith(pending[i], pending[j]))
  }

  /** The sub-directories listed in directory `d` of the keys `K`: distinct,
      each `d`, one more component and '/', and only listed when some key lies
      in `d`. */
  predicate ChildrenOf(K: set<string>, d: string, children: seq<string>) {
    && ChildrenOfShape(d, children)
    && (children != [] ==> exists k :: k in K && StartsWith(k, d))
  }

  predicate ChildrenOfShape(d: string, children: seq<string>) {
    && Distinct(children)
    && (forall g :: g in children ==>
          StartsWith(g, d) && |g| > |d| && EndsWithSlash(g) && '/' !in g[|d|..|g| - 1])
  }

  /** Two sub-directories of one directory are not nested. */
  lemma SiblingsNotNested(d: string, g: string, h: string)
    requires StartsWith(g, d) && |g| > |d| && EndsWithSlash(g) && '/' !in g[|d|..|g| - 1]
    requires StartsWith(h, d) && |h| > |d| && EndsWithSlash(h) && '/' !in h[|d|..|h| - 1]
    requires g != h
    ensures !StartsWith(g, h)
  {
    if StartsWith(g, h) && |h| < |g| {
      assert false;
    }
  }

  /** The worklist after one step: the first directory popped and its
      sub-directories appended is a worklist again, and the walk has moved
      closer to its end, even when some keys were removed on the way. */
  lemma StepShrinks(K: set<string>, K': set<string>, pending: seq<string>, children: seq<string>)
    requires pending != [] && Ready(pending) && K' <= K
    requires ChildrenOf(K, pending[0], children)
    ensures Ready(pending[1..] + children)
    ensures var next := pending[1..] + children;
      || Reach(K', next) < Reach(K, pending)
      || (Reach(K', next) == Reach(K, pending) && |next| < |pending|)
  {
    var d := pending[0];
    var rest := pending[1..];
    var next := rest + children;
    NextReady(pending, children);
    assert Prefixes(K') <= Prefixes(K);
    forall q | q in Reach(K', next) ensures q in Reach(K, pending) {
      var e :| e in next && StartsWith(q, e);
      if e in children {
        StartsWithTrans(q, e, d);
        assert d in pending;
      } else {
        assert e in pending;
      }
    }
    if children != [] {
      var k :| k in K && StartsWith(k, d);
      PrefixIn(K, k, d);
      assert d in pending;
      assert d in Reach(K, pending);
      assert d !in Reach(K', next) by {
        forall e | e in next ensures !StartsWith(d, e) {
          if e !in children {
            var j :| 0 <= j < |rest| && rest[j] == e;
            assert pending[j + 1] == e;
          }
        }
      }
    } else {
      assert next == rest;
      if Reach(K', next) != Reach(K, pending) { }
    }
  }

  lemma NextReady(pending: seq<string>, children: seq<string>)
    requires pending != [] && Ready(pending)
    requires ChildrenOfShape(pending[0], children)
    ensures Ready(pending[1..] + children)
  {
    var d := pending[0];
    var rest := pending[1..];
    var next := rest + children;
    forall i | 0 <= i < |next| ensures next[i] == "" || EndsWithSlash(next[i]) {
      if i < |rest| { assert next[i] == pending[i + 1]; } else { assert next[i] in children; }
    }
    forall i, j | 0 <= i < |next| && 0 <= j < |next| && i != j ensures !StartsWith(next[i], next[j]) {
      if i < |rest| && j < |rest| {
        assert next[i] == pending[i + 1] && next[j] == pending[j + 1];
      } else if i >= |rest| && j >= |rest| {
        assert next[i] == children[i - |rest|] && next[j] == children[j - |rest|];
        SiblingsNotNested(d, next[i], next[j]);
      } else if i < |rest| {
        var e, g := pending[i + 1], children[j - |rest|];
        assert next[i] == e && next[j] == g;
        assert !StartsWith(e, d) && !StartsWith(d, e);
        if StartsWith(e, g) { StartsWithTrans(e, g, d); }
      } else {
        var g, e := children[i - |rest|], pending[j + 1];
        assert next[i] == g && next[j] == e;
        assert !StartsWith(e, d) && !StartsWith(d, e);
        if StartsWith(g, e) {
          if |e| <= |d| { StartsWithBoth(g, e, d); } else { StartsWithBoth(g, d, e); }
        }
      }
    }
  }

  // ---------------------------------------------------------------------------
  // What one listing contributes

  /** The reference `Match` gives the path of directory `d` of bucket `b`. */
  function DirRef(b: string, d: string): PathRef {
    PathRef(Compose(b, d, ""), b, d, "")
  }

  /** The names of a listing's directory items, in order. */
  function DirItems(l: seq<Listed>): (r: seq<string>)
    ensures forall n :: n in r <==> exists x :: x in l && x.isDir && x.objectName == n
  {
    if l == [] then []
    else
      assert l == [l[0]] + l[1..];
      (if l[0].isDir then [l[0].objectName] else []) + DirItems(l[1..])
  }

  /** The names of a listing's file items, in order. */
  function FileItems(l: seq<Listed>): (r: seq<string>)
    ensures forall n :: n in r <==> exists x :: x in l && !x.isDir && x.objectName == n
  {
    if l == [] then []
    else
      assert l == [l[0]] + l[1..];
      (if l[0].isDir then [] else [l[0].objectName]) + FileItems(l[1..])
  }

  lemma {:induction false} ItemsDistinct(l: seq<Listed>)
    requires DistinctNames(l)
    ensures Distinct(DirItems(l)) && Distinct(FileItems(l))
  {
    if l != [] {
      var t := l[1..];
      assert DistinctNames(t) by {
        forall i, j | 0 <= i < j < |t| ensures t[i].objectName != t[j].objectName {
          assert t[i] == l[i + 1] && t[j] == l[j + 1];
        }
      }
      ItemsDistinct(t);
      forall x | x in t ensures x.objectName != l[0].objectName {
        var j :| 0 <= j < |t| && t[j] == x;
        assert l[j + 1] == x;
      }
      if l[0].isDir {
        PrependDistinct(l[0].objectName, DirItems(t));
      } else {
        PrependDistinct(l[0].objectName, FileItems(t));
      }
    }
  }

  /** A listing of directory `d`, as `_get_objects_at` returns it, names the
      files directly in `d` and the sub-directories of `d`, each once. */
  lemma ChildrenFacts(s: Snapshot, b: string, d: string, l: seq<Listed>)
    requires ValidSnapshot(s) && ObjectsAt(s, DirRef(b, d)) == Ok(l)
    ensures var es := EntriesOf(s, b);
      && (forall g :: g in DirItems(l) <==> g in SubDirs(es, d))
      && (forall k :: k in FileItems(l) <==> k in FileKeys(es, d))
      && Distinct(DirItems(l)) && Distinct(FileItems(l))
      && ChildrenOf(Keys(es), d, DirItems(l))
  {
    assert ValidEntries(EntriesOf(s, b));
    ItemsOfListing(b, EntriesOf(s, b), d, l);
  }

  lemma ItemsOfListing(b: string, es: seq<Entry>, d: string, l: seq<Listed>)
    requires DistinctKeys(es) && multiset(l) == multiset(List(b, es, d))
    ensures && (forall g :: g in DirItems(l) <==> g in SubDirs(es, d))
            && (forall k :: k in FileItems(l) <==> k in FileKeys(es, d))
            && Distinct(DirItems(l)) && Distinct(FileItems(l))
            && ChildrenOf(Keys(es), d, DirItems(l))
  {
    var list := List(b, es, d);
    ListFacts(b, es, d);
    DistinctSub(l, list);
    ItemsDistinct(l);
    SameItems(l, list);
    ItemNamesOf(l, list, DirNames(list), FileNames(list));
    forall g | g in DirItems(l)
      ensures StartsWith(g, d) && |g| > |d| && EndsWithSlash(g) && '/' !in g[|d|..|g| - 1]
      ensures exists k :: k in Keys(es) && StartsWith(k, d)
    {
      SubDirShape(es, d, g);
    }
  }

  /** A sub-directory listed in `d` lies one component below `d`, and some
      key lies inside `d`. */
  lemma SubDirShape(es: seq<Entry>, d: string, g: string)
    requires g in SubDirs(es, d)
    ensures StartsWith(g, d) && |g| > |d| && EndsWithSlash(g) && '/' !in g[|d|..|g| - 1]
    ensures exists k :: k in Keys(es) && StartsWith(k, d)
  {
    var k :| k in Keys(es) && Deeper(k, d) && Group(k, d) == g;
  }

  lemma SameItems(l: seq<Listed>, list: seq<Listed>)
    requires multiset(l) == multiset(list)
    ensures forall x :: x in l <==> x in list
  {
    forall x ensures x in l <==> x in list {
      assert x in l <==> x in multiset(l);
      assert x in list <==> x in multiset(list);
    }
  }

  lemma ItemNamesOf(l: seq<Listed>, list: seq<Listed>, dirs: set<string>, files: set<string>)
    requires forall x :: x in l <==> x in list
    requires dirs == DirNames(list) && files == FileNames(list)
    ensures forall g :: g in DirItems(l) <==> g in dirs
    ensures forall k :: k in FileItems(l) <==> k in files
  {
  }

  // ---------------------------------------------------------------------------
  // The walk of copy_recursively

  /** The walk of `copy_recursively` over a store it does not change: from the
      worklist `pending`, the keys of the files it meets and the directories it
      finds without a sub-directory, in the order it meets them, after `files`
      and `leaves`. Only a missing bucket makes a listing fail. */
  function Walk(s: Snapshot, b: string, pending: seq<string>, files: seq<string>, leaves: seq<string>)
    : (r: Result<(seq<string>, seq<string>)>)
    requires ValidSnapshot(s) && Ready(pending)
    ensures r.Err? <==> pending != [] && !BucketExistsIn(s, b)
    ensures r.Err? ==> r.error == (if WellFormedBucketName(b) then NoSuchBucket else InvalidBucketName)
    decreases Reach(Keys(EntriesOf(s, b)), pending), |pending|
  {
    if pending == [] then Ok((files, leaves))
    else
      match ObjectsAt(s, DirRef(b, pending[0]))
      case Err(e) => Err(e)
      case Ok(l) =>
        var dirs := DirItems(l);
        ChildrenFacts(s, b, pending[0], l);
        var K := Keys(EntriesOf(s, b));
        StepShrinks(K, K, pending, dirs);
        Walk(s, b, pending[1..] + dirs, files + FileItems(l),
             if dirs == [] then leaves + [pending[0]] else leaves)
  }

  lemma AppendAssoc<T>(a: seq<T>, b: seq<T>, c: seq<T>)
    ensures a + b + c == a + (b + c)
  {
  }

  /** The walk only appends to what it has found so far: it finds from a
      worklist the same files and leaves whatever it found before. */
  lemma {:induction false} WalkAccumulates(s: Snapshot, b: string, pending: seq<string>,
                                           files: seq<string>, leaves: seq<string>)
    requires ValidSnapshot(s) && Ready(pending) && BucketExistsIn(s, b)
    ensures Walk(s, b, pending, files, leaves).Ok? && Walk(s, b, pending, [], []).Ok?
    ensures var w, w0 := Walk(s, b, pending, files, leaves).value, Walk(s, b, pending, [], []).value;
      w == (files + w0.0, leaves + w0.1)
    decreases Reach(Keys(EntriesOf(s, b)), pending), |pending|
  {
    if pending == [] {
      assert files + [] == files && leaves + [] == leaves;
    } else {
      var d := pending[0];
      var l := ObjectsAt(s, DirRef(b, d)).value;
      var dirs := DirItems(l);
      var found := FileItems(l);
      ChildrenFacts(s, b, d, l);
      var K := Keys(EntriesOf(s, b));
      StepShrinks(K, K, pending, dirs);
      var next := pending[1..] + dirs;
      var leaves' := if dirs == [] then leaves + [d] else leaves;
      var mark := if dirs == [] then [] + [d] else [];
      assert leaves' == leaves + mark;
      assert [] + found == found;
      WalkAccumulates(s, b, next, files + found, leaves');
      WalkAccumulates(s, b, next, found, mark);
      assert Walk(s, b, pending, files, leaves) == Walk(s, b, next, files + found, leaves');
      assert Walk(s, b, pending, [], []) == Walk(s, b, next, [] + found, mark);
      var w1 := Walk(s, b, next, [], []).value;
      AppendAssoc(files, found, w1.0);
      AppendAssoc(leaves, mark, w1.1);
    }
  }

  /** One round of the walk from scratch: the files of the first directory,
      then what the rest of the worklist finds; the first directory is a leaf
      exactly when it has no sub-directory. */
  lemma WalkUnfold(s: Snapshot, b: string, pending: seq<string>)
    requires ValidSnapshot(s) && Ready(pending) && BucketExistsIn(s, b) && pending != []
    ensures ObjectsAt(s, DirRef(b, pending[0])).Ok?
    ensures var l := ObjectsAt(s, DirRef(b, pending[0])).value;
      Ready(pending[1..] + DirItems(l))
    ensures var l := ObjectsAt(s, DirRef(b, pending[0])).value;
      var dirs := DirItems(l);
      var w1 := Walk(s, b, pending[1..] + dirs, [], []).value;
      && Walk(s, b, pending, [], []).Ok? && Walk(s, b, pending[1..] + dirs, [], []).Ok?
      && Walk(s, b, pending, [], []).value.0 == FileItems(l) + w1.0
      && Walk(s, b, pending, [], []).value.1 == if dirs == [] then [pending[0]] + w1.1 else w1.1
  {
    var d := pending[0];
    var l := ObjectsAt(s, DirRef(b, d)).value;
    var dirs := DirItems(l);
    WalkRound(s, b, pending, [], []);
    var next := pending[1..] + dirs;
    var mark := if dirs == [] then [d] else [];
    assert [] + FileItems(l) == FileItems(l);
    assert (if dirs == [] then [] + [d] else []) == mark by {
      if dirs == [] { assert [] + [d] == [d]; }
    }
    WalkAccumulates(s, b, next, FileItems(l), mark);
    MarkThen(d, dirs, Walk(s, b, next, [], []).value.1);
  }

  lemma MarkThen(d: string, dirs: seq<string>, t: seq<string>)
    ensures (if dirs == [] then [d] else []) + t == if dirs == [] then [d] + t else t
  {
    if dirs != [] { assert [] + t == t; }
  }

  /** One round of the walk: the first directory is listed, its files are
      recorded, it is marked a leaf when it has no sub-directory, and its
      sub-directories join the end of the worklist. */
  lemma WalkRound(s: Snapshot, b: string, pending: seq<string>, files: seq<string>, leaves: seq<string>)
    requires ValidSnapshot(s) && Ready(pending) && BucketExistsIn(s, b) && pending != []
    ensures ObjectsAt(s, DirRef(b, pending[0])).Ok?
    ensures var l := ObjectsAt(s, DirRef(b, pending[0])).value;
      Ready(pending[1..] + DirItems(l))
    ensures var l := ObjectsAt(s, DirRef(b, pending[0])).value;
      var dirs := DirItems(l);
      Walk(s, b, pending, files, leaves) ==
        Walk(s, b, pending[1..] + dirs, files + FileItems(l),
             if dirs == [] then leaves + [pending[0]] else leaves)
  {
    var l := ObjectsAt(s, DirRef(b, pending[0])).value;
    ChildrenFacts(s, b, pending[0], l);
    var K := Keys(EntriesOf(s, b));
    StepShrinks(K, K, pending, DirItems(l));
  }

  /** `k` is a file key inside a directory of the worklist. */
  ghost predicate FileOf(K: set<string>, pending: seq<string>, k: string) {
    k in K && !EndsWithSlash(k) && UnderSome(k, pending)
  }

  /** `q` is a directory of the keys `K`: the prefix of a key, ending in '/'. */
  ghost predicate KeyDir(K: set<string>, q: string) {
    EndsWithSlash(q) && exists k :: k in K && StartsWith(k, q)
  }

  /** A walk of the worklist lists `q`: a directory of the worklist, or a
      directory of the keys inside one of them. */
  ghost predicate VisitedBy(K: set<string>, pending: seq<string>, q: string) {
    q in pending || (KeyDir(K, q) && exists e :: e in pending && Under(q, e))
  }

  /** A visited directory with no sub-directory. */
  ghost predicate LeafOf(es: seq<Entry>, pending: seq<string>, q: string) {
    VisitedBy(Keys(es), pending, q) && SubDirs(es, q) == {}
  }

  /** One step of the walk: a file inside the worklist is a file directly in
      the first directory, or a file inside the worklist that follows. */
  lemma FilesStep(es: seq<Entry>, pending: seq<string>, dirs: seq<string>)
    requires ValidEntries(es) && pending != [] && Ready(pending)
    requires forall g :: g in dirs <==> g in SubDirs(es, pending[0])
    ensures forall k :: FileOf(Keys(es), pending, k) <==>
      k in FileKeys(es, pending[0]) || FileOf(Keys(es), pending[1..] + dirs, k)
  {
    var d := pending[0];
    var next := pending[1..] + dirs;
    var K := Keys(es);
    forall k | FileOf(K, pending, k) && k !in FileKeys(es, d) ensures FileOf(K, next, k) {
      var e :| e in pending && StartsWith(k, e);
      if e == d {
        assert WellFormedKey(k);
        assert k != d;
        assert Deeper(k, d);
        assert Group(k, d) in dirs;
      } else {
        var j :| 0 <= j < |pending| && pending[j] == e;
        assert e in pending[1..] by { assert pending[1..][j - 1] == e; }
      }
    }
    forall k | FileOf(K, next, k) ensures FileOf(K, pending, k) {
      var e :| e in next && StartsWith(k, e);
      if e in dirs {
        StartsWithTrans(k, e, d);
        assert d in pending;
      } else {
        assert e in pending;
      }
    }
    forall k | k in FileKeys(es, d) ensures FileOf(K, pending, k) {
      DirectNotSlash(k, d);
      assert d in pending;
    }
  }

  /** A directory inside `d` lies in, or is, the sub-directory of `d` it starts with. */
  lemma InsideChild(es: seq<Entry>, d: string, q: string) returns (g: string)
    requires KeyDir(Keys(es), q) && Under(q, d)
    ensures g in SubDirs(es, d) && StartsWith(q, g)
  {
    var k :| k in Keys(es) && StartsWith(k, q);
    StartsWithTrans(k, q, d);
    assert k[|d|..][|q| - 1 - |d|] == '/';
    assert Deeper(k, d);
    g := Group(k, d);
    if |q| < |g| {
      assert false;
    }
    StartsWithBoth(k, g, q);
  }

  /** One step of the walk: the directories it lists are the first one and
      those the rest of the walk lists. */
  lemma VisitedStep(es: seq<Entry>, pending: seq<string>, dirs: seq<string>)
    requires pending != [] && Ready(pending)
    requires forall g :: g in dirs <==> g in SubDirs(es, pending[0])
    ensures forall q :: VisitedBy(Keys(es), pending, q) <==>
      q == pending[0] || VisitedBy(Keys(es), pending[1..] + dirs, q)
  {
    VisitedShrinks(es, pending, dirs);
    VisitedGrows(es, pending, dirs);
    assert pending[0] in pending;
  }

  lemma VisitedShrinks(es: seq<Entry>, pending: seq<string>, dirs: seq<string>)
    requires pending != [] && Ready(pending)
    requires forall g :: g in dirs <==> g in SubDirs(es, pending[0])
    ensures forall q :: VisitedBy(Keys(es), pending, q) && q != pending[0] ==>
      VisitedBy(Keys(es), pending[1..] + dirs, q)
  {
    var d := pending[0];
    var next := pending[1..] + dirs;
    var K := Keys(es);
    forall q | VisitedBy(K, pending, q) && q != d ensures VisitedBy(K, next, q) {
      if q in pending {
        var j :| 0 <= j < |pending| && pending[j] == q;
        assert pending[1..][j - 1] == q;
      } else {
        var e :| e in pending && Under(q, e);
        if e == d {
          var g := InsideChild(es, d, q);
          assert g in dirs && g in next;
          if q != g { assert Under(q, g); }
        } else {
          var j :| 0 <= j < |pending| && pending[j] == e;
          assert pending[1..][j - 1] == e;
          assert e in next;
        }
      }
    }
  }

  lemma VisitedGrows(es: seq<Entry>, pending: seq<string>, dirs: seq<string>)
    requires pending != []
    requires forall g :: g in dirs <==> g in SubDirs(es, pending[0])
    ensures forall q :: VisitedBy(Keys(es), pending[1..] + dirs, q) ==> VisitedBy(Keys(es), pending, q)
  {
    var d := pending[0];
    var next := pending[1..] + dirs;
    var K := Keys(es);
    assert d in pending;
    forall q | VisitedBy(K, next, q) ensures VisitedBy(K, pending, q) {
      if q in next {
        if q in dirs {
          var k :| k in K && Deeper(k, d) && Group(k, d) == q;
          assert KeyDir(K, q);
        } else {
          assert q in pending;
        }
      } else {
        var e :| e in next && Under(q, e);
        if e in dirs {
          StartsWithTrans(q, e, d);
        } else {
          assert e in pending;
        }
      }
    }
  }

  /** One step of the walk: a leaf is the first directory, when it has no
      sub-directory, or a leaf of the rest of the walk. */
  lemma LeavesStep(es: seq<Entry>, pending: seq<string>, dirs: seq<string>)
    requires pending != [] && Ready(pending)
    requires forall g :: g in dirs <==> g in SubDirs(es, pending[0])
    ensures forall q :: LeafOf(es, pending, q) <==>
      (q == pending[0] && dirs == []) || LeafOf(es, pending[1..] + dirs, q)
  {
    VisitedStep(es, pending, dirs);
    if dirs != [] {
      assert dirs[0] in SubDirs(es, pending[0]);
    }
  }

  /** The walk meets every file inside the worklist and lists as leaves exactly
      the visited directories with no sub-directory. */
  lemma {:induction false} WalkCovers(s: Snapshot, b: string, pending: seq<string>,
                                       files: seq<string>, leaves: seq<string>)
    requires ValidSnapshot(s) && Ready(pending) && BucketExistsIn(s, b)
    ensures Walk(s, b, pending, files, leaves).Ok?
    ensures var es, w := EntriesOf(s, b), Walk(s, b, pending, files, leaves).value;
      && (forall k :: k in w.0 <==> k in files || FileOf(Keys(es), pending, k))
      && (forall q :: q in w.1 <==> q in leaves || LeafOf(es, pending, q))
    decreases Reach(Keys(EntriesOf(s, b)), pending), |pending|
  {
    var es := EntriesOf(s, b);
    if pending != [] {
      var d := pending[0];
      var l := ObjectsAt(s, DirRef(b, d)).value;
      var dirs := DirItems(l);
      ChildrenFacts(s, b, d, l);
      assert ValidEntries(es);
      var K := Keys(es);
      StepShrinks(K, K, pending, dirs);
      var next := pending[1..] + dirs;
      var leaves' := if dirs == [] then leaves + [d] else leaves;
      WalkCovers(s, b, next, files + FileItems(l), leaves');
      assert Walk(s, b, pending, files, leaves) == Walk(s, b, next, files + FileItems(l), leaves');
      FilesStep(es, pending, dirs);
      LeavesStep(es, pending, dirs);
    }
  }

  /** `copy_recursively` from directory `p`: the walk meets exactly the file
      keys inside `p`, and its leaves are exactly the directories inside `p`,
      `p` included, that have no sub-directory. */
  lemma WalkFrom(s: Snapshot, b: string, p: string)
    requires ValidSnapshot(s) && BucketExistsIn(s, b) && (p == "" || EndsWithSlash(p))
    ensures Walk(s, b, [p], [], []).Ok?
    ensures var es, w := EntriesOf(s, b), Walk(s, b, [p], [], []).value;
      && (forall k :: k in w.0 <==> k in Keys(es) && !EndsWithSlash(k) && StartsWith(k, p))
      && (forall q :: q in w.1 <==>
            (q == p || (KeyDir(Keys(es), q) && Under(q, p))) && SubDirs(es, q) == {})
      && Distinct(w.0)
  {
    WalkCovers(s, b, [p], [], []);
    WalkOnce(s, b, [p], [], []);
    assert forall k :: UnderSome(k, [p]) <==> StartsWith(k, p) by {
      forall k ensures UnderSome(k, [p]) <==> StartsWith(k, p) {
        if StartsWith(k, p) { assert p in [p]; }
      }
    }
    forall q ensures VisitedBy(Keys(EntriesOf(s, b)), [p], q) <==>
      q == p || (KeyDir(Keys(EntriesOf(s, b)), q) && Under(q, p))
    {
      if Under(q, p) { assert p in [p]; }
    }
  }

  lemma AppendDistinct(a: seq<string>, b: seq<string>)
    requires Distinct(a) && Distinct(b) && forall x :: x in a ==> x !in b
    ensures Distinct(a + b)
  {
    var r := a + b;
    forall i, j | 0 <= i < j < |r| ensures r[i] != r[j] {
      if j < |a| {
        assert r[i] == a[i] && r[j] == a[j];
      } else if i >= |a| {
        assert r[i] == b[i - |a|] && r[j] == b[j - |a|];
      } else {
        assert r[i] == a[i] && r[j] == b[j - |a|] && r[j] in b;
      }
    }
  }

  /** The walk meets each file once: none of the files met so far lies inside
      the worklist. */
  lemma {:induction false} WalkOnce(s: Snapshot, b: string, pending: seq<string>,
                                     files: seq<string>, leaves: seq<string>)
    requires ValidSnapshot(s) && Ready(pending) && BucketExistsIn(s, b)
    requires Distinct(files) && forall k :: k in files ==> !UnderSome(k, pending)
    ensures Walk(s, b, pending, files, leaves).Ok?
    ensures Distinct(Walk(s, b, pending, files, leaves).value.0)
    decreases Reach(Keys(EntriesOf(s, b)), pending), |pending|
  {
    if pending != [] {
      var es := EntriesOf(s, b);
      var d := pending[0];
      var l := ObjectsAt(s, DirRef(b, d)).value;
      var dirs := DirItems(l);
      var found := FileItems(l);
      ChildrenFacts(s, b, d, l);
      var K := Keys(es);
      StepShrinks(K, K, pending, dirs);
      var next := pending[1..] + dirs;
      assert d in pending;
      forall k | k in found ensures k !in files {
        assert StartsWith(k, d);
      }
      AppendDistinct(files, found);
      forall k | k in files + found ensures !UnderSome(k, next) {
        if k in files {
          forall e | e in next ensures !StartsWith(k, e) {
            if e in dirs { if StartsWith(k, e) { StartsWithTrans(k, e, d); } }
            else { assert e in pending; }
          }
        } else {
          FoundOutsideNext(pending, dirs, k);
        }
      }
      var leaves' := if dirs == [] then leaves + [d] else leaves;
      WalkOnce(s, b, next, files + found, leaves');
      assert Walk(s, b, pending, files, leaves) == Walk(s, b, next, files + found, leaves');
    }
  }

  /** A file directly in the first directory lies in no directory of the
      worklist that follows. */
  lemma FoundOutsideNext(pending: seq<string>, dirs: seq<string>, k: string)
    requires pending != [] && Ready(pending) && ChildrenOfShape(pending[0], dirs)
    requires Direct(k, pending[0])
    ensures !UnderSome(k, pending[1..] + dirs)
  {
    var d := pending[0];
    forall e | e in pending[1..] + dirs ensures !StartsWith(k, e) {
      if e in dirs {
        if StartsWith(k, e) {
          assert false;
        }
      } else {
        var j :| 0 <= j < |pending[1..]| && pending[1..][j] == e;
        assert pending[j + 1] == e;
        if StartsWith(k, e) {
          if |e| <= |d| { StartsWithBoth(k, e, d); } else { StartsWithBoth(k, d, e); }
        }
      }
    }
  }
}
