/** The listing part of `Pyminio`: `_get_objects_at`, `_get_buckets` and
    `listdir`. Each is a function of the store snapshot it reads. */
module Views {
  import opened Outcomes
  import opened PathStrings
  import opened Paths
  import opened Sorting
  import opened Metadata
  import opened Objects
  import opened Listing
  import opened ObjectStore

  // ---------------------------------------------------------------------------
  // Timestamps and sorted listings

  /** `get_last_modified`: a missing timestamp counts as the epoch. */
  function LastModifiedOrEpoch(x: Listed): int {
    match x.lastModified
    case None => 0
    case Some(t) => t
  }

  /** `get_creation_date`: a missing creation date counts as the epoch. */
  function CreationOrEpoch(b: BucketInfo): int {
    match b.created
    case None => 0
    case Some(t) => t
  }

  /** `_get_objects_at`: the listing of the directory, newest first. */
  function ObjectsAt(s: Snapshot, m: PathRef): (r: Result<seq<Listed>>)
    ensures r.Err? <==> !WellFormedBucketName(m.bucket) || !BucketExistsIn(s, m.bucket)
    ensures r.Err? ==> r.error == (if WellFormedBucketName(m.bucket) then NoSuchBucket else InvalidBucketName)
    ensures ValidSnapshot(s) ==> (r.Err? <==> !BucketExistsIn(s, m.bucket))
    ensures r.Ok? ==> multiset(r.value) == multiset(List(m.bucket, EntriesOf(s, m.bucket), m.prefix))
  {
    match ListObjectsOf(s, m.bucket, m.prefix)
    case Err(e) => Err(e)
    case Ok(l) => Ok(SortDesc(l, LastModifiedOrEpoch))
  }

  /** `_get_buckets`: the buckets, newest first. */
  function BucketsSorted(s: Snapshot): (r: seq<BucketInfo>)
    ensures multiset(r) == multiset(ListBucketsOf(s))
  {
    SortDesc(ListBucketsOf(s), CreationOrEpoch)
  }

  /** `_get_objects_at` orders by timestamp, newest first, stably: items with
      the same timestamp keep the order of the store's listing. */
  lemma ObjectsAtOrder(s: Snapshot, m: PathRef)
    requires WellFormedBucketName(m.bucket) && BucketExistsIn(s, m.bucket)
    ensures var l := List(m.bucket, EntriesOf(s, m.bucket), m.prefix);
      && Descending(ObjectsAt(s, m).value, LastModifiedOrEpoch)
      && forall t :: WithKey(ObjectsAt(s, m).value, LastModifiedOrEpoch, t) == WithKey(l, LastModifiedOrEpoch, t)
  {
    var l := List(m.bucket, EntriesOf(s, m.bucket), m.prefix);
    SortDescending(l, LastModifiedOrEpoch);
    forall t ensures WithKey(ObjectsAt(s, m).value, LastModifiedOrEpoch, t) == WithKey(l, LastModifiedOrEpoch, t) {
      SortStable(l, LastModifiedOrEpoch, t);
    }
  }

  /** `_get_buckets` orders by creation date, newest first, stably. */
  lemma BucketsOrder(s: Snapshot)
    ensures Descending(BucketsSorted(s), CreationOrEpoch)
    ensures forall t :: WithKey(BucketsSorted(s), CreationOrEpoch, t) == WithKey(ListBucketsOf(s), CreationOrEpoch, t)
  {
    SortDescending(ListBucketsOf(s), CreationOrEpoch);
    forall t ensures WithKey(BucketsSorted(s), CreationOrEpoch, t) == WithKey(ListBucketsOf(s), CreationOrEpoch, t) {
      SortStable(ListBucketsOf(s), CreationOrEpoch, t);
    }
  }

  // ---------------------------------------------------------------------------
  // listdir

  /** The items `listdir` reports: all of them, or the files only. */
  function Kept(l: seq<Listed>, onlyFiles: bool): (r: seq<Listed>)
    ensures forall x :: x in r <==> x in l && (!onlyFiles || !x.isDir)
    ensures multiset(r) <= multiset(l)
  {
    if l == [] then []
    else
      var t := Kept(l[1..], onlyFiles);
      assert l == [l[0]] + l[1..];
      if !onlyFiles || !l[0].isDir then [l[0]] + t else t
  }

  /** `n` with the directory prefix `p` cut off its front. */
  function StripPrefix(n: string, p: string): (r: string)
    ensures StartsWith(n, p) ==> p + r == n
  {
    if StartsWith(n, p) then
      assert n == n[..|p|] + n[|p|..];
      n[|p|..]
    else n
  }

  function BucketEntryNames(bs: seq<BucketInfo>): (r: seq<string>)
    ensures |r| == |bs|
    ensures forall i :: 0 <= i < |bs| ==> r[i] == bs[i].name + "/"
  {
    seq(|bs|, i requires 0 <= i < |bs| => bs[i].name + "/")
  }

  /** The names of the items, relative to the directory `p`. */
  function Relative(l: seq<Listed>, p: string): (r: seq<string>)
    ensures |r| == |l|
    ensures forall i :: 0 <= i < |l| ==> r[i] == StripPrefix(l[i].objectName, p)
  {
    seq(|l|, i requires 0 <= i < |l| => StripPrefix(l[i].objectName, p))
  }

  /** The names of the items with every occurrence of `p` deleted. */
  function RelativeAsWritten(l: seq<Listed>, p: string): (r: seq<string>)
    ensures |r| == |l|
    ensures forall i :: 0 <= i < |l| ==> r[i] == RemoveAll(l[i].objectName, p)
  {
    seq(|l|, i requires 0 <= i < |l| => RemoveAll(l[i].objectName, p))
  }

  /** The items `listdir` reports for a directory other than the root. */
  function ListDirItems(s: Snapshot, m: PathRef, onlyFiles: bool): Result<seq<Listed>> {
    match ObjectsAt(s, m)
    case Err(e) => Err(e)
    case Ok(l) => Ok(Kept(l, onlyFiles))
  }

  /** `listdir`, with each name relative to the directory. Of the root it lists
      the buckets with '/' appended, newest first (none when only files are
      asked for). */
  function ListDir(s: Snapshot, path: string, onlyFiles: bool): Result<seq<string>> {
    match ValidateDirectory(path)
    case Err(e) => Err(e)
    case Ok(m) =>
      if m.IsRoot() then (if onlyFiles then Ok([]) else Ok(BucketEntryNames(BucketsSorted(s))))
      else
        match ListDirItems(s, m, onlyFiles)
        case Err(e) => Err(e)
        case Ok(l) => Ok(Relative(l, m.prefix))
  }

  /** `listdir` as written: `object_name.replace(prefix, '')` deletes every
      occurrence of the prefix, not only the leading one. */
  function ListDirAsWritten(s: Snapshot, path: string, onlyFiles: bool): Result<seq<string>> {
    match ValidateDirectory(path)
    case Err(e) => Err(e)
    case Ok(m) =>
      if m.IsRoot() then (if onlyFiles then Ok([]) else Ok(BucketEntryNames(BucketsSorted(s))))
      else
        match ListDirItems(s, m, onlyFiles)
        case Err(e) => Err(e)
        case Ok(l) => Ok(RelativeAsWritten(l, m.prefix))
  }

  /** A directory `a/ba/` listed inside `a/` is reported as `b` by the code as
      written, where `ba/` is meant. */
  lemma ListDirAsWrittenDropsRepeatedPrefix(s: Snapshot, path: string)
    requires s == OneDirectoryStore() && path == "/x/a/"
    ensures ListDirAsWritten(s, path, false) == Ok(["b"])
    ensures ListDir(s, path, false) == Ok(["ba/"])
  {
    var l := [DirEntry("x", "a/ba/")];
    var m := PathRef("/x/a/", "x", "a/", "");
    OneDirectoryListed();
    StripRepeatedPrefix();
    RemoveRepeatedPrefix();
    SingleName(s, path, m, l);
  }

  lemma SingleName(s: Snapshot, path: string, m: PathRef, l: seq<Listed>)
    requires ValidateDirectory(path) == Ok(m) && !m.IsRoot()
    requires ListDirItems(s, m, false) == Ok(l) && |l| == 1
    ensures ListDirAsWritten(s, path, false) == Ok([RemoveAll(l[0].objectName, m.prefix)])
    ensures ListDir(s, path, false) == Ok([StripPrefix(l[0].objectName, m.prefix)])
  {
    var a := RelativeAsWritten(l, m.prefix);
    var b := Relative(l, m.prefix);
    assert ListDirAsWritten(s, path, false) == Ok(a);
    assert ListDir(s, path, false) == Ok(b);
    assert a == [a[0]] && b == [b[0]];
  }

  /** The directory is not a bucket's top level, and its prefix occurs again
      in one of the names the intended `listdir` reports. */
  ghost predicate PrefixRepeats(s: Snapshot, path: string, onlyFiles: bool) {
    match ValidateDirectory(path)
    case Err(_) => false
    case Ok(m) =>
      && m.prefix != []
      && ListDir(s, path, onlyFiles).Ok?
      && exists n :: n in ListDir(s, path, onlyFiles).value && Contains(n, m.prefix)
  }

  /** `listdir` as written reports what is intended exactly when the
      directory's prefix does not occur again in any reported name. */
  lemma ListDirAsWrittenAgrees(s: Snapshot, path: string, onlyFiles: bool)
    requires ValidSnapshot(s)
    ensures ListDirAsWritten(s, path, onlyFiles) == ListDir(s, path, onlyFiles) <==>
      !PrefixRepeats(s, path, onlyFiles)
  {
    match ValidateDirectory(path)
    case Err(_) =>
    case Ok(m) =>
      if !m.IsRoot() && BucketExistsIn(s, m.bucket) {
        var es := EntriesOf(s, m.bucket);
        var sorted := ObjectsAt(s, m).value;
        var items := Kept(sorted, onlyFiles);
        var r := Relative(items, m.prefix);
        assert ValidEntries(es);
        ListDirIsRelative(s, path, m, onlyFiles);
        ItemPrefixes(m.bucket, es, m.prefix, sorted, onlyFiles, items, r);
        RelativeAgrees(items, m.prefix, r);
        assert ListDirAsWritten(s, path, onlyFiles) == Ok(RelativeAsWritten(items, m.prefix));
      }
  }

  /** Names that follow the prefix in the items' names: deleting every
      occurrence of the prefix gives them back exactly when none of them holds
      the prefix again. */
  lemma RelativeAgrees(items: seq<Listed>, p: string, r: seq<string>)
    requires r == Relative(items, p)
    requires forall i :: 0 <= i < |items| ==> p + r[i] == items[i].objectName
    ensures RelativeAsWritten(items, p) == r <==>
      p == [] || forall n :: n in r ==> !Contains(n, p)
  {
    var a := RelativeAsWritten(items, p);
    if p == [] {
      assert a == r;
    } else {
      forall i | 0 <= i < |r| ensures a[i] == r[i] <==> !Contains(r[i], p) {
        RemoveAllAfterLead(p, r[i]);
      }
      if forall n :: n in r ==> !Contains(n, p) {
        assert a == r;
      }
      if a == r {
        forall n | n in r ensures !Contains(n, p) {
          var i :| 0 <= i < |r| && r[i] == n;
        }
      }
    }
  }

  lemma StripRepeatedPrefix()
    ensures StripPrefix("a/ba/", "a/") == "ba/"
  {
    assert StartsWith("a/ba/", "a/");
  }

  /** A store whose bucket `x` holds the one marker `a/ba/`. */
  function OneDirectoryStore(): Snapshot {
    Snapshot([Bucket("x", Some(0), [Entry("a/ba/", Obj([], Some(1), None))])], 2)
  }

  lemma OneDirectoryListed()
    ensures ValidateDirectory("/x/a/") == Ok(PathRef("/x/a/", "x", "a/", ""))
    ensures ListDirItems(OneDirectoryStore(), PathRef("/x/a/", "x", "a/", ""), false) ==
      Ok([DirEntry("x", "a/ba/")])
  {
    assert Compose("x", "a/", "") == "/x/a/";
    MatchCompose("x", "a/", "");
    var m, x := PathRef("/x/a/", "x", "a/", ""), DirEntry("x", "a/ba/");
    OneDirectoryList();
    var r := ObjectsAt(OneDirectoryStore(), m);
    OnlyItem(r.value, x);
    assert [x][1..] == [];
  }

  /** The listing of `a/` in that store: the one directory `a/ba/`. */
  lemma OneDirectoryList()
    ensures List("x", EntriesOf(OneDirectoryStore(), "x"), "a/") == [DirEntry("x", "a/ba/")]
    ensures BucketExistsIn(OneDirectoryStore(), "x")
  {
    OneDirectoryGroup();
    var es := [Entry("a/ba/", Obj([], Some(1), None))];
    assert es[1..] == [];
    assert EntriesOf(OneDirectoryStore(), "x") == es;
  }

  /** A sequence holding exactly one item is that item alone. */
  lemma OnlyItem<T>(r: seq<T>, x: T)
    requires multiset(r) == multiset([x])
    ensures r == [x]
  {
    assert |r| == |multiset(r)| == 1;
    assert r[0] in multiset(r);
  }

  lemma OneDirectoryGroup()
    ensures Deeper("a/ba/", "a/") && Group("a/ba/", "a/") == "a/ba/"
  {
    var k := "a/ba/";
    assert StartsWith(k, "a/") && k[2..] == "ba/";
    assert "ba/"[2] == '/';
    assert IndexOf("ba/", '/') == Some(2);
  }

  lemma RemoveRepeatedPrefix()
    ensures RemoveAll("a/ba/", "a/") == "b"
  {
    assert StartsWith("a/ba/", "a/") && "a/ba/"[2..] == "ba/";
    assert "ba/"[..2] == "ba";
    assert !StartsWith("ba/", "a/") && "ba/"[1..] == "a/";
    assert StartsWith("a/", "a/") && "a/"[2..] == [];
    assert RemoveAll("a/", "a/") == [];
  }

  // ---------------------------------------------------------------------------
  // What listdir reports

  /** The creation date of bucket `name`, the epoch when it has none. */
  function CreatedAt(s: Snapshot, name: string): int {
    match FindBucket(s.buckets, name)
    case None => 0
    case Some(b) => CreationOrEpoch(BucketInfo(b.name, b.created))
  }

  /** `listdir` of the root: nothing when only files are asked for; otherwise
      every bucket once, as its name with '/' appended, newest first. */
  lemma ListDirRoot(s: Snapshot, path: string)
    requires ValidSnapshot(s)
    requires Match(path).Ok? && Match(path).value.IsRoot()
    ensures ListDir(s, path, true) == Ok([])
    ensures ListDir(s, path, false).Ok?
    ensures var r := ListDir(s, path, false).value;
      && |r| == |s.buckets|
      && (forall x :: x in r <==> exists i :: 0 <= i < |s.buckets| && x == s.buckets[i].name + "/")
      && (forall i :: 0 <= i < |r| ==> EndsWithSlash(r[i]))
      && (forall i, j :: 0 <= i < j < |r| ==>
            CreatedAt(s, r[i][..|r[i]| - 1]) >= CreatedAt(s, r[j][..|r[j]| - 1]))
  {
    assert ListDir(s, path, false) == Ok(BucketEntryNames(BucketsSorted(s)));
    RootNames(s);
  }

  lemma RootNames(s: Snapshot)
    requires ValidSnapshot(s)
    ensures var r := BucketEntryNames(BucketsSorted(s));
      && |r| == |s.buckets|
      && (forall x :: x in r <==> exists i :: 0 <= i < |s.buckets| && x == s.buckets[i].name + "/")
      && (forall i :: 0 <= i < |r| ==> EndsWithSlash(r[i]))
      && (forall i, j :: 0 <= i < j < |r| ==>
            CreatedAt(s, r[i][..|r[i]| - 1]) >= CreatedAt(s, r[j][..|r[j]| - 1]))
  {
    BucketsOrder(s);
    SortedBucketNames(s, BucketsSorted(s));
  }

  lemma SortedBucketNames(s: Snapshot, bs: seq<BucketInfo>)
    requires ValidSnapshot(s)
    requires multiset(bs) == multiset(ListBucketsOf(s)) && Descending(bs, CreationOrEpoch)
    ensures var r := BucketEntryNames(bs);
      && |r| == |s.buckets|
      && (forall x :: x in r <==> exists i :: 0 <= i < |s.buckets| && x == s.buckets[i].name + "/")
      && (forall i :: 0 <= i < |r| ==> EndsWithSlash(r[i]))
      && (forall i, j :: 0 <= i < j < |r| ==>
            CreatedAt(s, r[i][..|r[i]| - 1]) >= CreatedAt(s, r[j][..|r[j]| - 1]))
  {
    var r := BucketEntryNames(bs);
    var lb := ListBucketsOf(s);
    assert |bs| == |lb| by { assert |multiset(bs)| == |multiset(lb)|; }
    forall i | 0 <= i < |r|
      ensures exists k :: 0 <= k < |s.buckets| && bs[i] == BucketInfo(s.buckets[k].name, s.buckets[k].created)
      ensures r[i][..|r[i]| - 1] == bs[i].name
      ensures CreatedAt(s, bs[i].name) == CreationOrEpoch(bs[i])
    {
      assert bs[i] in multiset(lb);
      ListedBucket(s, bs[i]);
      assert r[i] == bs[i].name + "/";
    }
    SortedBucketsCover(s, bs, r);
  }

  /** A bucket `list_buckets` reports is a bucket of the store, with its own
      creation date. */
  lemma ListedBucket(s: Snapshot, x: BucketInfo)
    requires ValidSnapshot(s) && x in multiset(ListBucketsOf(s))
    ensures exists k :: 0 <= k < |s.buckets| && x == BucketInfo(s.buckets[k].name, s.buckets[k].created)
    ensures CreatedAt(s, x.name) == CreationOrEpoch(x)
  {
    var lb := ListBucketsOf(s);
    var k :| 0 <= k < |lb| && lb[k] == x;
    FindBucketAt(s.buckets, k);
  }

  /** Every bucket of the store is named in the root listing. */
  lemma SortedBucketsCover(s: Snapshot, bs: seq<BucketInfo>, r: seq<string>)
    requires multiset(bs) == multiset(ListBucketsOf(s)) && r == BucketEntryNames(bs)
    ensures forall k :: 0 <= k < |s.buckets| ==> s.buckets[k].name + "/" in r
  {
    var lb := ListBucketsOf(s);
    forall k | 0 <= k < |s.buckets| ensures s.buckets[k].name + "/" in r {
      assert lb[k] in multiset(bs);
      var i :| 0 <= i < |bs| && bs[i] == lb[k];
      assert r[i] == s.buckets[k].name + "/";
    }
  }

  /** The timestamp `listdir` orders the name `n` of directory `p` by: a file's
      last-modified time, and the epoch for a sub-directory. */
  function NameTime(es: seq<Entry>, p: string, n: string): int {
    if EndsWithSlash(n) then 0
    else
      match Lookup(es, p + n)
      case None => 0
      case Some(o) => match o.lastModified case None => 0 case Some(t) => t
  }

  /** `listdir` of a directory other than the root: each file directly inside it
      and (unless only files are asked for) each sub-directory, once, relative to
      the directory, newest first. */
  lemma ListDirContents(s: Snapshot, path: string, onlyFiles: bool)
    requires ValidSnapshot(s)
    requires ValidateDirectory(path).Ok? && !ValidateDirectory(path).value.IsRoot()
    requires BucketExistsIn(s, ValidateDirectory(path).value.bucket)
    ensures ListDir(s, path, onlyFiles).Ok?
    ensures var m := ValidateDirectory(path).value;
      var es, p, r := EntriesOf(s, m.bucket), m.prefix, ListDir(s, path, onlyFiles).value;
      && (forall x :: x in r <==> p + x in FileKeys(es, p) || (!onlyFiles && p + x in SubDirs(es, p)))
      && (forall i, j :: 0 <= i < j < |r| ==> r[i] != r[j])
      && (forall i, j :: 0 <= i < j < |r| ==> NameTime(es, p, r[i]) >= NameTime(es, p, r[j]))
  {
    var m := ValidateDirectory(path).value;
    var sorted := ObjectsAt(s, m).value;
    ListDirIsRelative(s, path, m, onlyFiles);
    assert ValidEntries(EntriesOf(s, m.bucket));
    ObjectsAtOrder(s, m);
    SortedNames(m.bucket, EntriesOf(s, m.bucket), m.prefix, sorted, onlyFiles);
  }

  lemma ListDirIsRelative(s: Snapshot, path: string, m: PathRef, onlyFiles: bool)
    requires ValidateDirectory(path) == Ok(m) && !m.IsRoot() && BucketExistsIn(s, m.bucket)
    ensures ObjectsAt(s, m).Ok?
    ensures ListDir(s, path, onlyFiles) == Ok(Relative(Kept(ObjectsAt(s, m).value, onlyFiles), m.prefix))
  {
    MatchFields(path);
  }

  lemma SortedNames(b: string, es: seq<Entry>, p: string, sorted: seq<Listed>, onlyFiles: bool)
    requires DistinctKeys(es)
    requires multiset(sorted) == multiset(List(b, es, p)) && Descending(sorted, LastModifiedOrEpoch)
    ensures var r := Relative(Kept(sorted, onlyFiles), p);
      && (forall x :: x in r <==> p + x in FileKeys(es, p) || (!onlyFiles && p + x in SubDirs(es, p)))
      && (forall i, j :: 0 <= i < j < |r| ==> r[i] != r[j])
      && (forall i, j :: 0 <= i < j < |r| ==> NameTime(es, p, r[i]) >= NameTime(es, p, r[j]))
  {
    ItemNames(b, es, p, sorted, onlyFiles);
    NamesDistinct(b, es, p, sorted, onlyFiles);
    NamesOrdered(b, es, p, sorted, onlyFiles);
    NamesCovered(b, es, p, sorted, onlyFiles);
  }

  lemma NamesDistinct(b: string, es: seq<Entry>, p: string, sorted: seq<Listed>, onlyFiles: bool)
    requires DistinctKeys(es)
    requires multiset(sorted) == multiset(List(b, es, p))
    ensures var r := Relative(Kept(sorted, onlyFiles), p);
      forall i, j :: 0 <= i < j < |r| ==> r[i] != r[j]
  {
    var items := Kept(sorted, onlyFiles);
    KeptDistinct(b, es, p, sorted, onlyFiles);
    var r := Relative(items, p);
    ItemPrefixes(b, es, p, sorted, onlyFiles, items, r);
    StrippedDistinct(items, p, r);
  }

  /** No two items `listdir` keeps have the same name. */
  lemma KeptDistinct(b: string, es: seq<Entry>, p: string, sorted: seq<Listed>, onlyFiles: bool)
    requires DistinctKeys(es)
    requires multiset(sorted) == multiset(List(b, es, p))
    ensures DistinctNames(Kept(sorted, onlyFiles))
  {
    var items := Kept(sorted, onlyFiles);
    var l := List(b, es, p);
    ListFacts(b, es, p);
    assert multiset(items) <= multiset(l);
    DistinctSub(items, l);
  }

  /** Each reported name, put after the prefix, is the item's name. */
  lemma ItemPrefixes(b: string, es: seq<Entry>, p: string, sorted: seq<Listed>, onlyFiles: bool,
                     items: seq<Listed>, r: seq<string>)
    requires DistinctKeys(es)
    requires multiset(sorted) == multiset(List(b, es, p))
    requires items == Kept(sorted, onlyFiles) && r == Relative(items, p)
    ensures |r| == |items|
    ensures forall i :: 0 <= i < |items| ==> p + r[i] == items[i].objectName
  {
    ItemNames(b, es, p, sorted, onlyFiles);
  }

  /** Names that give back distinct object names after the prefix are distinct. */
  lemma StrippedDistinct(items: seq<Listed>, p: string, r: seq<string>)
    requires |r| == |items| && DistinctNames(items)
    requires forall i :: 0 <= i < |items| ==> p + r[i] == items[i].objectName
    ensures forall i, j :: 0 <= i < j < |r| ==> r[i] != r[j]
  {
    forall i, j | 0 <= i < j < |r| ensures r[i] != r[j] {
      assert items[i].objectName != items[j].objectName;
    }
  }

  lemma NamesOrdered(b: string, es: seq<Entry>, p: string, sorted: seq<Listed>, onlyFiles: bool)
    requires DistinctKeys(es)
    requires multiset(sorted) == multiset(List(b, es, p)) && Descending(sorted, LastModifiedOrEpoch)
    ensures var r := Relative(Kept(sorted, onlyFiles), p);
      forall i, j :: 0 <= i < j < |r| ==> NameTime(es, p, r[i]) >= NameTime(es, p, r[j])
  {
    ItemNames(b, es, p, sorted, onlyFiles);
    KeptDescending(sorted, onlyFiles);
  }

  /** Each reported name, put after the prefix, is the item's name, and its
      timestamp is the item's. */
  lemma ItemNames(b: string, es: seq<Entry>, p: string, sorted: seq<Listed>, onlyFiles: bool)
    requires DistinctKeys(es)
    requires multiset(sorted) == multiset(List(b, es, p))
    ensures var items := Kept(sorted, onlyFiles);
      var r := Relative(items, p);
      forall i :: 0 <= i < |items| ==>
        && items[i] in List(b, es, p)
        && p + r[i] == items[i].objectName
        && NameTime(es, p, r[i]) == LastModifiedOrEpoch(items[i])
        && (p + r[i] in FileKeys(es, p) || (!onlyFiles && p + r[i] in SubDirs(es, p)))
  {
    var l := List(b, es, p);
    var items := Kept(sorted, onlyFiles);
    var r := Relative(items, p);
    forall i | 0 <= i < |items|
      ensures items[i] in l
      ensures p + r[i] == items[i].objectName
      ensures NameTime(es, p, r[i]) == LastModifiedOrEpoch(items[i])
      ensures p + r[i] in FileKeys(es, p) || (!onlyFiles && p + r[i] in SubDirs(es, p))
    {
      assert items[i] in multiset(items);
      assert items[i] in sorted && (!onlyFiles || !items[i].isDir);
      assert items[i] in l by { assert items[i] in multiset(sorted); }
      ItemName(b, es, p, items[i], r[i]);
    }
  }

  /** One listed item: its name after the prefix, and that name's timestamp. */
  lemma ItemName(b: string, es: seq<Entry>, p: string, x: Listed, n: string)
    requires DistinctKeys(es) && x in List(b, es, p) && n == StripPrefix(x.objectName, p)
    ensures p + n == x.objectName
    ensures NameTime(es, p, n) == LastModifiedOrEpoch(x)
    ensures x.isDir ==> p + n in SubDirs(es, p)
    ensures !x.isDir ==> p + n in FileKeys(es, p)
  {
    ListedItem(b, es, p, x);
    if x.isDir {
      assert EndsWithSlash(n);
    } else {
      assert !EndsWithSlash(n);
      assert Lookup(es, p + n).Some?;
    }
  }

  /** Each file and (unless only files are asked for) each sub-directory is reported. */
  lemma NamesCovered(b: string, es: seq<Entry>, p: string, sorted: seq<Listed>, onlyFiles: bool)
    requires DistinctKeys(es)
    requires multiset(sorted) == multiset(List(b, es, p))
    ensures var r := Relative(Kept(sorted, onlyFiles), p);
      forall x :: p + x in FileKeys(es, p) || (!onlyFiles && p + x in SubDirs(es, p)) ==> x in r
  {
    var l := List(b, es, p);
    ListFacts(b, es, p);
    var items := Kept(sorted, onlyFiles);
    var r := Relative(items, p);
    ItemNames(b, es, p, sorted, onlyFiles);
    forall x | p + x in FileKeys(es, p) || (!onlyFiles && p + x in SubDirs(es, p)) ensures x in r {
      var y :| y in l && y.objectName == p + x && (!onlyFiles || !y.isDir);
      assert y in multiset(sorted);
      ReportedName(items, p, x, y);
    }
  }

  /** The item named `p + x` is reported as `x`. */
  lemma ReportedName(items: seq<Listed>, p: string, x: string, y: Listed)
    requires y in items && y.objectName == p + x
    ensures x in Relative(items, p)
  {
    var i :| 0 <= i < |items| && items[i] == y;
    assert (p + x)[..|p|] == p && (p + x)[|p|..] == x;
    assert Relative(items, p)[i] == x;
  }

  lemma {:induction false} KeptDescending(l: seq<Listed>, onlyFiles: bool)
    requires Descending(l, LastModifiedOrEpoch)
    ensures Descending(Kept(l, onlyFiles), LastModifiedOrEpoch)
  {
    if l != [] {
      assert Descending(l[1..], LastModifiedOrEpoch) by {
        forall i, j | 0 <= i < j < |l[1..]|
          ensures LastModifiedOrEpoch(l[1..][i]) >= LastModifiedOrEpoch(l[1..][j])
        {
          assert l[1..][i] == l[i + 1] && l[1..][j] == l[j + 1];
        }
      }
      KeptDescending(l[1..], onlyFiles);
      var t := Kept(l[1..], onlyFiles);
      if !onlyFiles || !l[0].isDir {
        forall j | 0 <= j < |t| ensures LastModifiedOrEpoch(l[0]) >= LastModifiedOrEpoch(t[j]) {
          assert t[j] in t;
          var i :| 0 <= i < |l[1..]| && l[1..][i] == t[j];
          assert l[i + 1] == t[j];
        }
        DescendingCons(l[0], t, LastModifiedOrEpoch);
      }
    }
  }

  /** Every item occurs at most once in a listing whose names are distinct. */
  lemma {:induction false} DistinctCount(b: seq<Listed>, x: Listed)
    requires DistinctNames(b)
    ensures multiset(b)[x] <= 1
  {
    if b != [] {
      assert b == [b[0]] + b[1..];
      assert DistinctNames(b[1..]) by {
        forall i, j | 0 <= i < j < |b[1..]| ensures b[1..][i].objectName != b[1..][j].objectName {
          assert b[1..][i] == b[i + 1] && b[1..][j] == b[j + 1];
        }
      }
      DistinctCount(b[1..], x);
      if b[0] == x {
        assert x !in b[1..] by {
          forall j | 0 <= j < |b[1..]| ensures b[1..][j] != x {
            assert b[1..][j] == b[j + 1];
          }
        }
      }
    }
  }

  /** A sub-multiset of a listing with distinct names has distinct names. */
  lemma DistinctSub(a: seq<Listed>, b: seq<Listed>)
    requires multiset(a) <= multiset(b) && DistinctNames(b)
    ensures DistinctNames(a)
  {
    forall i, j | 0 <= i < j < |a| ensures a[i].objectName != a[j].objectName {
      NotTwice(a, b, i, j);
      assert a[i] in multiset(b) && a[j] in multiset(b);
      SameNameSame(b, a[i], a[j]);
    }
  }

  /** An item of a listing with distinct names occurs at most once in a
      sub-multiset of it. */
  lemma NotTwice(a: seq<Listed>, b: seq<Listed>, i: int, j: int)
    requires multiset(a) <= multiset(b) && DistinctNames(b) && 0 <= i < j < |a|
    ensures a[i] != a[j]
  {
    var x := a[i];
    DistinctCount(b, x);
    assert a == a[..j] + a[j..];
    assert multiset(a)[x] == multiset(a[..j])[x] + multiset(a[j..])[x];
    assert a[..j][i] == x;
    assert multiset(a[j..])[x] == 0;
    assert a[j..][0] == a[j];
  }

  /** Items of a listing with distinct names that share a name are the same. */
  lemma SameNameSame(b: seq<Listed>, x: Listed, y: Listed)
    requires DistinctNames(b) && x in b && y in b
    ensures x.objectName == y.objectName ==> x == y
  {
    var k :| 0 <= k < |b| && b[k] == x;
    var n :| 0 <= n < |b| && b[n] == y;
    if k < n {
      assert b[k].objectName != b[n].objectName;
    } else if n < k {
      assert b[n].objectName != b[k].objectName;
    }
  }
}
