/** The rest of the read-only part of `Pyminio`: `get`, `exists`, `isdir`,
    `_get_destination`, `get_last_object`, and the destination rule of
    `put_file`. Each is a function of the store snapshot it reads. */
module Reads {
  import opened Outcomes
  import opened PathStrings
  import opened Paths
  import opened Metadata
  import opened Objects
  import opened Listing
  import opened ObjectStore
  import opened Views

  // ---------------------------------------------------------------------------
  // get

  /** What `get` returns: a file with its bytes, or a folder. `fullPath` is the
      path as the caller wrote it. */
  datatype ObjectData =
    | File(name: string, fullPath: string, metadata: map<string, Value>, data: seq<Byte>)
    | Folder(name: string, fullPath: string, metadata: map<string, Value>)

  /** The first item named `n`: `next(filter(...))`, with `None` for `StopIteration`. */
  function FindNamed(l: seq<Listed>, n: string): (r: Option<Listed>)
    ensures r.None? <==> forall x :: x in l ==> x.objectName != n
    ensures r.Some? ==> r.value in l && r.value.objectName == n
  {
    if l == [] then None
    else if l[0].objectName == n then Some(l[0])
    else FindNamed(l[1..], n)
  }

  /** `join(dirname(normpath(prefix)), '')`: the directory that holds the
      directory `prefix`. */
  function ParentDir(e: string): string {
    Join(Dirname(NormPath(e)), "")
  }

  /** `get`: a bare bucket (or the root) has no object; a file is read with
      its metadata; a directory is looked up in the listing of its parent. A
      missing key or a directory the parent does not list is `NotFound`. */
  function Get(s: Snapshot, path: string): Result<ObjectData> {
    match Match(path)
    case Err(e) => Err(e)
    case Ok(m) => GetAt(s, m, path)
  }

  /** `get` once the path has resolved to `m`. */
  function GetAt(s: Snapshot, m: PathRef, path: string): Result<ObjectData> {
    if m.IsBucket() then Err(InvalidOperand)
    else if m.IsFile() then
      match GetObjectOf(s, m.bucket, m.RelativePath())
      case Err(e) => Err(if e == NoSuchKey then NotFound else e)
      case Ok(o) =>
        Ok(File(m.filename, path,
                Merge(false, o.lastModified, Some(|o.data|), ExtractMetadata(o.headers)), o.data))
    else
      match ListObjectsOf(s, m.bucket, ParentDir(m.prefix))
      case Err(e) => Err(e)
      case Ok(l) =>
        match FindNamed(l, m.RelativePath())
        case None => Err(NotFound)
        case Some(x) =>
          Ok(Folder(Join(Basename(NormPath(x.objectName)), ""), path,
                    Merge(x.isDir, x.lastModified, x.size, ExtractMetadata(None))))
  }

  /** The parent of a directory prefix is the prefix without its last
      component, and `normpath` then `basename` give that component. */
  lemma ParentDirShape(e: string)
    requires DirPrefix(e) && e != []
    ensures var q := ParentDir(e);
      && StartsWith(e, q) && DirPrefix(q) && |q| + 1 < |e|
      && '/' !in e[|q|..|e| - 1]
      && Basename(NormPath(e)) == e[|q|..|e| - 1]
  {
    var n := e[..|e| - 1];
    assert |e| >= 2;
    assert !DoubleSlashAt(e, |e| - 2);
    StripOneSlash(e);
    assert NormPath(e) == n;
    match LastIndexOf(n, '/')
    case None =>
      assert Dirname(n) == "";
      assert e[0..|e| - 1] == n;
    case Some(i) =>
      assert n[0] == e[0];
      assert i >= 1;
      assert !DoubleSlashAt(e, i - 1);
      var head := n[..i + 1];
      assert head[0] == e[0];
      assert !AllSlashes(head);
      assert head[|head| - 2] == e[i - 1];
      StripOneSlash(head);
      assert Dirname(n) == e[..i];
      assert e[..i][|e[..i]| - 1] == e[i - 1];
      assert ParentDir(e) == e[..i + 1];
      NoDoubleSlashSlice(e, 0, i + 1);
      assert e[i + 1..|e| - 1] == n[i + 1..];
      assert '/' != e[|e| - 2];
  }

  /** A key lies in the group `e` of directory `q`, where `e` is `q` plus one
      component, exactly when it lies under `e`. */
  lemma GroupOfChild(k: string, q: string, e: string)
    requires StartsWith(e, q) && |q| < |e| && EndsWithSlash(e) && '/' !in e[|q|..|e| - 1]
    ensures (Deeper(k, q) && Group(k, q) == e) <==> StartsWith(k, e)
  {
    if StartsWith(k, e) {
      var j := |e| - |q| - 1;
      assert k[..|q|] == e[..|q|];
      var rest := k[|q|..];
      assert k[..|e|][|q|..|e| - 1] == k[|q|..|e| - 1];
      assert rest[..j] == k[|q|..|e| - 1];
      assert rest[j] == e[|e| - 1];
      forall i | 0 <= i < j ensures rest[i] != '/' {
        assert rest[..j][i] == rest[i];
      }
      var v := IndexOf(rest, '/').value;
      forall i | 0 <= i < v ensures rest[i] != '/' {
        assert rest[..v][i] == rest[i];
      }
      assert v == j;
      assert Group(k, q) == q + rest[..j + 1];
      assert k[..|e|] == q + rest[..j + 1];
    }
  }

  /** A directory is listed in its parent exactly when some key lies under it. */
  lemma ChildListed(es: seq<Entry>, q: string, e: string)
    requires StartsWith(e, q) && |q| < |e| && EndsWithSlash(e) && '/' !in e[|q|..|e| - 1]
    ensures e in SubDirs(es, q) <==> exists k :: k in Keys(es) && StartsWith(k, e)
  {
    if e in SubDirs(es, q) {
      var k :| k in Keys(es) && Deeper(k, q) && Group(k, q) == e;
      GroupOfChild(k, q, e);
    }
    if exists k :: k in Keys(es) && StartsWith(k, e) {
      var k :| k in Keys(es) && StartsWith(k, e);
      GroupOfChild(k, q, e);
    }
  }

  /** `get` of a file: it succeeds exactly when its bucket holds the key, and
      returns the bytes, the file name, and the cleaned user metadata laid over
      the derived entries; a missing key is `NotFound`. */
  lemma GetFile(s: Snapshot, path: string)
    requires Match(path).Ok? && Match(path).value.IsFile()
    ensures var m := Match(path).value;
      var es, k := EntriesOf(s, m.bucket), m.prefix + m.filename;
      && (Get(s, path).Ok? <==> BucketExistsIn(s, m.bucket) && k in Keys(es))
      && (Get(s, path).Err? ==>
            Get(s, path).error == if BucketExistsIn(s, m.bucket) then NotFound else NoSuchBucket)
      && (Get(s, path).Ok? ==>
            var o := Lookup(es, k).value;
            Get(s, path).value == File(m.filename, path,
              Merge(false, o.lastModified, Some(|o.data|), ExtractMetadata(o.headers)), o.data))
  {
    if Match(path).value.IsRoot() { MatchRootParts(path); }
    MatchFields(path);
  }

  /** `get` of a directory other than a bucket, in an existing bucket: it
      succeeds exactly when some key lies under the directory, and returns a
      folder named by the directory's last component and '/', flagged as a
      directory, with no timestamp and no size. */
  lemma GetDirectory(s: Snapshot, path: string)
    requires ValidSnapshot(s)
    requires Match(path).Ok? && Match(path).value.IsDir() && !Match(path).value.IsBucket()
    requires BucketExistsIn(s, Match(path).value.bucket)
    ensures var m := Match(path).value;
      var e := m.prefix;
      && (Get(s, path).Ok? <==> exists k :: k in Keys(EntriesOf(s, m.bucket)) && StartsWith(k, e))
      && (Get(s, path).Err? ==> Get(s, path).error == NotFound)
      && (Get(s, path).Ok? ==> var q := ParentDir(e);
            |q| < |e| && Get(s, path).value == Folder(e[|q|..], path, Merge(true, None, None, map[])))
  {
    var m := Match(path).value;
    if m.IsRoot() { MatchRootParts(path); }
    MatchFields(path);
    GetDirectoryAt(s, m, path);
  }

  lemma GetDirectoryAt(s: Snapshot, m: PathRef, path: string)
    requires ValidSnapshot(s) && BucketExistsIn(s, m.bucket)
    requires DirPrefix(m.prefix) && m.prefix != [] && m.filename == ""
    ensures var e := m.prefix;
      && (GetAt(s, m, path).Ok? <==> exists k :: k in Keys(EntriesOf(s, m.bucket)) && StartsWith(k, e))
      && (GetAt(s, m, path).Err? ==> GetAt(s, m, path).error == NotFound)
      && (GetAt(s, m, path).Ok? ==> var q := ParentDir(e);
            |q| < |e| && GetAt(s, m, path).value == Folder(e[|q|..], path, Merge(true, None, None, map[])))
  {
    var b, e := m.bucket, m.prefix;
    assert m.RelativePath() == e;
    ParentDirShape(e);
    var q := ParentDir(e);
    var es := EntriesOf(s, b);
    assert ListObjectsOf(s, b, q) == Ok(List(b, es, q));
    ChildFound(b, es, q, e);
    DirectoryEntryName(e, q);
  }

  lemma DirectoryEntryName(e: string, q: string)
    requires EndsWithSlash(e) && |q| + 1 < |e| && '/' !in e[|q|..|e| - 1]
    ensures Join(e[|q|..|e| - 1], "") == e[|q|..]
  {
    var c := e[|q|..|e| - 1];
    assert c[|c| - 1] in c;
    assert e[|q|..] == c + "/";
  }

  /** The parent's listing names the directory `e` exactly when some key lies
      under it, and then as a directory entry. */
  lemma ChildFound(b: string, es: seq<Entry>, q: string, e: string)
    requires DistinctKeys(es)
    requires StartsWith(e, q) && |q| < |e| && EndsWithSlash(e) && '/' !in e[|q|..|e| - 1]
    ensures FindNamed(List(b, es, q), e) ==
      if exists k :: k in Keys(es) && StartsWith(k, e) then Some(DirEntry(b, e)) else None
  {
    ChildListed(es, q, e);
    var l := List(b, es, q);
    ListFacts(b, es, q);
    match FindNamed(l, e)
    case Some(x) =>
      ListedItem(b, es, q, x);
    case None =>
      assert e !in DirNames(l);
  }

  /** In an existing bucket every error of `get` is a `ValueError`. */
  lemma GetErrorsAreValueErrors(s: Snapshot, path: string)
    requires Match(path).Ok? && BucketExistsIn(s, Match(path).value.bucket)
    ensures Get(s, path).Err? ==> IsValueError(Get(s, path).error)
  {
    var m := Match(path).value;
    assert Get(s, path) == GetAt(s, m, path);
    if !m.IsBucket() && !m.IsFile() {
      MatchFields(path);
      DirectoryGetErrors(s, m, path);
    }
  }

  /** A directory of an existing, well-named bucket is listed, so `get`
      fails there only by not finding it. */
  lemma DirectoryGetErrors(s: Snapshot, m: PathRef, path: string)
    requires !m.IsBucket() && !m.IsFile() && BucketName(m.bucket) && BucketExistsIn(s, m.bucket)
    ensures GetAt(s, m, path).Err? ==> GetAt(s, m, path).error == NotFound
  {
    assert ListObjectsOf(s, m.bucket, ParentDir(m.prefix)).Ok?;
  }

  // ---------------------------------------------------------------------------
  // exists and isdir

  /** `exists`: an unresolvable path does not exist; the root does; otherwise
      the bucket must exist, and a path inside it must be found by `get`
      (whose errors there are all `ValueError`s, which `exists` catches). */
  function Exists(s: Snapshot, path: string): bool {
    match Match(path)
    case Err(_) => false
    case Ok(m) =>
      if m.IsRoot() then true
      else if !BucketExistsIn(s, m.bucket) then false
      else if m.IsBucket() then true
      else Get(s, path).Ok?
  }

  /** A key lies under the directory `e` of a bucket. */
  ghost predicate Occupied(s: Snapshot, bucket: string, e: string) {
    exists k :: k in Keys(EntriesOf(s, bucket)) && StartsWith(k, e)
  }

  /** What `exists` means: the root exists; a bucket exists when the store has
      it; a file when its bucket holds its key; a directory when some key of
      its bucket lies under it. */
  lemma ExistsMeaning(s: Snapshot, path: string)
    requires ValidSnapshot(s)
    ensures Match(path).Err? ==> !Exists(s, path)
    ensures Match(path).Ok? ==> var m := Match(path).value;
      Exists(s, path) <==>
        || m.IsRoot()
        || (&& BucketExistsIn(s, m.bucket)
            && (|| m.IsBucket()
                || (m.IsFile() && m.prefix + m.filename in Keys(EntriesOf(s, m.bucket)))
                || (m.IsDir() && Occupied(s, m.bucket, m.prefix))))
  {
    if Match(path).Ok? {
      var m := Match(path).value;
      if !m.IsRoot() && BucketExistsIn(s, m.bucket) && !m.IsBucket() {
        if m.IsFile() {
          GetFile(s, path);
        } else {
          GetDirectory(s, path);
        }
      }
    }
  }

  /** `isdir`: an unresolvable path is an error; otherwise a path is a
      directory when it exists and resolves to a directory. */
  function IsDirectory(s: Snapshot, path: string): Result<bool> {
    match Match(path)
    case Err(e) => Err(e)
    case Ok(m) => Ok(Exists(s, path) && m.IsDir())
  }

  /** What `isdir` means: the root, an existing bucket, and a directory some
      key lies under are directories; a file never is. */
  lemma IsDirectoryMeaning(s: Snapshot, path: string)
    requires ValidSnapshot(s)
    ensures IsDirectory(s, path).Err? <==> Match(path).Err?
    ensures IsDirectory(s, path) == Ok(true) <==>
      && Match(path).Ok? && Match(path).value.IsDir()
      && var m := Match(path).value;
         || m.IsRoot()
         || (BucketExistsIn(s, m.bucket) && (m.IsBucket() || Occupied(s, m.bucket, m.prefix)))
  {
    ExistsMeaning(s, path);
  }

  // ---------------------------------------------------------------------------
  // _get_destination

  /** `basename(join(bucket, prefix)[:-1])`: the name a directory is copied
      under. */
  function DirectoryName(m: PathRef): string {
    Basename(DropLast(Join(m.bucket, m.prefix)))
  }

  /** The name a directory is copied under is its last component: the bucket
      for a bare bucket, otherwise the prefix's last segment. */
  lemma DirectoryNameIsLastComponent(m: PathRef)
    requires BucketName(m.bucket) && DirPrefix(m.prefix)
    ensures var c := DirectoryName(m);
      && c != [] && '/' !in c
      && (m.prefix == [] ==> c == m.bucket)
      && (m.prefix != [] ==> m.prefix == ParentDir(m.prefix) + c + "/")
  {
    var b, e := m.bucket, m.prefix;
    if e == [] {
      BucketDirectoryName(b);
    } else {
      ParentDirShape(e);
      var q := ParentDir(e);
      var c := e[|q|..|e| - 1];
      SplitLast(e, q);
      NestedDirectoryName(b, q, c);
    }
  }

  /** A directory prefix extending `q` is `q`, a last segment and '/'. */
  lemma SplitLast(e: string, q: string)
    requires StartsWith(e, q) && |q| < |e| && EndsWithSlash(e)
    ensures e == q + e[|q|..|e| - 1] + "/"
  {
    assert e == e[..|q|] + e[|q|..|e| - 1] + e[|e| - 1..];
    assert e[|e| - 1..] == "/";
  }

  lemma BucketDirectoryName(b: string)
    requires BucketName(b)
    ensures Basename(DropLast(Join(b, ""))) == b
  {
    assert Join(b, "") == b + "/" by { assert b[|b| - 1] in b; }
    assert DropLast(b + "/") == [] + b;
    BasenameAfter([], b);
  }

  lemma NestedDirectoryName(b: string, q: string, c: string)
    requires BucketName(b) && DirPrefix(q) && c != [] && '/' !in c
    ensures Basename(DropLast(Join(b, q + c + "/"))) == c
  {
    var e := q + c + "/";
    assert e[0] != '/' by {
      if q == [] { assert e[0] == c[0] && c[0] in c; } else { assert e[0] == q[0]; }
    }
    assert Join(b, e) == b + "/" + e by { assert b[|b| - 1] in b; }
    assert DropLast(b + "/" + e) == (b + "/" + q) + c;
    BasenameAfter(b + "/" + q, c);
  }

  /** The directory named `c` inside the directory `t`. */
  function Subdirectory(t: PathRef, c: string): PathRef
    requires |t.path| > 0
  {
    if t.IsRoot() then PathRef(Compose(c, "", ""), c, "", "")
    else
      var dir := (if EndsWithSlash(t.path) then t.prefix else t.prefix + [t.path[|t.path| - 1]] + "/") + c + "/";
      PathRef(Compose(t.bucket, dir, ""), t.bucket, dir, "")
  }

  /** `_get_destination`: a file goes where `infer_operation_destination`
      says; a directory copied to an existing directory goes into a new
      directory of its own name there, to a missing one goes to that path
      itself, and cannot go to a file. */
  function GetDestination(s: Snapshot, fromPath: string, toPath: string): Result<PathRef> {
    match Match(fromPath)
    case Err(e) => Err(e)
    case Ok(fm) =>
      match Match(toPath)
      case Err(e) => Err(e)
      case Ok(tm) =>
        if fm.IsFile() then InferDestination(fm, tm)
        else if tm.IsDir() then
          if Exists(s, tm.path) then Match(Join(Join(tm.path, DirectoryName(fm)), ""))
          else Ok(tm)
        else Err(InvalidOperand)
  }

  /** The cases of `_get_destination`. */
  lemma GetDestinationCases(s: Snapshot, fromPath: string, toPath: string)
    requires Match(fromPath).Ok? && Match(toPath).Ok?
    ensures var fm, tm, r := Match(fromPath).value, Match(toPath).value, GetDestination(s, fromPath, toPath);
      && (fm.IsFile() ==> r == InferDestination(fm, tm))
      && (fm.IsDir() && tm.IsFile() ==> r == Err(InvalidOperand))
      && (fm.IsDir() && tm.IsDir() && !Exists(s, tm.path) ==> r == Ok(tm))
      && (fm.IsDir() && !fm.IsRoot() && tm.IsDir() && Exists(s, tm.path) ==>
            r == Ok(Subdirectory(tm, DirectoryName(fm))))
      && (fm.IsRoot() && tm.IsDir() && Exists(s, tm.path) ==> r == Match(Join(tm.path, "")))
      && (fm.IsRoot() && tm.IsDir() && Exists(s, tm.path) && EndsWithSlash(tm.path) ==> r == Ok(tm))
  {
    var fm, tm := Match(fromPath).value, Match(toPath).value;
    if fm.IsRoot() && tm.IsDir() && Exists(s, tm.path) {
      GetDestinationFromRoot(s, fromPath, toPath);
    }
    if fm.IsDir() && !fm.IsRoot() && tm.IsDir() {
      MatchFields(fromPath);
      DirectoryNameIsLastComponent(fm);
      IntoDirectory(toPath, DirectoryName(fm));
    }
  }

  /** The root copied into an existing directory: the root's name is empty,
      so the target is that directory's path with '/' appended, which is the
      directory itself when its path already ends in '/'. */
  lemma GetDestinationFromRoot(s: Snapshot, fromPath: string, toPath: string)
    requires Match(fromPath).Ok? && Match(fromPath).value.IsRoot()
    requires Match(toPath).Ok? && Match(toPath).value.IsDir() && Exists(s, Match(toPath).value.path)
    ensures var tm, r := Match(toPath).value, GetDestination(s, fromPath, toPath);
      && r == Match(Join(tm.path, ""))
      && (EndsWithSlash(tm.path) ==> r == Ok(tm))
  {
    var fm, tm := Match(fromPath).value, Match(toPath).value;
    RootDirectoryName(fromPath);
    JoinEmptyTwice(tm.path);
    assert GetDestination(s, fromPath, toPath) == Match(Join(Join(tm.path, ""), ""));
    if EndsWithSlash(tm.path) {
      MatchResolved(toPath);
    }
  }

  /** The root's directory name is empty. */
  lemma RootDirectoryName(fromPath: string)
    requires Match(fromPath).Ok? && Match(fromPath).value.IsRoot()
    ensures DirectoryName(Match(fromPath).value) == ""
  {
    var fm := Match(fromPath).value;
    MatchRootParts(fromPath);
    assert Join(fm.bucket, fm.prefix) == "";
  }

  /** Appending '/' to a path is idempotent, and does nothing to a path that
      already ends in '/'. */
  lemma JoinEmptyTwice(p: string)
    ensures Join(Join(p, ""), "") == Join(p, "")
    ensures EndsWithSlash(p) ==> Join(p, "") == p
  {
    var j := Join(p, "");
    if !(p == [] || EndsWithSlash(p)) {
      assert EndsWithSlash(j);
    }
  }

  /** Joining a directory name and '/' onto a resolved directory resolves to
      the sub-directory of that name. */
  lemma IntoDirectory(toPath: string, c: string)
    requires Match(toPath).Ok? && Match(toPath).value.IsDir()
    requires c != [] && '/' !in c
    ensures var tm := Match(toPath).value;
      |tm.path| > 0 && Match(Join(Join(tm.path, c), "")) == Ok(Subdirectory(tm, c))
  {
    var tm := Match(toPath).value;
    if tm.IsRoot() {
      MatchRootParts(toPath);
      IntoRoot(c);
    } else {
      MatchFields(toPath);
      if EndsWithSlash(tm.path) {
        IntoPrefix(tm.bucket, tm.prefix, c);
      } else {
        var x := tm.path[|tm.path| - 1];
        JoinOntoSegment(tm.bucket, tm.prefix, x, c) by { assert c[0] in c; }
        ExtendPrefix(tm.prefix, x);
        IntoPrefixAfterJoin(tm.bucket, tm.prefix + [x] + "/", c);
      }
    }
  }

  lemma IntoRoot(c: string)
    requires c != [] && '/' !in c
    ensures Match(Join(Join(Root, c), "")) == Ok(PathRef(Compose(c, "", ""), c, "", ""))
  {
    assert c[0] != '/' by { assert c[0] in c; }
    assert c[|c| - 1] != '/' by { assert c[|c| - 1] in c; }
    assert Join(Root, c) == "/" + c;
    assert Join("/" + c, "") == Compose(c, "", "");
    MatchCompose(c, "", "");
  }

  lemma IntoPrefix(b: string, d: string, c: string)
    requires BucketName(b) && DirPrefix(d) && c != [] && '/' !in c
    ensures Match(Join(Join(Compose(b, d, ""), c), "")) ==
      Ok(PathRef(Compose(b, d + c + "/", ""), b, d + c + "/", ""))
  {
    JoinOntoDirectory(b, d, c) by { assert c[0] in c; }
    IntoPrefixAfterJoin(b, d, c);
  }

  lemma IntoPrefixAfterJoin(b: string, d: string, c: string)
    requires BucketName(b) && DirPrefix(d) && c != [] && '/' !in c
    ensures Match(Join(Compose(b, d, c), "")) ==
      Ok(PathRef(Compose(b, d + c + "/", ""), b, d + c + "/", ""))
  {
    var p := Compose(b, d, c);
    assert p[|p| - 1] == c[|c| - 1] && c[|c| - 1] in c;
    assert Join(p, "") == Compose(b, d + c + "/", "");
    ExtendPrefixBy(d, c);
    MatchCompose(b, d + c + "/", "");
  }

  // ---------------------------------------------------------------------------
  // get_last_object and put_file

  /** `get_last_object`: `None` for a directory without files, otherwise `get`
      of the first file `listdir` reports, which is the newest. */
  function GetLastObject(s: Snapshot, path: string): Result<Option<ObjectData>> {
    match ValidateDirectory(path)
    case Err(e) => Err(e)
    case Ok(m) => LastObjectAt(s, m, ListDir(s, path, true))
  }

  /** `get_last_object` once the directory has resolved to `m` and been listed. */
  function LastObjectAt(s: Snapshot, m: PathRef, listing: Result<seq<string>>): Result<Option<ObjectData>> {
    match listing
    case Err(e) => Err(e)
    case Ok(names) =>
      if names == [] then Ok(None)
      else
        match Get(s, Join(Join(Root, m.bucket), Join(m.prefix, names[0])))
        case Err(e) => Err(e)
        case Ok(x) => Ok(Some(x))
  }

  /** `n` names a file directly inside `p`, at least as new as every other. */
  ghost predicate Newest(es: seq<Entry>, p: string, n: string) {
    && p + n in FileKeys(es, p)
    && forall k :: k in FileKeys(es, p) ==> NameTime(es, p, n) >= NameTime(es, p, k[|p|..])
  }

  /** `get_last_object` of a directory: nothing exactly when no file lies
      directly inside it. Otherwise it reads the newest file `n` by the path
      `/bucket/prefix` + `n`. A name of two characters or more gives that file
      with its bytes and metadata. A one-character name is not a file name to
      `Match`: directly inside a bucket the path is a bare bucket reference,
      which `get` refuses, and deeper down it is the directory itself, whose
      folder `get` returns. */
  lemma GetLastObjectNewest(s: Snapshot, path: string)
    requires ValidSnapshot(s)
    requires ValidateDirectory(path).Ok? && !ValidateDirectory(path).value.IsRoot()
    requires BucketExistsIn(s, ValidateDirectory(path).value.bucket)
    ensures var m := ValidateDirectory(path).value;
      var es, p, r := EntriesOf(s, m.bucket), m.prefix, GetLastObject(s, path);
      && (r == Ok(None) <==> FileKeys(es, p) == {})
      && (FileKeys(es, p) != {} ==>
            exists n :: && Newest(es, p, n)
                        && NewestRead(s, m.bucket, p, n, r))
  {
    var m := ValidateDirectory(path).value;
    ListDirContents(s, path, true);
    MatchFields(path);
    LastObjectAtNewest(s, m, ListDir(s, path, true).value);
  }

  /** What reading the newest file `n` of the directory `p` of bucket `b` gives. */
  ghost predicate NewestRead(s: Snapshot, b: string, p: string, n: string, r: Result<Option<ObjectData>>)
    requires p + n in Keys(EntriesOf(s, b))
  {
    var path, o := Compose(b, p, n), Lookup(EntriesOf(s, b), p + n).value;
    && (|n| >= 2 ==>
          r == Ok(Some(File(n, path, Merge(false, o.lastModified, Some(|o.data|), ExtractMetadata(o.headers)), o.data))))
    && (|n| == 1 && p == [] ==> r == Err(InvalidOperand))
    && (|n| == 1 && p != [] ==> r == Ok(Some(Folder(p[|ParentDir(p)|..], path, Merge(true, None, None, map[])))))
  }

  lemma LastObjectAtNewest(s: Snapshot, m: PathRef, names: seq<string>)
    requires ValidSnapshot(s) && BucketExistsIn(s, m.bucket)
    requires BucketName(m.bucket) && DirPrefix(m.prefix)
    requires var es, p := EntriesOf(s, m.bucket), m.prefix;
      && (forall x :: x in names <==> p + x in FileKeys(es, p))
      && (forall i, j :: 0 <= i < j < |names| ==> NameTime(es, p, names[i]) >= NameTime(es, p, names[j]))
    ensures var es, p, r := EntriesOf(s, m.bucket), m.prefix, LastObjectAt(s, m, Ok(names));
      && (r == Ok(None) <==> FileKeys(es, p) == {})
      && (FileKeys(es, p) != {} ==>
            exists n :: && Newest(es, p, n)
                        && NewestRead(s, m.bucket, p, n, r))
  {
    var es, p := EntriesOf(s, m.bucket), m.prefix;
    NewestName(es, p, names);
    if names != [] {
      var n := names[0];
      assert Newest(es, p, n);
      DirectNotEmpty(p + n, p);
      assert (p + n)[|p|..] == n;
      ComposeByJoins(m.bucket, p, n);
      NewestGet(s, m.bucket, p, n);
      assert LastObjectAt(s, m, Ok(names)) ==
        match Get(s, Compose(m.bucket, p, n)) case Err(e) => Err(e) case Ok(x) => Ok(Some(x));
    }
  }

  /** `get` of `/b/p` + `n` for a file `n` directly inside `p`. */
  lemma NewestGet(s: Snapshot, b: string, p: string, n: string)
    requires ValidSnapshot(s) && BucketExistsIn(s, b)
    requires BucketName(b) && DirPrefix(p) && p + n in FileKeys(EntriesOf(s, b), p)
    ensures NewestRead(s, b, p, n,
      match Get(s, Compose(b, p, n)) case Err(e) => Err(e) case Ok(x) => Ok(Some(x)))
  {
    var path := Compose(b, p, n);
    assert (p + n)[|p|..] == n;
    assert '/' !in n;
    MatchComposeAny(b, p, n);
    if |n| >= 2 {
      GetFile(s, path);
    } else if p == [] {
      assert Join(p, "") == "";
    } else {
      assert StartsWith(p + n, p);
      GetDirectory(s, path);
    }
  }

  /** A store whose bucket `b` holds the one file `x`. */
  function OneFileStore(): Snapshot {
    Snapshot([Bucket("b", Some(0), [Entry("x", Obj([], Some(1), None))])], 2)
  }

  /** The newest file of `/b/` is `x`, and `get('/b/x')` is a bare-bucket
      reference, so `get_last_object('/b/')` fails where a file is meant. */
  lemma GetLastObjectOneCharacterName()
    ensures GetLastObject(OneFileStore(), "/b/") == Err(InvalidOperand)
  {
    var s := OneFileStore();
    var es := EntriesOf(s, "b");
    assert es == [Entry("x", Obj([], Some(1), None))];
    assert Keys(es) == {"x"};
    assert ValidSnapshot(s) by {
      assert WellFormedKey("x");
    }
    assert Compose("b", "", "") == "/b/";
    MatchCompose("b", "", "");
    assert Direct("x", "");
    assert FileKeys(es, "") == {"x"};
    GetLastObjectNewest(s, "/b/");
    var n :| Newest(es, "", n) && NewestRead(s, "b", "", n, GetLastObject(s, "/b/"));
    assert "" + n == n;
  }

  /** The first of the names `listdir` reports for the files of `p` is a file
      at least as new as every other, and there is none exactly when `p` holds
      no file. */
  lemma NewestName(es: seq<Entry>, p: string, names: seq<string>)
    requires forall x :: x in names <==> p + x in FileKeys(es, p)
    requires forall i, j :: 0 <= i < j < |names| ==> NameTime(es, p, names[i]) >= NameTime(es, p, names[j])
    ensures names == [] <==> FileKeys(es, p) == {}
    ensures names != [] ==> && p + names[0] in FileKeys(es, p)
                            && forall k :: k in FileKeys(es, p) ==>
                                 NameTime(es, p, names[0]) >= NameTime(es, p, k[|p|..])
  {
    forall k | k in FileKeys(es, p) ensures k[|p|..] in names {
      assert p + k[|p|..] == k;
    }
    if names != [] {
      assert names[0] in names;
      forall k | k in FileKeys(es, p) ensures NameTime(es, p, names[0]) >= NameTime(es, p, k[|p|..]) {
        var j :| 0 <= j < |names| && names[j] == k[|p|..];
      }
    }
  }

  /** `join(ROOT, bucket, join(prefix, name))` */
  lemma ComposeByJoins(b: string, p: string, n: string)
    requires BucketName(b) && DirPrefix(p) && n != [] && '/' !in n
    ensures Join(Join(Root, b), Join(p, n)) == Compose(b, p, n)
  {
    assert n[0] != '/' by { assert n[0] in n; }
    assert Join(p, n) == p + n;
    assert Join(Root, b) == "/" + b by { assert b[0] in b; }
    assert (p + n)[0] != '/' by { if p != [] { assert (p + n)[0] == p[0]; } }
    assert Join("/" + b, p + n) == Compose(b, p, n) by { assert b[|b| - 1] in b; }
  }

  lemma DirectNotEmpty(k: string, p: string)
    requires Direct(k, p)
    ensures k[|p|..] != []
  {
  }

  /** The target `put_file` writes to: a directory path receives the local
      file's base name. */
  function PutFileTarget(path: string, filePath: string): Result<PathRef> {
    match Match(path)
    case Err(e) => Err(e)
    case Ok(m) => if m.IsDir() then Match(Join(path, Basename(filePath))) else Ok(m)
  }

  /** A file put into a directory lands in it under the local file's base name;
      a file path is written as it is. */
  lemma PutFileTargetCases(b: string, e: string, f: string, filePath: string)
    requires BucketName(b) && DirPrefix(e) && FileName(f) && f != []
    ensures Basename(filePath) == f ==>
      PutFileTarget(Compose(b, e, ""), filePath) == Ok(PathRef(Compose(b, e, f), b, e, f))
    ensures PutFileTarget(Compose(b, e, f), filePath) == Ok(PathRef(Compose(b, e, f), b, e, f))
  {
    MatchCompose(b, e, "");
    MatchCompose(b, e, f);
    assert f[0] != '/' by { assert f[0] in f; }
    JoinOntoDirectory(b, e, f);
  }
}
