/** The path resolver: the `Match` class of pyminio/main.py. A path is collapsed
    (runs of '/' become one), the bare separator is the root, and every other path
    is split by the class's regular expression (a lazy bucket group, an optional
    greedy prefix group ending in '/', an optional file name group of at least two
    characters) into a bucket, a directory prefix and a file name. */
module Paths {
  import opened Outcomes
  import opened PathStrings

  const Root: string := "/"

  /** A resolved path: the collapsed path and its three regex groups
      (a group that did not take part in the match is the empty string). */
  datatype PathRef = PathRef(path: string, bucket: string, prefix: string, filename: string) {
    predicate IsRoot() { path == Root }
    /** `os.path.join(prefix, filename)`: the object key inside the bucket. */
    function RelativePath(): string { Join(prefix, filename) }
    /** True for a bare bucket reference, and for the root too. */
    predicate IsBucket() { RelativePath() == "" }
    predicate IsDir() { filename == "" }
    predicate IsFile() { !IsDir() }
  }

  /** What the regex makes of a collapsed path that is not the root: the bucket
      runs from after the leading '/' to the next '/'; the prefix from there to the
      last '/', inclusive; the file name is what is left, but only when it has at
      least two characters (`.+[^/]`). `None` when the regex does not match. */
  function Split(p: string): Option<PathRef>
    requires NoDoubleSlash(p)
  {
    if |p| == 0 || p[0] != '/' then None
    else
      match IndexOf(p[1..], '/')
      case None => None
      case Some(j) =>
        var k := LastSlash(p, j + 1);
        Some(PathRef(p, p[1..j + 1], p[j + 2..k + 1], if |p| - k >= 3 then p[k + 1..] else ""))
  }

  /** The position of the last '/' of `p`, given one at `i`. */
  function LastSlash(p: string, i: nat): (k: nat)
    requires i < |p| && p[i] == '/'
    ensures i <= k < |p| && p[k] == '/'
    ensures forall m :: k < m < |p| ==> p[m] != '/'
    decreases |p| - i
  {
    match IndexOf(p[i + 1..], '/')
    case None =>
      assert forall m :: i < m < |p| ==> p[m] == p[i + 1..][m - i - 1];
      i
    case Some(d) =>
      assert p[i + 1..][d] == p[i + 1 + d];
      LastSlash(p, i + 1 + d)
  }

  /** `Match(path)`: resolve a path, failing with `InvalidPath` (a `ValueError`)
      when the regex does not match. */
  function Match(raw: string): Result<PathRef> {
    var p := Collapse(raw);
    if p == Root then Ok(PathRef(p, "", "", ""))
    else
      match Split(p)
      case None => Err(InvalidPath)
      case Some(m) => Ok(m)
  }

  /** The `_validate_directory` guard: the path must resolve and must not be file-shaped. */
  function ValidateDirectory(raw: string): (r: Result<PathRef>)
    ensures r.Ok? <==> Match(raw).Ok? && Match(raw).value.IsDir()
    ensures r.Ok? ==> r == Match(raw)
    ensures r.Err? && Match(raw).Ok? ==> r.error == NotADirectory
    ensures Match(raw).Err? ==> r == Match(raw)
  {
    match Match(raw)
    case Err(e) => Err(e)
    case Ok(m) => if m.IsFile() then Err(NotADirectory) else Ok(m)
  }

  /** `Match.infer_operation_destination`: the source must be a file; a file
      destination is kept, otherwise the source's file name is joined to the
      destination directory and the result resolved again. */
  function InferDestination(src: PathRef, dst: PathRef): Result<PathRef> {
    if !src.IsFile() then Err(InvalidOperand)
    else if dst.IsFile() then Ok(dst)
    else Match(Join(dst.path, src.filename))
  }

  // ---------------------------------------------------------------------------
  // Well-formed parts and the path they compose to

  predicate BucketName(b: string) { |b| > 0 && '/' !in b }

  /** A directory prefix: empty, or a '/'-terminated key fragment with no empty component. */
  predicate DirPrefix(e: string) {
    e == [] || (EndsWithSlash(e) && e[0] != '/' && NoDoubleSlash(e))
  }

  /** A file name group: empty, or at least two characters and no '/'. */
  predicate FileName(f: string) { '/' !in f && |f| != 1 }

  /** The path `"/" + bucket + "/" + prefix + filename`. */
  function Compose(b: string, e: string, f: string): string {
    "/" + b + "/" + e + f
  }

  /** The shape of a resolved reference other than the root: well-formed parts
      that compose to the path, except that a one-character last segment is
      left out of the file name. */
  predicate Shaped(m: PathRef) {
    && BucketName(m.bucket) && DirPrefix(m.prefix) && FileName(m.filename)
    && (|| m.path == Compose(m.bucket, m.prefix, m.filename)
        || (&& m.filename == "" && |m.path| > 0 && m.path[|m.path| - 1] != '/'
            && m.path == Compose(m.bucket, m.prefix, [m.path[|m.path| - 1]])))
  }

  /** A reference that resolves to itself (every result of `Match` does). */
  predicate Resolved(m: PathRef) { Match(m.path) == Ok(m) }

  lemma ComposeNoDoubleSlash(b: string, e: string, f: string)
    requires BucketName(b) && DirPrefix(e) && '/' !in f
    ensures NoDoubleSlash(Compose(b, e, f))
  {
    NoSlashNoDoubleSlash(b);
    NoSlashNoDoubleSlash(f);
    assert b[0] in b;
    NoDoubleSlashConcat("/", b);
    NoDoubleSlashConcat("/" + b, "/");
    if e != [] {
      NoDoubleSlashConcat("/" + b + "/", e);
      if f != [] { assert f[0] in f; }
      NoDoubleSlashConcat("/" + b + "/" + e, f);
    } else {
      assert "/" + b + "/" + e == "/" + b + "/";
      if f != [] { assert f[0] in f; }
      NoDoubleSlashConcat("/" + b + "/", f);
    }
  }

  /** The bucket group of `"/" + b + "/" + tail` is `b`. */
  lemma SplitBucket(p: string, b: string, tail: string)
    requires BucketName(b) && p == "/" + b + "/" + tail
    ensures IndexOf(p[1..], '/') == Some(|b|)
    ensures p[1..|b| + 1] == b && p[|b| + 2..] == tail
  {
    var rest := p[1..];
    assert rest == b + "/" + tail;
    assert rest[|b|] == '/';
    assert rest[..|b|] == b;
    var j := IndexOf(rest, '/').value;
    assert forall i :: 0 <= i < |b| ==> rest[i] == b[i] && b[i] in b;
  }

  /** Composing well-formed parts and resolving the result gives the parts back,
      except that a last segment of one character is not a file name. */
  lemma MatchComposeAny(b: string, e: string, f: string)
    requires BucketName(b) && DirPrefix(e) && '/' !in f
    ensures Match(Compose(b, e, f)) ==
      Ok(PathRef(Compose(b, e, f), b, e, if |f| >= 2 then f else ""))
  {
    var p := Compose(b, e, f);
    ComposeNoDoubleSlash(b, e, f);
    CollapseKeepsNoDoubleSlash(p);
    assert p != Root by { assert |p| >= 3; }
    SplitCompose(b, e, f);
  }

  lemma SplitCompose(b: string, e: string, f: string)
    requires BucketName(b) && DirPrefix(e) && '/' !in f
    requires NoDoubleSlash(Compose(b, e, f))
    ensures Split(Compose(b, e, f)) ==
      Some(PathRef(Compose(b, e, f), b, e, if |f| >= 2 then f else ""))
  {
    var p := Compose(b, e, f);
    assert p == "/" + b + "/" + (e + f);
    SplitBucket(p, b, e + f);
    ComposeSlices(b, e, f);
    var k := LastSlash(p, |b| + 1);
    assert k == |b| + 1 + |e|;
  }

  /** Where the pieces of a composed path sit in it. */
  lemma ComposeSlices(b: string, e: string, f: string)
    requires DirPrefix(e) && '/' !in f
    ensures var p, i := Compose(b, e, f), |b| + 1 + |e|;
      && p[i] == '/' && p[|b| + 2..i + 1] == e && p[i + 1..] == f
      && forall m :: i < m < |p| ==> p[m] != '/'
  {
    var p, i := Compose(b, e, f), |b| + 1 + |e|;
    assert p == ("/" + b + "/" + e) + f;
    if e != [] { assert p[i] == e[|e| - 1]; }
    assert forall m :: i < m < |p| ==> p[m] == f[m - i - 1] && f[m - i - 1] in f;
  }

  /** Composing well-formed parts and resolving the result gives the parts back. */
  lemma MatchCompose(b: string, e: string, f: string)
    requires BucketName(b) && DirPrefix(e) && FileName(f)
    ensures Match(Compose(b, e, f)) == Ok(PathRef(Compose(b, e, f), b, e, f))
  {
    MatchComposeAny(b, e, f);
  }

  /** The root resolves to the all-empty reference, exactly when the path collapses to "/". */
  lemma MatchRoot(raw: string)
    ensures Match(raw).Ok? && Match(raw).value.IsRoot() <==> Collapse(raw) == Root
    ensures Collapse(raw) == Root ==> Match(raw) == Ok(PathRef(Root, "", "", ""))
    ensures Match(raw).Ok? ==> Match(raw).value.path == Collapse(raw)
  {
  }

  /** The root reference has no parts. */
  lemma MatchRootParts(raw: string)
    requires Match(raw).Ok? && Match(raw).value.IsRoot()
    ensures Match(raw).value == PathRef(Root, "", "", "")
  {
    MatchRoot(raw);
  }

  /** Resolving is insensitive to collapsing first. */
  lemma MatchCollapsed(raw: string)
    ensures Match(Collapse(raw)) == Match(raw)
  {
    CollapseIdempotent(raw);
  }

  /** Every result of `Match` resolves to itself. */
  lemma MatchResolved(raw: string)
    requires Match(raw).Ok?
    ensures Resolved(Match(raw).value)
  {
    MatchCollapsed(raw);
  }

  /** A non-root path fails exactly when it lacks the leading '/' or a '/' after the bucket. */
  lemma MatchFails(raw: string)
    ensures var p := Collapse(raw);
      Match(raw).Err? <==> p != Root && (|p| == 0 || p[0] != '/' || '/' !in p[1..])
    ensures Match(raw).Err? ==> Match(raw).error == InvalidPath
  {
  }

  /** The decomposition of a resolved non-root path: a non-empty bucket without '/',
      a well-formed directory prefix, a file name that is empty or has at least two
      characters; the collapsed path is bucket, prefix and file name put together,
      except that a one-character last segment is dropped from the file name. */
  lemma MatchFields(raw: string)
    requires Match(raw).Ok? && !Match(raw).value.IsRoot()
    ensures var m := Match(raw).value;
      && Shaped(m)
      && m.RelativePath() == m.prefix + m.filename
      && (m.IsDir() <==> m.filename == "")
      && (m.IsBucket() <==> m.prefix == "" && m.filename == "")
  {
    var p := Collapse(raw);
    SplitShaped(p);
  }

  lemma SplitShaped(p: string)
    requires NoDoubleSlash(p) && Split(p).Some?
    ensures var m := Split(p).value;
      && Shaped(m)
      && m.RelativePath() == m.prefix + m.filename
      && (m.IsDir() <==> m.filename == "")
      && (m.IsBucket() <==> m.prefix == "" && m.filename == "")
  {
    var m := Split(p).value;
    var name := SplitFields(p);
    assert m.path == p;
    ShapedOf(m, name);
    JoinParts(m.prefix, m.filename);
  }

  /** The parts `Split` finds make a shaped reference. */
  lemma ShapedOf(m: PathRef, name: string)
    requires BucketName(m.bucket) && DirPrefix(m.prefix) && '/' !in name
    requires m.path == Compose(m.bucket, m.prefix, name)
    requires m.filename == (if |name| >= 2 then name else "")
    ensures Shaped(m)
  {
    var p := m.path;
    if |name| == 1 {
      assert p[|p| - 1] == name[0];
      assert name == [p[|p| - 1]];
      assert name[0] in name;
    } else if |name| == 0 {
      assert m.filename == name;
    }
  }

  /** `join(prefix, filename)` of a directory prefix and a file name. */
  lemma JoinParts(e: string, f: string)
    requires DirPrefix(e) && FileName(f)
    ensures Join(e, f) == e + f
    ensures Join(e, f) == "" <==> e == "" && f == ""
  {
    if f != [] { assert f[0] in f; }
  }

  /** The parts `Split` finds, and the last segment it reads the file name from. */
  lemma SplitFields(p: string) returns (name: string)
    requires NoDoubleSlash(p) && Split(p).Some?
    ensures var m := Split(p).value;
      && BucketName(m.bucket) && DirPrefix(m.prefix) && '/' !in name
      && p == Compose(m.bucket, m.prefix, name)
      && m.filename == (if |name| >= 2 then name else "")
  {
    var j := IndexOf(p[1..], '/').value;
    assert p[j + 1] == '/' by { assert p[1..][j] == p[j + 1]; }
    assert '/' !in p[1..j + 1] by { assert p[1..j + 1] == p[1..][..j]; }
    var k := LastSlash(p, j + 1);
    name := p[k + 1..];
    SlicesWellFormed(p, j, k);
    ComposeOfSlices(p, j, k);
  }

  /** The three pieces of a path cut at its first '/' after the leading one
      (position `j + 1`) and at its last '/' (position `k`). */
  lemma SlicesWellFormed(p: string, j: nat, k: nat)
    requires NoDoubleSlash(p) && j + 1 <= k < |p| && p[0] == '/' && p[j + 1] == '/' && p[k] == '/'
    requires '/' !in p[1..j + 1]
    requires forall m :: k < m < |p| ==> p[m] != '/'
    ensures BucketName(p[1..j + 1]) && DirPrefix(p[j + 2..k + 1]) && '/' !in p[k + 1..]
  {
    assert !DoubleSlashAt(p, 0);
    assert p[1..j + 1][0] == p[1];
    var e := p[j + 2..k + 1];
    if e != [] {
      NoDoubleSlashSlice(p, j + 2, k + 1);
      assert !DoubleSlashAt(p, j + 1);
      assert e[0] == p[j + 2] && e[|e| - 1] == p[k];
    }
    assert forall m :: k < m < |p| ==> p[m] == p[k + 1..][m - k - 1];
  }

  lemma ComposeOfSlices(p: string, j: nat, k: nat)
    requires j + 1 <= k < |p| && p[0] == '/' && p[j + 1] == '/'
    ensures p == Compose(p[1..j + 1], p[j + 2..k + 1], p[k + 1..])
  {
    assert p == p[..j + 2] + p[j + 2..k + 1] + p[k + 1..];
    assert p[..j + 2] == "/" + p[1..j + 1] + "/";
  }

  /** The quirk of `.+[^/]`: a one-character last segment is not a file name. */
  lemma OneCharacterSegmentIsDirectory()
    ensures Match("/b/d/x") == Ok(PathRef("/b/d/x", "b", "d/", ""))
    ensures Match("/b/d/x").value.IsDir()
    ensures Match("/b").Err?
  {
    OneCharacterName();
    BucketWithoutSlash();
  }

  lemma OneCharacterName()
    ensures Match("/b/d/x") == Ok(PathRef("/b/d/x", "b", "d/", ""))
  {
    assert Compose("b", "d/", "x") == "/b/d/x";
    assert "d/"[0] != '/';
    MatchComposeAny("b", "d/", "x");
  }

  /** A bucket name must be followed by '/'. */
  lemma BucketWithoutSlash()
    ensures Match("/b").Err?
  {
    assert Collapse("/b") == "/b" by {
      NoSlashNoDoubleSlash("b");
      NoDoubleSlashConcat("/", "b");
      CollapseKeepsNoDoubleSlash("/b");
    }
    assert "/b"[1..] == "b";
  }

  /** `infer_operation_destination`: a non-file source fails; a file destination is
      kept; a file into a non-root directory lands under that directory with the
      source's file name; a file into the root fails to resolve. */
  lemma InferDestinationCases(src: PathRef, dst: PathRef)
    requires Resolved(src) && Resolved(dst)
    ensures !src.IsFile() ==> InferDestination(src, dst) == Err(InvalidOperand)
    ensures src.IsFile() && dst.IsFile() ==> InferDestination(src, dst) == Ok(dst)
    ensures src.IsFile() && dst.IsRoot() ==> InferDestination(src, dst) == Err(InvalidPath)
    ensures src.IsFile() && dst.IsDir() && !dst.IsRoot() ==>
      var dir := if EndsWithSlash(dst.path) then dst.prefix
                 else dst.prefix + [dst.path[|dst.path| - 1]] + "/";
      InferDestination(src, dst) ==
        Ok(PathRef(Compose(dst.bucket, dir, src.filename), dst.bucket, dir, src.filename))
  {
    ResolvedRoot(src);
    ResolvedRoot(dst);
    if src.IsFile() {
      MatchFields(src.path);
      if dst.IsRoot() {
        InferIntoRoot(src, dst);
      } else if dst.IsDir() {
        MatchFields(dst.path);
        InferIntoDirectory(src, dst);
      }
    }
  }

  /** The root is the only resolved reference with an empty bucket name. */
  lemma ResolvedRoot(m: PathRef)
    requires Resolved(m)
    ensures m.IsRoot() <==> m == PathRef(Root, "", "", "")
  {
    if !m.IsRoot() {
      MatchFields(m.path);
    }
  }

  lemma InferIntoRoot(src: PathRef, dst: PathRef)
    requires Shaped(src) && src.IsFile() && dst.IsRoot() && dst.IsDir()
    ensures InferDestination(src, dst) == Err(InvalidPath)
  {
    var f := src.filename;
    assert f[0] != '/' by { assert f[0] in f; }
    assert Join(dst.path, f) == "/" + f;
    MatchBucketOnly(f);
  }

  /** A bucket name alone, with no '/' after it, does not resolve. */
  lemma MatchBucketOnly(f: string)
    requires '/' !in f && f != []
    ensures Match("/" + f) == Err(InvalidPath)
  {
    var p := "/" + f;
    CollapseKeepsNoDoubleSlash(p) by {
      NoSlashNoDoubleSlash(f);
      NoDoubleSlashConcat("/", f);
    }
    assert p[1..] == f;
    assert p != Root;
  }

  lemma InferIntoDirectory(src: PathRef, dst: PathRef)
    requires Shaped(src) && Shaped(dst) && src.IsFile() && dst.IsDir()
    ensures var dir := if EndsWithSlash(dst.path) then dst.prefix
                       else dst.prefix + [dst.path[|dst.path| - 1]] + "/";
      InferDestination(src, dst) ==
        Ok(PathRef(Compose(dst.bucket, dir, src.filename), dst.bucket, dir, src.filename))
  {
    var b, e, f := dst.bucket, dst.prefix, src.filename;
    assert f != [] && f[0] != '/' by { assert f[0] in f; }
    if EndsWithSlash(dst.path) {
      assert dst.path == Compose(b, e, "");
      IntoSlashedDirectory(b, e, f);
    } else {
      var c := dst.path[|dst.path| - 1];
      assert dst.path == Compose(b, e, [c]);
      IntoSegmentDirectory(b, e, c, f);
    }
  }

  lemma IntoSlashedDirectory(b: string, e: string, f: string)
    requires BucketName(b) && DirPrefix(e) && FileName(f) && f != [] && f[0] != '/'
    ensures Match(Join(Compose(b, e, ""), f)) == Ok(PathRef(Compose(b, e, f), b, e, f))
  {
    JoinOntoDirectory(b, e, f);
    MatchCompose(b, e, f);
  }

  lemma IntoSegmentDirectory(b: string, e: string, c: char, f: string)
    requires BucketName(b) && DirPrefix(e) && FileName(f) && f != [] && f[0] != '/' && c != '/'
    ensures Match(Join(Compose(b, e, [c]), f)) ==
      Ok(PathRef(Compose(b, e + [c] + "/", f), b, e + [c] + "/", f))
  {
    JoinOntoSegment(b, e, c, f);
    ExtendPrefix(e, c);
    MatchCompose(b, e + [c] + "/", f);
  }

  lemma JoinOntoDirectory(b: string, e: string, f: string)
    requires DirPrefix(e) && f != [] && f[0] != '/'
    ensures Join(Compose(b, e, ""), f) == Compose(b, e, f)
  {
    var d := Compose(b, e, "");
    assert d == "/" + b + "/" + e;
    if e != [] { assert d[|d| - 1] == e[|e| - 1]; }
  }

  lemma JoinOntoSegment(b: string, e: string, c: char, f: string)
    requires c != '/' && f != [] && f[0] != '/'
    ensures Join(Compose(b, e, [c]), f) == Compose(b, e + [c] + "/", f)
  {
    var d := Compose(b, e, [c]);
    assert d[|d| - 1] == c;
    assert d + "/" + f == "/" + b + "/" + (e + [c] + "/") + f;
  }

  /** A directory prefix followed by one more one-character segment. */
  lemma ExtendPrefix(e: string, c: char)
    requires DirPrefix(e) && c != '/'
    ensures DirPrefix(e + [c] + "/")
  {
    NoDoubleSlashConcat([c], "/");
    if e != [] {
      assert e + [c] + "/" == e + ([c] + "/");
      NoDoubleSlashConcat(e, [c] + "/");
    } else {
      assert e + [c] + "/" == [c] + "/";
    }
  }

  /** A directory prefix followed by one more segment. */
  lemma ExtendPrefixBy(e: string, c: string)
    requires DirPrefix(e) && c != [] && '/' !in c
    ensures DirPrefix(e + c + "/")
  {
    NoSlashNoDoubleSlash(c);
    NoDoubleSlashConcat(c, "/");
    assert (c + "/")[0] == c[0] && c[0] in c;
    if e != [] {
      assert e + c + "/" == e + (c + "/");
      NoDoubleSlashConcat(e, c + "/");
    } else {
      assert e + c + "/" == c + "/";
    }
  }
}
