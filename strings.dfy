/** String helpers the path layer is built from: collapsing runs of '/',
    searching for a character, `os.path.join`, `os.path.basename`,
    `str.replace(pattern, '')` and ASCII `str.lower`. */
module PathStrings {
  import opened Outcomes

  predicate StartsWith(s: string, p: string) {
    |p| <= |s| && s[..|p|] == p
  }

  predicate EndsWithSlash(s: string) {
    |s| > 0 && s[|s| - 1] == '/'
  }

  predicate DoubleSlashAt(s: string, i: int)
    requires 0 <= i < |s| - 1
  {
    s[i] == '/' && s[i + 1] == '/'
  }

  /** No two consecutive separators. */
  predicate NoDoubleSlash(s: string) {
    forall i :: 0 <= i < |s| - 1 ==> !DoubleSlashAt(s, i)
  }

  lemma NoDoubleSlashConcat(a: string, b: string)
    requires NoDoubleSlash(a) && NoDoubleSlash(b)
    requires !(EndsWithSlash(a) && |b| > 0 && b[0] == '/')
    ensures NoDoubleSlash(a + b)
  {
    var s := a + b;
    forall i | 0 <= i < |s| - 1 ensures !DoubleSlashAt(s, i) {
      if i + 1 < |a| {
        assert s[i] == a[i] && s[i + 1] == a[i + 1];
        assert !DoubleSlashAt(a, i);
      } else if i + 1 == |a| {
        assert s[i] == a[|a| - 1] && s[i + 1] == b[0];
      } else {
        assert s[i] == b[i - |a|] && s[i + 1] == b[i - |a| + 1];
        assert !DoubleSlashAt(b, i - |a|);
      }
    }
  }

  lemma NoDoubleSlashSlice(s: string, i: nat, j: nat)
    requires NoDoubleSlash(s) && i <= j <= |s|
    ensures NoDoubleSlash(s[i..j])
  {
    forall k | 0 <= k < |s[i..j]| - 1 ensures !DoubleSlashAt(s[i..j], k) {
      assert s[i..j][k] == s[i + k] && s[i..j][k + 1] == s[i + k + 1];
      assert !DoubleSlashAt(s, i + k);
    }
  }

  lemma NoSlashNoDoubleSlash(s: string)
    requires '/' !in s
    ensures NoDoubleSlash(s)
  {
    forall i | 0 <= i < |s| - 1 ensures !DoubleSlashAt(s, i) {
      assert s[i] in s;
    }
  }

  /** `re.sub(r'/+', '/', s)`: every run of '/' becomes a single '/'. */
  function Collapse(s: string): (r: string)
    ensures NoDoubleSlash(r)
    ensures |r| <= |s|
    ensures |s| > 0 ==> |r| > 0 && r[0] == s[0]
    ensures |s| > 0 ==> r[|r| - 1] == s[|s| - 1]
  {
    if |s| <= 1 then s
    else if s[0] == '/' && s[1] == '/' then Collapse(s[1..])
    else
      NoDoubleSlashConcat([s[0]], Collapse(s[1..]));
      [s[0]] + Collapse(s[1..])
  }

  /** The characters of `s` other than '/', in order. */
  function NonSlash(s: string): string {
    if s == [] then [] else (if s[0] == '/' then [] else [s[0]]) + NonSlash(s[1..])
  }

  lemma {:induction false} CollapseKeepsNoDoubleSlash(s: string)
    requires NoDoubleSlash(s)
    ensures Collapse(s) == s
  {
    if |s| > 1 {
      assert NoDoubleSlash(s[1..]) by {
        forall i | 0 <= i < |s[1..]| - 1 ensures !DoubleSlashAt(s[1..], i) {
          assert s[1..][i] == s[i + 1] && s[1..][i + 1] == s[i + 2];
          assert !DoubleSlashAt(s, i + 1);
        }
      }
      CollapseKeepsNoDoubleSlash(s[1..]);
      assert !DoubleSlashAt(s, 0);
      assert [s[0]] + s[1..] == s;
    }
  }

  /** Collapsing is idempotent. */
  lemma CollapseIdempotent(s: string)
    ensures Collapse(Collapse(s)) == Collapse(s)
  {
    CollapseKeepsNoDoubleSlash(Collapse(s));
  }

  lemma {:induction false} NonSlashAppend(a: string, b: string)
    ensures NonSlash(a + b) == NonSlash(a) + NonSlash(b)
  {
    if a != [] {
      assert (a + b)[1..] == a[1..] + b;
      NonSlashAppend(a[1..], b);
    } else {
      assert a + b == b;
    }
  }

  /** Collapsing removes separators only: every other character survives, in order. */
  lemma {:induction false} CollapseKeepsNonSlash(s: string)
    ensures NonSlash(Collapse(s)) == NonSlash(s)
  {
    if |s| > 1 {
      CollapseKeepsNonSlash(s[1..]);
      if s[0] == '/' && s[1] == '/' {
      } else {
        NonSlashAppend([s[0]], Collapse(s[1..]));
        assert NonSlash([s[0]]) == (if s[0] == '/' then [] else [s[0]]) by {
          assert [s[0]][1..] == [];
        }
      }
    } else if |s| == 1 {
      assert s[1..] == [];
    }
  }

  /** A path collapses to the bare separator exactly when it is a non-empty run of separators. */
  lemma {:induction false} CollapseToRoot(s: string)
    ensures Collapse(s) == "/" <==> (|s| > 0 && forall i :: 0 <= i < |s| ==> s[i] == '/')
  {
    if |s| > 1 {
      CollapseToRoot(s[1..]);
      if s[0] == '/' && s[1] == '/' {
        forall i | 0 <= i < |s[1..]| ensures s[1..][i] == s[i + 1] { }
        assert (forall i :: 0 <= i < |s| ==> s[i] == '/') <==> (forall i :: 0 <= i < |s[1..]| ==> s[1..][i] == '/') by {
          if forall i :: 0 <= i < |s[1..]| ==> s[1..][i] == '/' {
            forall i | 0 <= i < |s| ensures s[i] == '/' {
              if i > 0 { assert s[i] == s[1..][i - 1]; }
            }
          }
        }
      } else {
        assert |Collapse(s)| >= 2;
      }
    }
  }

  /** The first position of `c` in `s`. */
  function IndexOf(s: string, c: char): (r: Option<nat>)
    ensures r.None? <==> c !in s
    ensures r.Some? ==> r.value < |s| && s[r.value] == c && c !in s[..r.value]
  {
    if s == [] then None
    else if s[0] == c then Some(0)
    else
      match IndexOf(s[1..], c)
      case None => None
      case Some(i) =>
        assert s[..i + 1] == [s[0]] + s[1..][..i];
        Some(i + 1)
  }

  /** The last position of `c` in `s` (Python's `rfind`, with `None` for -1). */
  function LastIndexOf(s: string, c: char): (r: Option<nat>)
    ensures r.None? <==> c !in s
    ensures r.Some? ==> r.value < |s| && s[r.value] == c && c !in s[r.value + 1..]
  {
    if s == [] then None
    else if s[|s| - 1] == c then Some(|s| - 1)
    else
      match LastIndexOf(s[..|s| - 1], c)
      case None =>
        assert s == s[..|s| - 1] + [s[|s| - 1]];
        None
      case Some(i) =>
        assert s[i + 1..] == s[..|s| - 1][i + 1..] + [s[|s| - 1]];
        Some(i)
  }

  /** `os.path.join(a, b)` for POSIX paths. */
  function Join(a: string, b: string): (r: string)
    ensures |b| > 0 && b[0] == '/' ==> r == b
    ensures !(|b| > 0 && b[0] == '/') ==> StartsWith(r, a)
  {
    if |b| > 0 && b[0] == '/' then b
    else if a == [] || EndsWithSlash(a) then
      assert (a + b)[..|a|] == a;
      a + b
    else
      assert (a + "/" + b)[..|a|] == a;
      a + "/" + b
  }

  /** `os.path.basename(p)`: the text after the last '/'. */
  function Basename(p: string): (r: string)
    ensures '/' !in r
    ensures |r| <= |p| && p[|p| - |r|..] == r
  {
    match LastIndexOf(p, '/')
    case None => p
    case Some(i) => p[i + 1..]
  }

  /** `s.rstrip('/')` */
  function StripTrailingSlashes(s: string): (r: string)
    ensures !EndsWithSlash(r) && StartsWith(s, r)
  {
    if EndsWithSlash(s) then
      var r := StripTrailingSlashes(s[..|s| - 1]);
      assert s[..|s| - 1][..|r|] == s[..|r|];
      r
    else s
  }

  predicate AllSlashes(s: string) {
    forall i :: 0 <= i < |s| ==> s[i] == '/'
  }

  /** `os.path.dirname(p)`: the text up to the last '/', with trailing
      separators removed unless it consists of separators only. */
  function Dirname(p: string): string {
    match LastIndexOf(p, '/')
    case None => ""
    case Some(i) =>
      var head := p[..i + 1];
      if AllSlashes(head) then head else StripTrailingSlashes(head)
  }

  /** `os.path.normpath(p)` for a relative path without empty, `.` or `..`
      components, the only paths it is applied to in this model: the empty
      path is `.`, and a trailing separator is dropped. */
  function NormPath(p: string): string {
    if p == [] then "." else StripTrailingSlashes(p)
  }

  /** A single trailing separator comes off. */
  lemma StripOneSlash(s: string)
    requires EndsWithSlash(s) && |s| >= 2 && s[|s| - 2] != '/'
    ensures StripTrailingSlashes(s) == s[..|s| - 1]
  {
    assert !EndsWithSlash(s[..|s| - 1]);
  }

  /** The base name is what follows the last separator. */
  lemma BasenameAfter(t: string, u: string)
    requires t == [] || EndsWithSlash(t)
    requires '/' !in u
    ensures Basename(t + u) == u
  {
    var s := t + u;
    forall m | |t| <= m < |s| ensures s[m] != '/' {
      assert s[m] == u[m - |t|];
    }
    if t != [] {
      assert s[|t| - 1] == '/';
      var i := LastIndexOf(s, '/').value;
      forall m | i < m < |s| ensures s[m] != '/' {
        assert s[i + 1..][m - i - 1] == s[m];
      }
      assert s[i + 1..] == u;
    } else {
      assert s == u;
    }
  }

  /** `p[:-1]` */
  function DropLast(p: string): string {
    if p == [] then [] else p[..|p| - 1]
  }

  /** `s.replace(pat, '')`: every non-overlapping occurrence of `pat`, scanning
      from the left, is deleted (an empty pattern deletes nothing). */
  function RemoveAll(s: string, pat: string): (r: string)
    ensures |r| <= |s|
    decreases |s|
  {
    if pat == [] || s == [] then s
    else if StartsWith(s, pat) then RemoveAll(s[|pat|..], pat)
    else [s[0]] + RemoveAll(s[1..], pat)
  }

  predicate OccursAt(s: string, pat: string, i: int) {
    0 <= i && i + |pat| <= |s| && s[i..i + |pat|] == pat
  }

  ghost predicate Contains(s: string, pat: string) {
    exists i :: OccursAt(s, pat, i)
  }

  /** Removing a pattern that does not occur leaves the string as it is. */
  lemma {:induction false} RemoveAllAbsent(s: string, pat: string)
    requires !Contains(s, pat)
    ensures RemoveAll(s, pat) == s
  {
    if pat != [] && s != [] {
      assert !OccursAt(s, pat, 0);
      assert !Contains(s[1..], pat) by {
        forall i | OccursAt(s[1..], pat, i) ensures OccursAt(s, pat, i + 1) {
          assert s[1..][i..i + |pat|] == s[i + 1..i + 1 + |pat|];
        }
      }
      RemoveAllAbsent(s[1..], pat);
      assert [s[0]] + s[1..] == s;
    }
  }

  /** `replace` deletes a leading occurrence of the pattern. */
  lemma RemoveAllLead(pat: string, a: string)
    requires pat != []
    ensures RemoveAll(pat + a, pat) == RemoveAll(a, pat)
  {
    assert (pat + a)[..|pat|] == pat;
    assert (pat + a)[|pat|..] == a;
  }

  /** Removing a pattern that does occur makes the string shorter. */
  lemma {:induction false} RemoveAllShortens(s: string, pat: string)
    requires pat != [] && Contains(s, pat)
    ensures |RemoveAll(s, pat)| < |s|
  {
    var i :| OccursAt(s, pat, i);
    if !StartsWith(s, pat) {
      assert i != 0;
      assert s[1..][i - 1..i - 1 + |pat|] == s[i..i + |pat|];
      assert OccursAt(s[1..], pat, i - 1);
      RemoveAllShortens(s[1..], pat);
    }
  }

  /** After a leading occurrence of the pattern, `replace` leaves the rest `a`
      as it is exactly when the pattern does not occur again in `a`. */
  lemma RemoveAllAfterLead(pat: string, a: string)
    requires pat != []
    ensures RemoveAll(pat + a, pat) == a <==> !Contains(a, pat)
  {
    RemoveAllLead(pat, a);
    if Contains(a, pat) {
      RemoveAllShortens(a, pat);
    } else {
      RemoveAllAbsent(a, pat);
    }
  }

  /** ASCII `str.lower` on one character. */
  function LowerChar(c: char): (r: char)
    ensures !('A' <= r <= 'Z')
    ensures 'a' <= c <= 'z' || !('A' <= c <= 'Z') ==> r == c
  {
    if 'A' <= c <= 'Z' then (c as int - 'A' as int + 'a' as int) as char else c
  }

  function Lower(s: string): (r: string)
    ensures |r| == |s|
    ensures forall i :: 0 <= i < |s| ==> r[i] == LowerChar(s[i])
  {
    seq(|s|, i requires 0 <= i < |s| => LowerChar(s[i]))
  }

  /** Lower-casing is idempotent. */
  lemma LowerIdempotent(s: string)
    ensures Lower(Lower(s)) == Lower(s)
  {
  }
}
