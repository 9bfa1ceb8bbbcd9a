/** The store's listing, `list_objects(bucket, prefix)`, fixed as follows: it
    visits the bucket's entries in order and reports every key strictly below
    the prefix. A key with no further '/' after the prefix is reported as a
    file; any other key is reported through its first component after the
    prefix, as one directory entry (a common prefix ending in '/') the first
    time that component is met. The prefix's own key is not reported. */
module Listing {
  import opened Outcomes
  import opened PathStrings
  import opened Objects

  /** One listed item. Directory entries carry no size and no timestamp. */
  datatype Listed = Listed(bucketName: string, objectName: string, isDir: bool,
                           size: Option<nat>, lastModified: Option<int>)

  /** `k` lies strictly below `p`. */
  predicate Under(k: string, p: string) {
    StartsWith(k, p) && k != p
  }

  /** `k` is a file directly inside `p`. */
  predicate Direct(k: string, p: string) {
    Under(k, p) && '/' !in k[|p|..]
  }

  /** `k` lies inside a sub-directory of `p`. */
  predicate Deeper(k: string, p: string) {
    Under(k, p) && '/' in k[|p|..]
  }

  /** The sub-directory of `p` that `k` lies in: `p`, the next component, and '/'. */
  function Group(k: string, p: string): (g: string)
    requires Deeper(k, p)
    ensures StartsWith(k, g) && StartsWith(g, p) && |g| > |p| && EndsWithSlash(g)
    ensures '/' !in g[|p|..|g| - 1]
  {
    var rest := k[|p|..];
    var i := IndexOf(rest, '/').value;
    assert k[..|p| + i + 1] == p + rest[..i + 1];
    assert (p + rest[..i + 1])[|p|..|p| + i] == rest[..i];
    p + rest[..i + 1]
  }

  function FileEntry(bucket: string, e: Entry): Listed {
    Listed(bucket, e.key, false, Some(|e.obj.data|), e.obj.lastModified)
  }

  function DirEntry(bucket: string, g: string): Listed {
    Listed(bucket, g, true, None, None)
  }

  /** The listing of the entries `es`, where `seen` holds the directory
      entries already reported. */
  function ListFrom(bucket: string, es: seq<Entry>, p: string, seen: set<string>): seq<Listed> {
    if es == [] then []
    else
      var k := es[0].key;
      if Direct(k, p) then [FileEntry(bucket, es[0])] + ListFrom(bucket, es[1..], p, seen)
      else if Deeper(k, p) && Group(k, p) !in seen then
        [DirEntry(bucket, Group(k, p))] + ListFrom(bucket, es[1..], p, seen + {Group(k, p)})
      else ListFrom(bucket, es[1..], p, seen)
  }

  /** `list_objects(bucket, prefix)` over the entries of an existing bucket. */
  function List(bucket: string, es: seq<Entry>, p: string): seq<Listed> {
    ListFrom(bucket, es, p, {})
  }

  /** The keys reported as files. */
  function FileKeys(es: seq<Entry>, p: string): set<string> {
    set k | k in Keys(es) && Direct(k, p)
  }

  /** The directory entries reported. */
  function SubDirs(es: seq<Entry>, p: string): set<string> {
    set k | k in Keys(es) && Deeper(k, p) :: Group(k, p)
  }

  function FileNames(l: seq<Listed>): set<string> {
    set x | x in l && !x.isDir :: x.objectName
  }

  function DirNames(l: seq<Listed>): set<string> {
    set x | x in l && x.isDir :: x.objectName
  }

  /** Every item is a file entry of a file directly inside `p`, or a directory
      entry of a sub-directory not reported before. */
  lemma {:induction false} ListFromSound(bucket: string, es: seq<Entry>, p: string, seen: set<string>)
    ensures forall x :: x in ListFrom(bucket, es, p, seen) ==>
      (!x.isDir ==> exists i :: 0 <= i < |es| && Direct(es[i].key, p) && x == FileEntry(bucket, es[i]))
    ensures forall x :: x in ListFrom(bucket, es, p, seen) ==>
      (x.isDir ==> x == DirEntry(bucket, x.objectName) && x.objectName in SubDirs(es, p) && x.objectName !in seen)
  {
    if es != [] {
      ListFromSound(bucket, es[1..], p, seen);
      if Deeper(es[0].key, p) {
        ListFromSound(bucket, es[1..], p, seen + {Group(es[0].key, p)});
      }
      assert forall i :: 0 <= i < |es[1..]| ==> es[1..][i] == es[i + 1];
      assert SubDirs(es[1..], p) <= SubDirs(es, p);
    }
  }

  /** Every file directly inside `p` is reported, and so is every
      sub-directory not reported before. */
  lemma {:induction false} ListFromComplete(bucket: string, es: seq<Entry>, p: string, seen: set<string>)
    ensures forall i :: 0 <= i < |es| && Direct(es[i].key, p) ==>
      FileEntry(bucket, es[i]) in ListFrom(bucket, es, p, seen)
    ensures forall g :: g in SubDirs(es, p) && g !in seen ==>
      DirEntry(bucket, g) in ListFrom(bucket, es, p, seen)
  {
    if es != [] {
      var k := es[0].key;
      ListFromComplete(bucket, es[1..], p, seen);
      assert forall i :: 0 <= i < |es[1..]| ==> es[1..][i] == es[i + 1];
      assert SubDirs(es, p) == (if Deeper(k, p) then {Group(k, p)} else {}) + SubDirs(es[1..], p);
      if Deeper(k, p) && Group(k, p) !in seen {
        ListFromComplete(bucket, es[1..], p, seen + {Group(k, p)});
      }
    }
  }

  predicate DistinctNames(l: seq<Listed>) {
    forall i, j :: 0 <= i < j < |l| ==> l[i].objectName != l[j].objectName
  }

  lemma ConsDistinct(h: Listed, t: seq<Listed>)
    requires DistinctNames(t) && forall x :: x in t ==> x.objectName != h.objectName
    ensures DistinctNames([h] + t)
  {
    var l := [h] + t;
    forall i, j | 0 <= i < j < |l| ensures l[i].objectName != l[j].objectName {
      assert l[j] == t[j - 1];
      if i > 0 { assert l[i] == t[i - 1]; }
    }
  }

  /** The names a listing reports: files are keys directly inside `p`;
      directories end in '/' and were not reported before. */
  lemma {:induction false} ListFromNames(bucket: string, es: seq<Entry>, p: string, seen: set<string>)
    ensures forall x :: x in ListFrom(bucket, es, p, seen) ==>
      (!x.isDir ==> x.objectName in Keys(es) && Direct(x.objectName, p))
    ensures forall x :: x in ListFrom(bucket, es, p, seen) ==>
      (x.isDir ==> x.objectName !in seen && EndsWithSlash(x.objectName))
  {
    if es != [] {
      ListFromNames(bucket, es[1..], p, seen);
      if Deeper(es[0].key, p) {
        ListFromNames(bucket, es[1..], p, seen + {Group(es[0].key, p)});
      }
    }
  }

  lemma DirectNotSlash(k: string, p: string)
    requires Direct(k, p)
    ensures !EndsWithSlash(k)
  {
    assert k[|p|..][|k| - 1 - |p|] == k[|k| - 1];
  }

  /** No name is reported twice. */
  lemma {:induction false} ListFromDistinct(bucket: string, es: seq<Entry>, p: string, seen: set<string>)
    requires DistinctKeys(es)
    ensures DistinctNames(ListFrom(bucket, es, p, seen))
  {
    if es != [] {
      var k := es[0].key;
      if Direct(k, p) {
        var t := ListFrom(bucket, es[1..], p, seen);
        ListFromDistinct(bucket, es[1..], p, seen);
        ListFromNames(bucket, es[1..], p, seen);
        DirectNotSlash(k, p);
        ConsDistinct(FileEntry(bucket, es[0]), t);
      } else if Deeper(k, p) && Group(k, p) !in seen {
        var g := Group(k, p);
        var t := ListFrom(bucket, es[1..], p, seen + {g});
        ListFromDistinct(bucket, es[1..], p, seen + {g});
        ListFromNames(bucket, es[1..], p, seen + {g});
        forall x | x in t && !x.isDir ensures x.objectName != g {
          assert g[|p|..][|g| - 1 - |p|] == '/';
        }
        ConsDistinct(DirEntry(bucket, g), t);
      } else {
        ListFromDistinct(bucket, es[1..], p, seen);
      }
    }
  }

  /** The listing in terms of sets: its file names are the files directly
      inside `p`, its directory names are the sub-directories of `p`, each
      file item carries its object's size and timestamp, and no name occurs twice. */
  lemma ListFacts(bucket: string, es: seq<Entry>, p: string)
    requires DistinctKeys(es)
    ensures var l := List(bucket, es, p);
      && FileNames(l) == FileKeys(es, p)
      && DirNames(l) == SubDirs(es, p)
      && (forall x :: x in l ==> x.bucketName == bucket)
      && (forall x :: x in l && !x.isDir ==>
            (Lookup(es, x.objectName).Some?
             && x == FileEntry(bucket, Entry(x.objectName, Lookup(es, x.objectName).value))))
      && (forall x :: x in l && x.isDir ==> x == DirEntry(bucket, x.objectName))
      && DistinctNames(l)
  {
    var l := List(bucket, es, p);
    assert l == ListFrom(bucket, es, p, {});
    ListFromSound(bucket, es, p, {});
    ListFromComplete(bucket, es, p, {});
    ListFromDistinct(bucket, es, p, {});
    forall x | x in l && !x.isDir
      ensures x.objectName in FileKeys(es, p) && Lookup(es, x.objectName).Some?
      ensures x == FileEntry(bucket, Entry(x.objectName, Lookup(es, x.objectName).value))
    {
      var i :| 0 <= i < |es| && Direct(es[i].key, p) && x == FileEntry(bucket, es[i]);
      KeysIndex(es, es[i].key);
      LookupAt(es, i);
    }
    forall k | k in FileKeys(es, p) ensures k in FileNames(l) {
      KeysIndex(es, k);
      var i :| 0 <= i < |es| && es[i].key == k;
      assert FileEntry(bucket, es[i]) in l;
    }
    forall g | g in SubDirs(es, p) ensures g in DirNames(l) {
      assert DirEntry(bucket, g) in l;
    }
  }

  /** One listed item, seen on its own. */
  lemma ListedItem(bucket: string, es: seq<Entry>, p: string, x: Listed)
    requires DistinctKeys(es) && x in List(bucket, es, p)
    ensures StartsWith(x.objectName, p) && x.bucketName == bucket
    ensures x.isDir ==> && x.objectName in SubDirs(es, p) && EndsWithSlash(x.objectName)
                        && x == DirEntry(bucket, x.objectName)
    ensures !x.isDir ==> && x.objectName in FileKeys(es, p) && !EndsWithSlash(x.objectName)
                         && Lookup(es, x.objectName).Some?
                         && x == FileEntry(bucket, Entry(x.objectName, Lookup(es, x.objectName).value))
  {
    ListFacts(bucket, es, p);
    if x.isDir {
      assert x.objectName in DirNames(List(bucket, es, p));
      assert x.objectName in SubDirs(es, p);
      var k :| k in Keys(es) && Deeper(k, p) && Group(k, p) == x.objectName;
    } else {
      assert x.objectName in FileNames(List(bucket, es, p));
      assert x.objectName in FileKeys(es, p);
      DirectNotSlash(x.objectName, p);
    }
  }
}
