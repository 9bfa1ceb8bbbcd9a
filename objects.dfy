/** The data the object store holds: buckets of keyed objects. A bucket keeps
    its entries in the order the keys were first written. */
module Objects {
  import opened Outcomes
  import opened PathStrings

  type Byte = bv8

  /** An object: its bytes, the time it was written, and the user metadata
      headers written with it (`None` when the writer passed none). */
  datatype Obj = Obj(data: seq<Byte>, lastModified: Option<int>, headers: Option<seq<(string, string)>>)

  datatype Entry = Entry(key: string, obj: Obj)

  datatype Bucket = Bucket(name: string, created: Option<int>, entries: seq<Entry>)

  /** A key the store accepts: non-empty, relative, and with no empty component. */
  predicate WellFormedKey(k: string) {
    k != [] && k[0] != '/' && NoDoubleSlash(k)
  }

  /** A bucket name the store accepts. The naming rules of S3 beyond these two
      are not part of this model. */
  predicate WellFormedBucketName(b: string) {
    b != [] && '/' !in b
  }

  function Keys(es: seq<Entry>): set<string> {
    if es == [] then {} else {es[0].key} + Keys(es[1..])
  }

  lemma {:induction false} KeysIndex(es: seq<Entry>, k: string)
    ensures k in Keys(es) <==> exists i :: 0 <= i < |es| && es[i].key == k
  {
    if es != [] {
      KeysIndex(es[1..], k);
      if k in Keys(es[1..]) {
        var i :| 0 <= i < |es[1..]| && es[1..][i].key == k;
        assert es[i + 1].key == k;
      }
      if exists i :: 0 <= i < |es| && es[i].key == k {
        var i :| 0 <= i < |es| && es[i].key == k;
        if i > 0 { assert es[1..][i - 1].key == k; }
      }
    }
  }

  /** No key occurs twice. */
  predicate DistinctKeys(es: seq<Entry>) {
    es == [] || (es[0].key !in Keys(es[1..]) && DistinctKeys(es[1..]))
  }

  /** The entries of a bucket are distinct, well-formed keys. */
  predicate ValidEntries(es: seq<Entry>) {
    DistinctKeys(es) && forall k :: k in Keys(es) ==> WellFormedKey(k)
  }

  /** The object stored under `k`. */
  function Lookup(es: seq<Entry>, k: string): (r: Option<Obj>)
    ensures r.None? <==> k !in Keys(es)
  {
    if es == [] then None
    else if es[0].key == k then Some(es[0].obj)
    else Lookup(es[1..], k)
  }

  /** Entry `i` is what a lookup of its key finds. */
  lemma {:induction false} LookupAt(es: seq<Entry>, i: nat)
    requires DistinctKeys(es) && i < |es|
    ensures Lookup(es, es[i].key) == Some(es[i].obj)
  {
    if i > 0 {
      assert es[1..][i - 1] == es[i];
      KeysIndex(es[1..], es[i].key);
      LookupAt(es[1..], i - 1);
    }
  }

  /** Write `o` under `k`: an existing entry is replaced where it stands,
      otherwise the entry is appended. */
  function Upsert(es: seq<Entry>, k: string, o: Obj): (r: seq<Entry>)
    ensures Keys(r) == Keys(es) + {k}
    ensures k !in Keys(es) ==> r == es + [Entry(k, o)]
  {
    if es == [] then [Entry(k, o)]
    else if es[0].key == k then
      assert ([Entry(k, o)] + es[1..])[1..] == es[1..];
      [Entry(k, o)] + es[1..]
    else
      var t := Upsert(es[1..], k, o);
      assert ([es[0]] + t)[1..] == t;
      assert k !in Keys(es) ==> [es[0]] + (es[1..] + [Entry(k, o)]) == es + [Entry(k, o)];
      [es[0]] + t
  }

  /** A write keeps the entries valid, stores `o` under `k` and changes nothing else. */
  lemma {:induction false} UpsertValid(es: seq<Entry>, k: string, o: Obj)
    requires ValidEntries(es) && WellFormedKey(k)
    ensures ValidEntries(Upsert(es, k, o))
    ensures Lookup(Upsert(es, k, o), k) == Some(o)
    ensures forall k' :: k' != k ==> Lookup(Upsert(es, k, o), k') == Lookup(es, k')
  {
    if es != [] {
      if es[0].key == k {
        assert ([Entry(k, o)] + es[1..])[1..] == es[1..];
      } else {
        UpsertValid(es[1..], k, o);
        assert ([es[0]] + Upsert(es[1..], k, o))[1..] == Upsert(es[1..], k, o);
      }
    }
  }

  /** The entries whose keys are not in `ks`, in their order. */
  function Without(es: seq<Entry>, ks: set<string>): (r: seq<Entry>)
    ensures Keys(r) == Keys(es) - ks
  {
    if es == [] then []
    else
      var t := Without(es[1..], ks);
      if es[0].key in ks then t
      else
        assert ([es[0]] + t)[1..] == t;
        [es[0]] + t
  }

  /** Removing in two steps is removing the union. */
  lemma {:induction false} WithoutTwice(es: seq<Entry>, a: set<string>, b: set<string>)
    ensures Without(Without(es, a), b) == Without(es, a + b)
  {
    if es != [] {
      WithoutTwice(es[1..], a, b);
      if es[0].key !in a {
        assert ([es[0]] + Without(es[1..], a))[1..] == Without(es[1..], a);
      }
    }
  }

  /** Only the keys that are present matter to a removal. */
  lemma {:induction false} WithoutPresent(es: seq<Entry>, a: set<string>, b: set<string>)
    requires a * Keys(es) == b * Keys(es)
    ensures Without(es, a) == Without(es, b)
  {
    if es != [] {
      var ks := Keys(es);
      assert forall x :: x in ks ==> (x in a <==> x in a * ks) && (x in b <==> x in b * ks);
      assert a * Keys(es[1..]) == b * Keys(es[1..]);
      WithoutPresent(es[1..], a, b);
    }
  }

  /** Removal keeps the remaining objects as they were. */
  lemma {:induction false} WithoutLookup(es: seq<Entry>, ks: set<string>, k: string)
    ensures Lookup(Without(es, ks), k) == if k in ks then None else Lookup(es, k)
  {
    if es != [] {
      WithoutLookup(es[1..], ks, k);
      if es[0].key !in ks {
        assert ([es[0]] + Without(es[1..], ks))[1..] == Without(es[1..], ks);
      }
    }
  }

  lemma {:induction false} WithoutValid(es: seq<Entry>, ks: set<string>)
    requires ValidEntries(es)
    ensures ValidEntries(Without(es, ks))
  {
    if es != [] {
      WithoutValid(es[1..], ks);
      if es[0].key !in ks {
        assert ([es[0]] + Without(es[1..], ks))[1..] == Without(es[1..], ks);
      }
    }
  }
}
