/** User metadata as the facade returns it: `_extract_metadata` strips the
    `X-Amz-Meta-` header prefix from each key and lower-cases the key, and
    `get` lays the cleaned entries over the three derived entries. */
module Metadata {
  import opened Outcomes
  import opened PathStrings

  const HeaderPrefix: string := "X-Amz-Meta-"

  /** A metadata value: the derived directory flag, timestamp and size, or a
      user-supplied string. */
  datatype Value =
    | Flag(flag: bool)
    | Stamp(time: Option<int>)
    | Size(size: Option<nat>)
    | Text(text: string)

  /** `key.replace('X-Amz-Meta-', '').lower()` */
  function CleanKey(key: string): (r: string)
    ensures |r| <= |key|
    ensures forall i :: 0 <= i < |r| ==> !('A' <= r[i] <= 'Z')
  {
    Lower(RemoveAll(key, HeaderPrefix))
  }

  /** The cleaned map of a header list: the dictionary comprehension visits the
      entries in order, so a later entry whose key cleans to the same string
      replaces an earlier one. */
  function Clean(entries: seq<(string, string)>): (r: map<string, string>)
    ensures r.Keys == set i | 0 <= i < |entries| :: CleanKey(entries[i].0)
  {
    if entries == [] then map[]
    else
      var last := entries[|entries| - 1];
      var init := entries[..|entries| - 1];
      var r := Clean(init)[CleanKey(last.0) := last.1];
      assert r.Keys == set i | 0 <= i < |entries| :: CleanKey(entries[i].0) by {
        forall i | 0 <= i < |init| ensures init[i] == entries[i] { }
      }
      r
  }

  /** `_extract_metadata`: a missing header list gives the empty map. */
  function ExtractMetadata(headers: Option<seq<(string, string)>>): (r: map<string, string>)
    ensures headers.None? ==> r == map[]
    ensures headers.Some? ==> r == Clean(headers.value)
  {
    match headers
    case None => map[]
    case Some(entries) => Clean(entries)
  }

  /** Every cleaned key carries the value of the last entry that cleans to it. */
  lemma {:induction false} CleanLastWins(entries: seq<(string, string)>, i: nat)
    requires i < |entries|
    requires forall j :: i < j < |entries| ==> CleanKey(entries[j].0) != CleanKey(entries[i].0)
    ensures CleanKey(entries[i].0) in Clean(entries)
    ensures Clean(entries)[CleanKey(entries[i].0)] == entries[i].1
  {
    if i < |entries| - 1 {
      var init := entries[..|entries| - 1];
      assert init[i] == entries[i];
      forall j | i < j < |init| ensures CleanKey(init[j].0) != CleanKey(init[i].0) {
        assert init[j] == entries[j];
      }
      CleanLastWins(init, i);
    }
  }

  /** A key without the header prefix and without capitals is left alone. */
  lemma CleanPlainKey(key: string)
    requires !Contains(key, HeaderPrefix)
    requires forall i :: 0 <= i < |key| ==> !('A' <= key[i] <= 'Z')
    ensures CleanKey(key) == key
  {
    RemoveAllAbsent(key, HeaderPrefix);
  }

  /** The header prefix in front of a key is removed. */
  lemma CleanHeaderKey(key: string)
    ensures CleanKey(HeaderPrefix + key) == Lower(RemoveAll(key, HeaderPrefix))
  {
    assert (HeaderPrefix + key)[..|HeaderPrefix|] == HeaderPrefix;
    assert (HeaderPrefix + key)[|HeaderPrefix|..] == key;
  }

  /** The metadata `get` returns: the derived entries, overridden by any cleaned
      user entry with the same name. */
  function Merge(isDir: bool, lastModified: Option<int>, size: Option<nat>,
                 custom: map<string, string>): (r: map<string, Value>)
    ensures r.Keys == {"is_dir", "last_modified", "size"} + custom.Keys
    ensures forall k :: k in custom ==> r[k] == Text(custom[k])
    ensures "is_dir" !in custom ==> r["is_dir"] == Flag(isDir)
    ensures "last_modified" !in custom ==> r["last_modified"] == Stamp(lastModified)
    ensures "size" !in custom ==> r["size"] == Size(size)
  {
    var derived := map["is_dir" := Flag(isDir), "last_modified" := Stamp(lastModified),
                       "size" := Size(size)];
    derived + map k | k in custom :: Text(custom[k])
  }
}
