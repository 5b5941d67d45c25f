/** The parts of a Python dictionary that the grocery store relies on: keys
    are strings, lookups go through `entries`, and `keys` remembers the order
    in which keys were first inserted, which is the order `dict.keys()` lists
    them in. Assigning to a key that is already present keeps its position;
    `del` removes the key and keeps the others in order. */
module PyDict {

  /** No key is listed twice. */
  predicate Distinct(s: seq<string>)
  {
    forall i, j :: 0 <= i < j < |s| ==> s[i] != s[j]
  }

  /** `s` with every occurrence of `k` dropped, the rest kept in order. */
  function Without(s: seq<string>, k: string): (r: seq<string>)
    ensures forall x :: x in r <==> x in s && x != k
    ensures k !in s ==> r == s
    decreases |s|
  {
    if s == [] then []
    else if s[0] == k then Without(s[1..], k)
    else [s[0]] + Without(s[1..], k)
  }

  /** Dropping a key from a list without repeats leaves a list without repeats. */
  lemma {:induction false} WithoutKeepsDistinct(s: seq<string>, k: string)
    requires Distinct(s)
    ensures Distinct(Without(s, k))
  {
    if s != [] {
      assert Distinct(s[1..]);
      WithoutKeepsDistinct(s[1..], k);
      if s[0] != k {
        assert s[0] !in s[1..];
        assert Without(s, k) == [s[0]] + Without(s[1..], k);
      }
    }
  }

  /** The first position of `k` in `s`. */
  function IndexOf(s: seq<string>, k: string): (i: nat)
    requires k in s
    ensures i < |s| && s[i] == k && k !in s[..i]
    decreases |s|
  {
    if s[0] == k then 0
    else
      var j := IndexOf(s[1..], k);
      assert s[..j + 1] == [s[0]] + s[1..][..j];
      j + 1
  }

  /** Dropping a key that stands at position `i` and nowhere else cuts out
      exactly that position. */
  lemma {:induction false} WithoutCutsOut(s: seq<string>, k: string, i: nat)
    requires i < |s| && s[i] == k && k !in s[..i] && k !in s[i + 1..]
    ensures Without(s, k) == s[..i] + s[i + 1..]
  {
    if i == 0 {
      assert Without(s, k) == Without(s[1..], k);
    } else {
      var t := s[1..];
      assert s[0] in s[..i];
      assert t[..i - 1] == s[1..i] && t[i..] == s[i + 1..];
      WithoutCutsOut(t, k, i - 1);
      assert Without(s, k) == [s[0]] + Without(t, k);
      assert s[..i] == [s[0]] + t[..i - 1];
    }
  }

  datatype Dict<V> = Dict(keys: seq<string>, entries: map<string, V>)
  {
    /** The key list names each stored key exactly once. */
    predicate Valid()
    {
      && Distinct(keys)
      && (forall k :: k in keys ==> k in entries)
      && (forall k :: k in entries ==> k in keys)
    }

    /** `d[k] = v`: a new key goes to the end, an existing key keeps its place. */
    function Put(k: string, v: V): (r: Dict<V>)
      requires Valid()
      ensures r.Valid()
      ensures k in r.entries && r.entries[k] == v
      ensures forall x :: x != k ==> (x in r.entries <==> x in entries)
      ensures forall x :: x != k && x in entries ==> r.entries[x] == entries[x]
      ensures k in entries ==> r.keys == keys
      ensures k !in entries ==> r.keys == keys + [k]
    {
      if k in entries then Dict(keys, entries[k := v])
      else Dict(keys + [k], entries[k := v])
    }

    /** `del d[k]` on a present key: only `k` disappears, the rest keep their order. */
    function Delete(k: string): (r: Dict<V>)
      requires Valid() && k in entries
      ensures r.Valid()
      ensures k !in r.entries
      ensures forall x :: x != k ==> (x in r.entries <==> x in entries)
      ensures forall x :: x != k && x in entries ==> r.entries[x] == entries[x]
      ensures |r.keys| == |keys| - 1
      ensures r.keys == Without(keys, k)
      ensures r.keys == keys[..IndexOf(keys, k)] + keys[IndexOf(keys, k) + 1..]
    {
      var at := IndexOf(keys, k);
      assert k !in keys[at + 1..];
      WithoutCutsOut(keys, k, at);
      WithoutKeepsDistinct(keys, k);
      Dict(Without(keys, k), entries - {k})
    }
  }
}
