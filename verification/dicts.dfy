/** Python dictionaries: a finite map together with its iteration order.

    The order is insertion order. Assigning to a key that is already present
    keeps its position; a new key goes to the end. */
module Dicts {

  predicate NoDups<T(==)>(s: seq<T>) {
    forall i, j :: 0 <= i < j < |s| ==> s[i] != s[j]
  }

  datatype OrderedMap<K(==,!new), V> = OrderedMap(keys: seq<K>, entries: map<K, V>) {
    /** `keys` lists every key of `entries` exactly once. */
    ghost predicate Valid() {
      NoDups(keys) && forall k :: k in entries <==> k in keys
    }
  }

  type Dict<K(==,!new), V> = d: OrderedMap<K, V> | d.Valid() witness OrderedMap([], map[])

  function Empty<K(==,!new), V>(): Dict<K, V> {
    OrderedMap([], map[])
  }

  /** `d[k] = v`. */
  function Put<K(==,!new), V>(d: Dict<K, V>, k: K, v: V): (r: Dict<K, V>)
    ensures r.entries == d.entries[k := v]
    ensures k in d.entries ==> r.keys == d.keys
    ensures k !in d.entries ==> r.keys == d.keys + [k]
  {
    if k in d.entries then OrderedMap(d.keys, d.entries[k := v])
    else OrderedMap(d.keys + [k], d.entries[k := v])
  }

  /** The first components of a sequence of pairs. */
  function Firsts<K(==,!new), V>(ps: seq<(K, V)>): (r: seq<K>)
    ensures |r| == |ps|
    ensures forall i :: 0 <= i < |ps| ==> r[i] == ps[i].0
  {
    seq(|ps|, i requires 0 <= i < |ps| => ps[i].0)
  }

  /** No pair after position `i` has the same key as the pair at `i`. */
  predicate LastOccurrence<K(==,!new), V>(ps: seq<(K, V)>, i: int)
    requires 0 <= i < |ps|
  {
    forall j :: i < j < |ps| ==> ps[j].0 != ps[i].0
  }

  /** `dict(ps)`, and equally `{k: v for (k, v) in ps}`: the later of two pairs with the same key wins. */
  function FromPairs<K(==,!new), V>(ps: seq<(K, V)>): (r: Dict<K, V>)
    ensures forall k :: k in r.entries <==> k in Firsts(ps)
    ensures forall i :: 0 <= i < |ps| && LastOccurrence(ps, i) ==> r.entries[ps[i].0] == ps[i].1
    ensures NoDups(Firsts(ps)) ==> r.keys == Firsts(ps)
    decreases |ps|
  {
    if |ps| == 0 then Empty()
    else
      var init := ps[..|ps| - 1];
      var last := ps[|ps| - 1];
      var d := FromPairs(init);
      PutLast(ps, d);
      Put(d, last.0, last.1)
  }

  /** The inductive step of `FromPairs`: adding the last pair to the dictionary of the others. */
  lemma PutLast<K(!new), V>(ps: seq<(K, V)>, d: Dict<K, V>)
    requires |ps| > 0
    requires forall k :: k in d.entries <==> k in Firsts(ps[..|ps| - 1])
    requires forall i :: 0 <= i < |ps| - 1 && LastOccurrence(ps[..|ps| - 1], i) ==> d.entries[ps[i].0] == ps[i].1
    requires NoDups(Firsts(ps[..|ps| - 1])) ==> d.keys == Firsts(ps[..|ps| - 1])
    ensures forall k :: k in Put(d, ps[|ps| - 1].0, ps[|ps| - 1].1).entries <==> k in Firsts(ps)
    ensures forall i :: 0 <= i < |ps| && LastOccurrence(ps, i) ==>
              Put(d, ps[|ps| - 1].0, ps[|ps| - 1].1).entries[ps[i].0] == ps[i].1
    ensures NoDups(Firsts(ps)) ==> Put(d, ps[|ps| - 1].0, ps[|ps| - 1].1).keys == Firsts(ps)
  {
    var init := ps[..|ps| - 1];
    var last := ps[|ps| - 1];
    assert Firsts(ps) == Firsts(init) + [last.0];
    forall i | 0 <= i < |ps| && LastOccurrence(ps, i)
      ensures Put(d, last.0, last.1).entries[ps[i].0] == ps[i].1
    {
      if i < |ps| - 1 {
        LastOfInit(ps, i);
      }
    }
    if NoDups(Firsts(ps)) {
      NoDupsOfInit(ps);
    }
  }

  lemma LastOfInit<K(!new), V>(ps: seq<(K, V)>, i: int)
    requires 0 <= i < |ps| - 1 && LastOccurrence(ps, i)
    ensures LastOccurrence(ps[..|ps| - 1], i) && ps[i].0 != ps[|ps| - 1].0
  {
    var init := ps[..|ps| - 1];
    forall j | i < j < |init| ensures init[j].0 != init[i].0 {
      assert init[j] == ps[j];
    }
  }

  lemma NoDupsOfInit<K(!new), V>(ps: seq<(K, V)>)
    requires |ps| > 0 && NoDups(Firsts(ps))
    ensures NoDups(Firsts(ps[..|ps| - 1]))
    ensures ps[|ps| - 1].0 !in Firsts(ps[..|ps| - 1])
  {
    var fi := Firsts(ps[..|ps| - 1]);
    var fs := Firsts(ps);
    forall i, j | 0 <= i < j < |fi| ensures fi[i] != fi[j] {
      assert fi[i] == fs[i] && fi[j] == fs[j];
    }
    forall i | 0 <= i < |fi| ensures fi[i] != ps[|ps| - 1].0 {
      assert fi[i] == fs[i];
      assert fs[|ps| - 1] == ps[|ps| - 1].0;
    }
  }

  /** The position of the pair that decides the value of key `k` in `FromPairs(ps)`. */
  lemma {:induction false} LastIndexOf<K(!new), V>(ps: seq<(K, V)>, k: K) returns (i: nat)
    requires k in Firsts(ps)
    ensures i < |ps| && ps[i].0 == k && LastOccurrence(ps, i)
    ensures k in FromPairs(ps).entries && FromPairs(ps).entries[k] == ps[i].1
    decreases |ps|
  {
    if ps[|ps| - 1].0 == k {
      i := |ps| - 1;
    } else {
      var init := ps[..|ps| - 1];
      assert k in Firsts(init) by {
        var j :| 0 <= j < |ps| && Firsts(ps)[j] == k;
        assert Firsts(init)[j] == k;
      }
      i := LastIndexOf(init, k);
      assert ps[i] == init[i];
      forall j | i < j < |ps| ensures ps[j].0 != ps[i].0 {
        if j < |ps| - 1 { assert ps[j] == init[j]; }
      }
    }
  }

  /** When the keys are distinct, every pair is the last one with its key. */
  lemma DistinctIsLast<K(!new), V>(ps: seq<(K, V)>, i: int)
    requires NoDups(Firsts(ps))
    requires 0 <= i < |ps|
    ensures LastOccurrence(ps, i)
  {
    var fs := Firsts(ps);
    forall j | i < j < |ps|
      ensures ps[j].0 != ps[i].0
    {
      assert fs[j] == ps[j].0 && fs[i] == ps[i].0;
    }
  }

  /** `dict(ps)` for pairs with distinct keys: every pair survives, in order. */
  lemma FromDistinctPairs<K(!new), V>(ps: seq<(K, V)>)
    requires NoDups(Firsts(ps))
    ensures FromPairs(ps).keys == Firsts(ps)
    ensures forall i :: 0 <= i < |ps| ==> FromPairs(ps).entries[ps[i].0] == ps[i].1
  {
    forall i | 0 <= i < |ps|
      ensures FromPairs(ps).entries[ps[i].0] == ps[i].1
    {
      DistinctIsLast(ps, i);
    }
  }

  /** `d.items()`: the key/value pairs in iteration order. */
  function Items<K(==,!new), V>(d: Dict<K, V>): (r: seq<(K, V)>)
    ensures Firsts(r) == d.keys
    ensures forall i :: 0 <= i < |r| ==> r[i].1 == d.entries[r[i].0]
  {
    seq(|d.keys|, i requires 0 <= i < |d.keys| => (d.keys[i], d.entries[d.keys[i]]))
  }

  /** A sequence without duplicates holds each element at most once. */
  lemma {:induction false} NoDupsMultiset<T>(s: seq<T>)
    requires NoDups(s)
    ensures forall x :: multiset(s)[x] <= 1
  {
    if |s| > 0 {
      var t := s[1..];
      assert s == [s[0]] + t;
      assert NoDups(t);
      NoDupsMultiset(t);
      assert s[0] !in t;
      assert multiset(s) == multiset{s[0]} + multiset(t);
    }
  }

  /** The converse: at most one copy of each element means no duplicates. */
  lemma MultisetNoDups<T>(s: seq<T>)
    requires forall x :: multiset(s)[x] <= 1
    ensures NoDups(s)
  {
    forall i, j | 0 <= i < j < |s|
      ensures s[i] != s[j]
    {
      var x := s[i];
      assert s == s[..j] + s[j..];
      assert s[..j][i] == x;
      assert s[j..][0] == s[j];
      assert multiset(s)[x] == multiset(s[..j])[x] + multiset(s[j..])[x];
    }
  }
}
