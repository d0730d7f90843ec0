/**
 A Python `dict`: a finite map that also remembers the order in which its keys
 were first inserted. Iteration (`.values()`, `.items()`) follows that order,
 re-assigning an existing key keeps its position, and deleting a key drops it
 from the order.
 */
module Dicts {

  datatype RawDict<K, V> = RawDict(keys: seq<K>, vals: map<K, V>)

  /** The element at position `i`. Distinctness is stated through it so that
      the solver compares positions only where a proof names them. */
  ghost function At<K>(s: seq<K>, i: int): K
    requires 0 <= i < |s|
  {
    s[i]
  }

  /** No key is listed twice. */
  ghost predicate Distinct<K>(s: seq<K>) {
    forall i, j :: 0 <= i < j < |s| ==> At(s, i) != At(s, j)
  }

  /** Two positions of a repeat-free list hold different elements. */
  lemma DistinctAt<K>(s: seq<K>, i: int, j: int)
    requires Distinct(s) && 0 <= i < j < |s|
    ensures s[i] != s[j]
  {
    assert At(s, i) != At(s, j);
  }

  /** The head of a repeat-free list does not recur, and its tail is repeat-free. */
  lemma DistinctTail<K>(s: seq<K>)
    requires s != []
    ensures Distinct(s) ==> s[0] !in s[1..] && Distinct(s[1..])
  {
    if Distinct(s) {
      forall j | 0 <= j < |s[1..]| ensures s[1..][j] != s[0] {
        DistinctAt(s, 0, j + 1);
      }
      forall i, j | 0 <= i < j < |s[1..]| ensures At(s[1..], i) != At(s[1..], j) {
        DistinctAt(s, i + 1, j + 1);
      }
    }
  }

  /** Prefixing an element that the repeat-free rest does not hold keeps it repeat-free. */
  lemma DistinctCons<K>(x: K, s: seq<K>)
    ensures x !in s && Distinct(s) ==> Distinct([x] + s)
  {
    if x !in s && Distinct(s) {
      var r := [x] + s;
      forall i, j | 0 <= i < j < |r| ensures At(r, i) != At(r, j) {
        if i == 0 {
          assert r[j] == s[j - 1];
        } else {
          DistinctAt(s, i - 1, j - 1);
        }
      }
    }
  }

  /** Appending an element the list does not hold keeps it repeat-free. */
  lemma DistinctAppend<K>(s: seq<K>, x: K)
    requires x !in s
    ensures Distinct(s) ==> Distinct(s + [x])
  {
    if Distinct(s) {
      var r := s + [x];
      forall i, j | 0 <= i < j < |r| ensures At(r, i) != At(r, j) {
        if j < |s| {
          DistinctAt(s, i, j);
        }
      }
    }
  }

  /** Key `k` appears in the order `keys`. Like `At`, it names the fact so
      that the solver looks a stored key up in the order only on request. */
  ghost predicate Listed<K>(keys: seq<K>, k: K) {
    k in keys
  }

  /** The order lists every key of the map exactly once and nothing else. */
  ghost predicate Valid<K(!new), V>(d: RawDict<K, V>) {
    && Distinct(d.keys)
    && (forall i :: 0 <= i < |d.keys| ==> At(d.keys, i) in d.vals)
    && (forall k {:trigger Listed(d.keys, k)} :: k in d.vals ==> Listed(d.keys, k))
  }

  /** Every key in the order is stored. */
  lemma AllStored<K(!new), V>(d: RawDict<K, V>)
    requires Valid(d)
    ensures forall i :: 0 <= i < |d.keys| ==> d.keys[i] in d.vals
  {
    forall i | 0 <= i < |d.keys| ensures d.keys[i] in d.vals {
      assert At(d.keys, i) in d.vals;
    }
  }

  /** Every stored key appears in the order. */
  lemma AllListed<K(!new), V>(d: RawDict<K, V>)
    requires Valid(d)
    ensures forall k :: k in d.vals ==> k in d.keys
  {
    forall k | k in d.vals ensures k in d.keys {
      assert Listed(d.keys, k);
    }
  }

  type Dict<K(==,!new), V> = d: RawDict<K, V> | Valid(d) witness RawDict([], map[])

  function Empty<K(==,!new), V>(): (r: Dict<K, V>)
    ensures r.vals == map[]
  {
    RawDict([], map[])
  }

  /** `d[k] = v`: a new key goes last, an existing key keeps its place. */
  function Put<K(==,!new), V>(d: Dict<K, V>, k: K, v: V): (r: Dict<K, V>)
    ensures r.vals == d.vals[k := v]
    ensures k in d.vals ==> r.keys == d.keys
    ensures k !in d.vals ==> r.keys == d.keys + [k]
  {
    if k in d.vals then RawDict(d.keys, d.vals[k := v])
    else
      AllStored(d);
      DistinctAppend(d.keys, k);
      AllListed(d);
      RawDict(d.keys + [k], d.vals[k := v])
  }

  /** The sequence `s` with every occurrence of `k` dropped, order kept. */
  function Without<K(==,!new)>(s: seq<K>, k: K): (r: seq<K>)
    ensures forall x :: x in r <==> x in s && x != k
    ensures Distinct(s) ==> Distinct(r)
    ensures |r| <= |s|
    ensures k !in s ==> r == s
  {
    if s == [] then []
    else if s[0] == k then
      DistinctTail(s);
      Without(s[1..], k)
    else
      var rest := Without(s[1..], k);
      DistinctTail(s);
      DistinctCons(s[0], rest);
      [s[0]] + rest
  }

  /** In a repeat-free list, dropping `k` cuts out its one position and keeps
      the order of everything else. */
  lemma {:induction false} WithoutAt<K(!new)>(s: seq<K>, k: K, i: int)
    requires Distinct(s) && 0 <= i < |s| && s[i] == k
    ensures Without(s, k) == s[..i] + s[i + 1..]
  {
    DistinctTail(s);
    if i == 0 {
      assert s[1..] == s[i + 1..];
    } else {
      assert s[0] != k by { DistinctAt(s, 0, i); }
      assert s[1..][i - 1] == k;
      WithoutAt(s[1..], k, i - 1);
      assert s[1..][..i - 1] == s[1..i] && s[1..][i..] == s[i + 1..];
      assert [s[0]] + s[1..i] == s[..i];
    }
  }

  /** `del d[k]` (or `d.pop(k, None)`): removes the key if present; the other
      keys keep their order. */
  function Remove<K(==,!new), V>(d: Dict<K, V>, k: K): (r: Dict<K, V>)
    ensures r.vals == d.vals - {k}
    ensures k !in d.vals ==> r == d
    ensures k in d.vals ==> r.keys == Without(d.keys, k)
    ensures k in d.vals ==>
              exists i :: 0 <= i < |d.keys| && d.keys[i] == k && r.keys == d.keys[..i] + d.keys[i + 1..]
  {
    if k !in d.vals then d
    else
      RemoveKeepsValid(d, k);
      AllListed(d);
      var i :| 0 <= i < |d.keys| && d.keys[i] == k;
      WithoutAt(d.keys, k, i);
      RawDict(Without(d.keys, k), d.vals - {k})
  }

  lemma RemoveKeepsValid<K(!new), V>(d: RawDict<K, V>, k: K)
    requires Valid(d)
    ensures Valid(RawDict(Without(d.keys, k), d.vals - {k}))
  {
    var r := RawDict(Without(d.keys, k), d.vals - {k});
    AllListed(d);
    AllStored(d);
    forall i | 0 <= i < |r.keys| ensures r.keys[i] in r.vals {
      assert r.keys[i] in r.keys;
      var j :| 0 <= j < |d.keys| && d.keys[j] == r.keys[i];
    }
    forall x | x in r.vals ensures Listed(r.keys, x) {
      assert x in d.keys;
    }
  }

  /** The elements of `s` that are not listed in `ks`, in the order of `s`. */
  function Minus<K(==,!new)>(s: seq<K>, ks: seq<K>): (r: seq<K>)
    ensures forall x :: x in r <==> x in s && x !in ks
  {
    if s == [] then []
    else (if s[0] in ks then [] else [s[0]]) + Minus(s[1..], ks)
  }

  /** Cutting out `k` first and then the keys of `ks` leaves what cutting out
      all of `[k] + ks` at once leaves. */
  lemma {:induction false} MinusWithout<K(!new)>(s: seq<K>, k: K, ks: seq<K>)
    ensures Minus(Without(s, k), ks) == Minus(s, [k] + ks)
  {
    if s != [] {
      MinusWithout(s[1..], k, ks);
      if s[0] != k {
        var w := Without(s, k);
        assert w == [s[0]] + Without(s[1..], k);
        assert w[1..] == Without(s[1..], k);
      }
    }
  }

  /** Removes every key listed in `ks`, as the deferred clean-up loop of a tick
      does; the keys that stay keep their order. */
  function RemoveAll<K(==,!new), V>(d: Dict<K, V>, ks: seq<K>): (r: Dict<K, V>)
    ensures forall k :: k in r.vals <==> k in d.vals && k !in ks
    ensures forall k :: k in r.vals ==> r.vals[k] == d.vals[k]
    ensures r.keys == Minus(d.keys, ks)
    decreases |ks|
  {
    if ks == [] then
      assert Minus(d.keys, ks) == d.keys by { MinusNothing(d.keys, ks); }
      d
    else
      AllStored(d);
      assert ks == [ks[0]] + ks[1..];
      MinusWithout(d.keys, ks[0], ks[1..]);
      RemoveAll(Remove(d, ks[0]), ks[1..])
  }

  /** Cutting out no keys changes nothing. */
  lemma {:induction false} MinusNothing<K(!new)>(s: seq<K>, ks: seq<K>)
    requires ks == []
    ensures Minus(s, ks) == s
  {
    if s != [] {
      MinusNothing(s[1..], ks);
      assert s == [s[0]] + s[1..];
    }
  }

  /** `list(d.values())`: the values in key order. */
  function Values<K(==,!new), V>(d: Dict<K, V>): (r: seq<V>)
    ensures |r| == |d.keys|
    ensures forall i :: 0 <= i < |r| ==> d.keys[i] in d.vals && r[i] == d.vals[d.keys[i]]
  {
    AllStored(d);
    seq(|d.keys|, i requires 0 <= i < |d.keys| => d.vals[d.keys[i]])
  }
}
