/** An insertion-ordered dictionary with the semantics of the JavaScript
    `Map` that `MiddlewareRegistry` keeps its entries in: a sequence of
    key/value pairs with distinct keys, iterated front to back. */
module OrderedMap {
  import opened Wrappers

  /** No key occurs twice. */
  ghost predicate DistinctKeys<K, V>(m: seq<(K, V)>)
  {
    forall i, j :: 0 <= i < j < |m| ==> m[i].0 != m[j].0
  }

  /** `map.has(k)`. */
  predicate HasKey<K(==), V>(m: seq<(K, V)>, k: K)
  {
    exists i :: 0 <= i < |m| && m[i].0 == k
  }

  /** `map.get(k)`. */
  function Get<K(==), V>(m: seq<(K, V)>, k: K): (r: Option<V>)
    ensures r.Some? <==> HasKey(m, k)
    ensures r.Some? ==> exists i :: 0 <= i < |m| && m[i] == (k, r.value)
  {
    if m == [] then None
    else if m[0].0 == k then Some(m[0].1)
    else
      var r := Get(m[1..], k);
      assert r.Some? ==> m[1..][0].0 == k || HasKey(m[1..], k);
      assert HasKey(m[1..], k) ==> HasKey(m, k) by {
        if HasKey(m[1..], k) {
          var i :| 0 <= i < |m[1..]| && m[1..][i].0 == k;
          assert m[i + 1].0 == k;
        }
      }
      assert HasKey(m, k) ==> HasKey(m[1..], k) by {
        if HasKey(m, k) {
          var i :| 0 <= i < |m| && m[i].0 == k;
          assert i > 0 && m[1..][i - 1].0 == k;
        }
      }
      assert r.Some? ==> exists i :: 0 <= i < |m| && m[i] == (k, r.value) by {
        if r.Some? {
          var i :| 0 <= i < |m[1..]| && m[1..][i] == (k, r.value);
          assert m[i + 1] == (k, r.value);
        }
      }
      r
  }

  /** `map.set(k, v)`: the value of an existing key is replaced where it
      stands; a new key goes to the end of the iteration order. */
  function Set<K(==), V>(m: seq<(K, V)>, k: K, v: V): seq<(K, V)>
  {
    if m == [] then [(k, v)]
    else if m[0].0 == k then [(k, v)] + m[1..]
    else [m[0]] + Set(m[1..], k, v)
  }

  /** Setting a key not yet present appends exactly one entry at the end. */
  lemma {:induction false} SetAbsent<K, V>(m: seq<(K, V)>, k: K, v: V)
    requires !HasKey(m, k)
    ensures Set(m, k, v) == m + [(k, v)]
    ensures |Set(m, k, v)| == |m| + 1
  {
    if m != [] {
      assert m[0].0 != k;
      assert forall i :: 0 <= i < |m[1..]| ==> m[1..][i] == m[i + 1];
      SetAbsent(m[1..], k, v);
      assert m == [m[0]] + m[1..];
    }
  }

  /** Setting a key already present replaces that entry's whole value in
      place: same size, same position, every other entry unchanged. */
  lemma {:induction false} SetPresent<K, V>(m: seq<(K, V)>, i: nat, k: K, v: V)
    requires DistinctKeys(m)
    requires i < |m| && m[i].0 == k
    ensures Set(m, k, v) == m[i := (k, v)]
    ensures |Set(m, k, v)| == |m|
  {
    if i == 0 {
      assert m[0 := (k, v)] == [(k, v)] + m[1..];
    } else {
      assert m[0].0 != k;
      SetPresent(m[1..], i - 1, k, v);
      assert m[i := (k, v)] == [m[0]] + m[1..][i - 1 := (k, v)];
    }
  }

  /** Keys stay distinct under `Set`. */
  lemma SetKeepsDistinct<K, V>(m: seq<(K, V)>, k: K, v: V)
    requires DistinctKeys(m)
    ensures DistinctKeys(Set(m, k, v))
  {
    if HasKey(m, k) {
      var i :| 0 <= i < |m| && m[i].0 == k;
      SetPresent(m, i, k, v);
    } else {
      SetAbsent(m, k, v);
    }
  }

  /** After `map.set(k, v)`, `map.get(k)` is `v` and every other key reads as before. */
  lemma {:induction false} GetSet<K, V>(m: seq<(K, V)>, k: K, v: V, k': K)
    ensures Get(Set(m, k, v), k') == if k' == k then Some(v) else Get(m, k')
  {
    if m != [] && m[0].0 != k {
      GetSet(m[1..], k, v, k');
      assert Set(m, k, v)[1..] == Set(m[1..], k, v);
    } else if m != [] {
      assert Set(m, k, v)[1..] == m[1..];
    }
  }

  /** Setting the same key twice leaves only the second value: the last
      `set` wins and the first leaves no trace. */
  lemma {:induction false} SetTwice<K, V>(m: seq<(K, V)>, k: K, v1: V, v2: V)
    ensures Set(Set(m, k, v1), k, v2) == Set(m, k, v2)
  {
    if m != [] && m[0].0 != k {
      SetTwice(m[1..], k, v1, v2);
      assert Set(m, k, v1)[1..] == Set(m[1..], k, v1);
    } else if m != [] {
      assert Set(m, k, v1)[1..] == m[1..];
    }
  }
}
