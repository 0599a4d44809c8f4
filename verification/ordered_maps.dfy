/** Python's `dict` as the source relies on it: a finite map that remembers
    insertion order. Assigning to a key that is already present replaces the
    value but keeps the key where it was; deleting a key closes the gap and
    keeps every other key in its place. Iteration (`items()`, `list(d)`,
    `list(d.values())[-1]`) follows this order.

    The map is a sequence of pairs. `Wf` says its keys are distinct, which
    every operation here preserves. */
module OrderedMaps {
  import opened Wrappers

  type OMap<K, V> = seq<(K, V)>

  /** The keys in iteration order. */
  function Keys<K, V>(m: OMap<K, V>): (ks: seq<K>)
    ensures |ks| == |m|
  {
    if m == [] then [] else [m[0].0] + Keys(m[1..])
  }

  lemma KeysCons<K, V>(p: (K, V), m: OMap<K, V>)
    ensures Keys([p] + m) == [p.0] + Keys(m)
  {
    assert ([p] + m)[1..] == m;
  }

  /** No key occurs twice. */
  predicate Wf<K(==), V>(m: OMap<K, V>) {
    m == [] || (m[0].0 !in Keys(m[1..]) && Wf(m[1..]))
  }

  /** `d.get(k)`: the value stored under `k`, if any. */
  function Get<K(==), V>(m: OMap<K, V>, k: K): (r: Option<V>)
    ensures r.Some? <==> k in Keys(m)
    ensures r.Some? ==> (k, r.value) in m
  {
    if m == [] then None
    else if m[0].0 == k then Some(m[0].1)
    else Get(m[1..], k)
  }

  /** The value stored under a key known to be present (`d[k]`). */
  function Lookup<K(==), V>(m: OMap<K, V>, k: K): V
    requires k in Keys(m)
  {
    Get(m, k).value
  }

  /** The position of a present key. */
  function IndexOf<K(==), V>(m: OMap<K, V>, k: K): (i: nat)
    requires k in Keys(m)
    ensures i < |m| && m[i].0 == k
    ensures forall j :: 0 <= j < i ==> m[j].0 != k
  {
    if m[0].0 == k then 0 else 1 + IndexOf(m[1..], k)
  }

  /** `d[k] = v`: a present key keeps its position, an absent one goes last. */
  function Put<K(==, !new), V>(m: OMap<K, V>, k: K, v: V): (r: OMap<K, V>)
    ensures Keys(r) == if k in Keys(m) then Keys(m) else Keys(m) + [k]
    ensures Get(r, k) == Some(v)
    ensures forall k' :: k' != k ==> Get(r, k') == Get(m, k')
    ensures Wf(m) ==> Wf(r)
  {
    if m == [] then [(k, v)]
    else if m[0].0 == k then
      KeysCons((k, v), m[1..]);
      assert ([(k, v)] + m[1..])[1..] == m[1..];
      [(k, v)] + m[1..]
    else
      var rest := Put(m[1..], k, v);
      KeysCons(m[0], rest);
      KeysCons(m[0], m[1..]);
      assert ([m[0]] + rest)[1..] == rest;
      assert [m[0]] + m[1..] == m;
      assert k in Keys(m) <==> k in Keys(m[1..]);
      [m[0]] + rest
  }

  /** `d[k] = v` leaves every other pair where it was. */
  lemma {:induction false} PutKeepsPositions<K(!new), V>(m: OMap<K, V>, k: K, v: V)
    ensures |Put(m, k, v)| >= |m|
    ensures forall i :: 0 <= i < |m| && m[i].0 != k ==> Put(m, k, v)[i] == m[i]
  {
    if m != [] && m[0].0 != k {
      PutKeepsPositions(m[1..], k, v);
      var rest := Put(m[1..], k, v);
      assert Put(m, k, v) == [m[0]] + rest;
      forall i | 0 < i < |m| && m[i].0 != k ensures Put(m, k, v)[i] == m[i] {
        assert m[i] == m[1..][i - 1];
      }
    }
  }

  /** `d[k] = v` adds no pair but `(k, v)`. */
  lemma {:induction false} PutAddsOnly<K(!new), V>(m: OMap<K, V>, k: K, v: V)
    ensures forall p :: p in Put(m, k, v) ==> p == (k, v) || p in m
  {
    if m != [] && m[0].0 != k {
      PutAddsOnly(m[1..], k, v);
      assert Put(m, k, v) == [m[0]] + Put(m[1..], k, v);
    }
  }

  /** Putting an absent key appends the pair. */
  lemma {:induction false} PutAbsentAppends<K(!new), V>(m: OMap<K, V>, k: K, v: V)
    requires k !in Keys(m)
    ensures Put(m, k, v) == m + [(k, v)]
  {
    if m != [] {
      assert k !in Keys(m[1..]) && m[0].0 != k;
      PutAbsentAppends(m[1..], k, v);
      ConsAppend(m, (k, v));
    }
  }

  lemma ConsAppend<T>(m: seq<T>, x: T)
    requires m != []
    ensures [m[0]] + (m[1..] + [x]) == m + [x]
  {
    assert m == [m[0]] + m[1..];
  }

  /** `del d[k]` when present, nothing otherwise. */
  function Remove<K(==, !new), V>(m: OMap<K, V>, k: K): (r: OMap<K, V>)
    requires Wf(m)
    ensures Wf(r)
    ensures forall x :: x in Keys(r) <==> x in Keys(m) && x != k
    ensures |r| == if k in Keys(m) then |m| - 1 else |m|
    ensures forall p :: p in r ==> p in m
  {
    if m == [] then []
    else if m[0].0 == k then m[1..]
    else
      var rest := Remove(m[1..], k);
      KeysCons(m[0], rest);
      assert ([m[0]] + rest)[1..] == rest;
      [m[0]] + rest
  }

  /** Removing a key leaves every other key's value alone. */
  lemma {:induction false} RemoveGet<K(!new), V>(m: OMap<K, V>, k: K, x: K)
    requires Wf(m) && x != k
    ensures Get(Remove(m, k), x) == Get(m, x)
  {
    if m != [] && m[0].0 != k {
      RemoveGet(m[1..], k, x);
      assert ([m[0]] + Remove(m[1..], k))[1..] == Remove(m[1..], k);
    }
  }

  /** Removing an absent key changes nothing. */
  lemma {:induction false} RemoveAbsent<K(!new), V>(m: OMap<K, V>, k: K)
    requires Wf(m) && k !in Keys(m)
    ensures Remove(m, k) == m
  {
    if m != [] {
      RemoveAbsent(m[1..], k);
      assert Remove(m, k) == [m[0]] + Remove(m[1..], k);
      assert [m[0]] + m[1..] == m;
    }
  }

  /** Removing a present key closes its gap: the pairs before and after it
      keep their order. */
  lemma {:induction false} RemoveClosesGap<K(!new), V>(m: OMap<K, V>, k: K)
    requires Wf(m) && k in Keys(m)
    ensures Remove(m, k) == m[..IndexOf(m, k)] + m[IndexOf(m, k) + 1..]
  {
    if m[0].0 == k {
      assert m[..0] + m[1..] == m[1..];
    } else {
      var tail := m[1..];
      assert k in Keys(tail);
      RemoveClosesGap(tail, k);
      var j := IndexOf(tail, k);
      assert IndexOf(m, k) == j + 1;
      ConsSplice(m, j);
    }
  }

  /** Splicing out position `j + 1` of `m` is splicing out position `j` of
      its tail, behind the head. */
  lemma ConsSplice<T>(m: seq<T>, j: nat)
    requires j + 1 < |m|
    ensures [m[0]] + (m[1..][..j] + m[1..][j + 1..]) == m[..j + 1] + m[j + 2..]
  {
    assert m[..j + 1] == [m[0]] + m[1..][..j];
    assert m[j + 2..] == m[1..][j + 1..];
  }

  /** The last pair in iteration order. */
  function Last<K, V>(m: OMap<K, V>): (p: (K, V))
    requires m != []
    ensures m == m[..|m| - 1] + [p]
  {
    m[|m| - 1]
  }

  /** A key of a well-formed map sits at exactly one position. */
  lemma {:induction false} KeyPositionUnique<K, V>(m: OMap<K, V>, i: nat, j: nat)
    requires Wf(m)
    requires i < |m| && j < |m| && m[i].0 == m[j].0
    ensures i == j
  {
    if i != 0 && j != 0 {
      KeyPositionUnique(m[1..], i - 1, j - 1);
    } else if i != j {
      var p := if i == 0 then j else i;
      KeyAt(m[1..], p - 1);
    }
  }

  /** The key at any position is among the keys. */
  lemma {:induction false} KeyAt<K, V>(m: OMap<K, V>, i: nat)
    requires i < |m|
    ensures m[i].0 in Keys(m)
  {
    if i > 0 {
      KeyAt(m[1..], i - 1);
    }
  }

  /** In a well-formed map, a pair it holds is the pair `d[k]` gives. */
  lemma {:induction false} MemberIsLookup<K, V>(m: OMap<K, V>, p: (K, V))
    requires Wf(m) && p in m
    ensures p.0 in Keys(m) && Lookup(m, p.0) == p.1
  {
    if m[0] != p {
      assert p in m[1..];
      MemberIsLookup(m[1..], p);
      if m[0].0 == p.0 {
        assert false;
      }
    }
  }

  /** `list(d)` lists the keys position by position. */
  lemma {:induction false} KeysPointwise<K, V>(m: OMap<K, V>)
    ensures forall i :: 0 <= i < |m| ==> Keys(m)[i] == m[i].0
  {
    if m != [] {
      KeysPointwise(m[1..]);
      KeysCons(m[0], m[1..]);
      assert m == [m[0]] + m[1..];
    }
  }
}
