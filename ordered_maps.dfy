/** Insertion-ordered maps with the semantics of JavaScript's `Map`.
    A map is the sequence of its entries in iteration order; `set` on a
    key already present replaces the value where the key stands, `set`
    on a new key appends, and `delete` removes the entry and closes the gap. */
module OrderedMaps {
  import opened Wrappers

  /** The keys of an entry sequence, in iteration order. */
  function Keys<K, V>(m: seq<(K, V)>): (ks: seq<K>)
    ensures |ks| == |m|
    ensures forall i :: 0 <= i < |m| ==> ks[i] == m[i].0
  {
    seq(|m|, i requires 0 <= i < |m| => m[i].0)
  }

  predicate DistinctKeys<K(==,!new), V>(m: seq<(K, V)>) {
    forall i, j :: 0 <= i < j < |m| ==> m[i].0 != m[j].0
  }

  /** The contents of a JavaScript `Map`: no key occurs twice. */
  type OrderedMap<K(==,!new), V> = m: seq<(K, V)> | DistinctKeys(m) witness []

  /** The position of key `k`, the first one if it occurs more than once. */
  function Find<K(==,!new), V>(m: seq<(K, V)>, k: K): (r: Option<nat>)
    ensures r.Some? ==> r.value < |m| && m[r.value].0 == k
    ensures r.Some? ==> forall j :: 0 <= j < r.value ==> m[j].0 != k
    ensures r.None? ==> forall j :: 0 <= j < |m| ==> m[j].0 != k
  {
    if m == [] then None
    else if m[0].0 == k then Some(0)
    else match Find(m[1..], k)
      case Some(i) => Some(i + 1)
      case None => None
  }

  /** `map.get(k)`; `None` when the key is absent. */
  function Get<K(==,!new), V>(m: seq<(K, V)>, k: K): (r: Option<V>)
    ensures r.Some? <==> k in Keys(m)
  {
    match Find(m, k)
    case Some(i) => Some(m[i].1)
    case None => None
  }

  /** In a map, the entry at position `i` is the one `Find` and `Get` see for its key. */
  lemma FindAt<K(!new), V>(m: seq<(K, V)>, i: nat)
    requires DistinctKeys(m) && i < |m|
    ensures Find(m, m[i].0) == Some(i)
    ensures Get(m, m[i].0) == Some(m[i].1)
  {
  }

  lemma KeysSnoc<K(!new), V>(m: seq<(K, V)>, e: (K, V))
    ensures Keys(m + [e]) == Keys(m) + [e.0]
  {
  }

  /** `map.set(k, v)`. */
  function Put<K(==,!new), V>(m: OrderedMap<K, V>, k: K, v: V): (r: OrderedMap<K, V>)
    ensures k !in Keys(m) ==> r == m + [(k, v)]
    ensures k in Keys(m) ==> |r| == |m| && Keys(r) == Keys(m)
    ensures forall i :: 0 <= i < |m| ==> r[i] == if m[i].0 == k then (k, v) else m[i]
    ensures Keys(r) == if k in Keys(m) then Keys(m) else Keys(m) + [k]
    ensures Get(r, k) == Some(v)
  {
    match Find(m, k)
    case Some(i) =>
      FindAt(m[i := (k, v)], i);
      m[i := (k, v)]
    case None =>
      KeysSnoc(m, (k, v));
      FindAt(m + [(k, v)], |m|);
      m + [(k, v)]
  }

  /** `map.delete(k)`: the entry for `k` goes, the others keep their order. */
  function Remove<K(==,!new), V>(m: OrderedMap<K, V>, k: K): (r: OrderedMap<K, V>)
    ensures k !in Keys(r)
    ensures k !in Keys(m) ==> r == m
    ensures forall i :: 0 <= i < |m| && m[i].0 == k ==> r == m[..i] + m[i + 1..]
  {
    match Find(m, k)
    case Some(i) =>
      assert forall j :: 0 <= j < |m| && j != i ==> m[j].0 != k;
      m[..i] + m[i + 1..]
    case None => m
  }

  /** After `delete(k)` the keys are the old ones except `k`. */
  lemma RemoveKeys<K(!new), V>(m: OrderedMap<K, V>, k: K)
    ensures forall k' :: k' in Keys(Remove(m, k)) <==> k' in Keys(m) && k' != k
  {
    var r := Remove(m, k);
    if k in Keys(m) {
      var i :| 0 <= i < |m| && m[i].0 == k;
      assert r == m[..i] + m[i + 1..];
      forall k' ensures k' in Keys(r) <==> k' in Keys(m) && k' != k {
        if k' in Keys(m) && k' != k {
          var j :| 0 <= j < |m| && m[j].0 == k';
          assert r[if j < i then j else j - 1] == m[j];
        }
      }
    }
  }

  /** Setting a new key and then deleting the key at position `i`: that
      entry goes and the new one ends the map. */
  lemma PutNewThenRemove<K(!new), V>(m: OrderedMap<K, V>, i: nat, k: K, v: V)
    requires i < |m| && k !in Keys(m)
    ensures Remove(Put(m, k, v), m[i].0) == m[..i] + m[i + 1..] + [(k, v)]
  {
    var w := m + [(k, v)];
    assert w[i].0 == m[i].0;
    assert w[..i] == m[..i] && w[i + 1..] == m[i + 1..] + [(k, v)];
  }

  /** `delete(k)` leaves what `get` returns for every other key. */
  lemma RemoveGet<K(!new), V>(m: OrderedMap<K, V>, k: K, k': K)
    requires k' != k
    ensures Get(Remove(m, k), k') == Get(m, k')
  {
    var r := Remove(m, k);
    match Find(m, k)
    case None =>
    case Some(i) =>
      assert r == m[..i] + m[i + 1..];
      match Find(m, k')
      case None =>
        RemoveKeys(m, k);
      case Some(j) =>
        var j' := if j < i then j else j - 1;
        assert r[j'] == m[j];
        FindAt(r, j');
        FindAt(m, j);
  }

  /** The map after `set(e.0, e.1)` for every entry `e` of `es`, in order. */
  function PutAll<K(==,!new), V>(m: OrderedMap<K, V>, es: seq<(K, V)>): (r: OrderedMap<K, V>)
    ensures |m| <= |r| <= |m| + |es|
    ensures forall i :: 0 <= i < |m| ==> r[i].0 == m[i].0
    decreases |es|
  {
    if es == [] then m
    else Put(PutAll(m, es[..|es| - 1]), es[|es| - 1].0, es[|es| - 1].1)
  }

  /** Building from nothing: a prefix with distinct keys is set as it is. */
  lemma PutAllAfterPrefix<K(!new), V>(head: seq<(K, V)>, tail: seq<(K, V)>)
    requires DistinctKeys(head)
    ensures PutAll([], head + tail) == PutAll(head, tail)
  {
    PutAllFromEmpty(head);
    PutAllSplit([], head, tail);
  }

  /** Setting one more entry after the others. */
  lemma PutAllSnoc<K(!new), V>(m: OrderedMap<K, V>, es: seq<(K, V)>, e: (K, V))
    ensures PutAll(m, es + [e]) == Put(PutAll(m, es), e.0, e.1)
  {
    assert (es + [e])[..|es|] == es;
  }

  lemma {:induction false} PutAllSplit<K(!new), V>(m: OrderedMap<K, V>, a: seq<(K, V)>, b: seq<(K, V)>)
    ensures PutAll(m, a + b) == PutAll(PutAll(m, a), b)
    decreases |b|
  {
    if b == [] {
      assert a + b == a;
    } else {
      var n := |b| - 1;
      assert (a + b)[..|a + b| - 1] == a + b[..n];
      PutAllSplit(m, a, b[..n]);
    }
  }

  /** Setting keys that are all new appends the entries in order. */
  lemma {:induction false} PutAllFresh<K(!new), V>(m: OrderedMap<K, V>, es: seq<(K, V)>)
    requires DistinctKeys(m + es)
    ensures PutAll(m, es) == m + es
    decreases |es|
  {
    if es != [] {
      var n := |es| - 1;
      assert m + es == (m + es[..n]) + [es[n]];
      assert DistinctKeys(m + es[..n]) by {
        forall i, j | 0 <= i < j < |m + es[..n]|
          ensures (m + es[..n])[i].0 != (m + es[..n])[j].0
        {
          assert (m + es[..n])[i] == (m + es)[i] && (m + es[..n])[j] == (m + es)[j];
        }
      }
      PutAllFresh(m, es[..n]);
      assert es[n].0 !in Keys(m + es[..n]) by {
        forall j | 0 <= j < |m + es[..n]| ensures (m + es[..n])[j].0 != es[n].0 {
          assert (m + es[..n])[j] == (m + es)[j] && (m + es)[|m| + n] == es[n];
        }
      }
    }
  }

  /** Keys of a rebuilt map come from the starting map or the entries set into it. */
  lemma {:induction false} PutAllKeys<K(!new), V>(m: OrderedMap<K, V>, es: seq<(K, V)>, k: K)
    ensures k in Keys(PutAll(m, es)) <==> k in Keys(m) || k in Keys(es)
    decreases |es|
  {
    if es != [] {
      var n := |es| - 1;
      PutAllKeys(m, es[..n], k);
      assert es == es[..n] + [es[n]];
      KeysSnoc(es[..n], es[n]);
    }
  }

  /** Setting a key that is already present, then only new keys: the value
      changes where the key stands and the new entries follow in order. */
  lemma {:induction false} PutAllOver<K(!new), V>(acc: OrderedMap<K, V>, p: nat, v: V, rest: seq<(K, V)>)
    requires p < |acc| && DistinctKeys(acc + rest)
    ensures PutAll(acc, [(acc[p].0, v)] + rest) == acc[p := (acc[p].0, v)] + rest
  {
    var e := (acc[p].0, v);
    PutAllSplit(acc, [e], rest);
    PutAllPresent(acc, p, v);
    ReplaceValueDistinct(acc, p, v, rest);
    PutAllFresh(acc[p := e], rest);
  }

  /** Setting one present key changes its value where it stands. */
  lemma PutAllPresent<K(!new), V>(acc: OrderedMap<K, V>, p: nat, v: V)
    requires p < |acc|
    ensures PutAll(acc, [(acc[p].0, v)]) == acc[p := (acc[p].0, v)]
  {
    var e := (acc[p].0, v);
    assert [e][..0] == [];
    FindAt(acc, p);
  }

  /** Changing a value leaves the keys, and so their distinctness, alone. */
  lemma ReplaceValueDistinct<K(!new), V>(acc: seq<(K, V)>, p: nat, v: V, rest: seq<(K, V)>)
    requires p < |acc| && DistinctKeys(acc + rest)
    ensures DistinctKeys(acc[p := (acc[p].0, v)] + rest)
  {
    var m, m' := acc + rest, acc[p := (acc[p].0, v)] + rest;
    forall a | 0 <= a < |m| ensures m'[a].0 == m[a].0 {
    }
  }

  /** Building a map from entries in which one key repeats a key of the
      prefix, every other key being new: the repeated key's value is
      replaced where it stands. */
  lemma PutAllRebuildOver<K(!new), V>(head: seq<(K, V)>, p: nat, v: V, rest: seq<(K, V)>)
    requires p < |head| && DistinctKeys(head + rest)
    ensures PutAll([], head + ([(head[p].0, v)] + rest)) == head[p := (head[p].0, v)] + rest
  {
    DistinctKeysPrefix(head, rest);
    PutAllAfterPrefix(head, [(head[p].0, v)] + rest);
    PutAllOver(head, p, v, rest);
  }

  /** Cutting one entry out keeps the keys distinct. */
  lemma DistinctKeysDrop<K(!new), V>(m: seq<(K, V)>, i: nat)
    requires DistinctKeys(m) && i < |m|
    ensures DistinctKeys(m[..i] + m[i + 1..])
  {
    var x := m[..i] + m[i + 1..];
    forall k | 0 <= k < |x| ensures x[k] == m[if k < i then k else k + 1] {
    }
  }

  lemma DistinctKeysPrefix<K(!new), V>(a: seq<(K, V)>, b: seq<(K, V)>)
    requires DistinctKeys(a + b)
    ensures DistinctKeys(a)
  {
    forall i, j | 0 <= i < j < |a| ensures a[i].0 != a[j].0 {
      assert a[i] == (a + b)[i] && a[j] == (a + b)[j];
    }
  }

  lemma PutAllFromEmpty<K(!new), V>(es: seq<(K, V)>)
    ensures forall k :: k in Keys(PutAll([], es)) <==> k in Keys(es)
    ensures DistinctKeys(es) ==> PutAll([], es) == es
  {
    forall k ensures k in Keys(PutAll([], es)) <==> k in Keys(es) {
      PutAllKeys([], es, k);
    }
    if DistinctKeys(es) {
      assert [] + es == es;
      PutAllFresh([], es);
    }
  }

  /** `new Map(entries)`: an empty map and one `set` per entry. */
  function FromEntries<K(==,!new), V>(es: seq<(K, V)>): (r: OrderedMap<K, V>)
    ensures forall k :: k in Keys(r) <==> k in Keys(es)
    ensures DistinctKeys(es) ==> r == es
  {
    PutAllFromEmpty(es);
    PutAll([], es)
  }

  /** A mutable JavaScript `Map` object. */
  class JsMap<K(==,!new), V> {
    var entries: OrderedMap<K, V>

    /** `new Map()` */
    constructor Empty()
      ensures entries == []
    {
      entries := [];
    }

    /** `new Map(other)`: a copy with the same entries in the same order. */
    constructor Copy(other: OrderedMap<K, V>)
      ensures entries == other
    {
      entries := other;
    }

    /** `map.get(k)` */
    function Value(k: K): (r: Option<V>)
      reads this
      ensures r.Some? <==> k in Keys(entries)
      ensures forall i :: 0 <= i < |entries| && entries[i].0 == k ==> r == Some(entries[i].1)
    {
      Get(entries, k)
    }

    /** `map.set(k, v)` */
    method Set(k: K, v: V)
      modifies this
      ensures entries == Put(old(entries), k, v)
    {
      entries := Put(entries, k, v);
    }

    /** `map.delete(k)`, which reports whether the key was there. */
    method Delete(k: K) returns (found: bool)
      modifies this
      ensures found <==> k in Keys(old(entries))
      ensures entries == Remove(old(entries), k)
    {
      found := Find(entries, k).Some?;
      entries := Remove(entries, k);
    }
  }
}
