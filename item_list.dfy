/** The sortable list's drag-end handler: find the dragged and the target
    entries by id, move the dragged one to the target's position, and rebuild
    the field map in the new order. Everything here builds new values. */
module ItemList {
  import opened Wrappers
  import opened OrderedMaps
  import opened Schema

  // ---------------------------------------------------------------------
  // Locating an entry

  /** `items.findIndex(item => item === id || item.value === id)`: a plain
      entry matches by its string, a list entry by its `value`; -1 when no
      entry matches. */
  function FindIndex(items: seq<Item>, id: string): (r: int)
    ensures -1 <= r < |items|
    ensures r == -1 <==> forall i :: 0 <= i < |items| ==> items[i].id != id
    ensures 0 <= r ==> items[r].id == id && forall i :: 0 <= i < r ==> items[i].id != id
    decreases |items|
  {
    if |items| == 0 then -1
    else if items[0].id == id then 0
    else
      var r := FindIndex(items[1..], id);
      assert forall i :: 1 <= i < |items| ==> items[i] == items[1..][i - 1];
      if r == -1 then -1 else r + 1
  }

  // ---------------------------------------------------------------------
  // arrayMove

  /** The position in the original array of the element that a move from
      `from` to `to` places at position `i`. */
  function MovedFrom(i: nat, from: nat, to: nat): nat {
    if i == to then from
    else if from < to && from <= i < to then i + 1
    else if to < from && to < i <= from then i - 1
    else i
  }

  /** No two positions receive the same element. */
  lemma MovedFromInjective(n: nat, from: nat, to: nat, i: nat, j: nat)
    requires from < n && to < n && i < n && j < n && i != j
    ensures MovedFrom(i, from, to) < n && MovedFrom(i, from, to) != MovedFrom(j, from, to)
  {
  }

  /** `arrayMove(array, from, to)`: take out the element at `from` and
      insert it back so that it sits at `to`. The elements between the two
      positions shift by one towards `from`; the rest stay in place. */
  function ArrayMove<T>(s: seq<T>, from: nat, to: nat): (r: seq<T>)
    requires from < |s| && to < |s|
    ensures |r| == |s|
    ensures r[to] == s[from]
    ensures forall i :: 0 <= i < |s| && i < from && i < to ==> r[i] == s[i]
    ensures forall i :: 0 <= i < |s| && i > from && i > to ==> r[i] == s[i]
    ensures forall i :: from <= i < to ==> r[i] == s[i + 1]
    ensures forall i :: to < i <= from ==> r[i] == s[i - 1]
    ensures forall i :: 0 <= i < |s| ==> MovedFrom(i, from, to) < |s| && r[i] == s[MovedFrom(i, from, to)]
  {
    var rest := s[..from] + s[from + 1..];
    rest[..to] + [s[from]] + rest[to..]
  }

  /** A move only rearranges: the result is a permutation of the input. */
  lemma ArrayMovePermutes<T>(s: seq<T>, from: nat, to: nat)
    requires from < |s| && to < |s|
    ensures multiset(ArrayMove(s, from, to)) == multiset(s)
  {
    var rest := s[..from] + s[from + 1..];
    RemovePermutes(s, from);
    InsertPermutes(rest, s[from], to);
  }

  lemma RemovePermutes<T>(s: seq<T>, i: nat)
    requires i < |s|
    ensures multiset(s[..i] + s[i + 1..]) + multiset{s[i]} == multiset(s)
  {
    assert s == s[..i] + [s[i]] + s[i + 1..];
  }

  lemma InsertPermutes<T>(s: seq<T>, x: T, i: nat)
    requires i <= |s|
    ensures multiset(s[..i] + [x] + s[i..]) == multiset(s) + multiset{x}
  {
    assert s == s[..i] + s[i..];
  }

  /** Moving back from `to` to `from` restores the original array. */
  lemma ArrayMoveInverse<T>(s: seq<T>, from: nat, to: nat)
    requires from < |s| && to < |s|
    ensures ArrayMove(ArrayMove(s, from, to), to, from) == s
  {
    var r := ArrayMove(s, from, to);
    var back := ArrayMove(r, to, from);
    forall i | 0 <= i < |s| ensures back[i] == s[i] {
      assert back[i] == r[MovedFrom(i, to, from)];
    }
  }

  /** A move onto its own position changes nothing. */
  lemma ArrayMoveSame<T>(s: seq<T>, i: nat)
    requires i < |s|
    ensures ArrayMove(s, i, i) == s
  {
  }

  /** A move is not a swap: moving the first of three entries onto the last
      rotates them, `[a, b, c]` becomes `[b, c, a]`. */
  lemma ArrayMoveRotates<T>(a: T, b: T, c: T)
    ensures ArrayMove([a, b, c], 0, 2) == [b, c, a]
  {
  }

  /** Distinct entries stay distinct after a move. */
  lemma ArrayMoveDistinct<T>(s: seq<T>, from: nat, to: nat)
    requires from < |s| && to < |s| && Distinct(s)
    ensures Distinct(ArrayMove(s, from, to))
  {
    var r := ArrayMove(s, from, to);
    forall i, j | 0 <= i < j < |r| ensures r[i] != r[j] {
      MovedFromInjective(|s|, from, to, i, j);
    }
  }

  /** The id projection handed to the sortable context moves with the items. */
  lemma ItemIdsMove(items: seq<Item>, from: nat, to: nat)
    requires from < |items| && to < |items|
    ensures ItemIds(ArrayMove(items, from, to)) == ArrayMove(ItemIds(items), from, to)
  {
    var a, b := ItemIds(ArrayMove(items, from, to)), ArrayMove(ItemIds(items), from, to);
    forall i | 0 <= i < |items| ensures a[i] == b[i] {
      assert a[i] == ArrayMove(items, from, to)[i].id;
    }
  }

  // ---------------------------------------------------------------------
  // Rebuilding the field map

  /** Every entry holds what the previous map gives for its key. */
  predicate Carries(m: seq<(string, Option<FieldDef>)>, prev: FieldMap) {
    forall i :: 0 <= i < |m| ==> m[i].1 == Lookup(prev, m[i].0)
  }

  /** `newItems.map(item => [id, prevFields.get(id)])`. */
  function RebuiltEntries(items: seq<Item>, prev: FieldMap): (es: seq<(string, Option<FieldDef>)>)
    ensures Keys(es) == ItemIds(items)
    ensures Carries(es, prev)
  {
    seq(|items|, i requires 0 <= i < |items| => (items[i].id, Lookup(prev, items[i].id)))
  }

  /** `new Map(newFieldsArray)`: the entries set in order into a new map. Its
      keys are the item ids, in item order when those are distinct, and each
      key carries the definition the previous map held for it (`undefined`
      for an id the previous map lacked). */
  function RebuildFields(items: seq<Item>, prev: FieldMap): (r: FieldMap)
    ensures forall k :: k in Keys(r) <==> k in ItemIds(items)
    ensures Distinct(ItemIds(items)) ==> Keys(r) == ItemIds(items)
    ensures Carries(r, prev)
  {
    var es := RebuiltEntries(items, prev);
    PutAllCarries([], es, prev);
    assert Distinct(ItemIds(items)) ==> DistinctKeys(es);
    FromEntries(es)
  }

  /** Setting entries that carry the previous definitions into a map that
      does keeps every entry carrying them. */
  lemma {:induction false} PutAllCarries(m: FieldMap, es: seq<(string, Option<FieldDef>)>, prev: FieldMap)
    requires Carries(m, prev) && Carries(es, prev)
    ensures Carries(PutAll(m, es), prev)
    decreases |es|
  {
    if es != [] {
      var init := es[..|es| - 1];
      assert Carries(init, prev) by {
        forall i | 0 <= i < |init| ensures init[i] == es[i] { }
      }
      PutAllCarries(m, init, prev);
      var e := es[|es| - 1];
      var before := PutAll(m, init);
      var after := Put(before, e.0, e.1);
      assert PutAll(m, es) == after;
      forall i | 0 <= i < |after| ensures after[i].1 == Lookup(prev, after[i].0) {
        if i < |before| {
          assert after[i] == if before[i].0 == e.0 then e else before[i];
        } else {
          assert after == before + [e];
        }
      }
    }
  }

  /** Sequences without repeats that hold the same elements hold each of
      them once: they are permutations of each other. */
  lemma {:induction false} DistinctSameElements<T>(a: seq<T>, b: seq<T>)
    requires Distinct(a) && Distinct(b)
    requires forall x :: x in a <==> x in b
    ensures multiset(a) == multiset(b)
    decreases |a|
  {
    if |a| == 0 {
      assert multiset(b) == multiset{} by {
        if |b| != 0 {
          FirstIn(b);
          assert false;
        }
      }
    } else {
      var x := a[|a| - 1];
      assert x in b;
      var j :| 0 <= j < |b| && b[j] == x;
      var a', b' := a[..|a| - 1], b[..j] + b[j + 1..];
      RemoveKeepsDistinct(a, |a| - 1);
      RemoveKeepsDistinct(b, j);
      assert a[..|a| - 1] + a[|a| - 1 + 1..] == a';
      forall y ensures y in a' <==> y in b' {
        assert y in a' <==> y in a && y != x;
        assert y in b' <==> y in b && y != x;
      }
      DistinctSameElements(a', b');
      RemovePermutes(a, |a| - 1);
      RemovePermutes(b, j);
    }
  }

  lemma FirstIn<T>(s: seq<T>)
    ensures |s| > 0 ==> s[0] in s
  {
  }

  /** Taking one entry out of a sequence without repeats leaves the others,
      still without repeats. */
  lemma RemoveKeepsDistinct<T>(s: seq<T>, j: nat)
    requires Distinct(s) && j < |s|
    ensures Distinct(s[..j] + s[j + 1..])
    ensures forall y :: y in s[..j] + s[j + 1..] <==> y in s && y != s[j]
  {
    var r := s[..j] + s[j + 1..];
    forall p | 0 <= p < |r| ensures r[p] == s[if p < j then p else p + 1] && r[p] != s[j] {
    }
    forall y | y in s && y != s[j] ensures y in r {
      var k :| 0 <= k < |s| && s[k] == y;
      assert r[if k < j then k else k - 1] == y;
    }
  }

  /** When the previous map's keys are exactly the (distinct) item ids, the
      rebuilt map holds the same (id, definition) pairs, only reordered. */
  lemma RebuildPreservesPairs(items: seq<Item>, prev: FieldMap)
    requires Distinct(ItemIds(items))
    requires forall k :: k in Keys(prev) <==> k in ItemIds(items)
    ensures multiset(RebuildFields(items, prev)) == multiset(prev)
  {
    var r := RebuildFields(items, prev);
    CarriesSameKeys(r, prev);
    EntriesDistinct(r);
    EntriesDistinct(prev);
    DistinctSameElements(r, prev);
  }

  /** A map whose entries carry the definitions of another map with the
      same keys holds the same entries. */
  lemma CarriesSameKeys(r: FieldMap, prev: FieldMap)
    requires Carries(r, prev)
    requires forall k :: k in Keys(r) <==> k in Keys(prev)
    ensures forall e :: e in r <==> e in prev
  {
    forall e | e in r ensures e in prev {
      var i :| 0 <= i < |r| && r[i] == e;
      assert Keys(r)[i] == e.0;
      var j :| 0 <= j < |prev| && Keys(prev)[j] == e.0;
      assert prev[j] == e;
    }
    forall e | e in prev ensures e in r {
      var j :| 0 <= j < |prev| && prev[j] == e;
      assert Keys(prev)[j] == e.0 && e.0 in Keys(r);
      var i :| 0 <= i < |r| && Keys(r)[i] == e.0;
      assert r[i] == e;
    }
  }

  /** Entries with distinct keys are distinct. */
  lemma EntriesDistinct<V>(m: OrderedMap<string, V>)
    ensures Distinct(m)
  {
    forall i, j | 0 <= i < j < |m| ensures m[i] != m[j] {
      assert m[i].0 != m[j].0;
    }
  }

  // ---------------------------------------------------------------------
  // The drag-end handler

  /** What a drop leaves behind: the reordered entries and the output. */
  datatype Dropped = Dropped(items: seq<Item>, output: Output)

  /** Whether the handler can locate both entries of a drop. The handler is
      only ever given ids of rendered entries; a drop onto its own entry
      needs nothing. */
  predicate CanDrop(items: seq<Item>, activeId: string, overId: string) {
    activeId != overId ==> activeId in ItemIds(items) && overId in ItemIds(items)
  }

  /** `handleDragEnd` for a drop of the entry `activeId` onto the entry
      `overId`: unless they are the same, the dragged entry moves to the
      target's position and the field map is rebuilt in the new order. */
  function DragEnd(items: seq<Item>, output: Output, activeId: string, overId: string): (r: Dropped)
    requires CanDrop(items, activeId, overId)
    ensures |r.items| == |items| && multiset(r.items) == multiset(items)
    ensures activeId == overId ==> r == Dropped(items, output)
    ensures activeId != overId ==>
      var oldIndex, newIndex := FindIndex(items, activeId), FindIndex(items, overId);
      && 0 <= oldIndex && 0 <= newIndex
      && r.items[newIndex] == items[oldIndex]
      && r.items == ArrayMove(items, oldIndex, newIndex)
      && r.output.fields == RebuildFields(r.items, output.fields)
    ensures r.output.(fields := output.fields) == output
    ensures activeId != overId && Distinct(ItemIds(items)) ==> Keys(r.output.fields) == ItemIds(r.items)
  {
    if activeId == overId then Dropped(items, output)
    else
      var oldIndex := FindIndex(items, activeId);
      var newIndex := FindIndex(items, overId);
      var newItems := ArrayMove(items, oldIndex, newIndex);
      ArrayMovePermutes(items, oldIndex, newIndex);
      ItemIdsMove(items, oldIndex, newIndex);
      DistinctIdsMove(items, oldIndex, newIndex);
      Dropped(newItems, output.(fields := RebuildFields(newItems, output.fields)))
  }

  lemma DistinctIdsMove(items: seq<Item>, from: nat, to: nat)
    requires from < |items| && to < |items|
    ensures Distinct(ItemIds(items)) ==> Distinct(ItemIds(ArrayMove(items, from, to)))
  {
    ItemIdsMove(items, from, to);
    if Distinct(ItemIds(items)) {
      ArrayMoveDistinct(ItemIds(items), from, to);
    }
  }

  /** A drop applied to the editor's order sequence keeps the registry
      consistent and keeps each field's (id, definition) pair. */
  lemma DragEndKeepsConsistent(s: State, activeId: string, overId: string)
    requires Consistent(s) && CanDrop(s.allItems, activeId, overId)
    ensures var d := DragEnd(s.allItems, s.output, activeId, overId);
      var t := s.(allItems := d.items, output := d.output);
      && Consistent(t)
      && multiset(t.output.fields) == multiset(s.output.fields)
  {
    if activeId != overId {
      ConsistentIdsDistinct(s);
      var from, to := FindIndex(s.allItems, activeId), FindIndex(s.allItems, overId);
      var items := ArrayMove(s.allItems, from, to);
      assert DragEnd(s.allItems, s.output, activeId, overId)
        == Dropped(items, s.output.(fields := RebuildFields(items, s.output.fields)));
      DistinctIdsMove(s.allItems, from, to);
      MovedIdsKeepDescriptions(s, from, to);
      MovedListRefs(s, from, to);
      MovedIdsKeepKeys(s, from, to);
      RebuildPreservesPairs(items, s.output.fields);
    }
  }

  /** A move keeps the list-tagged entries, so the list registry still
      matches them. */
  lemma MovedListRefs(s: State, from: nat, to: nat)
    requires Consistent(s) && from < |s.allItems| && to < |s.allItems|
    ensures var items := ArrayMove(s.allItems, from, to);
      && (forall i :: 0 <= i < |s.listItems| ==> ListRef(s.listItems[i].0) in items)
      && (forall i :: 0 <= i < |items| && items[i].ListRef? ==> items[i].id in Keys(s.listItems))
  {
    var items := ArrayMove(s.allItems, from, to);
    ArrayMovePermutes(s.allItems, from, to);
    assert forall x :: x in s.allItems <==> x in multiset(items);
    forall i | 0 <= i < |items| && items[i].ListRef? ensures items[i].id in Keys(s.listItems) {
      assert items[i] == s.allItems[MovedFrom(i, from, to)];
    }
  }

  /** A move keeps the set of ids, which are the previous map's keys. */
  lemma MovedIdsKeepKeys(s: State, from: nat, to: nat)
    requires Consistent(s) && from < |s.allItems| && to < |s.allItems|
    ensures forall k :: k in Keys(s.output.fields) <==> k in ItemIds(ArrayMove(s.allItems, from, to))
  {
    ItemIdsMove(s.allItems, from, to);
    ArrayMovePermutes(ItemIds(s.allItems), from, to);
    assert forall k :: k in ItemIds(s.allItems) <==> k in multiset(ItemIds(ArrayMove(s.allItems, from, to)));
  }

  /** After a move, each rebuilt definition still describes its entry. */
  lemma MovedIdsKeepDescriptions(s: State, from: nat, to: nat)
    requires Consistent(s) && from < |s.allItems| && to < |s.allItems|
    requires Distinct(ItemIds(s.allItems))
    ensures var items := ArrayMove(s.allItems, from, to);
      var f := RebuildFields(items, s.output.fields);
      |f| == |items| && forall i :: 0 <= i < |items| ==> Describes(f[i].1, items[i])
  {
    var items := ArrayMove(s.allItems, from, to);
    DistinctIdsMove(s.allItems, from, to);
    var f := RebuildFields(items, s.output.fields);
    assert Keys(f) == ItemIds(items);
    forall i | 0 <= i < |items| ensures Describes(f[i].1, items[i]) {
      var p := MovedFrom(i, from, to);
      assert items[i] == s.allItems[p];
      assert Keys(f)[i] == items[i].id;
      assert s.output.fields[p].0 == ItemIds(s.allItems)[p];
      assert f[i].1 == Lookup(s.output.fields, s.allItems[p].id) == s.output.fields[p].1;
    }
  }
}
