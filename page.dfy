/** The event handlers of the editor page: adding a field, renaming it on
    each keystroke and again when the input loses focus, the header
    setters, and the serialized projection shown beside the form. Every
    handler is one atomic step from the current state to the next. The
    field-map updates work on fresh `Map` objects (`JsMap`); the array and
    list-registry updates are pure expressions. */
module Page {
  import opened Wrappers
  import opened OrderedMaps
  import opened Text
  import opened Schema

  // ---------------------------------------------------------------------
  // Adding a field

  /** The `allItems` entry for a new field: tagged for lists, a plain id otherwise. */
  function NewItem(kind: string, id: string): (it: Item)
    ensures it.id == id
    ensures it.ListRef? <==> kind == ListKind
  {
    if kind == ListKind then ListRef(id) else Plain(id)
  }

  /** `handleItemClick(kind)` with `Date.now()` passed in as `timestamp`. */
  method HandleItemClick(s: State, kind: string, timestamp: nat) returns (t: State)
    ensures var id := MintId(kind, timestamp);
      && t.allItems == s.allItems + [NewItem(kind, id)]
      && t.items == (if kind == ListKind then s.items else s.items + [id])
      && t.listItems == (if kind == ListKind then Put(s.listItems, id, []) else s.listItems)
      && t.output == s.output.(fields := Put(s.output.fields, id, Some(NewFieldDef(kind))))
    ensures Consistent(s) && MintId(kind, timestamp) !in Keys(s.output.fields) ==> Consistent(t)
  {
    var id := MintId(kind, timestamp);
    var items, listItems, allItems := s.items, s.listItems, s.allItems;
    if kind == ListKind {
      var newListItems := new JsMap<string, seq<string>>.Copy(s.listItems);
      newListItems.Set(id, []);
      listItems := newListItems.entries;
      allItems := s.allItems + [ListRef(id)];
    } else {
      items := s.items + [id];
      allItems := s.allItems + [Plain(id)];
    }
    var newFields := new JsMap<string, Option<FieldDef>>.Copy(s.output.fields);
    newFields.Set(id, Some(NewFieldDef(kind)));
    t := State(s.output.(fields := newFields.entries), items, listItems, allItems);
    if Consistent(s) && id !in Keys(s.output.fields) {
      AddKeepsConsistent(s, t, kind, id);
    }
  }

  /** Adding a field under a fresh id keeps the registry consistent: the new
      id goes to the end of the field map and of `allItems`, and, for a list,
      into the list registry. */
  lemma AddKeepsConsistent(s: State, t: State, kind: string, id: string)
    requires Consistent(s) && id !in Keys(s.output.fields)
    requires t.allItems == s.allItems + [NewItem(kind, id)]
    requires t.listItems == (if kind == ListKind then Put(s.listItems, id, []) else s.listItems)
    requires t.output == s.output.(fields := Put(s.output.fields, id, Some(NewFieldDef(kind))))
    ensures Consistent(t)
  {
    var v := Some(NewFieldDef(kind));
    AddKeepsKeys(s.output.fields, s.allItems, NewItem(kind, id), v);
    AddKeepsDescriptions(s.output.fields, s.allItems, NewItem(kind, id), v);
    AddKeepsListRefs(s.listItems, s.allItems, kind, id);
  }

  /** The new id goes to the end of the field map, as it does in `allItems`. */
  lemma AddKeepsKeys(f: FieldMap, items: seq<Item>, it: Item, v: Option<FieldDef>)
    requires Keys(f) == ItemIds(items) && it.id !in Keys(f)
    ensures Put(f, it.id, v) == f + [(it.id, v)]
    ensures Keys(Put(f, it.id, v)) == ItemIds(items + [it])
  {
    ItemIdsSnoc(items, it);
    KeysSnoc(f, (it.id, v));
  }

  lemma AddKeepsDescriptions(f: FieldMap, items: seq<Item>, it: Item, v: Option<FieldDef>)
    requires |f| == |items| && it.id !in Keys(f)
    requires forall i :: 0 <= i < |items| ==> Describes(f[i].1, items[i])
    requires Describes(v, it)
    ensures forall i :: 0 <= i < |items| + 1 ==> Describes((f + [(it.id, v)])[i].1, (items + [it])[i])
  {
  }

  /** A new list id is registered, and a new plain id needs no registration. */
  lemma AddKeepsListRefs(reg: ListRegistry, items: seq<Item>, kind: string, id: string)
    requires id !in ItemIds(items)
    requires forall i :: 0 <= i < |reg| ==> ListRef(reg[i].0) in items
    requires forall i :: 0 <= i < |items| && items[i].ListRef? ==> items[i].id in Keys(reg)
    ensures var reg', items' := (if kind == ListKind then Put(reg, id, []) else reg), items + [NewItem(kind, id)];
      && (forall i :: 0 <= i < |reg'| ==> ListRef(reg'[i].0) in items')
      && (forall i :: 0 <= i < |items'| && items'[i].ListRef? ==> items'[i].id in Keys(reg'))
  {
    var n := |items|;
    var items' := items + [NewItem(kind, id)];
    forall i | 0 <= i < |reg| ensures ListRef(reg[i].0) in items' {
      assert ListRef(reg[i].0) in items;
    }
    if kind == ListKind {
      assert id !in Keys(reg) by {
        forall i | 0 <= i < |reg| ensures reg[i].0 != id {
          var j :| 0 <= j < n && items[j] == ListRef(reg[i].0);
          assert ItemIds(items)[j] == reg[i].0;
        }
      }
      var reg' := Put(reg, id, []);
      assert reg' == reg + [(id, [])];
      KeysSnoc(reg, (id, []));
      assert items'[n] == ListRef(id);
      forall i | 0 <= i < |items'| && items'[i].ListRef? ensures items'[i].id in Keys(reg') {
        if i < n {
          assert items'[i] == items[i];
        }
      }
    }
  }

  // ---------------------------------------------------------------------
  // Renaming: shared pieces

  /** `items.map(p => p === value ? newValue : p)` over the plain id list. */
  function RenameItems(items: seq<string>, from: string, to: string): (r: seq<string>)
    ensures |r| == |items|
    ensures forall i :: 0 <= i < |items| ==> r[i] == if items[i] == from then to else items[i]
    ensures from != to ==> from !in r
  {
    seq(|items|, i requires 0 <= i < |items| => if items[i] == from then to else items[i])
  }

  /** The same map over `allItems`: a tagged list entry is an object, which is
      never `===` to a string, so only plain entries can change. */
  function RenamePlainEntries(items: seq<Item>, from: string, to: string): (r: seq<Item>)
    ensures |r| == |items|
    ensures forall i :: 0 <= i < |items| ==> r[i] == if items[i] == Plain(from) then Plain(to) else items[i]
    ensures from != to ==> Plain(from) !in r
  {
    seq(|items|, i requires 0 <= i < |items| => if items[i] == Plain(from) then Plain(to) else items[i])
  }

  /** The entries of a map with the key `from` relabelled `to`. */
  function Rekey<V>(m: seq<(string, V)>, from: string, to: string): (r: seq<(string, V)>)
    ensures |r| == |m|
    ensures forall i :: 0 <= i < |m| ==> r[i] == if m[i].0 == from then (to, m[i].1) else m[i]
  {
    seq(|m|, i requires 0 <= i < |m| => if m[i].0 == from then (to, m[i].1) else m[i])
  }

  /** A map rebuilt by setting each of its entries, in order, into a new map,
      the entry keyed `from` under `to`: the keystroke loop over the field
      map, and the `new Map(entries.map(...))` over the list registry. */
  function RenameInPlace<V>(m: OrderedMap<string, V>, from: string, to: string): (r: OrderedMap<string, V>)
    ensures from !in Keys(m) ==> r == m
    ensures to == from || to !in Keys(m) ==> r == Rekey(m, from, to)
    ensures from != to ==> from !in Keys(r)
  {
    var es := Rekey(m, from, to);
    assert from !in Keys(m) ==> es == m;
    assert to == from || to !in Keys(m) ==> DistinctKeys(es);
    FromEntries(es)
  }

  lemma UpdateMiddle<T>(a: seq<T>, x: T, b: seq<T>, y: T)
    ensures (a + [x] + b)[|a| := y] == a + [y] + b
  {
  }

  lemma SplitAt<T>(s: seq<T>, j: nat)
    requires j < |s|
    ensures s == s[..j] + [s[j]] + s[j + 1..]
  {
  }

  lemma RekeyAt<V>(m: OrderedMap<string, V>, i: nat, to: string)
    requires i < |m|
    ensures Rekey(m, m[i].0, to) == m[..i] + [(to, m[i].1)] + m[i + 1..]
  {
  }

  /** Renaming onto a key that comes later in the map: the renamed entry
      keeps its position but ends up holding the later entry's definition,
      and the later entry disappears. The renamed field's own definition is lost. */
  lemma {:induction false} RenameOntoLaterKey<V>(m: OrderedMap<string, V>, i: nat, j: nat)
    requires i < j < |m|
    ensures RenameInPlace(m, m[i].0, m[j].0) == m[..i] + [(m[j].0, m[j].1)] + m[i + 1..j] + m[j + 1..]
  {
    var from, to := m[i].0, m[j].0;
    PutAllOntoLater(m, i, j);
    assert RenameInPlace(m, from, to) == FromEntries(Rekey(m, from, to));
  }

  lemma PutAllOntoLater<V>(m: OrderedMap<string, V>, i: nat, j: nat)
    requires i < j < |m|
    ensures PutAll([], Rekey(m, m[i].0, m[j].0)) == m[..i] + [(m[j].0, m[j].1)] + m[i + 1..j] + m[j + 1..]
  {
    var to := m[j].0;
    var head, rest := m[..i] + [(to, m[i].1)] + m[i + 1..j], m[j + 1..];
    LaterEntriesShape(m, i, j);
    assert head[i] == (to, m[i].1);
    PutAllRebuildOver(head, i, m[j].1, rest);
    UpdateMiddle(m[..i], (to, m[i].1), m[i + 1..j], (to, m[j].1));
  }

  /** The relabelled entries of a rename onto a later key: the renamed entry
      under its new key, then the later entry with the same key. */
  lemma LaterEntriesShape<V>(m: OrderedMap<string, V>, i: nat, j: nat)
    requires i < j < |m|
    ensures var to := m[j].0;
      var head := m[..i] + [(to, m[i].1)] + m[i + 1..j];
      && Rekey(m, m[i].0, to) == head + ([(to, m[j].1)] + m[j + 1..])
      && DistinctKeys(head + m[j + 1..])
  {
    LaterEntriesSplit(m, i, j);
    LaterEntriesDistinct(m, i, j);
  }

  lemma LaterEntriesSplit<V>(m: OrderedMap<string, V>, i: nat, j: nat)
    requires i < j < |m|
    ensures var to := m[j].0;
      Rekey(m, m[i].0, to) == m[..i] + [(to, m[i].1)] + m[i + 1..j] + ([(to, m[j].1)] + m[j + 1..])
  {
    var to := m[j].0;
    RekeyAt(m, i, to);
    assert m[i + 1..] == m[i + 1..j] + ([m[j]] + m[j + 1..]);
  }

  lemma LaterEntriesDistinct<V>(m: OrderedMap<string, V>, i: nat, j: nat)
    requires i < j < |m|
    ensures DistinctKeys(m[..i] + [(m[j].0, m[i].1)] + m[i + 1..j] + m[j + 1..])
  {
    var x := m[..i] + [(m[j].0, m[i].1)] + m[i + 1..j] + m[j + 1..];
    assert |x| == |m| - 1;
    forall k | 0 <= k < |x|
      ensures x[k].0 == if k == i then m[j].0 else if k < j then m[k].0 else m[k + 1].0
    {
    }
  }

  /** Renaming onto a key that comes earlier: the earlier entry stays where
      it is but takes the renamed field's definition; its own definition is
      lost and the renamed entry's position disappears. */
  lemma {:induction false} RenameOntoEarlierKey<V>(m: OrderedMap<string, V>, i: nat, j: nat)
    requires j < i < |m|
    ensures RenameInPlace(m, m[i].0, m[j].0) == m[..j] + [(m[j].0, m[i].1)] + m[j + 1..i] + m[i + 1..]
  {
    var from, to := m[i].0, m[j].0;
    var es := Rekey(m, from, to);
    PutAllOntoEarlier(m, i, j);
    UpdateInPrefix(m, i, j, (to, m[i].1));
    assert RenameInPlace(m, from, to) == FromEntries(es) == PutAll([], es);
  }

  lemma PutAllOntoEarlier<V>(m: OrderedMap<string, V>, i: nat, j: nat)
    requires j < i < |m|
    ensures PutAll([], Rekey(m, m[i].0, m[j].0)) == m[..i][j := (m[j].0, m[i].1)] + m[i + 1..]
  {
    var to := m[j].0;
    var head, rest := m[..i], m[i + 1..];
    RekeyAt(m, i, to);
    assert Rekey(m, m[i].0, to) == head + ([(to, m[i].1)] + rest);
    DistinctKeysDrop(m, i);
    assert head[j].0 == to;
    PutAllRebuildOver(head, j, m[i].1, rest);
  }

  lemma UpdateInPrefix<T>(s: seq<T>, i: nat, j: nat, x: T)
    requires j < i <= |s|
    ensures s[..i][j := x] == s[..j] + [x] + s[j + 1..i]
  {
    var head := s[..i];
    SplitAt(head, j);
    UpdateMiddle(head[..j], head[j], head[j + 1..], x);
    assert head[..j] == s[..j] && head[j + 1..] == s[j + 1..i];
  }

  /** Renaming a plain entry to its own name or to a fresh name keeps the
      registry consistent. */
  lemma PlainRenameKeepsConsistent(s: State, t: State, index: nat, to: string)
    requires Consistent(s) && index < |s.allItems| && s.allItems[index].Plain?
    requires to == s.allItems[index].id || to !in ItemIds(s.allItems)
    requires t.output.fields == RenameInPlace(s.output.fields, s.allItems[index].id, to)
    requires t.allItems == RenamePlainEntries(s.allItems, s.allItems[index].id, to)
    requires t.listItems == s.listItems
    ensures Consistent(t)
  {
    var v := s.allItems[index].id;
    ConsistentIdsDistinct(s);
    assert t.output.fields == Rekey(s.output.fields, v, to);
    RekeyFollowsItems(s.output.fields, s.allItems, index, to);
    RekeyKeepsDescriptions(s.output.fields, s.allItems, v, to);
    PlainRenameKeepsListRefs(s.listItems, s.allItems, v, to);
  }

  lemma RekeyKeepsDescriptions(f: FieldMap, items: seq<Item>, v: string, to: string)
    requires |f| == |items|
    requires forall i :: 0 <= i < |items| ==> Describes(f[i].1, items[i])
    ensures forall i :: 0 <= i < |items| ==>
      Describes(Rekey(f, v, to)[i].1, RenamePlainEntries(items, v, to)[i])
  {
  }

  lemma PlainRenameKeepsListRefs(reg: ListRegistry, items: seq<Item>, v: string, to: string)
    requires forall i :: 0 <= i < |reg| ==> ListRef(reg[i].0) in items
    requires forall i :: 0 <= i < |items| && items[i].ListRef? ==> items[i].id in Keys(reg)
    ensures forall i :: 0 <= i < |reg| ==> ListRef(reg[i].0) in RenamePlainEntries(items, v, to)
    ensures var r := RenamePlainEntries(items, v, to);
      forall i :: 0 <= i < |r| && r[i].ListRef? ==> r[i].id in Keys(reg)
  {
    var r := RenamePlainEntries(items, v, to);
    forall i | 0 <= i < |reg| ensures ListRef(reg[i].0) in r {
      var j :| 0 <= j < |items| && items[j] == ListRef(reg[i].0);
      assert r[j] == items[j];
    }
  }

  /** Relabelling the key of the entry whose id is a plain `v` keeps the
      field map's keys in step with the renamed ids, provided ids are distinct. */
  lemma RekeyFollowsItems(f: FieldMap, items: seq<Item>, index: nat, to: string)
    requires Keys(f) == ItemIds(items) && Distinct(ItemIds(items))
    requires index < |items| && items[index].Plain?
    ensures Keys(Rekey(f, items[index].id, to)) == ItemIds(RenamePlainEntries(items, items[index].id, to))
  {
    var v := items[index].id;
    var ks, ids := Keys(Rekey(f, v, to)), ItemIds(RenamePlainEntries(items, v, to));
    forall i | 0 <= i < |items| ensures ks[i] == ids[i] {
      assert Keys(f)[i] == ItemIds(items)[i];
      if i != index {
        assert ItemIds(items)[i] != ItemIds(items)[index];
      }
    }
  }

  // ---------------------------------------------------------------------
  // Renaming on each keystroke

  lemma TakeSnoc<T>(s: seq<T>, i: nat)
    requires i < |s|
    ensures s[..i + 1] == s[..i] + [s[i]]
  {
  }

  /** The `setOutput` updater of the keystroke handler: a new `Map` filled by
      one `set` per entry of the previous map, in order, the entry keyed
      `value` set under `newValue`. */
  method RenamedFields(prev: FieldMap, value: string, newValue: string) returns (fields: FieldMap)
    ensures fields == RenameInPlace(prev, value, newValue)
  {
    var newFields := new JsMap<string, Option<FieldDef>>.Empty();
    ghost var rekeyed := Rekey(prev, value, newValue);
    for i := 0 to |prev|
      invariant newFields.entries == PutAll([], rekeyed[..i])
    {
      var (key, field) := prev[i];
      PutAllSnoc([], rekeyed[..i], rekeyed[i]);
      TakeSnoc(rekeyed, i);
      if key == value {
        newFields.Set(newValue, field);
      } else {
        newFields.Set(key, field);
      }
    }
    assert rekeyed[..|prev|] == rekeyed;
    fields := newFields.entries;
  }

  /** The per-item `onChange` handler of the entry at `index`, for the typed `text`. */
  method HandleChange(s: State, index: nat, text: string) returns (t: State)
    requires index < |s.allItems|
    ensures var value, newValue := s.allItems[index].id, Normalize(text);
      && t.output == s.output.(fields := RenameInPlace(s.output.fields, value, newValue))
      && (s.allItems[index].Plain? ==>
            && t.items == RenameItems(s.items, value, newValue)
            && t.allItems == RenamePlainEntries(s.allItems, value, newValue)
            && t.listItems == s.listItems)
      && (s.allItems[index].ListRef? ==>
            && t.items == s.items
            && t.allItems == s.allItems
            && t.listItems == RenameInPlace(s.listItems, value, newValue))
    ensures var value, newValue := s.allItems[index].id, Normalize(text);
      newValue == value || newValue !in Keys(s.output.fields) ==>
        t.output.fields == Rekey(s.output.fields, value, newValue)
    ensures var value, newValue := s.allItems[index].id, Normalize(text);
      Consistent(s) && s.allItems[index].Plain? && (newValue == value || newValue !in ItemIds(s.allItems)) ==>
        Consistent(t)
    ensures var value, newValue := s.allItems[index].id, Normalize(text);
      s.allItems[index].ListRef? && newValue != value ==>
        value in ItemIds(t.allItems) && value !in Keys(t.output.fields)
  {
    var item := s.allItems[index];
    var value := item.id;
    var newValue := Normalize(text);
    var fields := RenamedFields(s.output.fields, value, newValue);
    var output := s.output.(fields := fields);
    if item.Plain? {
      t := State(output, RenameItems(s.items, value, newValue), s.listItems,
                 RenamePlainEntries(s.allItems, value, newValue));
    } else {
      t := State(output, s.items, RenameInPlace(s.listItems, value, newValue), s.allItems);
    }
    ChangeOutcome(s, t, index, newValue);
  }

  /** What a keystroke rename implies, from the new state alone. */
  lemma ChangeOutcome(s: State, t: State, index: nat, newValue: string)
    requires index < |s.allItems|
    requires var value := s.allItems[index].id;
      && t.output == s.output.(fields := RenameInPlace(s.output.fields, value, newValue))
      && (s.allItems[index].Plain? ==>
            && t.allItems == RenamePlainEntries(s.allItems, value, newValue)
            && t.listItems == s.listItems)
      && (s.allItems[index].ListRef? ==> t.allItems == s.allItems)
    ensures var value := s.allItems[index].id;
      newValue == value || newValue !in Keys(s.output.fields) ==>
        t.output.fields == Rekey(s.output.fields, value, newValue)
    ensures var value := s.allItems[index].id;
      Consistent(s) && s.allItems[index].Plain? && (newValue == value || newValue !in ItemIds(s.allItems)) ==>
        Consistent(t)
    ensures var value := s.allItems[index].id;
      s.allItems[index].ListRef? && newValue != value ==>
        value in ItemIds(t.allItems) && value !in Keys(t.output.fields)
  {
    var value := s.allItems[index].id;
    if Consistent(s) && s.allItems[index].Plain? && (newValue == value || newValue !in ItemIds(s.allItems)) {
      PlainRenameKeepsConsistent(s, t, index, newValue);
    }
    if s.allItems[index].ListRef? {
      assert ItemIds(t.allItems)[index] == value;
    }
  }

  // ---------------------------------------------------------------------
  // Renaming when the input loses focus

  /** `fields.get(value)?.type` as a template string prints it. */
  function FieldTypeText(m: FieldMap, k: string): (r: string)
    ensures forall i :: 0 <= i < |m| && m[i].0 == k && m[i].1.Some? ==> r == m[i].1.value.kind
    ensures Lookup(m, k).None? ==> r == "undefined"
  {
    match Lookup(m, k)
    case Some(d) => d.kind
    case None => "undefined"
  }

  /** The name the blur handler commits: empty text becomes
      `${fieldType}_${now}`, then every whitespace character becomes `_`. */
  function BlurName(text: string, fieldType: string, now: nat): (r: string)
    ensures r != []
    ensures NoWhitespace(r)
    ensures text != [] ==> |r| == |text| && r == Normalize(text)
    ensures text != [] && NoWhitespace(text) ==> r == text
    ensures text == [] && NoWhitespace(fieldType) ==> r == MintId(fieldType, now)
  {
    var raw := if text == [] then MintId(fieldType, now) else text;
    NormalizeKeeps(raw);
    Normalize(raw)
  }

  /** `set(to, get(from))` then `delete(from)` on a copy of the field map. */
  function SetThenDelete(m: FieldMap, from: string, to: string): (r: FieldMap)
    ensures from !in Keys(r)
    ensures forall k :: k in Keys(r) <==> k != from && (k in Keys(m) || k == to)
    ensures from != to ==> Lookup(r, to) == Lookup(m, from)
  {
    var w := Put(m, to, Lookup(m, from));
    RemoveKeys(w, from);
    if from != to then
      RemoveGet(w, from, to);
      Remove(w, from)
    else Remove(w, from)
  }

  /** Committing the name a field already has removes its entry. */
  lemma BlurSameNameRemoves(m: FieldMap, k: string)
    ensures SetThenDelete(m, k, k) == Remove(m, k)
    ensures k !in Keys(SetThenDelete(m, k, k))
  {
    if k in Keys(m) {
      var i :| 0 <= i < |m| && m[i].0 == k;
      assert Put(m, k, Lookup(m, k)) == m;
    } else {
      assert (m + [(k, None)])[|m|].0 == k;
      assert (m + [(k, None)])[..|m|] == m;
    }
  }

  /** Committing a fresh name moves the entry, with its definition, to the end. */
  lemma BlurFreshNameMovesToEnd(m: FieldMap, i: nat, to: string)
    requires i < |m| && to !in Keys(m)
    ensures SetThenDelete(m, m[i].0, to) == m[..i] + m[i + 1..] + [(to, m[i].1)]
  {
    assert Lookup(m, m[i].0) == m[i].1;
    PutNewThenRemove(m, i, to, m[i].1);
  }

  /** Committing the name of another field overwrites that field's
      definition where it stands and removes the renamed entry. */
  lemma BlurOntoOtherKey(m: FieldMap, i: nat, j: nat)
    requires i < |m| && j < |m| && i != j
    ensures var w := m[j := (m[j].0, m[i].1)];
      SetThenDelete(m, m[i].0, m[j].0) == w[..i] + w[i + 1..]
  {
    var w := m[j := (m[j].0, m[i].1)];
    assert Put(m, m[j].0, Lookup(m, m[i].0)) == w;
    assert w[i].0 == m[i].0;
  }

  /** A stale name (no longer a key) stores `undefined` under the new name. */
  lemma BlurStaleNameStoresUndefined(m: FieldMap, from: string, to: string)
    requires from !in Keys(m) && to !in Keys(m) && from != to
    ensures SetThenDelete(m, from, to) == m + [(to, None)]
  {
    KeysSnoc(m, (to, None));
  }

  /** A stale name committed onto another field's name stores `undefined`
      over that field's definition, where it stands. */
  lemma BlurStaleOntoOtherKey(m: FieldMap, from: string, j: nat)
    requires from !in Keys(m) && j < |m|
    ensures SetThenDelete(m, from, m[j].0) == m[j := (m[j].0, None)]
  {
    FindAt(m, j);
  }

  /** A blur changes nothing for any key other than the old and the new name. */
  lemma BlurKeepsOthers(m: FieldMap, from: string, to: string, k: string)
    requires k != from && k != to
    ensures Lookup(SetThenDelete(m, from, to), k) == Lookup(m, k)
  {
    var w := Put(m, to, Lookup(m, from));
    RemoveGet(w, from, k);
    if k in Keys(m) {
      var i :| 0 <= i < |m| && m[i].0 == k;
      FindAt(m, i);
      FindAt(w, i);
    }
  }

  /** The per-item `onBlur` handler of the entry at `index`, with `Date.now()`
      passed in as `now`. */
  method HandleBlur(s: State, index: nat, text: string, now: nat) returns (t: State)
    requires index < |s.allItems|
    ensures var value := s.allItems[index].id;
      var newValue := BlurName(text, FieldTypeText(s.output.fields, value), now);
      && t.output == s.output.(fields := SetThenDelete(s.output.fields, value, newValue))
      && (s.allItems[index].Plain? ==>
            && t.items == RenameItems(s.items, value, newValue)
            && t.allItems == RenamePlainEntries(s.allItems, value, newValue)
            && t.listItems == s.listItems)
      && (s.allItems[index].ListRef? ==>
            && t.items == s.items
            && t.allItems == s.allItems
            && t.listItems == RenameInPlace(s.listItems, value, newValue))
    ensures var value := s.allItems[index].id;
      BlurName(text, FieldTypeText(s.output.fields, value), now) == value ==>
        && value !in Keys(t.output.fields)
        && t.allItems == s.allItems
    ensures var value := s.allItems[index].id;
      text == value && value != [] && NoWhitespace(value) ==> value !in Keys(t.output.fields)
    ensures var value := s.allItems[index].id;
      var newValue := BlurName(text, FieldTypeText(s.output.fields, value), now);
      Consistent(s) && newValue !in ItemIds(s.allItems) ==>
        t.output.fields == s.output.fields[..index] + s.output.fields[index + 1..] + [(newValue, s.output.fields[index].1)]
    ensures var value := s.allItems[index].id;
      var newValue := BlurName(text, FieldTypeText(s.output.fields, value), now);
      Consistent(s) && s.allItems[index].Plain? && newValue !in ItemIds(s.allItems) ==>
        (Keys(t.output.fields) == ItemIds(t.allItems) <==> index == |s.allItems| - 1)
  {
    var item := s.allItems[index];
    var value := item.id;
    var fieldType := FieldTypeText(s.output.fields, value);
    var newValue := BlurName(text, fieldType, now);
    var newFields := new JsMap<string, Option<FieldDef>>.Copy(s.output.fields);
    var current := match newFields.Value(value) case Some(v) => v case None => None;
    newFields.Set(newValue, current);
    var existed := newFields.Delete(value);
    var output := s.output.(fields := newFields.entries);
    if item.Plain? {
      t := State(output, RenameItems(s.items, value, newValue), s.listItems,
                 RenamePlainEntries(s.allItems, value, newValue));
    } else {
      t := State(output, s.items, RenameInPlace(s.listItems, value, newValue), s.allItems);
    }
    BlurOutcome(s, index, newValue, t);
  }

  /** What a blur commit to `newValue` leaves, given the new state's field map
      and order sequence: an unchanged name removes the entry, a fresh name
      moves it to the end, and for a plain entry the map then follows
      `allItems` only if the entry was last. */
  lemma BlurOutcome(s: State, index: nat, newValue: string, t: State)
    requires index < |s.allItems|
    requires t.output.fields == SetThenDelete(s.output.fields, s.allItems[index].id, newValue)
    requires s.allItems[index].Plain? ==> t.allItems == RenamePlainEntries(s.allItems, s.allItems[index].id, newValue)
    requires s.allItems[index].ListRef? ==> t.allItems == s.allItems
    ensures newValue == s.allItems[index].id ==>
      s.allItems[index].id !in Keys(t.output.fields) && t.allItems == s.allItems
    ensures Consistent(s) && newValue !in ItemIds(s.allItems) ==>
      t.output.fields == s.output.fields[..index] + s.output.fields[index + 1..] + [(newValue, s.output.fields[index].1)]
    ensures Consistent(s) && s.allItems[index].Plain? && newValue !in ItemIds(s.allItems) ==>
      (Keys(t.output.fields) == ItemIds(t.allItems) <==> index == |s.allItems| - 1)
  {
    var value := s.allItems[index].id;
    if newValue == value {
      BlurSameNameRemoves(s.output.fields, value);
    }
    if Consistent(s) && newValue !in ItemIds(s.allItems) {
      assert s.output.fields[index].0 == value by {
        assert Keys(s.output.fields)[index] == value;
      }
      BlurFreshNameMovesToEnd(s.output.fields, index, newValue);
      if s.allItems[index].Plain? {
        BlurOrderAgreement(s, t, index, newValue);
      }
    }
  }

  /** After a plain entry is renamed on blur to a fresh name, the field map
      still lists the ids in the order of `allItems` only if that entry was the last. */
  lemma BlurOrderAgreement(s: State, t: State, index: nat, to: string)
    requires Consistent(s) && index < |s.allItems| && s.allItems[index].Plain?
    requires to !in ItemIds(s.allItems)
    requires t.output.fields == s.output.fields[..index] + s.output.fields[index + 1..] + [(to, s.output.fields[index].1)]
    requires t.allItems == RenamePlainEntries(s.allItems, s.allItems[index].id, to)
    ensures Keys(t.output.fields) == ItemIds(t.allItems) <==> index == |s.allItems| - 1
  {
    var n := |s.allItems|;
    var m := s.output.fields;
    ConsistentIdsDistinct(s);
    assert ItemIds(t.allItems)[index] == to;
    if index == n - 1 {
      forall i | 0 <= i < n ensures Keys(t.output.fields)[i] == ItemIds(t.allItems)[i] {
        if i < index {
          assert ItemIds(s.allItems)[i] == m[i].0;
          assert ItemIds(s.allItems)[i] != ItemIds(s.allItems)[index];
        }
      }
    } else {
      assert Keys(t.output.fields)[index] == m[index + 1].0;
      assert ItemIds(s.allItems)[index + 1] == m[index + 1].0;
    }
  }

  // ---------------------------------------------------------------------
  // Header fields and the serialized output

  datatype Header = DocType | Slug | Name | Path

  function HeaderValue(o: Output, h: Header): string {
    match h
    case DocType => o.docType
    case Slug => o.slug
    case Name => o.name
    case Path => o.path
  }

  /** The document type select and the slug, title and path inputs: each
      sets its own header field and nothing else. */
  function SetHeader(o: Output, h: Header, v: string): (r: Output)
    ensures HeaderValue(r, h) == v
    ensures forall h' :: h' != h ==> HeaderValue(r, h') == HeaderValue(o, h')
    ensures r.fields == o.fields
  {
    match h
    case DocType => o.(docType := v)
    case Slug => o.(slug := v)
    case Name => o.(name := v)
    case Path => o.(path := v)
  }

  /** The object shown in the output panel: the header and `config.fields` as
      an ordered object. */
  datatype Serialized = Serialized(docType: string, slug: string, name: string, path: string,
                                   fields: seq<(string, FieldDef)>)

  predicate AllDefined(m: seq<(string, Option<FieldDef>)>) {
    forall i :: 0 <= i < |m| ==> m[i].1.Some?
  }

  /** Every defined entry of `m` is among the entries `r`. */
  predicate KeepsDefined(r: seq<(string, FieldDef)>, m: seq<(string, Option<FieldDef>)>) {
    forall i :: 0 <= i < |m| && m[i].1.Some? ==> (m[i].0, m[i].1.value) in r
  }

  /** `x` is `y` with some elements left out, the others in their order. */
  predicate Subsequence(x: seq<string>, y: seq<string>)
    decreases |y|
  {
    x == [] || (y != [] && ((x[0] == y[0] && Subsequence(x[1..], y[1..])) || Subsequence(x, y[1..])))
  }

  /** `Object.fromEntries(fields)` as `JSON.stringify` writes it: the entries in
      the Map's order, without those whose value is `undefined`. */
  function DefinedEntries(m: seq<(string, Option<FieldDef>)>): (r: seq<(string, FieldDef)>)
    ensures |r| <= |m|
    ensures forall i :: 0 <= i < |r| ==> (r[i].0, Some(r[i].1)) in m
    ensures KeepsDefined(r, m)
    ensures DistinctKeys(m) ==> DistinctKeys(r)
    ensures Subsequence(Keys(r), Keys(m))
    ensures AllDefined(m) ==> |r| == |m| && forall i :: 0 <= i < |m| ==> r[i] == (m[i].0, m[i].1.value)
  {
    if m == [] then []
    else
      var rest := DefinedEntries(m[1..]);
      DefinedStep(m, rest);
      DefinedStepDistinct(m, rest);
      DefinedStepAll(m, rest);
      DefinedStepKeeps(m, rest);
      DefinedStepSubsequence(m, rest);
      if m[0].1.Some? then [(m[0].0, m[0].1.value)] + rest else rest
  }

  /** One step of `DefinedEntries`: a defined head is kept, and so is every
      defined entry of the tail. */
  lemma DefinedStepKeeps(m: seq<(string, Option<FieldDef>)>, rest: seq<(string, FieldDef)>)
    requires m != [] && KeepsDefined(rest, m[1..])
    ensures KeepsDefined(if m[0].1.Some? then [(m[0].0, m[0].1.value)] + rest else rest, m)
  {
    var r := if m[0].1.Some? then [(m[0].0, m[0].1.value)] + rest else rest;
    forall i | 0 <= i < |m| && m[i].1.Some? ensures (m[i].0, m[i].1.value) in r {
      if i == 0 {
        assert r[0] == (m[0].0, m[0].1.value);
      } else {
        assert m[1..][i - 1] == m[i];
      }
    }
  }

  /** One step of `DefinedEntries`: the kept keys stay a subsequence of the
      map's keys. */
  lemma DefinedStepSubsequence(m: seq<(string, Option<FieldDef>)>, rest: seq<(string, FieldDef)>)
    requires m != [] && Subsequence(Keys(rest), Keys(m[1..]))
    ensures Subsequence(Keys(if m[0].1.Some? then [(m[0].0, m[0].1.value)] + rest else rest), Keys(m))
  {
    var r := if m[0].1.Some? then [(m[0].0, m[0].1.value)] + rest else rest;
    assert Keys(m)[1..] == Keys(m[1..]);
    if m[0].1.Some? {
      assert Keys(r)[1..] == Keys(rest);
    }
  }

  lemma DistinctKeysTail(m: seq<(string, Option<FieldDef>)>)
    requires m != [] && DistinctKeys(m)
    ensures DistinctKeys(m[1..])
  {
    forall a, b | 0 <= a < b < |m[1..]| ensures m[1..][a].0 != m[1..][b].0 {
      assert m[1..][a] == m[a + 1] && m[1..][b] == m[b + 1];
    }
  }

  /** One step of `DefinedEntries`: the entries kept from the tail, and the
      head when it is defined, are entries of the whole map. */
  lemma DefinedStep(m: seq<(string, Option<FieldDef>)>, rest: seq<(string, FieldDef)>)
    requires m != [] && |rest| <= |m| - 1
    requires forall i :: 0 <= i < |rest| ==> (rest[i].0, Some(rest[i].1)) in m[1..]
    ensures var r := if m[0].1.Some? then [(m[0].0, m[0].1.value)] + rest else rest;
      && |r| <= |m|
      && (forall i :: 0 <= i < |r| ==> (r[i].0, Some(r[i].1)) in m)
  {
    TailEntries(m, rest);
    var r := if m[0].1.Some? then [(m[0].0, m[0].1.value)] + rest else rest;
    forall i | 0 <= i < |r| ensures (r[i].0, Some(r[i].1)) in m {
      if m[0].1.Some? && i == 0 {
        assert (r[i].0, Some(r[i].1)) == m[0];
      } else if m[0].1.Some? {
        assert r[i] == rest[i - 1];
      }
    }
  }

  /** One step of `DefinedEntries`: distinct keys stay distinct. */
  lemma DefinedStepDistinct(m: seq<(string, Option<FieldDef>)>, rest: seq<(string, FieldDef)>)
    requires m != []
    requires forall i :: 0 <= i < |rest| ==> (rest[i].0, Some(rest[i].1)) in m[1..]
    requires DistinctKeys(m[1..]) ==> DistinctKeys(rest)
    ensures DistinctKeys(m) ==> DistinctKeys(if m[0].1.Some? then [(m[0].0, m[0].1.value)] + rest else rest)
  {
    if DistinctKeys(m) {
      TailEntries(m, rest);
      DistinctKeysTail(m);
    }
  }

  /** One step of `DefinedEntries`: with no `undefined` value, every entry is
      copied one for one. */
  lemma DefinedStepAll(m: seq<(string, Option<FieldDef>)>, rest: seq<(string, FieldDef)>)
    requires m != []
    requires AllDefined(m[1..]) ==> |rest| == |m| - 1 && forall i :: 0 <= i < |m| - 1 ==> rest[i] == (m[1..][i].0, m[1..][i].1.value)
    ensures var r := if m[0].1.Some? then [(m[0].0, m[0].1.value)] + rest else rest;
      AllDefined(m) ==> |r| == |m| && forall i :: 0 <= i < |m| ==> r[i] == (m[i].0, m[i].1.value)
  {
    var r := if m[0].1.Some? then [(m[0].0, m[0].1.value)] + rest else rest;
    if AllDefined(m) {
      assert AllDefined(m[1..]) by {
        forall a | 0 <= a < |m[1..]| ensures m[1..][a].1.Some? {
          assert m[1..][a] == m[a + 1];
        }
      }
      forall i | 0 <= i < |m| ensures r[i] == (m[i].0, m[i].1.value) {
        if i > 0 {
          assert r[i] == rest[i - 1] && m[1..][i - 1] == m[i];
        }
      }
    }
  }

  /** Entries drawn from the tail of a map are entries of the map, and, when
      its keys are distinct, none has the head's key. */
  lemma TailEntries(m: seq<(string, Option<FieldDef>)>, rest: seq<(string, FieldDef)>)
    requires m != []
    requires forall i :: 0 <= i < |rest| ==> (rest[i].0, Some(rest[i].1)) in m[1..]
    ensures forall i :: 0 <= i < |rest| ==> (rest[i].0, Some(rest[i].1)) in m
    ensures DistinctKeys(m) ==> forall i :: 0 <= i < |rest| ==> rest[i].0 != m[0].0
  {
    forall i | 0 <= i < |rest| ensures (rest[i].0, Some(rest[i].1)) in m && (DistinctKeys(m) ==> rest[i].0 != m[0].0) {
      var j :| 0 <= j < |m[1..]| && m[1..][j] == (rest[i].0, Some(rest[i].1));
      assert m[j + 1] == m[1..][j];
    }
  }

  function Serialize(o: Output): (r: Serialized)
    ensures r.docType == o.docType && r.slug == o.slug && r.name == o.name && r.path == o.path
    ensures DistinctKeys(r.fields)
    ensures forall i :: 0 <= i < |r.fields| ==> Lookup(o.fields, r.fields[i].0) == Some(r.fields[i].1)
    ensures KeepsDefined(r.fields, o.fields)
    ensures AllDefined(o.fields) ==>
      |r.fields| == |o.fields| && forall i :: 0 <= i < |o.fields| ==> r.fields[i] == (o.fields[i].0, o.fields[i].1.value)
  {
    var fields := DefinedEntries(o.fields);
    DefinedLookup(o.fields, fields);
    Serialized(o.docType, o.slug, o.name, o.path, fields)
  }

  /** Entries drawn from a map's defined entries are what `get` returns for their keys. */
  lemma DefinedLookup(m: FieldMap, fields: seq<(string, FieldDef)>)
    requires forall i :: 0 <= i < |fields| ==> (fields[i].0, Some(fields[i].1)) in m
    ensures forall i :: 0 <= i < |fields| ==> Lookup(m, fields[i].0) == Some(fields[i].1)
  {
    forall i | 0 <= i < |fields| ensures Lookup(m, fields[i].0) == Some(fields[i].1) {
      var j :| 0 <= j < |m| && m[j] == (fields[i].0, Some(fields[i].1));
    }
  }

  /** The serialized object lists its fields in the map's order. */
  lemma SerializeKeepsOrder(o: Output)
    ensures Subsequence(Keys(Serialize(o).fields), Keys(o.fields))
  {
    assert Serialize(o).fields == DefinedEntries(o.fields);
  }

  /** The object's entries as Map entries, each value defined. */
  function Lifted(fields: seq<(string, FieldDef)>): (es: seq<(string, Option<FieldDef>)>)
    ensures |es| == |fields| && AllDefined(es)
    ensures forall i :: 0 <= i < |fields| ==> es[i] == (fields[i].0, Some(fields[i].1))
    ensures DistinctKeys(fields) ==> DistinctKeys(es)
  {
    seq(|fields|, i requires 0 <= i < |fields| => (fields[i].0, Some(fields[i].1)))
  }

  /** Reading the serialized object back into a document: `new Map(Object.entries(...))`. */
  function Parse(d: Serialized): Output {
    Output(d.docType, d.slug, d.name, d.path, FromEntries(Lifted(d.fields)))
  }

  /** A document whose field map holds no `undefined` survives the round trip
      through its serialized form, with the same keys in the same order. */
  lemma {:induction false} ParseSerialize(o: Output)
    requires AllDefined(o.fields)
    ensures Parse(Serialize(o)) == o
  {
    assert Lifted(Serialize(o).fields) == o.fields;
  }

  /** And an ordered object with distinct keys survives the other way round. */
  lemma {:induction false} SerializeParse(d: Serialized)
    requires DistinctKeys(d.fields)
    ensures Serialize(Parse(d)) == d
  {
    assert Parse(d).fields == Lifted(d.fields);
    DefinedOfLifted(d.fields);
  }

  /** Serializing entries that are all defined gives them back. */
  lemma DefinedOfLifted(fields: seq<(string, FieldDef)>)
    ensures DefinedEntries(Lifted(fields)) == fields
  {
    var es, r := Lifted(fields), DefinedEntries(Lifted(fields));
    forall i | 0 <= i < |r| ensures r[i] == fields[i] {
      assert r[i] == (es[i].0, es[i].1.value);
    }
  }

  /** A consistent state serializes every field, in the order of `allItems`. */
  lemma SerializeConsistent(s: State)
    requires Consistent(s)
    ensures ItemIds(s.allItems) == Keys(Serialize(s.output).fields)
  {
    assert AllDefined(s.output.fields) by {
      forall i | 0 <= i < |s.output.fields| ensures s.output.fields[i].1.Some? {
        assert Describes(s.output.fields[i].1, s.allItems[i]);
      }
    }
  }
}
