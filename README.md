# Field registry of the schema editor, in Dafny

The editor assembles a document schema from named fields. Its state is kept in
three structures that the event handlers keep in step:

- the order sequence `allItems`: plain ids, plus `{type: "list", value}` for list fields;
- the insertion-ordered field map `output.config.fields`, a JavaScript `Map` from id to
  `{type, label: {en}, fields?}`;
- the list registry `listItems`, a `Map` from each list id to its (empty) array of sub-items.

A fourth structure, `items`, holds only the plain ids.

This project models the handlers that change these structures:

- adding a field;
- renaming it on each keystroke;
- renaming it again when the input loses focus;
- setting the document header;
- reordering the fields by drag and drop.

It also models the serialized object shown beside the form.

The modules are:

- `OrderedMaps` (`ordered_maps.dfy`): a JavaScript `Map` as the sequence of its entries in
  iteration order.
  - `set` replaces a present key in place, or appends a new one.
  - `delete` removes the entry and closes the gap.
  - `new Map(entries)` sets the entries one by one.
  - The class `JsMap` is the mutable `Map` object the handlers copy and update.
- `Text` (`text.dfy`):
  - the whitespace class `\s` and the `replace(/\s/g, "_")` normalisation;
  - decimal timestamps;
  - the `<kind>_<timestamp>` identifiers.
- `Schema` (`schema.dfy`):
  - field definitions, order entries and the editor state;
  - the `itemIds` projection;
  - the predicate `Consistent`, the agreement the handlers are meant to keep. It holds when:
    - the field map's keys are the ids of `allItems`, in the same order;
    - every definition is present and agrees with its entry's tag;
    - the list registry holds exactly the list-tagged ids.
- `Page` (`page.dfy`): the handlers of `app/page.tsx`.
  - The field-map updates are methods working on fresh `JsMap` objects, as the source does.
  - The array and list-registry updates are pure functions.
  - The blur name, the header setters and the serialized projection are also pure functions.
- `ItemList` (`item_list.dfy`): the drag-end handler of `components/ItemList.tsx`, all pure.
  - `findIndex`;
  - `arrayMove`;
  - the rebuild of the field map in the new order.

A JavaScript `undefined` stored in the field map is modelled as `None`. The map's value type is
`Option<FieldDef>`. This case arises when a stale id is renamed on blur or dragged.

The model follows the code, including the behaviour the code really has:

- A keystroke rename onto another field's id merges the two entries.
  - The renamed entry takes the other's definition, or gives it its own; this depends on their
    order.
  - One of the two definitions is lost (`RenameOntoLaterKey`, `RenameOntoEarlierKey`).
- A blur rename does `set(new)` and then `delete(old)`.
  - Committing the unchanged name deletes the entry.
  - Committing a fresh name moves the entry to the end of the map.
  - After that move, the map's order no longer matches `allItems` unless the entry was last
    (`BlurOrderAgreement`).
- Renaming a list field renames only its key in the field map and in the list registry.
  - `allItems` keeps the old id, so it no longer names a key of the map (`HandleChange`).
- No code assigns a suffix to a colliding name, and the model adds none.
  - Where a property needs fresh names, it says so in its hypothesis.

`arrayMove` comes from the external `@dnd-kit/sortable` package. It is modelled as that package defines it: splice the element out at `from`, then
splice it back in at `to`.

## Model

| member | source | states |
|---|---|---|
| OrderedMaps.Put | app/page.tsx:53-59 | `Map.set`: a new key is appended at the end; a present key keeps its position with the new value; every other entry is untouched; afterwards `get` returns the value |
| OrderedMaps.Remove | app/page.tsx:250 | `Map.delete`: the key is gone, an absent key leaves the map as it was, and otherwise the result is the map with that one entry cut out |
| OrderedMaps.Get | app/page.tsx:249 | `map.get(k)` finds a value exactly when `k` is a key |
| OrderedMaps.FindAt | app/page.tsx:249 | in a map, `get` of an entry's key returns that entry's value |
| OrderedMaps.RemoveKeys | app/page.tsx:250 | after `delete(k)` the keys are the old keys except `k` |
| OrderedMaps.RemoveGet | app/page.tsx:250 | `delete(k)` leaves what `get` returns for every other key |
| OrderedMaps.PutAll | app/page.tsx:193-202 | setting entries one after another never drops or moves a key already there and adds at most one entry per `set` |
| OrderedMaps.FromEntries | components/ItemList.tsx:164 | `new Map(entries)`: its keys are exactly the keys of the entries, and entries with distinct keys are kept as they are, in order |
| OrderedMaps.PutAllSplit | app/page.tsx:193-202 | setting entries one by one is the same as setting a prefix of them and then the rest |
| OrderedMaps.PutAllFresh | app/page.tsx:193-202 | setting entries whose keys are new and distinct appends them in order |
| OrderedMaps.PutAllKeys | app/page.tsx:193-202 | after setting entries, a key is present iff it was present before or one of the entries has it |
| OrderedMaps.JsMap.Empty | app/page.tsx:193 | `new Map()` has no entries |
| OrderedMaps.JsMap.Value | app/page.tsx:249 | `map.get(k)` on the object: a value exactly when `k` is a key, and then the value stored with it |
| OrderedMaps.JsMap.Copy | app/page.tsx:52 | `new Map(prev)` holds the same entries in the same order |
| OrderedMaps.JsMap.Set | app/page.tsx:53 | the map object's entries become those of `Map.set` on its old entries |
| OrderedMaps.JsMap.Delete | app/page.tsx:250 | reports whether the key was present, and the entries become those of `Map.delete` on the old entries |
| Text.Normalize | app/page.tsx:190 | same length as the typed text, every whitespace character replaced by `_` and every other kept, and no whitespace left |
| Text.NormalizeKeeps | app/page.tsx:190 | normalising leaves a text unchanged iff it has no whitespace |
| Text.NormalizeIdempotent | app/page.tsx:244 | the blur handler's second normalisation does not change a name normalised once already |
| Text.DecimalRoundTrip | app/page.tsx:34 | the digits written for a timestamp read back as the same timestamp |
| Text.MintId | app/page.tsx:34 | the minted id is the kind, then `_`, then exactly the decimal digits of the timestamp (which `DecimalRoundTrip` reads back); it has no whitespace when the kind has none |
| Text.MintIdInjective | app/page.tsx:33-34 | for one kind, different timestamps give different ids |
| Schema.NewFieldDef | app/page.tsx:53-59 | the stored definition has the clicked kind, an empty English label, and an empty `fields` object iff the kind is `"list"` |
| Schema.Lookup | app/page.tsx:249 | `fields.get(k)` gives the value stored under `k`, and `undefined` when `k` is absent |
| Schema.ItemIds | components/ItemList.tsx:183-185 | the id projection has the entries' length and order: a plain entry's string, a list entry's `value` |
| Schema.ConsistentIdsDistinct | app/page.tsx:18-30 | in a consistent state no two order entries share an id, tagged or not |
| Schema.InitialConsistent | app/page.tsx:18-30 | the editor's initial state is consistent |
| Page.NewItem | app/page.tsx:36-48 | the new order entry carries the minted id, and is tagged as a list iff the kind is `"list"` |
| Page.HandleItemClick | app/page.tsx:32-68 | the new state: the id `${type}_${timestamp}` appended to `allItems` (tagged iff a list); appended to `items` for non-lists; `id ↦ []` set in `listItems` for lists only; `id ↦ {type, label: {en: ""}, fields?}` set in the field map, with `fields` present iff a list; the header untouched; and consistency kept when the minted id is fresh |
| Page.AddKeepsConsistent | app/page.tsx:32-68 | adding under a fresh id keeps the keys in the order of `allItems`, the definitions matching their tags and the list registry matching the list entries |
| Page.RenameItems | app/page.tsx:213-217 | every occurrence of the old id in `items` becomes the new one, the rest are kept, the length is kept, and the old id is gone when the names differ |
| Page.RenamePlainEntries | app/page.tsx:218-222 | the same over `allItems`, where only plain entries can equal the old id; list entries are never changed |
| Page.RenameInPlace | app/page.tsx:192-202 | rebuilding a map with the key relabelled: an absent key changes nothing; a same or fresh name relabels the key where it stands, keeping every value and position; the old key is gone whenever the names differ |
| Page.RenameOntoLaterKey | app/page.tsx:193-202 | renaming onto a later key leaves one entry at the renamed position holding the later entry's definition, and removes the later entry |
| Page.RenameOntoEarlierKey | app/page.tsx:193-202 | renaming onto an earlier key gives that entry the renamed field's definition where it stands, and removes the renamed position |
| Page.RenamedFields | app/page.tsx:192-202 | the `for` loop over the previous map's entries, one `set` per entry with the key `value` set under `newValue`, leaves exactly the map `RenameInPlace` describes |
| Page.PlainRenameKeepsConsistent | app/page.tsx:189-222 | a plain field renamed to its own name or a fresh one keeps the state consistent |
| Page.HandleChange | app/page.tsx:189-236 | the new state: the field map rebuilt by the set loop with the key relabelled; `items` and `allItems` renamed for a plain entry; only the list-registry key renamed for a list entry. A fresh name keeps the map's length with the key swapped in place; a plain rename to a fresh name keeps consistency; a list rename leaves `allItems` naming a key the map no longer has |
| Page.BlurName | app/page.tsx:238-244 | the committed name is never empty and has no whitespace; typed text is committed as its normalisation, and unchanged when it has no whitespace; empty text becomes `${fieldType}_${now}` |
| Page.FieldTypeText | app/page.tsx:163 | `fields.get(value)?.type`, as the template string at line 241 prints it: the kind of the definition stored under the key, and `"undefined"` when the key is absent or holds `undefined` |
| Page.SetThenDelete | app/page.tsx:248-250 | `set(to, get(from))` then `delete(from)`: `from` is gone, the keys are the old ones plus `to` minus `from`, and for a real rename `to` holds what `from` held |
| Page.BlurKeepsOthers | app/page.tsx:248-250 | a blur leaves `get` unchanged for every key other than the old and the new name |
| Page.BlurStaleOntoOtherKey | app/page.tsx:248-250 | a stale id committed onto another field's name overwrites that field's definition with `undefined` where it stands, and changes nothing else |
| Page.BlurSameNameRemoves | app/page.tsx:248-250 | committing the name a field already has deletes its entry from the map |
| Page.BlurFreshNameMovesToEnd | app/page.tsx:248-250 | committing a fresh name removes the entry from its position and appends it, with its definition, at the end |
| Page.BlurOntoOtherKey | app/page.tsx:248-250 | committing another field's name overwrites that field's definition where it stands, and removes the renamed entry |
| Page.BlurStaleNameStoresUndefined | app/page.tsx:249 | committing a name for an id the map no longer has appends the new name holding `undefined` |
| Page.HandleBlur | app/page.tsx:237-285 | the new state: the field map after `set(new, get(old))` and `delete(old)`; the arrays renamed for a plain entry; the list-registry key renamed for a list entry. An unchanged name deletes the entry, in particular when the typed text is the field's own (whitespace-free) id; a fresh name moves the entry to the end; for a plain entry the map then agrees with `allItems` iff the entry was last |
| Page.BlurOutcome | app/page.tsx:247-250 | for any committed name: the unchanged name leaves no entry and `allItems` as it was; a fresh name moves the entry, with its definition, to the end of the map; for a plain entry the keys then follow `allItems` iff the entry was last |
| Page.BlurOrderAgreement | app/page.tsx:247-271 | after a fresh blur rename of a plain entry, the map's keys follow `allItems` iff that entry was the last one |
| Page.SetHeader | app/page.tsx:102-153 | each header setter sets its own field, leaves the other three and the field map untouched |
| Page.DefinedEntries | app/page.tsx:300 | the object's entries are exactly the map's defined entries: each comes from the map, every defined entry is there, their keys are a subsequence of the map's keys (map order), distinct when the map's are, and every entry is copied one for one when no value is `undefined` |
| Page.Serialize | app/page.tsx:295-305 | `type`, `slug`, `name` and `path` are copied unchanged; each field entry of the object is what the map holds for that key; every defined entry appears; with no `undefined` values the entries follow the map one for one |
| Page.SerializeKeepsOrder | app/page.tsx:300 | the serialized object's keys are a subsequence of the map's keys: fields keep the map's order |
| Page.ParseSerialize | app/page.tsx:295-305 | a document with no `undefined` values is recovered from its serialized form, keys and order included |
| Page.SerializeParse | app/page.tsx:295-305 | a serialized object with distinct keys is recovered after reading it back into a document |
| Page.SerializeConsistent | app/page.tsx:295-305 | a consistent state serializes every field, in the order of `allItems` |
| ItemList.FindIndex | components/ItemList.tsx:146-151 | the first position whose entry's id (the string, or the list entry's `value`) equals the id, and -1 exactly when none does |
| ItemList.ArrayMove | components/ItemList.tsx:153 | same length; the moved element lands at `to`; the elements between the two positions shift by one; the others stay; each position receives the element at `MovedFrom` |
| ItemList.ArrayMovePermutes | components/ItemList.tsx:153 | a move is a permutation of the array |
| ItemList.ArrayMoveInverse | components/ItemList.tsx:153 | moving back from `to` to `from` restores the array |
| ItemList.ArrayMoveSame | components/ItemList.tsx:153 | a move onto the same position changes nothing |
| ItemList.ArrayMoveRotates | components/ItemList.tsx:153 | a move is not a swap: moving the first of three to the last rotates them |
| ItemList.ArrayMoveDistinct | components/ItemList.tsx:153 | distinct elements stay distinct after a move |
| ItemList.MovedFromInjective | components/ItemList.tsx:153 | no two positions receive the same element |
| ItemList.ItemIdsMove | components/ItemList.tsx:183-185 | the id projection of the moved entries is the moved id projection |
| ItemList.RebuiltEntries | components/ItemList.tsx:157-163 | the new entries' keys are the new items' ids in order, and each holds what the previous map gives for its id |
| ItemList.RebuildFields | components/ItemList.tsx:157-164 | the rebuilt map's keys are the item ids; they follow the items' order when the ids are distinct; every entry carries the previous map's definition for its id |
| ItemList.PutAllCarries | components/ItemList.tsx:164 | setting entries that carry the previous definitions keeps every entry carrying them |
| ItemList.DistinctSameElements | components/ItemList.tsx:157-164 | two sequences without repeats that hold the same elements are permutations of each other |
| ItemList.RebuildPreservesPairs | components/ItemList.tsx:157-164 | when the previous keys are exactly the distinct item ids, the rebuilt map holds the same (id, definition) pairs |
| ItemList.DragEnd | components/ItemList.tsx:140-180 | a drop onto the dragged entry itself changes nothing; otherwise the items are `arrayMove` from the dragged entry's first index to the target's, so the dragged entry lands at the target's index, and the field map is rebuilt over the new order carrying each id's previous definition. The items are a permutation; the header is untouched; with distinct ids the map's keys follow the new order |
| ItemList.DragEndKeepsConsistent | components/ItemList.tsx:140-180 | a drop applied to `allItems` keeps the state consistent and keeps the multiset of (id, definition) pairs of the field map |

## Left out

- Rendering is not modelled: the JSX, the styling, the colour legend and the drag handle graphic.
- The dnd-kit sensors, the drag contexts and the sortable transforms are not modelled. Only the
  ids of the dragged and target entries enter the model.
- `components/ItemsDrawer.tsx`, `components/DocumentTypeSelect.tsx` and
  `components/InputField.tsx` are not part of this model; they hold buttons and form chrome.
- `components/OutputPre.tsx` is not part of this model: it repeats the projection modelled by
  `Serialize`.
- The JSON text itself (indentation, quoting) is not modelled. Neither is the engine's rule that
  puts integer-like keys first in a plain object.
- `Date.now()` is a parameter (`timestamp`, `now`), not a clock.
- React's batching of state updates is not modelled. Each handler, including the nested
  `setOutput` inside the `setItems` updater of the drag handler, is one atomic step from one
  state to the next.
- Assigning the committed name back to the input element (app/page.tsx:245) is not modelled; it
  is presentation.
- ItemList.DragEnd: `CanDrop` requires both ids to name rendered entries. This leaves out two
  cases:
  - a drop outside any target (`over` is `null`). This drop is not a no-op: `over?.id` is
    `undefined`, and `item.value === undefined` holds for every plain entry, so the dragged entry
    moves to the index of the first plain entry;
  - `findIndex` returning -1, which `arrayMove` would treat as a position from the end.
- ItemList.DragEnd: `app/page.tsx` does not mount `ItemList`, so the sources do not say which
  state the `setItems` prop updates. The model applies the drop to `allItems`, the state whose
  type matches the prop's. Plain `items` is not reordered; `Consistent` therefore does not
  constrain `items`.
- Page.HandleChange and Page.HandleBlur require `index < |allItems|`: a handler exists only for a
  rendered entry.
- Page.HandleChange: consistency is proved for plain renames to the same or a fresh name only.
  The code gives none in the other cases. A rename onto another key merges two entries
  (`RenameOntoLaterKey`, `RenameOntoEarlierKey`). A list rename leaves `allItems` stale.
- Strings are sequences of Unicode scalar values, not UTF-16 code units. No character of the `\s`
  class lies outside the Basic Multilingual Plane, so normalisation is unaffected.
- Labels carry only the `en` locale. Sub-fields of a list are the empty container the editor
  creates; nothing in the code fills them.
