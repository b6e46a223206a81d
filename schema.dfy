/** The editor's state: the document header and field map (`output`), the
    plain id list (`items`), the list registry (`listItems`) and the visual
    order (`allItems`), with the agreement between them that the handlers
    are meant to keep. */
module Schema {
  import opened Wrappers
  import opened OrderedMaps

  /** The kind string the editor treats specially. */
  const ListKind: string := "list"

  /** `label: { en }`, the only locale the editor writes. */
  datatype Label = Label(en: string)

  /** `{ type, label, fields? }` (`label` is a Dafny keyword, hence `caption`). `fields` is present only for list fields;
      the editor creates it empty and never fills it. */
  datatype FieldDef = FieldDef(kind: string, caption: Label, fields: Option<seq<(string, FieldDef)>>)

  /** The definition `handleItemClick` stores: the kind, an empty English
      label and, for a list only, an empty `fields` object. */
  function NewFieldDef(kind: string): (d: FieldDef)
    ensures d.kind == kind && d.caption.en == []
    ensures d.fields.Some? <==> kind == ListKind
    ensures d.fields.Some? ==> d.fields.value == []
  {
    FieldDef(kind, Label(""), if kind == ListKind then Some([]) else None)
  }

  /** `output.config.fields`. A value is `None` where the Map holds `undefined`. */
  type FieldMap = OrderedMap<string, Option<FieldDef>>

  /** `listItems`: list field id to its (always empty) array of sub-items. */
  type ListRegistry = OrderedMap<string, seq<string>>

  /** An entry of `allItems`: a plain id string, or `{ type: "list", value }`. */
  datatype Item = Plain(id: string) | ListRef(id: string)

  /** `output`: the header fields and `config.fields`. */
  datatype Output = Output(docType: string, slug: string, name: string, path: string, fields: FieldMap)

  datatype State = State(output: Output, items: seq<string>, listItems: ListRegistry, allItems: seq<Item>)

  /** The state the editor starts from. */
  function Initial(): State {
    State(Output("", "", "", "", []), [], [], [])
  }

  /** `fields.get(k)`: the stored value, `undefined` when the key is absent. */
  function Lookup(m: FieldMap, k: string): (r: Option<FieldDef>)
    ensures forall i :: 0 <= i < |m| && m[i].0 == k ==> r == m[i].1
    ensures k !in Keys(m) ==> r == None
  {
    match Get(m, k)
    case Some(v) => v
    case None => None
  }

  /** `itemIds`: each entry's id, the string itself or its `value`. */
  function ItemIds(items: seq<Item>): (ids: seq<string>)
    ensures |ids| == |items|
    ensures forall i :: 0 <= i < |items| ==> ids[i] == items[i].id
  {
    seq(|items|, i requires 0 <= i < |items| => items[i].id)
  }

  lemma ItemIdsSnoc(items: seq<Item>, x: Item)
    ensures ItemIds(items + [x]) == ItemIds(items) + [x.id]
  {
  }

  predicate Distinct<T(==)>(s: seq<T>) {
    forall i, j :: 0 <= i < j < |s| ==> s[i] != s[j]
  }

  /** The definition stored for an entry is defined and agrees with its tag:
      list-tagged exactly when its kind is "list", and then it has `fields`. */
  predicate Describes(v: Option<FieldDef>, item: Item) {
    && v.Some?
    && (item.ListRef? <==> v.value.kind == ListKind)
    && (item.ListRef? <==> v.value.fields.Some?)
  }

  /** The agreement the registry is meant to keep: the field map's keys are
      the ids of `allItems` in the same order, each definition matches its
      entry's tag, and the list registry holds exactly the list-tagged ids. */
  ghost predicate Consistent(s: State) {
    && Keys(s.output.fields) == ItemIds(s.allItems)
    && (forall i :: 0 <= i < |s.allItems| ==> Describes(s.output.fields[i].1, s.allItems[i]))
    && (forall i :: 0 <= i < |s.listItems| ==> ListRef(s.listItems[i].0) in s.allItems)
    && (forall i :: 0 <= i < |s.allItems| && s.allItems[i].ListRef? ==> s.allItems[i].id in Keys(s.listItems))
  }

  /** No two entries of a consistent state share an id, tagged or not. */
  lemma ConsistentIdsDistinct(s: State)
    requires Consistent(s)
    ensures Distinct(ItemIds(s.allItems))
  {
    var ids := ItemIds(s.allItems);
    forall i, j | 0 <= i < j < |ids| ensures ids[i] != ids[j] {
      assert Keys(s.output.fields)[i] == s.output.fields[i].0;
      assert Keys(s.output.fields)[j] == s.output.fields[j].0;
    }
  }

  lemma InitialConsistent()
    ensures Consistent(Initial())
  {
  }
}
