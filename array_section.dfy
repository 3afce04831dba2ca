/**
 * The array-of-objects section of the connector configuration form:
 * the label and description derived from each item, and the coordination
 * between the bound array value and the index of the item open in the editor.
 */
module ArraySection {
  import opened Wrappers
  import opened Strings

  /** One element of the bound array: an object from field keys to string values. */
  type Item = map<string, string>

  /** A property descriptor of the item's shape; `title` is absent when undefined or null. */
  datatype FormBlock = FormBlock(fieldKey: string, title: Option<string>)

  /** The array field's own descriptor. */
  datatype FormField = FormField(fieldKey: string, title: Option<string>, properties: seq<FormBlock>)

  /** One row of an item's description table: the React key, the shown name and the value. */
  datatype Row = Row(key: string, name: string, value: string)

  /** What the component memoises per item: its label and its description rows. */
  datatype ItemDetails = ItemDetails(name: string, description: seq<Row>)

  // ---------------------------------------------------------------------------
  // Title lookup: `properties.find(({ fieldKey }) => fieldKey === key)?.title ?? key`

  /** `i` is the position of the first descriptor for `key`. */
  predicate FirstMatchAt(properties: seq<FormBlock>, key: string, i: int)
  {
    0 <= i < |properties| && properties[i].fieldKey == key &&
    forall j :: 0 <= j < i ==> properties[j].fieldKey != key
  }

  /** `Array.prototype.find` with the predicate `fieldKey === key`. */
  function Find(properties: seq<FormBlock>, key: string): (r: Option<FormBlock>)
    ensures r.None? <==> forall j :: 0 <= j < |properties| ==> properties[j].fieldKey != key
    ensures r.Some? ==> exists i :: FirstMatchAt(properties, key, i) && properties[i] == r.value
    decreases |properties|
  {
    if properties == [] then None
    else if properties[0].fieldKey == key then
      assert FirstMatchAt(properties, key, 0);
      Some(properties[0])
    else
      var r := Find(properties[1..], key);
      if r.Some? then
        var i :| FirstMatchAt(properties[1..], key, i) && properties[1..][i] == r.value;
        assert FirstMatchAt(properties, key, i + 1);
        r
      else
        r
  }

  /** The name shown for `key`: the key itself or the title of a descriptor for that key. */
  function Title(key: string, properties: seq<FormBlock>): (r: string)
    ensures r == key || exists j :: 0 <= j < |properties| && properties[j].fieldKey == key && properties[j].title == Some(r)
  {
    match Find(properties, key)
    case None => key
    case Some(property) => property.title.GetOr(key)
  }

  lemma FirstMatchUnique(properties: seq<FormBlock>, key: string, i: int, i': int)
    requires FirstMatchAt(properties, key, i) && FirstMatchAt(properties, key, i')
    ensures i == i'
  {
  }

  /** The first descriptor for the key decides the title: its own title when it has one,
      even the empty string, and the key when its title is undefined or null. */
  lemma TitleOfFirstMatch(key: string, properties: seq<FormBlock>, i: int)
    requires FirstMatchAt(properties, key, i)
    ensures properties[i].title.Some? ==> Title(key, properties) == properties[i].title.value
    ensures properties[i].title.None? ==> Title(key, properties) == key
  {
    var r := Find(properties, key);
    var i' :| FirstMatchAt(properties, key, i') && properties[i'] == r.value;
    FirstMatchUnique(properties, key, i, i');
  }

  /** A key no descriptor mentions is shown as itself. */
  lemma TitleWithoutMatch(key: string, properties: seq<FormBlock>)
    requires forall j :: 0 <= j < |properties| ==> properties[j].fieldKey != key
    ensures Title(key, properties) == key
  {
  }

  /** `??` keeps an empty title: a first match titled "" shows "" rather than the key. */
  lemma EmptyTitleKept(key: string, properties: seq<FormBlock>, i: int)
    requires FirstMatchAt(properties, key, i) && properties[i].title == Some("")
    ensures Title(key, properties) == ""
  {
    TitleOfFirstMatch(key, properties, i);
  }

  // ---------------------------------------------------------------------------
  // Item name and description

  /** One `${name}: ${value}` part of an item name. */
  function Part(name: string, value: string): string
  {
    name + ": " + value
  }

  /** `getItemName`: the item's keys in ascending order, each as `title: value`,
      joined by " | ". */
  function ItemName(item: Item, properties: seq<FormBlock>): (r: string)
    ensures item == map[] ==> r == ""
    ensures item != map[] ==> var k := SortedKeys(item.Keys)[0]; Part(Title(k, properties), item[k]) <= r
  {
    var keys := SortedKeys(item.Keys);
    Join(seq(|keys|, i requires 0 <= i < |keys| => Part(Title(keys[i], properties), item[keys[i]])), " | ")
  }

  /** The row for each of `keys`, in the order given. */
  function RowsFor(keys: seq<string>, item: Item, properties: seq<FormBlock>): (r: seq<Row>)
    requires forall k :: k in keys ==> k in item
    ensures |r| == |keys|
    ensures forall i :: 0 <= i < |r| ==> r[i] == Row(keys[i], Title(keys[i], properties), item[keys[i]])
  {
    seq(|keys|, i requires 0 <= i < |keys| => Row(keys[i], Title(keys[i], properties), item[keys[i]]))
  }

  /** The rows of `getItemDescription`: one per key, in ascending key order,
      each with the key's title and the key's value. */
  function DescriptionRows(item: Item, properties: seq<FormBlock>): (r: seq<Row>)
    ensures |r| == |item|
    ensures forall i, j :: 0 <= i < j < |r| ==> Less(r[i].key, r[j].key)
    ensures forall k :: k in item <==> exists i :: 0 <= i < |r| && r[i].key == k
    ensures forall i :: 0 <= i < |r| ==>
      r[i].key in item && r[i].value == item[r[i].key] && r[i].name == Title(r[i].key, properties)
  {
    var keys := SortedKeys(item.Keys);
    RowsFor(keys, item, properties)
  }

  /** A row rendered as the name shows it. */
  function RowText(row: Row): string
  {
    Part(row.name, row.value)
  }

  /** The name and the description agree: the name is the rows, rendered as
      `name: value`, joined by " | ". */
  lemma NameIsJoinedRows(item: Item, properties: seq<FormBlock>)
    ensures var rows := DescriptionRows(item, properties);
            ItemName(item, properties) == Join(seq(|rows|, i requires 0 <= i < |rows| => RowText(rows[i])), " | ")
  {
    var keys := SortedKeys(item.Keys);
    var rows := RowsFor(keys, item, properties);
    var parts := seq(|keys|, i requires 0 <= i < |keys| => Part(Title(keys[i], properties), item[keys[i]]));
    var texts := seq(|rows|, i requires 0 <= i < |rows| => RowText(rows[i]));
    assert |parts| == |texts|;
    forall i | 0 <= i < |parts|
      ensures parts[i] == texts[i]
    {
      assert rows[i] == Row(keys[i], Title(keys[i], properties), item[keys[i]]);
    }
    assert parts == texts;
  }

  /** The name is empty exactly when the item has no keys. */
  lemma {:induction false} ItemNameEmpty(item: Item, properties: seq<FormBlock>)
    ensures ItemName(item, properties) == "" <==> item == map[]
  {
    var keys := SortedKeys(item.Keys);
    var parts := seq(|keys|, i requires 0 <= i < |keys| => Part(Title(keys[i], properties), item[keys[i]]));
    if item == map[] {
      assert item.Keys == {};
      assert parts == [];
    } else {
      assert |keys| == |item.Keys| > 0;
      assert parts[0] <= Join(parts, " | ");
      assert |parts[0]| >= 2;
    }
  }

  /** An item with two keys is named by its smaller key's part, " | ", then the other's. */
  lemma TwoKeyName(item: Item, k1: string, k2: string, properties: seq<FormBlock>)
    requires item.Keys == {k1, k2} && Less(k1, k2)
    ensures ItemName(item, properties)
            == Part(Title(k1, properties), item[k1]) + " | " + Part(Title(k2, properties), item[k2])
  {
    LessIrreflexive(k1);
    SortedKeysUnique([k1, k2], {k1, k2});
    var keys := [k1, k2];
    var parts := seq(2, i requires 0 <= i < 2 => Part(Title(keys[i], properties), item[keys[i]]));
    assert parts == [Part(Title(k1, properties), item[k1]), Part(Title(k2, properties), item[k2])];
    assert parts[1..] == [parts[1]];
    assert ItemName(item, properties) == Join(parts, " | ");
    assert Join(parts, " | ") == parts[0] + " | " + Join(parts[1..], " | ");
  }

  /** Two keys, no descriptors: "a: 1 | b: 2", whatever order the keys were added in. */
  lemma ExampleUntitledKeys()
    ensures ItemName(map["b" := "2", "a" := "1"], []) == "a: 1 | b: 2"
  {
    var item := map["b" := "2", "a" := "1"];
    assert Less("a", "b");
    assert item.Keys == {"a", "b"};
    TwoKeyName(item, "a", "b", []);
    assert Title("a", []) == "a" && Title("b", []) == "b";
  }

  /** A descriptor's title replaces the key: "Alpha: x". */
  lemma ExampleTitledKey()
    ensures ItemName(map["a" := "x"], [FormBlock("a", Some("Alpha"))]) == "Alpha: x"
  {
    var item := map["a" := "x"];
    assert item.Keys == {"a"};
    SortedKeysUnique(["a"], {"a"});
  }

  /** Order follows the raw keys, not the titles: with "b" titled "A" and "a" titled "Z",
      the "a" part still comes first. */
  lemma ExampleOrderByKeyNotTitle()
    ensures ItemName(map["a" := "1", "b" := "2"], [FormBlock("b", Some("A")), FormBlock("a", Some("Z"))])
            == "Z: 1 | A: 2"
  {
    var item := map["a" := "1", "b" := "2"];
    var properties := [FormBlock("b", Some("A")), FormBlock("a", Some("Z"))];
    assert Less("a", "b");
    assert item.Keys == {"a", "b"};
    TitleOfFirstMatch("a", properties, 1);
    TitleOfFirstMatch("b", properties, 0);
    TwoKeyName(item, "a", "b", properties);
  }

  /** The memoised details: entry `i` is computed from `items[i]` alone. */
  function Details(items: seq<Item>, properties: seq<FormBlock>): (r: seq<ItemDetails>)
    ensures |r| == |items|
    ensures forall i :: 0 <= i < |r| ==>
      r[i].name == ItemName(items[i], properties) && r[i].description == DescriptionRows(items[i], properties)
  {
    seq(|items|, i requires 0 <= i < |items| => ItemDetails(ItemName(items[i], properties), DescriptionRows(items[i], properties)))
  }

  // ---------------------------------------------------------------------------
  // Display-string fallbacks

  /** The section heading: `formField.title || formField.fieldKey`; an empty title is falsy. */
  function GroupTitle(field: FormField): (r: string)
    ensures field.title.None? || field.title == Some("") ==> r == field.fieldKey
    ensures field.title.Some? && field.title.value != "" ==> r == field.title.value
  {
    if field.title.Some? && field.title.value != "" then field.title.value else field.fieldKey
  }

  /** The two fallbacks differ on the empty title: the item title keeps it,
      the section heading replaces it with the field key. */
  lemma EmptyTitleFallbacksDiffer(key: string, fieldKey: string)
    requires fieldKey != ""
    ensures Title(key, [FormBlock(key, Some(""))]) == ""
    ensures GroupTitle(FormField(fieldKey, Some(""), [])) == fieldKey
  {
    assert FirstMatchAt([FormBlock(key, Some(""))], key, 0);
    EmptyTitleKept(key, [FormBlock(key, Some(""))], 0);
  }

  /** The form path of the editor: `${path}[${editIndex ?? 0}]`. */
  function EditorPath(path: string, editIndex: Option<int>): (r: string)
    ensures |r| >= |path| + 2 && r[..|path| + 1] == path + "[" && r[|r| - 1] == ']'
  {
    path + "[" + IntToDecimal(editIndex.GetOr(0)) + "]"
  }

  /** The editor path is the section's path followed by a bracketed index that reads
      back as the edit index, or 0 when none is set. */
  lemma EditorPathIndex(path: string, editIndex: Option<int>)
    ensures var p := EditorPath(path, editIndex);
            var inner := p[|path| + 1 .. |p| - 1];
            && p[..|path| + 1] == path + "["
            && p[|p| - 1] == ']'
            && IsIntText(inner)
            && ParseInt(inner) == editIndex.GetOr(0)
  {
    var d := IntToDecimal(editIndex.GetOr(0));
    var p := EditorPath(path, editIndex);
    assert p == path + "[" + d + "]";
    assert p[|path| + 1 .. |p| - 1] == d;
    IntToDecimalRoundTrip(editIndex.GetOr(0));
  }

  // ---------------------------------------------------------------------------
  // The array written back by `onDone`

  /** `onDone` replaces an existing element: the edit index is set and below the length. */
  predicate Replaces(items: seq<Item>, editIndex: Option<int>)
  {
    editIndex.Some? && editIndex.value < |items|
  }

  /** The array `onDone` writes back: `items` mapped with the element at the edit index
      swapped for `updated`, or `items` with `updated` appended. */
  function DoneValue(items: seq<Item>, editIndex: Option<int>, updated: Item): (r: seq<Item>)
    ensures Replaces(items, editIndex) ==> |r| == |items|
    ensures !Replaces(items, editIndex) ==> |r| == |items| + 1 && r[|items|] == updated
    ensures forall i :: 0 <= i < |items| && editIndex != Some(i) ==> r[i] == items[i]
    ensures editIndex.Some? && 0 <= editIndex.value < |r| ==> r[editIndex.value] == updated
  {
    if Replaces(items, editIndex) then
      seq(|items|, i requires 0 <= i < |items| => if i == editIndex.value then updated else items[i])
    else
      items + [updated]
  }

  /** Replacing at a valid index is the sequence update at that index. */
  lemma DoneValueReplaces(items: seq<Item>, e: int, updated: Item)
    requires 0 <= e < |items|
    ensures DoneValue(items, Some(e), updated) == items[e := updated]
  {
  }

  /** Without an edit index, or with one at or past the end, `updated` is appended. */
  lemma DoneValueAppends(items: seq<Item>, editIndex: Option<int>, updated: Item)
    requires editIndex.None? || editIndex.value >= |items|
    ensures DoneValue(items, editIndex, updated) == items + [updated]
  {
  }

  /** A negative edit index passes the `< items.length` test but matches no position:
      the array is written back unchanged. */
  lemma DoneValueNegativeIndex(items: seq<Item>, e: int, updated: Item)
    requires e < 0
    ensures DoneValue(items, Some(e), updated) == items
  {
  }

  /** In the two modes the editor is opened in (an existing index, or the length for a new
      item), the saved item ends up at the edit index and the array keeps its other items. */
  lemma DoneValueAtEditIndex(items: seq<Item>, e: int, updated: Item)
    requires 0 <= e <= |items|
    ensures var r := DoneValue(items, Some(e), updated);
            && |r| == (if e == |items| then |items| + 1 else |items|)
            && r[e] == updated
            && r[..e] == items[..e]
            && (e < |items| ==> r[e + 1..] == items[e + 1..])
  {
    var r := DoneValue(items, Some(e), updated);
    if e < |items| {
      DoneValueReplaces(items, e, updated);
    } else {
      DoneValueAppends(items, Some(e), updated);
    }
  }

  // ---------------------------------------------------------------------------
  // The component's state

  /** The state of one array section: the bound form value (possibly absent) and
      the index of the item open in the editor (possibly none). */
  class ArraySectionState {
    const formField: FormField
    const path: string
    var value: Option<seq<Item>>
    var editIndex: Option<int>

    constructor (formField: FormField, path: string, value: Option<seq<Item>>)
      ensures this.formField == formField && this.path == path
      ensures this.value == value && editIndex == None
    {
      this.formField := formField;
      this.path := path;
      this.value := value;
      editIndex := None;
    }

    /** The items shown: the bound value, or the empty array when it is absent. */
    function Items(): (r: seq<Item>)
      reads this
      ensures value.Some? ==> r == value.value
      ensures value.None? ==> r == []
    {
      value.GetOr([])
    }

    /** The label of the item at `index`, as handed to the list editor. */
    function ItemNameAt(index: int): (r: string)
      reads this
      requires 0 <= index < |Items()|
      ensures r == ItemName(Items()[index], formField.properties)
    {
      Details(Items(), formField.properties)[index].name
    }

    /** The description rows of the item at `index`, as handed to the list editor. */
    function ItemDescriptionAt(index: int): (r: seq<Row>)
      reads this
      requires 0 <= index < |Items()|
      ensures r == DescriptionRows(Items()[index], formField.properties)
    {
      Details(Items(), formField.properties)[index].description
    }

    /** `onStartEdit`: open the editor at `index` (the length for a new item). */
    method StartEdit(index: int)
      modifies this
      ensures editIndex == Some(index)
      ensures value == old(value)
    {
      editIndex := Some(index);
    }

    /** `onDone`: write the edited array back and close the editor. */
    method Done(updated: Item)
      modifies this
      ensures editIndex == None
      ensures value.Some? && Items() == DoneValue(old(Items()), old(editIndex), updated)
      ensures old(editIndex).Some? && 0 <= old(editIndex).value < |old(Items())| ==>
                Items() == old(Items())[old(editIndex).value := updated]
      ensures old(editIndex).None? || old(editIndex).value >= |old(Items())| ==>
                Items() == old(Items()) + [updated]
    {
      var items := Items();
      value := Some(DoneValue(items, editIndex, updated));
      if editIndex.Some? && 0 <= editIndex.value < |items| {
        DoneValueReplaces(items, editIndex.value, updated);
      } else if editIndex.None? || editIndex.value >= |items| {
        DoneValueAppends(items, editIndex, updated);
      }
      editIndex := None;
    }

    /** `onCancel`: close the editor; the array is untouched. */
    method Cancel()
      modifies this
      ensures editIndex == None
      ensures value == old(value)
    {
      editIndex := None;
    }

    /** The form path the editor is mounted at. */
    function EditorSubPath(): (r: string)
      reads this
      ensures r == EditorPath(path, editIndex)
      ensures |r| >= |path| + 2 && r[..|path| + 1] == path + "[" && r[|r| - 1] == ']'
    {
      EditorPath(path, editIndex)
    }
  }

  /** Opening the editor on item `e` and saving `updated` puts `updated` at `e`
      and leaves every other item where it was. */
  method EditThenSave(section: ArraySectionState, e: int, updated: Item)
    requires 0 <= e < |section.Items()|
    modifies section
    ensures section.editIndex == None
    ensures |section.Items()| == |old(section.Items())|
    ensures section.Items()[e] == updated
    ensures forall i :: 0 <= i < |section.Items()| && i != e ==> section.Items()[i] == old(section.Items())[i]
  {
    section.StartEdit(e);
    section.Done(updated);
  }

  /** Opening the editor for a new item (at the length) and saving it appends it. */
  method AddThenSave(section: ArraySectionState, updated: Item)
    modifies section
    ensures section.Items() == old(section.Items()) + [updated]
    ensures section.editIndex == None
  {
    section.StartEdit(|section.Items()|);
    section.Done(updated);
  }

  /** Opening the editor and cancelling changes nothing but the edit index. */
  method EditThenCancel(section: ArraySectionState, e: int)
    modifies section
    ensures section.value == old(section.value)
    ensures section.editIndex == None
  {
    section.StartEdit(e);
    section.Cancel();
  }
}
