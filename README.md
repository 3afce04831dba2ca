# Array-of-objects form section, modelled in Dafny

This project models `ArraySection`, the connector-configuration form section that edits an
array of objects. Each element of the bound array is an item mapping field keys to string values.
The section derives a one-line label (`getItemName`) and a two-column description
(`getItemDescription`) for every item. It keeps the index of the item open in the editor
(`editIndex`) and writes the edited array back to the form when the editor is saved.

Files:

- `wrappers.dfy`: `Option`, the stand-in for JavaScript's `undefined`, with `GetOr` for `??`.
- `strings.dfy`: the JavaScript string built-ins the section uses. These are the default string
  order of `Array.prototype.sort`, `Object.keys(o).sort()` on an object with distinct keys, `join`,
  and the rendering of an integer inside a template literal (with a parser as its partner).
- `array_section.dfy`: the section itself. It holds the title lookup, the item name, the
  description rows, the per-item details, the two display-string fallbacks, the array that `onDone`
  writes back, and a class `ArraySectionState` holding the bound value and `editIndex`. The class
  methods `StartEdit`, `Done` and `Cancel` are the three callbacks.

The derivation of names and rows is pure and is modelled as functions and lemmas. The bound value and
`editIndex` are updated in place by the callbacks, so they are fields of a class whose methods state
the whole new state.

Two edge cases follow from the source as written and are proved:

- A negative `editIndex` passes the `editIndex < items.length` test. The `map` then matches no position,
  so the array is written back unchanged (`DoneValueNegativeIndex`).
- An `editIndex` greater than the length appends the item at the end, not at the index (`DoneValue`).

## Model

| member | source | states |
|---|---|---|
| `Strings.Less` | airbyte-webapp/src/views/Connector/ServiceForm/components/Sections/ArraySection.tsx:21 | The default string order of `sort()`: a proper prefix sorts before the longer string, and no string sorts before one of its own prefixes. |
| `Strings.LessIrreflexive` | airbyte-webapp/src/views/Connector/ServiceForm/components/Sections/ArraySection.tsx:21 | No key sorts before itself under the default string order of `sort()`. |
| `Strings.LessTransitive` | airbyte-webapp/src/views/Connector/ServiceForm/components/Sections/ArraySection.tsx:21 | The string order used by `sort()` is transitive. |
| `Strings.LessTotal` | airbyte-webapp/src/views/Connector/ServiceForm/components/Sections/ArraySection.tsx:21 | Any two distinct keys are ordered one way or the other, so sorting distinct keys has a single outcome. |
| `Strings.LessAsymmetric` | airbyte-webapp/src/views/Connector/ServiceForm/components/Sections/ArraySection.tsx:21 | If one key sorts before another, the other does not sort before it. |
| `Strings.LeastExists` | airbyte-webapp/src/views/Connector/ServiceForm/components/Sections/ArraySection.tsx:20-21 | Every non-empty key set has a least key. |
| `Strings.SortedKeys` | airbyte-webapp/src/views/Connector/ServiceForm/components/Sections/ArraySection.tsx:20-21 | `Object.keys(item).sort()` lists every key of the item exactly once, in strictly ascending order. |
| `Strings.SortedKeysHead` | airbyte-webapp/src/views/Connector/ServiceForm/components/Sections/ArraySection.tsx:20-21 | Sorting a key set puts its least key first, followed by the sorted remaining keys. |
| `Strings.SortedKeysUnique` | airbyte-webapp/src/views/Connector/ServiceForm/components/Sections/ArraySection.tsx:20-21 | Any strictly ascending list of exactly the item's keys is the sorted key list, whatever order `Object.keys` enumerated them in. |
| `Strings.Join` | airbyte-webapp/src/views/Connector/ServiceForm/components/Sections/ArraySection.tsx:27 | Joining no parts gives "". Otherwise the result starts with the first part. |
| `Strings.JoinEndsWithLast` | airbyte-webapp/src/views/Connector/ServiceForm/components/Sections/ArraySection.tsx:27 | A join of one or more parts ends with the last part. |
| `Strings.JoinSnoc` | airbyte-webapp/src/views/Connector/ServiceForm/components/Sections/ArraySection.tsx:27 | Joining one more part appends the separator and that part. |
| `Strings.NatToDecimal` | airbyte-webapp/src/views/Connector/ServiceForm/components/Sections/ArraySection.tsx:101 | A number in a template literal is a non-empty string of decimal digits with no leading zero. |
| `Strings.NatToDecimalRoundTrip` | airbyte-webapp/src/views/Connector/ServiceForm/components/Sections/ArraySection.tsx:101 | The digits written for a natural number read back as that number. |
| `Strings.IntToDecimal` | airbyte-webapp/src/views/Connector/ServiceForm/components/Sections/ArraySection.tsx:101 | An integer is written with a leading minus sign exactly when it is negative. |
| `Strings.IntToDecimalRoundTrip` | airbyte-webapp/src/views/Connector/ServiceForm/components/Sections/ArraySection.tsx:101 | The text written for any integer parses back to that integer. |
| `Wrappers.Option.GetOr` | airbyte-webapp/src/views/Connector/ServiceForm/components/Sections/ArraySection.tsx:58 | `x ?? d`: the value when it is defined, else the default (also used at lines 24 and 101). |
| `ArraySection.Find` | airbyte-webapp/src/views/Connector/ServiceForm/components/Sections/ArraySection.tsx:23 | `find` returns nothing exactly when no descriptor has the key. Otherwise it returns the descriptor at the first position with that key. |
| `ArraySection.Title` | airbyte-webapp/src/views/Connector/ServiceForm/components/Sections/ArraySection.tsx:23-24 | A key's shown name is either the key itself or the title of a descriptor with that field key; `TitleOfFirstMatch` and `TitleWithoutMatch` say which. |
| `ArraySection.TitleOfFirstMatch` | airbyte-webapp/src/views/Connector/ServiceForm/components/Sections/ArraySection.tsx:23-24 | The first descriptor for a key decides its title: its own title when defined, else the key. |
| `ArraySection.TitleWithoutMatch` | airbyte-webapp/src/views/Connector/ServiceForm/components/Sections/ArraySection.tsx:23-24 | A key that no descriptor mentions is shown as itself. |
| `ArraySection.EmptyTitleKept` | airbyte-webapp/src/views/Connector/ServiceForm/components/Sections/ArraySection.tsx:24 | With `??`, a first match whose title is "" shows "", not the key. |
| `ArraySection.ItemName` | airbyte-webapp/src/views/Connector/ServiceForm/components/Sections/ArraySection.tsx:19-28 | `getItemName`: an empty item gives "", and otherwise the name starts with the least key's `title: value` part. `NameIsJoinedRows` and `DescriptionRows` give the full name. |
| `ArraySection.DescriptionRows` | airbyte-webapp/src/views/Connector/ServiceForm/components/Sections/ArraySection.tsx:31-43 | There is one row per key of the item, and the rows are in strictly ascending key order. Each row holds its key's title and value. |
| `ArraySection.NameIsJoinedRows` | airbyte-webapp/src/views/Connector/ServiceForm/components/Sections/ArraySection.tsx:19-43 | The item name is the description rows rendered as `title: value` and joined by the bar separator (space, vertical bar, space). |
| `ArraySection.ItemNameEmpty` | airbyte-webapp/src/views/Connector/ServiceForm/components/Sections/ArraySection.tsx:19-28 | The item name is "" if and only if the item has no keys. |
| `ArraySection.TwoKeyName` | airbyte-webapp/src/views/Connector/ServiceForm/components/Sections/ArraySection.tsx:19-28 | The name of a two-key item is the smaller key's part, then the bar separator, then the larger key's part. |
| `ArraySection.ExampleUntitledKeys` | airbyte-webapp/src/views/Connector/ServiceForm/components/Sections/ArraySection.tsx:19-28 | `{b: "2", a: "1"}` without descriptors is named "a: 1", the bar separator, then "b: 2". |
| `ArraySection.ExampleTitledKey` | airbyte-webapp/src/views/Connector/ServiceForm/components/Sections/ArraySection.tsx:19-28 | `{a: "x"}` with "a" titled "Alpha" is named "Alpha: x". |
| `ArraySection.ExampleOrderByKeyNotTitle` | airbyte-webapp/src/views/Connector/ServiceForm/components/Sections/ArraySection.tsx:19-28 | Ordering is by the raw keys, not the titles: "a" titled "Z" still comes before "b" titled "A". |
| `ArraySection.Details` | airbyte-webapp/src/views/Connector/ServiceForm/components/Sections/ArraySection.tsx:63-70 | There is one details entry per item. Entry `i` holds the name and the rows of `items[i]`. |
| `ArraySection.GroupTitle` | airbyte-webapp/src/views/Connector/ServiceForm/components/Sections/ArraySection.tsx:82 | The section heading is the field's title unless that title is absent or "". In those cases it is the field key. |
| `ArraySection.EmptyTitleFallbacksDiffer` | airbyte-webapp/src/views/Connector/ServiceForm/components/Sections/ArraySection.tsx:24 | An empty title is kept by the item title (`??`) but replaced by the field key in the heading (logical or, line 82). |
| `ArraySection.EditorPath` | airbyte-webapp/src/views/Connector/ServiceForm/components/Sections/ArraySection.tsx:101 | The editor path starts with the section path and "[" and ends with "]". |
| `ArraySection.EditorPathIndex` | airbyte-webapp/src/views/Connector/ServiceForm/components/Sections/ArraySection.tsx:101 | The editor path is the section path, "[", an index text, then "]". The index text parses back to `editIndex`, or to 0 when none is set. |
| `ArraySection.DoneValue` | airbyte-webapp/src/views/Connector/ServiceForm/components/Sections/ArraySection.tsx:105-108 | Replacing keeps the length. Otherwise the length grows by one and the saved item is last. Every position other than the edit index is unchanged. A valid edit index holds the saved item. |
| `ArraySection.DoneValueReplaces` | airbyte-webapp/src/views/Connector/ServiceForm/components/Sections/ArraySection.tsx:106-107 | With an edit index inside the array, the result is the array with that one position replaced. |
| `ArraySection.DoneValueAppends` | airbyte-webapp/src/views/Connector/ServiceForm/components/Sections/ArraySection.tsx:105-108 | With no edit index, or one at or past the length, the result is the array with the item appended. |
| `ArraySection.DoneValueNegativeIndex` | airbyte-webapp/src/views/Connector/ServiceForm/components/Sections/ArraySection.tsx:106-107 | A negative edit index passes the bound test but replaces nothing, so the array is written back unchanged. |
| `ArraySection.DoneValueAtEditIndex` | airbyte-webapp/src/views/Connector/ServiceForm/components/Sections/ArraySection.tsx:105-108 | For an edit index from 0 to the length, the saved item lands at that index. The items before it are kept, and so are those after it when editing an existing item. |
| `ArraySection.ArraySectionState.constructor` | airbyte-webapp/src/views/Connector/ServiceForm/components/Sections/ArraySection.tsx:54-58 | A section starts with the bound value as given and no item open in the editor. |
| `ArraySection.ArraySectionState.Items` | airbyte-webapp/src/views/Connector/ServiceForm/components/Sections/ArraySection.tsx:58 | An absent bound value is read as the empty array. |
| `ArraySection.ArraySectionState.ItemNameAt` | airbyte-webapp/src/views/Connector/ServiceForm/components/Sections/ArraySection.tsx:73 | The label handed to the list editor for index `i` is the name of `items[i]`. |
| `ArraySection.ArraySectionState.ItemDescriptionAt` | airbyte-webapp/src/views/Connector/ServiceForm/components/Sections/ArraySection.tsx:74 | The description for index `i` is the rows of `items[i]`. |
| `ArraySection.ArraySectionState.StartEdit` | airbyte-webapp/src/views/Connector/ServiceForm/components/Sections/ArraySection.tsx:91 | `onStartEdit(i)` sets the edit index to `i` and leaves the bound value alone. |
| `ArraySection.ArraySectionState.Done` | airbyte-webapp/src/views/Connector/ServiceForm/components/Sections/ArraySection.tsx:104-112 | `onDone` writes back an array and clears the edit index. The array has the one position updated for an index inside the array, or the item appended when no index is set or it is at or past the end. |
| `ArraySection.ArraySectionState.Cancel` | airbyte-webapp/src/views/Connector/ServiceForm/components/Sections/ArraySection.tsx:113-115 | `onCancel` clears the edit index and leaves the bound value alone. |
| `ArraySection.ArraySectionState.EditorSubPath` | airbyte-webapp/src/views/Connector/ServiceForm/components/Sections/ArraySection.tsx:101 | The editor is mounted at `EditorPath` of the section path and the current edit index. |
| `ArraySection.EditThenSave` | airbyte-webapp/src/views/Connector/ServiceForm/components/Sections/ArraySection.tsx:89-112 | Opening an existing item and saving puts the new item at its index. The length is kept and every other item is unchanged. |
| `ArraySection.AddThenSave` | airbyte-webapp/src/views/Connector/ServiceForm/components/Sections/ArraySection.tsx:89-112 | Opening the editor at the length and saving appends the item. |
| `ArraySection.EditThenCancel` | airbyte-webapp/src/views/Connector/ServiceForm/components/Sections/ArraySection.tsx:89-115 | Opening the editor and cancelling leaves the bound value as it was. |

## Left out

- `onRemove` is not modelled. It is delegated to the form library's `arrayHelpers.remove` (line 92), and that library is not part of this model.
- The JSX rendering is left out: `GroupControls`, `SectionContainer`, `FieldArray`, `ArrayOfObjectsEditor`, `VariableInputFieldForm`, the table markup and the CSS classes. The description is modelled as its rows: React key, shown name and value.
- The `disabled` flag, `editModalSize` and `formField.description` are passed through to widgets unchanged and are not modelled.
- `useMemo` memoisation and re-render timing are left out. Derived data is a function of the current state.
- The component reads the bound value and its setter through `useField`. The model keeps them as the field `value`, since the form store is not part of this model.
- `SortedKeys` orders strings by Unicode scalar value. JavaScript's `sort()` compares UTF-16 code units, and the two orders differ only between characters above U+FFFF and those in U+E000..U+FFFF.
- `ArraySection.ArraySectionState.ItemNameAt` requires an index inside the array. The source reads `details[index].name` (line 73), which would throw on an index out of range. The list editor only asks for indices of existing items.
- `ArraySection.ArraySectionState.ItemDescriptionAt` requires an index inside the array for the same reason. The source reads `details[index].description` (line 74).
- Edit indices are modelled as integers. A fractional JavaScript number never matches a position in `map`, and it is not modelled.
- The editor receives the item being edited from the list editor, which is not part of this model. The model covers only the path it is mounted at and the `onDone`/`onCancel` callbacks.
- `Strings.NatToDecimal`: edit indices are assumed below 10^21. JavaScript writes plain digits only below that bound and uses exponent form (`1e+21`) above it, while the model writes every digit. Indices of an array stay far below the bound.
