# React UI components: data table and input field, modelled in Dafny

This project models the interaction logic of two presentational React
widgets and proves what that logic promises.

- **DataTable** keeps two pieces of local state. `sortConfig` is an optional
  sort attribute plus a direction. A click on a sortable column header moves
  it through asc, desc, asc, and so on. `selectedRows` is the list of ticked
  rows. A checkbox click toggles a row, with a single-select variant, and
  reports the new list to `onRowSelect`. The rows are shown as a stable,
  direction-aware sorted copy of `data`. The body shows a loading message, an
  empty-data message or the table.
- **InputField** is a controlled text input. Its props decide whether the
  clear button, the password toggle, the helper text and the error text
  appear, which `type` the input gets, and which state styling applies. One
  local bit, `showPassword`, is flipped by the toggle button.

Files:

- `wrappers.dfy`: `Option`.
- `table_sorting.dfy` (module `TableSorting`): columns, the sort
  configuration and its click transition, the comparator, a stable sort, and
  `SortedData`.
- `table_selection.dfy` (module `TableSelection`): the selection toggle and
  its invariants.
- `data_table.dfy` (module `DataTableComponent`): class `DataTable`, whose
  fields are the two state variables and whose methods are the two handlers.
  It also holds the render's display mode and the header sort markers.
- `input_field.dfy` (module `InputFieldComponent`): the props, the display
  predicates, and class `InputField`, which holds `showPassword`.

Modelling decisions:

- Rows are values of an opaque type `T` compared by equality. This stands for
  the reference identity that `includes` and `!==` use. It is not the `id`
  field.
- A row's attribute is read through a parameter `attr(row, dataIndex)` with
  integer values. This gives sort keys a total order.
- The sorted view is a function of `(data, sortConfig)`. Sequences are
  values, so `data` is never changed, just as the source sorts a spread copy.
  The sort is an insertion sort driven by the source's comparator.
  `SortIsTheStableSort` proves that every sort that keeps `data`'s rows,
  orders them and is stable gives this same result. The model therefore does
  not depend on which stable algorithm the platform uses.
- The source treats any falsy key as "no sort" (`!sortConfig.key`). The model
  keeps this as written: `Active` is false for no key and for the empty
  attribute name `""`. The ordering lemmas are stated for an active key. When
  `dataIndex` is `""`, the header marker shows a direction but the rows stay
  unsorted.
- `handleRowSelect` does not look at `selectable === false`. With
  `NotSelectable` it therefore appends, as in multi mode. No checkbox is
  rendered in that mode, so the case cannot be reached from the UI.
- Callbacks are results. `HandleRowSelect` returns what `onRowSelect`
  receives, and `ClickClear` returns the event handed to `onChange`. Each is
  `None` when the prop is absent.
- Optional string props (`label`, `helperText`, `errorMessage`) are strings,
  with `""` standing for an absent prop. Both are falsy in the conditions
  the component renders by. `label` is a Dafny keyword, so its field is
  named `labelText`.

## Model

| member | source | states |
|---|---|---|
| `TableSorting.NextSortConfig` | src/components/DataTable/DataTable.tsx:31-39 | a non-sortable column leaves the configuration unchanged; a sortable one becomes the key, with direction desc exactly when it already was the key in asc order, asc otherwise |
| `TableSorting.ClicksAlternate` | src/components/DataTable/DataTable.tsx:34-39 | after the first click on a sortable header, the key is that column's attribute and every further click reverses the direction |
| `TableSorting.ClicksFromOtherKey` | src/components/DataTable/DataTable.tsx:34-39 | n clicks on a header that is not the current key give asc for odd n and desc for even n, so a switch of column always starts at asc |
| `TableSorting.Compare` | src/components/DataTable/DataTable.tsx:48-50 | the comparator returns -1, 0 or 1; it is 0 exactly for equal keys, and negative exactly when a is smaller (asc) or larger (desc) than b |
| `TableSorting.CompareAntisymmetric` | src/components/DataTable/DataTable.tsx:48-50 | swapping the operands negates the comparator |
| `TableSorting.Insert` | src/components/DataTable/DataTable.tsx:44-51 | inserting a row adds exactly that row to the multiset of rows |
| `TableSorting.Sort` | src/components/DataTable/DataTable.tsx:44-51 | the sorted copy is a permutation of the input |
| `TableSorting.SortOrdered` | src/components/DataTable/DataTable.tsx:44-51 | the sorted copy is in key order in the chosen direction |
| `TableSorting.SortStable` | src/components/DataTable/DataTable.tsx:48-50 | for every key value, the rows with that value keep their input order, in both directions |
| `TableSorting.OrderedStableUnique` | src/components/DataTable/DataTable.tsx:44-51 | two sequences that are ordered in the same direction and agree on every key's rows, in order, are equal |
| `TableSorting.SortIsTheStableSort` | src/components/DataTable/DataTable.tsx:44-51 | any ordered result that keeps every key's rows in input order equals the model's sort |
| `TableSorting.SortedData` | src/components/DataTable/DataTable.tsx:42-52 | with no active key the rows shown are `data` in its order; in every case they are a permutation of `data` |
| `TableSorting.SortedDataOrdered` | src/components/DataTable/DataTable.tsx:44-51 | with an active key, asc rows are non-decreasing and desc rows non-increasing in that attribute |
| `TableSorting.SortedDataStable` | src/components/DataTable/DataTable.tsx:48-50 | with an active key, rows with equal attribute values keep their relative order, even under desc |
| `TableSelection.Without` | src/components/DataTable/DataTable.tsx:57 | filtering removes every occurrence of the row and keeps every other row's count |
| `TableSelection.WithoutKeepsOrder` | src/components/DataTable/DataTable.tsx:57 | the rows left after filtering are a subsequence of the selection, in order |
| `TableSelection.WithoutAt` | src/components/DataTable/DataTable.tsx:57 | in a duplicate-free selection, removing a row cuts out exactly its position |
| `TableSelection.ToggleMembership` | src/components/DataTable/DataTable.tsx:54-61 | a toggle flips the clicked row's membership; others keep theirs, except that adding in single mode unselects them all |
| `TableSelection.ToggleShape` | src/components/DataTable/DataTable.tsx:54-61 | a selected row is filtered out with the rest kept in order; otherwise single mode gives `[row]` and other modes append `row` at the end |
| `TableSelection.ToggleNoDuplicates` | src/components/DataTable/DataTable.tsx:56-60 | a duplicate-free selection stays duplicate-free after a toggle, in every mode |
| `TableSelection.SingleToggleBound` | src/components/DataTable/DataTable.tsx:59-60 | in single mode a toggle keeps a selection of at most one row at most one row |
| `TableSelection.SingleModeAtMostOne` | src/components/DataTable/DataTable.tsx:54-61 | any run of toggles in single mode, from the initial empty selection, leaves at most one row selected |
| `TableSelection.NeverDuplicated` | src/components/DataTable/DataTable.tsx:54-61 | any run of toggles, from an empty or duplicate-free selection, never selects a row twice |
| `TableSelection.ToggleTwiceMembers` | src/components/DataTable/DataTable.tsx:56-60 | in multi mode, ticking an unselected row twice restores the set of selected rows |
| `TableSelection.SingleSelectScenario` | src/components/DataTable/DataTable.tsx:59-60 | in single mode, selecting row A and then row B leaves exactly `[B]` |
| `DataTableComponent.Render` | src/components/DataTable/DataTable.tsx:69-77 | loading shows the loading message regardless of data; otherwise empty data shows the empty message; otherwise the table shows a permutation of `data`, which is `data` itself with no active key; exactly one of the three holds |
| `DataTableComponent.LoadingScenario` | src/components/DataTable/DataTable.tsx:69-73 | with `loading` set and no data, the loading message is shown, not the empty message |
| `DataTableComponent.ClickedHeaderShowsDirection` | src/components/DataTable/DataTable.tsx:93-99 | after a click on a sortable header, that header shows the new direction, sortable headers on other attributes show the unsorted marker, and non-sortable ones show none |
| `DataTableComponent.DataTable.constructor` | src/components/DataTable/DataTable.tsx:25-29 | on mount nothing is selected and there is no sort key (direction asc) |
| `DataTableComponent.DataTable.HandleSort` | src/components/DataTable/DataTable.tsx:31-40 | the new sort configuration is the click transition of the old one; the selection does not change |
| `DataTableComponent.DataTable.HandleRowSelect` | src/components/DataTable/DataTable.tsx:54-65 | the new selection is the toggle of the old one; `onRowSelect`, when given, receives exactly the stored list; the sort does not change; no duplicates, and at most one row in single mode |
| `DataTableComponent.AgeClickScenario` | src/components/DataTable/DataTable.tsx:31-51 | on the host page's three people, one click on the age header orders them by ascending age and a second click by descending age |
| `InputFieldComponent.ClickClear` | src/components/InputField/InputField.tsx:80-85 | the clear affordance calls `onChange` exactly when `clearable` holds, the value is non-empty, the field is not disabled and a callback exists; the event carries the empty string |
| `InputFieldComponent.ClearThenHidden` | src/components/InputField/InputField.stories.tsx:16-25 | a host that stores the cleared value gets empty text, and the clear button is then no longer offered |
| `InputFieldComponent.RenderInput` | src/components/InputField/InputField.tsx:69-74 | the input receives the value, disabled flag and placeholder props unchanged |
| `InputFieldComponent.InputTypeRule` | src/components/InputField/InputField.tsx:70 | with `passwordToggle` the type is "text" iff `showPassword` and "password" iff not; without it the type is the `type` prop, whatever `showPassword` is |
| `InputFieldComponent.DefaultIsText` | src/components/InputField/InputField.tsx:32-36 | with every default the input type is "text" |
| `InputFieldComponent.InitiallyMasked` | src/components/InputField/InputField.tsx:39 | a `passwordToggle` field is masked on mount |
| `InputFieldComponent.ToggleChangesOnlyType` | src/components/InputField/InputField.tsx:69-74 | flipping `showPassword` changes only the input's type, and with `passwordToggle` it always changes it |
| `InputFieldComponent.LoadingDoesNotBlock` | src/components/InputField/InputField.tsx:104-106 | `loading` changes neither the rendered input nor whether the clear button is offered |
| `InputFieldComponent.MaskedWithoutToggle` | src/components/InputField/InputField.tsx:93 | with `passwordToggle` set and `type` other than "password", the field is masked on mount and no toggle is rendered |
| `InputFieldComponent.PasswordToggleStory` | src/components/InputField/InputField.stories.tsx:51-56 | the `PasswordToggle` story's props give a masked input without a toggle |
| `InputFieldComponent.IntendedToggleCanReveal` | src/components/InputField/InputField.tsx:93-96 | under the corrected rule, whenever the toggle feature masks the field the toggle is offered and one click reveals the text |
| `InputFieldComponent.ToggleRulesAgree` | src/components/InputField/InputField.tsx:93 | the written and corrected toggle rules agree whenever `type` is "password" |
| `InputFieldComponent.HelperErrorExclusive` | src/components/InputField/InputField.tsx:110-114 | helper text shows iff it is non-empty and the field is valid; error text shows iff the field is invalid and the message is non-empty; never both |
| `InputFieldComponent.StateStylePrecedence` | src/components/InputField/InputField.tsx:54-58 | the invalid style is chosen iff `invalid`, even when disabled; the disabled style iff disabled and not invalid; no state style otherwise |
| `InputFieldComponent.InputField.constructor` | src/components/InputField/InputField.tsx:39 | `showPassword` starts false |
| `InputFieldComponent.InputField.ClickPasswordToggle` | src/components/InputField/InputField.tsx:96 | a toggle click flips `showPassword` and changes nothing else |
| `InputFieldComponent.ClickTwiceRestores` | src/components/InputField/InputField.tsx:96 | two toggle clicks restore `showPassword` and the rendered input |

## Left out

- JSX markup, Tailwind class strings (`sizeClasses`, `variantClasses`), icons and ARIA attributes are left out. They are rendering, not logic. `variant` and `size` are carried as props and read nowhere.
- The label predicate (`label && …`) and the cell text (`String(row[col.dataIndex])`) are left out, because they too are rendering.
- React's `useState` scheduling and `useMemo` caching are left out. State is fields updated at once, and the sorted view is recomputed as a function of `(data, sortConfig)`.
- JavaScript `<` and `>` on mixed or incomparable values are left out. Attribute values are integers, a total order.
- TableSorting.SortedData: it does not model `Array.prototype.sort` itself. It models a stable sort under the same comparator, and `SortIsTheStableSort` shows that every stable sort gives the same result.
- DOM event wiring is left out. A click is a method call, and `onChange`/`onRowSelect` are returned values. Typing into the input is the parent's business (a controlled input), so it is not modelled beyond `RenderInput` passing `value` through.
- The demo page and the story definitions are not part of this model, except for data used in `AgeClickScenario`, `PasswordToggleStory` and `ClearThenHidden`. `DataTable.types.ts` only repeats the interfaces, so it is not part of this model either.

## Findings

| source | as written | input that shows it | evidently intended | confidence | as-written member | corrected member |
|---|---|---|---|---|---|---|
| src/components/InputField/InputField.tsx:93 | The toggle button needs both `passwordToggle` and `type === "password"`. Line 70 masks the input whenever `passwordToggle` is set. | `passwordToggle: true` with `type` left at its default "text", as in the `PasswordToggle` story: the input is masked on mount and has no toggle, so it can never be revealed | The toggle is offered whenever `passwordToggle` is set (`ShowPasswordToggleIntended`) | medium; not executed | `InputFieldComponent.MaskedWithoutToggle` | `InputFieldComponent.IntendedToggleCanReveal` |
