# Table column setup: a verified model

The `TableColumnSetup` control of a data table lets the user choose which
columns are shown and in what order. A button opens a popup with two lists:
the locked (required) columns and the configurable ones, which can be ticked,
unticked and dragged into a new order. Apply hands the resulting list back to
the owner of the table.

This project models the control's state and the list helpers behind it:

- `ColumnItems.dfy` (module `ColumnItems`): the column record and the pure
  helpers: splitting a list into locked and configurable columns, flipping the
  tick of one configurable column, counting selected columns, and the two
  list heights. Lemmas state partition completeness, order, idempotence, the
  apply round trip, the involution of a click and the count's behaviour.
- `TableColumnSetup.dfy` (module `ColumnSetup`): class `TableColumnSetup`
  with the four pieces of state (`focused`, `items`, `currentItems`,
  `requiredItems`) and one method per handler. Each handler is a single
  atomic step that reads the state as it was before the step, as the
  component's batched state updates do. `Valid()` is the invariant every
  handler keeps: the locked list is exactly the required columns of `items`,
  and the editable list is exactly the configurable columns of `items`, up to
  order and ticks.

Points of the code the model keeps:

- `items` is an `array<Item>` because the component compares lists by
  reference (`!==`). The props-sync effect therefore rebuilds the lists
  whenever a *different array* arrives, even one with the same contents.
- Apply builds its result with `concat`, which always makes a new array, so
  the guard `items !== newItems` always holds and the owner is always
  notified. `OnApplyClick` states this as `ensures notified`.
- Apply emits the locked columns with `disabled` set to true, since
  `requiredItems` holds the locked copies.
- Apply reads the lists from before its own reset, so pending ticks and
  reorders reach the owner while the popup itself is reset.
- The status count is taken over the stored `items`, not over the edited
  list.
- `getListHeight` divides the row height by two. In the code this is a
  floating-point division, but 36 / 2 is exactly 18, so integer arithmetic
  gives the same value.

## Model

| member | source | states |
|---|---|---|
| `ColumnItems.RequiredItems` | src/components/Table/hoc/withTableSettings/TableColumnSetup/TableColumnSetup.tsx:62-68 | the locked list is no longer than the input and every column in it is required and disabled |
| `ColumnItems.ConfigurableItems` | src/components/Table/hoc/withTableSettings/TableColumnSetup/TableColumnSetup.tsx:70 | the configurable list is no longer than the input and holds no required column |
| `ColumnItems.PartitionLength` | src/components/Table/hoc/withTableSettings/TableColumnSetup/TableColumnSetup.tsx:62-70 | the two lists together are exactly as long as the input |
| `ColumnItems.RequiredItemsMembership` | src/components/Table/hoc/withTableSettings/TableColumnSetup/TableColumnSetup.tsx:62-68 | a column is in the locked list if and only if it is the disabled copy of a required input column |
| `ColumnItems.ConfigurableItemsMembership` | src/components/Table/hoc/withTableSettings/TableColumnSetup/TableColumnSetup.tsx:70 | a column is in the configurable list if and only if it is an input column that is not required |
| `ColumnItems.RequiredItemsConcat` | src/components/Table/hoc/withTableSettings/TableColumnSetup/TableColumnSetup.tsx:62-68 | the locked list keeps input order: that of `a + b` is that of `a` followed by that of `b` |
| `ColumnItems.ConfigurableItemsConcat` | src/components/Table/hoc/withTableSettings/TableColumnSetup/TableColumnSetup.tsx:70 | the configurable list keeps input order: that of `a + b` is that of `a` followed by that of `b` |
| `ColumnItems.SplitLocked` | src/components/Table/hoc/withTableSettings/TableColumnSetup/TableColumnSetup.tsx:62-70 | columns that are all required and disabled split into themselves and an empty configurable list |
| `ColumnItems.SplitConfigurable` | src/components/Table/hoc/withTableSettings/TableColumnSetup/TableColumnSetup.tsx:62-70 | columns none of which is required split into an empty locked list and themselves |
| `ColumnItems.MergeThenPartition` | src/components/Table/hoc/withTableSettings/TableColumnSetup/TableColumnSetup.tsx:112-120 | splitting the merged list `locked + configurable` that Apply emits gives back exactly the two lists |
| `ColumnItems.PartitionIdempotent` | src/components/Table/hoc/withTableSettings/TableColumnSetup/TableColumnSetup.tsx:62-70 | each helper is idempotent, and applying one to the other's output gives the empty list |
| `ColumnItems.ToggleSelected` | src/components/Table/hoc/withTableSettings/TableColumnSetup/TableColumnSetup.tsx:139-144 | a click keeps the length, flips the tick of the clicked column only, and keeps every other column; a click outside the list changes nothing |
| `ColumnItems.ToggleTwice` | src/components/Table/hoc/withTableSettings/TableColumnSetup/TableColumnSetup.tsx:139-144 | clicking the same column twice restores the list |
| `ColumnItems.ToggleKeepsColumns` | src/components/Table/hoc/withTableSettings/TableColumnSetup/TableColumnSetup.tsx:139-144 | a click changes nothing but ticks, so a list with no required column keeps none |
| `ColumnItems.PermutationWithoutSelection` | src/components/Table/hoc/withTableSettings/TableColumnSetup/TableColumnSetup.tsx:146-150 | a reordered list is, with ticks erased, a reordering of the original with ticks erased |
| `ColumnItems.CountSelected` | src/components/Table/hoc/withTableSettings/TableColumnSetup/TableColumnSetup.tsx:152-154 | the fold that counts selected columns never exceeds the number of columns |
| `ColumnItems.CountConcat` | src/components/Table/hoc/withTableSettings/TableColumnSetup/TableColumnSetup.tsx:152-154 | the count of a concatenation is the sum of the counts |
| `ColumnItems.CountAllSelected` | src/components/Table/hoc/withTableSettings/TableColumnSetup/TableColumnSetup.tsx:152-154 | the count equals the number of columns if and only if every column is selected |
| `ColumnItems.CountNoneSelected` | src/components/Table/hoc/withTableSettings/TableColumnSetup/TableColumnSetup.tsx:152-154 | the count is zero if and only if no column is selected |
| `ColumnItems.CountPartition` | src/components/Table/hoc/withTableSettings/TableColumnSetup/TableColumnSetup.tsx:62-70 | the selected columns of the locked and configurable lists add up to those of the input |
| `ColumnItems.CountToggle` | src/components/Table/hoc/withTableSettings/TableColumnSetup/TableColumnSetup.tsx:139-154 | a click on a shown column moves the count by exactly one, down if it was selected and up if not; a click elsewhere keeps it |
| `ColumnItems.ListHeight` | src/components/Table/hoc/withTableSettings/TableColumnSetup/TableColumnSetup.tsx:80-84 | the configurable list's height is between 18 and 198, is rows times 36 plus 18 below five rows, and is 198 from five rows on |
| `ColumnItems.RequiredListHeight` | src/components/Table/hoc/withTableSettings/TableColumnSetup/TableColumnSetup.tsx:86-88 | the locked list's height is a whole number of 36-pixel rows, one per column |
| `ColumnItems.ListHeightMonotone` | src/components/Table/hoc/withTableSettings/TableColumnSetup/TableColumnSetup.tsx:80-84 | a longer configurable list is never drawn shorter |
| `ColumnItems.ListHeightAgainstRequired` | src/components/Table/hoc/withTableSettings/TableColumnSetup/TableColumnSetup.tsx:80-88 | the configurable list is at most half a row taller than the locked list would be, with equality if and only if it has at most five columns |
| `ColumnSetup.TableColumnSetup.constructor` | src/components/Table/hoc/withTableSettings/TableColumnSetup/TableColumnSetup.tsx:53-56 | the initial state is closed with empty lists and a fresh empty stored array |
| `ColumnSetup.TableColumnSetup.CountSelected` | src/components/Table/hoc/withTableSettings/TableColumnSetup/TableColumnSetup.tsx:152-154 | the status count over the stored columns is at most their number |
| `ColumnSetup.TableColumnSetup.SyncFromProps` | src/components/Table/hoc/withTableSettings/TableColumnSetup/TableColumnSetup.tsx:72-78 | a different incoming array replaces `items` and both lists are rebuilt from it; the same array changes nothing; `focused` is untouched |
| `ColumnSetup.TableColumnSetup.SetInitialState` | src/components/Table/hoc/withTableSettings/TableColumnSetup/TableColumnSetup.tsx:94-98 | closes the popup and rebuilds both lists from the stored columns |
| `ColumnSetup.TableColumnSetup.OnClosePopup` | src/components/Table/hoc/withTableSettings/TableColumnSetup/TableColumnSetup.tsx:100-102 | closing resets the popup as SetInitialState does, discarding pending ticks and reorders |
| `ColumnSetup.TableColumnSetup.OnControlClick` | src/components/Table/hoc/withTableSettings/TableColumnSetup/TableColumnSetup.tsx:104-110 | when disabled nothing changes; otherwise `focused` flips and both lists are rebuilt from the stored columns |
| `ColumnSetup.TableColumnSetup.OnApplyClick` | src/components/Table/hoc/withTableSettings/TableColumnSetup/TableColumnSetup.tsx:112-120 | emits a fresh array holding the pre-apply locked list then the pre-apply editable list, always notifies the owner, emits as many columns as are stored, splits back into the applied lists, and resets the popup |
| `ColumnSetup.TableColumnSetup.OnItemClick` | src/components/Table/hoc/withTableSettings/TableColumnSetup/TableColumnSetup.tsx:139-144 | the editable list becomes the clicked toggle of the old one, with the same length; nothing else changes and the invariant holds |
| `ColumnSetup.TableColumnSetup.OnSortEnd` | src/components/Table/hoc/withTableSettings/TableColumnSetup/TableColumnSetup.tsx:146-150 | the editable list becomes the widget's reordering; nothing else changes and the invariant holds |

## Left out

- Rendering is not modelled because it is UI. This covers `renderItem`, `renderStatus`, `renderRequiredColumns`, `renderConfigurableColumns`, the button, icon and popup trees, CSS class names, and popup placement and width.
- The status text `selected/all` is display formatting. Only the count behind it is modelled, by `CountSelected`.
- `List.moveListElement` is not part of this model because it is an external utility. `OnSortEnd` takes its result as the parameter `moved` and requires only that it is a permutation of the editable list. Nothing is claimed about which permutation it is.
- React scheduling (effect timing, render batching, `useRef`) is not modelled. Each handler is one atomic transition over the state from before the call.
- `getItemTitle`, `sortable` and `filterable` are not modelled because they only pass through to external widgets. The title is kept as opaque text.
- The column record type is defined elsewhere in the repository and is not part of this model. `Item` keeps only the fields the component reads or writes. Its optional flags are plain booleans, with an absent flag reading as false.
- The `disabled` prop is a parameter of `OnControlClick`, not state. The owner's `onUpdate` callback is modelled by `OnApplyClick` returning the emitted array.
- OnItemClick: the code matches the clicked column by reference and would flip every entry that is the same object. The model flips the column at one position, so a list holding the same object twice is not captured.
- Mutation of the owner's array in place between handler calls is not modelled. The component never writes to it.
