/** The state of the column-setup control and its event handlers. Each handler
    is one atomic step that reads the state as it was before the step, as the
    batched updates of the original component do. */
module ColumnSetup {
  import opened ColumnItems

  class TableColumnSetup {
    /** Whether the popup is open. */
    var focused: bool
    /** The last column list received from the owner. It is kept as an array
        because the component compares lists by reference, not by content. */
    var items: array<Item>
    /** The editable columns as currently shown: ticks and order may differ
        from `items` until the popup is applied or closed. */
    var currentItems: seq<Item>
    /** The locked columns as currently shown. */
    var requiredItems: seq<Item>

    /** The shown lists always come from `items`: the locked list is exactly
        the required columns of `items`, and the editable list holds exactly
        the configurable columns of `items`, possibly reordered and with
        different ticks. */
    ghost predicate Valid()
      reads this, items
    {
      requiredItems == RequiredItems(items[..]) &&
      NoneRequired(currentItems) &&
      multiset(WithoutSelection(currentItems)) == multiset(WithoutSelection(ConfigurableItems(items[..])))
    }

    /** The state before the first update from the owner: closed, with a fresh
        empty list everywhere. */
    constructor ()
      ensures Valid() && fresh(items)
      ensures !focused && items.Length == 0 && currentItems == [] && requiredItems == []
    {
      focused := false;
      items := new Item[0];
      currentItems := [];
      requiredItems := [];
    }

    /** The number of selected columns among the stored ones, shown in the
        status text of the control. */
    function CountSelected(): (r: nat)
      reads this, items
      ensures r <= items.Length
    {
      ColumnItems.CountSelected(items[..])
    }

    /** The effect that follows the owner's list: a list that is not the very
        array already stored replaces it, and both shown lists are rebuilt
        from it. Whether the popup is open does not change. */
    method SyncFromProps(propsItems: array<Item>)
      requires Valid()
      modifies this
      ensures Valid()
      ensures focused == old(focused)
      ensures propsItems != old(items) ==>
                items == propsItems &&
                requiredItems == RequiredItems(propsItems[..]) &&
                currentItems == ConfigurableItems(propsItems[..])
      ensures propsItems == old(items) ==>
                items == old(items) && requiredItems == old(requiredItems) &&
                currentItems == old(currentItems)
    {
      if propsItems != items {
        items := propsItems;
        requiredItems := RequiredItems(propsItems[..]);
        currentItems := ConfigurableItems(propsItems[..]);
      }
    }

    /** Closes the popup and discards every pending tick and reorder by
        rebuilding both lists from the stored columns. */
    method SetInitialState()
      requires Valid()
      modifies this
      ensures Valid()
      ensures !focused && items == old(items)
      ensures requiredItems == RequiredItems(items[..])
      ensures currentItems == ConfigurableItems(items[..])
    {
      focused := false;
      requiredItems := RequiredItems(items[..]);
      currentItems := ConfigurableItems(items[..]);
    }

    /** The popup's close request: the same reset as SetInitialState. */
    method OnClosePopup()
      requires Valid()
      modifies this
      ensures Valid()
      ensures !focused && items == old(items)
      ensures requiredItems == RequiredItems(items[..])
      ensures currentItems == ConfigurableItems(items[..])
    {
      SetInitialState();
    }

    /** A click on the control button: ignored while the control is disabled;
        otherwise it opens a closed popup or closes an open one, and in both
        cases rebuilds the shown lists from the stored columns. */
    method OnControlClick(disabled: bool)
      requires Valid()
      modifies this
      ensures Valid()
      ensures items == old(items)
      ensures disabled ==>
                focused == old(focused) && requiredItems == old(requiredItems) &&
                currentItems == old(currentItems)
      ensures !disabled ==>
                focused == !old(focused) &&
                requiredItems == RequiredItems(items[..]) &&
                currentItems == ConfigurableItems(items[..])
    {
      if !disabled {
        focused := !focused;
        requiredItems := RequiredItems(items[..]);
        currentItems := ConfigurableItems(items[..]);
      }
    }

    /** The Apply button. The list handed to the owner is the locked columns
        followed by the edited configurable ones, both as they were before the
        click; it is a new array, so it never equals the stored one and the
        owner is always notified (`notified`). Like a close, Apply then resets
        the popup from the stored columns. The handed-over list has as many
        columns as the stored one, and splitting it again gives back exactly
        the two lists that were applied. */
    method OnApplyClick() returns (notified: bool, updated: array<Item>)
      requires Valid()
      modifies this
      ensures Valid()
      ensures fresh(updated)
      ensures updated[..] == old(requiredItems) + old(currentItems)
      ensures notified
      ensures updated.Length == old(items).Length
      ensures RequiredItems(updated[..]) == old(requiredItems)
      ensures ConfigurableItems(updated[..]) == old(currentItems)
      ensures !focused && items == old(items)
      ensures requiredItems == RequiredItems(items[..])
      ensures currentItems == ConfigurableItems(items[..])
    {
      var pendingRequired, pendingCurrent := requiredItems, currentItems;
      SetInitialState();
      var merged := pendingRequired + pendingCurrent;
      updated := new Item[|merged|](j requires 0 <= j < |merged| => merged[j]);
      notified := items != updated;
      assert updated[..] == merged;
      MergeThenPartition(pendingRequired, pendingCurrent);
      SelectionFreeLength(pendingCurrent, ConfigurableItems(items[..]));
      PartitionLength(items[..]);
    }

    /** A click on the editable column at position `i`: its tick flips and
        nothing else changes. A position outside the list changes nothing. */
    method OnItemClick(i: int)
      requires Valid()
      modifies this
      ensures Valid()
      ensures currentItems == ToggleSelected(old(currentItems), i)
      ensures |currentItems| == |old(currentItems)|
      ensures focused == old(focused) && items == old(items) && requiredItems == old(requiredItems)
    {
      ToggleKeepsColumns(currentItems, i);
      currentItems := ToggleSelected(currentItems, i);
    }

    /** The end of a drag in the editable list: the list becomes `moved`, the
        reordering computed by the list widget, which is a permutation of the
        shown editable columns. */
    method OnSortEnd(moved: seq<Item>)
      requires Valid()
      requires multiset(moved) == multiset(currentItems)
      modifies this
      ensures Valid()
      ensures currentItems == moved
      ensures focused == old(focused) && items == old(items) && requiredItems == old(requiredItems)
    {
      PermutationWithoutSelection(moved, currentItems);
      forall j | 0 <= j < |moved|
        ensures !moved[j].required
      {
        assert moved[j] in multiset(currentItems);
      }
      currentItems := moved;
    }
  }
}
