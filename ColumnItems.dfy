/** The list helpers of the column-setup popup: splitting the table's columns
    into locked (required) and configurable ones, toggling the selection of one
    configurable column, counting selected columns, and the two list heights.
    Everything here is a pure function of its arguments. */
module ColumnItems {

  /** One column of the table as the popup sees it. Optional flags of the
      original record are modelled as plain booleans (absent reads as false);
      the title is opaque text that the popup only displays. */
  datatype Item = Item(title: string, required: bool, selected: bool, disabled: bool)

  /** Height in pixels of one row of either list. */
  const ListItemHeight: nat := 36

  /** The most rows the configurable list shows before it scrolls. */
  const MaxVisibleRows: nat := 5

  /** A required column as it appears in the locked list: a copy with
      `disabled` forced on. */
  function Lock(x: Item): Item {
    x.(disabled := true)
  }

  /** A column with its selection flipped and everything else kept. */
  function Flip(x: Item): Item {
    x.(selected := !x.selected)
  }

  /** A column with its selection erased: what a column is apart from
      whether it is currently ticked. */
  function Unselect(x: Item): Item {
    x.(selected := false)
  }

  /** Every column of `s` is a locked required column. */
  predicate AllLocked(s: seq<Item>) {
    forall i | 0 <= i < |s| :: s[i].required && s[i].disabled
  }

  /** No column of `s` is required. */
  predicate NoneRequired(s: seq<Item>) {
    forall i | 0 <= i < |s| :: !s[i].required
  }

  // ---------------------------------------------------------------------------
  // Partition of the incoming columns
  // ---------------------------------------------------------------------------

  /** The required columns of `list`, in order, each locked: the filter on
      `required` followed by the map that sets `disabled`, fused into one pass. */
  function RequiredItems(list: seq<Item>): (r: seq<Item>)
    ensures |r| <= |list|
    ensures AllLocked(r)
  {
    if list == [] then []
    else if list[0].required then [Lock(list[0])] + RequiredItems(list[1..])
    else RequiredItems(list[1..])
  }

  /** The columns of `list` that are not required, in order and unchanged. */
  function ConfigurableItems(list: seq<Item>): (r: seq<Item>)
    ensures |r| <= |list|
    ensures NoneRequired(r)
  {
    if list == [] then []
    else if !list[0].required then [list[0]] + ConfigurableItems(list[1..])
    else ConfigurableItems(list[1..])
  }

  /** Nothing is lost or duplicated by the split: the two lists together are as
      long as the input. */
  lemma {:induction false} PartitionLength(list: seq<Item>)
    ensures |RequiredItems(list)| + |ConfigurableItems(list)| == |list|
  {
    if list != [] {
      PartitionLength(list[1..]);
    }
  }

  /** A column is in the locked list exactly when it is the locked copy of some
      required column of the input. */
  lemma {:induction false} RequiredItemsMembership(list: seq<Item>, x: Item)
    ensures x in RequiredItems(list) <==>
            exists j :: 0 <= j < |list| && list[j].required && x == Lock(list[j])
  {
    if list != [] {
      RequiredItemsMembership(list[1..], x);
      if exists j :: 0 <= j < |list[1..]| && list[1..][j].required && x == Lock(list[1..][j]) {
        var j :| 0 <= j < |list[1..]| && list[1..][j].required && x == Lock(list[1..][j]);
        assert list[j + 1] == list[1..][j];
      }
      if exists j :: 0 <= j < |list| && list[j].required && x == Lock(list[j]) {
        var j :| 0 <= j < |list| && list[j].required && x == Lock(list[j]);
        if j > 0 {
          assert list[1..][j - 1] == list[j];
        }
      }
    }
  }

  /** A column is in the configurable list exactly when it is a column of the
      input that is not required. */
  lemma {:induction false} ConfigurableItemsMembership(list: seq<Item>, x: Item)
    ensures x in ConfigurableItems(list) <==> x in list && !x.required
  {
    if list != [] {
      ConfigurableItemsMembership(list[1..], x);
      assert list == [list[0]] + list[1..];
    }
  }

  /** The locked list keeps input order: the locked list of `a + b` is that of
      `a` followed by that of `b`. */
  lemma {:induction false} RequiredItemsConcat(a: seq<Item>, b: seq<Item>)
    ensures RequiredItems(a + b) == RequiredItems(a) + RequiredItems(b)
  {
    if a == [] {
      assert a + b == b;
    } else {
      assert (a + b)[0] == a[0];
      assert (a + b)[1..] == a[1..] + b;
      RequiredItemsConcat(a[1..], b);
    }
  }

  /** The configurable list keeps input order: the configurable list of
      `a + b` is that of `a` followed by that of `b`. */
  lemma {:induction false} ConfigurableItemsConcat(a: seq<Item>, b: seq<Item>)
    ensures ConfigurableItems(a + b) == ConfigurableItems(a) + ConfigurableItems(b)
  {
    if a == [] {
      assert a + b == b;
    } else {
      assert (a + b)[0] == a[0];
      assert (a + b)[1..] == a[1..] + b;
      ConfigurableItemsConcat(a[1..], b);
    }
  }

  /** Locked columns split into themselves and nothing: locking them again
      changes nothing. */
  lemma {:induction false} SplitLocked(r: seq<Item>)
    requires AllLocked(r)
    ensures RequiredItems(r) == r && ConfigurableItems(r) == []
  {
    if r != [] {
      assert Lock(r[0]) == r[0];
      SplitLocked(r[1..]);
      assert r == [r[0]] + r[1..];
    }
  }

  /** Configurable columns split into nothing and themselves. */
  lemma {:induction false} SplitConfigurable(c: seq<Item>)
    requires NoneRequired(c)
    ensures RequiredItems(c) == [] && ConfigurableItems(c) == c
  {
    if c != [] {
      SplitConfigurable(c[1..]);
      assert c == [c[0]] + c[1..];
    }
  }

  /** Splitting the merged list `r + c` that Apply emits gives back exactly `r`
      and `c`: when the owner feeds the applied columns back in, the popup shows
      the same two lists that were applied. */
  lemma MergeThenPartition(r: seq<Item>, c: seq<Item>)
    requires AllLocked(r)
    requires NoneRequired(c)
    ensures RequiredItems(r + c) == r
    ensures ConfigurableItems(r + c) == c
  {
    RequiredItemsConcat(r, c);
    ConfigurableItemsConcat(r, c);
    SplitLocked(r);
    SplitConfigurable(c);
  }

  /** Both helpers are idempotent. */
  lemma PartitionIdempotent(list: seq<Item>)
    ensures RequiredItems(RequiredItems(list)) == RequiredItems(list)
    ensures ConfigurableItems(ConfigurableItems(list)) == ConfigurableItems(list)
    ensures ConfigurableItems(RequiredItems(list)) == []
    ensures RequiredItems(ConfigurableItems(list)) == []
  {
    SplitLocked(RequiredItems(list));
    SplitConfigurable(ConfigurableItems(list));
  }

  // ---------------------------------------------------------------------------
  // Toggling one configurable column
  // ---------------------------------------------------------------------------

  /** The list after a click on position `i`: the column there has its
      selection flipped, every other column is kept. A position outside the
      list (a click on a column no longer shown) changes nothing. */
  function ToggleSelected(list: seq<Item>, i: int): (r: seq<Item>)
    ensures |r| == |list|
    ensures forall j | 0 <= j < |list| :: r[j] == if j == i then Flip(list[j]) else list[j]
  {
    if list == [] then []
    else [if i == 0 then Flip(list[0]) else list[0]] + ToggleSelected(list[1..], i - 1)
  }

  /** Clicking the same column twice restores the list. */
  lemma ToggleTwice(list: seq<Item>, i: int)
    ensures ToggleSelected(ToggleSelected(list, i), i) == list
  {
    var once := ToggleSelected(list, i);
    var twice := ToggleSelected(once, i);
    assert forall j | 0 <= j < |list| :: twice[j] == list[j];
  }

  /** A click changes only the selection: no column becomes or stops being
      required, and nothing else about any column changes. */
  lemma ToggleKeepsColumns(list: seq<Item>, i: int)
    ensures WithoutSelection(ToggleSelected(list, i)) == WithoutSelection(list)
    ensures NoneRequired(list) ==> NoneRequired(ToggleSelected(list, i))
  {
    var r := ToggleSelected(list, i);
    assert forall j | 0 <= j < |list| :: WithoutSelection(r)[j] == WithoutSelection(list)[j];
  }

  // ---------------------------------------------------------------------------
  // Columns apart from their selection
  // ---------------------------------------------------------------------------

  /** `list` with every selection erased. */
  function WithoutSelection(list: seq<Item>): (r: seq<Item>)
    ensures |r| == |list|
    ensures forall j | 0 <= j < |list| :: r[j] == Unselect(list[j])
  {
    if list == [] then [] else [Unselect(list[0])] + WithoutSelection(list[1..])
  }

  /** Erasing selections distributes over concatenation. */
  lemma WithoutSelectionConcat(a: seq<Item>, b: seq<Item>)
    ensures WithoutSelection(a + b) == WithoutSelection(a) + WithoutSelection(b)
  {
    assert forall j | 0 <= j < |a + b| ::
      WithoutSelection(a + b)[j] == (WithoutSelection(a) + WithoutSelection(b))[j];
  }

  /** Taking out the column at `k` takes one copy of it out of the multiset. */
  lemma RemoveAt(b: seq<Item>, k: nat)
    requires k < |b|
    ensures b == b[..k] + ([b[k]] + b[k + 1..])
    ensures multiset(b[..k] + b[k + 1..]) == multiset(b) - multiset{b[k]}
  {
    assert b == b[..k] + [b[k]] + b[k + 1..];
  }

  /** Multiset union is associative and commutative. */
  lemma MultisetSwap(p: multiset<Item>, q: multiset<Item>, u: multiset<Item>)
    ensures p + (q + u) == q + (p + u)
  {
  }

  /** Reordering columns reorders them apart from their selection too: a
      permutation of a list erases to a permutation of its erasure. */
  lemma {:induction false} PermutationWithoutSelection(a: seq<Item>, b: seq<Item>)
    requires multiset(a) == multiset(b)
    ensures multiset(WithoutSelection(a)) == multiset(WithoutSelection(b))
  {
    if a == [] {
      assert |b| == |multiset(b)| == 0;
    } else {
      var x := a[0];
      assert x in multiset(b);
      var k :| 0 <= k < |b| && b[k] == x;
      var left, right := b[..k], b[k + 1..];
      RemoveAt(b, k);
      RemoveAt(a, 0);
      assert a[..0] + a[1..] == a[1..];
      PermutationWithoutSelection(a[1..], left + right);
      assert a == [x] + a[1..];
      WithoutSelectionConcat(left, [x] + right);
      WithoutSelectionConcat([x], right);
      WithoutSelectionConcat(left, right);
      WithoutSelectionConcat([x], a[1..]);
      var ux := WithoutSelection([x]);
      var wl, wr := WithoutSelection(left), WithoutSelection(right);
      assert WithoutSelection(b) == wl + (ux + wr);
      assert WithoutSelection(a) == ux + WithoutSelection(a[1..]);
      assert multiset(ux + wr) == multiset(ux) + multiset(wr);
      assert multiset(wl + (ux + wr)) == multiset(wl) + multiset(ux + wr);
      var mb := multiset(wl) + (multiset(ux) + multiset(wr));
      assert multiset(WithoutSelection(b)) == mb;
      assert multiset(WithoutSelection(a)) == multiset(ux) + multiset(WithoutSelection(a[1..]));
      assert multiset(WithoutSelection(a)) == multiset(ux) + (multiset(wl) + multiset(wr));
      MultisetSwap(multiset(ux), multiset(wl), multiset(wr));
      assert multiset(WithoutSelection(a[1..])) == multiset(wl + wr) == multiset(wl) + multiset(wr);
    }
  }

  /** Two lists whose erasures are permutations of each other are equally
      long. */
  lemma SelectionFreeLength(a: seq<Item>, b: seq<Item>)
    requires multiset(WithoutSelection(a)) == multiset(WithoutSelection(b))
    ensures |a| == |b|
  {
    assert |multiset(WithoutSelection(a))| == |WithoutSelection(a)|;
    assert |multiset(WithoutSelection(b))| == |WithoutSelection(b)|;
  }

  // ---------------------------------------------------------------------------
  // Counting selected columns
  // ---------------------------------------------------------------------------

  /** The number of selected columns: the fold that adds one per selected
      column, starting from zero. */
  function CountSelected(list: seq<Item>): (r: nat)
    ensures r <= |list|
  {
    if list == [] then 0
    else (if list[0].selected then 1 else 0) + CountSelected(list[1..])
  }

  /** The count of a concatenation is the sum of the counts. */
  lemma {:induction false} CountConcat(a: seq<Item>, b: seq<Item>)
    ensures CountSelected(a + b) == CountSelected(a) + CountSelected(b)
  {
    if a == [] {
      assert a + b == b;
    } else {
      assert (a + b)[1..] == a[1..] + b;
      CountConcat(a[1..], b);
    }
  }

  /** The count reaches the length exactly when every column is selected. */
  lemma {:induction false} CountAllSelected(list: seq<Item>)
    ensures CountSelected(list) == |list| <==> forall j | 0 <= j < |list| :: list[j].selected
  {
    if list != [] {
      CountAllSelected(list[1..]);
      assert forall j | 1 <= j < |list| :: list[j] == list[1..][j - 1];
    }
  }

  /** The count is zero exactly when no column is selected. */
  lemma {:induction false} CountNoneSelected(list: seq<Item>)
    ensures CountSelected(list) == 0 <==> forall j | 0 <= j < |list| :: !list[j].selected
  {
    if list != [] {
      CountNoneSelected(list[1..]);
      assert forall j | 1 <= j < |list| :: list[j] == list[1..][j - 1];
    }
  }

  /** Splitting the columns splits the count: locking a column does not change
      whether it is selected. */
  lemma {:induction false} CountPartition(list: seq<Item>)
    ensures CountSelected(RequiredItems(list)) + CountSelected(ConfigurableItems(list))
            == CountSelected(list)
  {
    if list != [] {
      CountPartition(list[1..]);
    }
  }

  /** A click on a shown column moves the count by exactly one, down when the
      column was selected and up when it was not; a click elsewhere leaves it. */
  lemma {:induction false} CountToggle(list: seq<Item>, i: int)
    ensures CountSelected(ToggleSelected(list, i)) ==
            if 0 <= i < |list| then
              (if list[i].selected then CountSelected(list) - 1 else CountSelected(list) + 1)
            else CountSelected(list)
  {
    if list != [] {
      CountToggle(list[1..], i - 1);
      var r := ToggleSelected(list, i);
      assert r[1..] == ToggleSelected(list[1..], i - 1);
    }
  }

  // ---------------------------------------------------------------------------
  // List heights
  // ---------------------------------------------------------------------------

  /** Height of the configurable list: one row per column up to five rows,
      plus half a row. */
  function ListHeight(list: seq<Item>): (r: nat)
    ensures ListItemHeight / 2 <= r <= MaxVisibleRows * ListItemHeight + ListItemHeight / 2
    ensures |list| >= MaxVisibleRows ==> r == MaxVisibleRows * ListItemHeight + ListItemHeight / 2
    ensures |list| < MaxVisibleRows ==> r == |list| * ListItemHeight + ListItemHeight / 2
  {
    (if MaxVisibleRows < |list| then MaxVisibleRows else |list|) * ListItemHeight + ListItemHeight / 2
  }

  /** Height of the locked list: exactly one row per required column. */
  function RequiredListHeight(list: seq<Item>): (r: nat)
    ensures r % ListItemHeight == 0 && r / ListItemHeight == |list|
  {
    |list| * ListItemHeight
  }

  /** A longer configurable list is never shorter on screen. */
  lemma ListHeightMonotone(a: seq<Item>, b: seq<Item>)
    requires |a| <= |b|
    ensures ListHeight(a) <= ListHeight(b)
  {
  }

  /** The configurable list is half a row taller than the locked list would be
      for the same columns exactly when it has at most five of them; beyond
      that it is shorter and scrolls. */
  lemma ListHeightAgainstRequired(list: seq<Item>)
    ensures ListHeight(list) <= RequiredListHeight(list) + ListItemHeight / 2
    ensures ListHeight(list) == RequiredListHeight(list) + ListItemHeight / 2 <==> |list| <= MaxVisibleRows
  {
  }
}
