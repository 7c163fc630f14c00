/**
 * The periodic-table search filter of the GUI
 * (gui/src/components/search/input/InputPeriodicTable.js): the element grid,
 * set equality, the filter toggling on a click, the element buttons' own
 * selection, and the sync between the filter and the table's local copy.
 */
module PeriodicTable {
  import opened Wrappers
  import opened Strings

  // ---------------------------------------------------------------------------
  // JavaScript Set objects, which the component mutates in place

  /** A mutable Set of element symbols. */
  class JsSet {
    var elems: set<string>

    /** `new Set(init)`. */
    constructor (init: set<string>)
      ensures elems == init
    {
      elems := init;
    }

    method Add(x: string)
      modifies this
      ensures elems == old(elems) + {x}
    {
      elems := elems + {x};
    }

    method Delete(x: string)
      modifies this
      ensures elems == old(elems) - {x}
    {
      elems := elems - {x};
    }
  }

  /**
   * eqSet(as, bs): false when either is nil, else the sizes agree and every
   * member of as is in bs. That is exactly equality of two present sets.
   */
  function EqSet(xs: JsSet?, ys: JsSet?): (r: bool)
    reads xs, ys
    ensures r <==> xs != null && ys != null && xs.elems == ys.elems
  {
    if xs == null || ys == null then false
    else if |xs.elems| != |ys.elems| then false
    else
      var all := forall a | a in xs.elems :: a in ys.elems;
      SubsetOfSameSize(xs.elems, ys.elems);
      all
  }

  /** A subset of the same size is the whole set. */
  lemma SubsetOfSameSize(a: set<string>, b: set<string>)
    requires |a| == |b|
    ensures (forall x | x in a :: x in b) <==> a == b
  {
    if forall x | x in a :: x in b {
      var d := b - a;
      assert b == a + d && a * d == {};
      assert |d| == 0;
      assert a == b;
    }
  }

  /** A membership flip: x leaves s when in it and joins it otherwise. */
  function Toggle(s: set<string>, x: string): (r: set<string>)
    ensures x in r <==> x !in s
    ensures forall y | y != x :: y in r <==> y in s
  {
    if x in s then s - {x} else s + {x}
  }

  /** Flipping the same element twice gives the set back. */
  lemma ToggleTwice(s: set<string>, x: string)
    ensures Toggle(Toggle(s, x), x) == s
  {
  }

  /**
   * onElementClicked's state update, given the old filter value: a present
   * old set has element's membership flipped in place and a copy of it is the
   * new value; a nil old value gives `{element}`.
   */
  method OnElementClicked(prev: JsSet?, element: string) returns (r: JsSet)
    modifies prev
    ensures fresh(r)
    ensures prev == null ==> r.elems == {element}
    ensures prev != null ==> prev.elems == Toggle(old(prev.elems), element) && r.elems == prev.elems
  {
    if prev != null {
      var isSelected := element in prev.elems;
      if isSelected {
        prev.Delete(element);
      } else {
        prev.Add(element);
      }
      r := new JsSet(prev.elems);
    } else {
      r := new JsSet({element});
    }
  }

  // ---------------------------------------------------------------------------
  // The element buttons

  /** The button of one element: its symbol, the disabled prop, and its own selected state. */
  class ElementButton {
    const symbol: string
    const disabled: bool
    var selectedInternal: bool

    constructor (symbol: string, selected: bool, disabled: bool)
      ensures this.symbol == symbol && this.disabled == disabled && selectedInternal == selected
    {
      this.symbol := symbol;
      this.disabled := disabled;
      selectedInternal := selected;
    }

    /** The button is disabled as the prop says, except that a selected element never is. */
    function DisabledInternal(): (r: bool)
      reads this
      ensures selectedInternal ==> !r
      ensures !selectedInternal ==> r == disabled
    {
      if selectedInternal then false else disabled
    }

    /** The effect that takes over a changed selected prop. */
    method SelectedChanged(selected: bool)
      modifies this
      ensures selectedInternal == selected
    {
      selectedInternal := selected;
    }

    /**
     * handleClick's state update: the button's selection flips, and the symbol
     * is added to the table's local filter when it became selected and
     * deleted otherwise.
     */
    method HandleClick(localFilter: JsSet)
      modifies this, localFilter
      ensures selectedInternal == !old(selectedInternal)
      ensures localFilter.elems == if selectedInternal then old(localFilter.elems) + {symbol} else old(localFilter.elems) - {symbol}
    {
      var newValue := !selectedInternal;
      if newValue {
        localFilter.Add(symbol);
      } else {
        localFilter.Delete(symbol);
      }
      selectedInternal := newValue;
    }
  }

  /** The disabled prop of an element: no (or a zero) count in the aggregation. */
  function ElementDisabled(availableValues: map<string, int>, symbol: string): (r: bool)
    ensures !r <==> symbol in availableValues && availableValues[symbol] != 0
  {
    !(symbol in availableValues && availableValues[symbol] != 0)
  }

  /**
   * A button as the table builds it, with `selected` from the local copy and
   * `disabled` from the aggregation, can be clicked exactly when its element is
   * selected or the aggregation counts it; in particular an element without a
   * count is still clickable while it is selected, and only then.
   */
  lemma ClickableElement(button: ElementButton, availableValues: map<string, int>, localFilter: set<string>)
    requires button.disabled == ElementDisabled(availableValues, button.symbol)
    requires button.selectedInternal == (button.symbol in localFilter)
    ensures !button.DisabledInternal() <==>
      button.symbol in localFilter || (button.symbol in availableValues && availableValues[button.symbol] != 0)
    ensures (button.symbol !in availableValues || availableValues[button.symbol] == 0) ==>
      (button.DisabledInternal() <==> button.symbol !in localFilter)
  {
  }

  // ---------------------------------------------------------------------------
  // The table and its local copy of the filter

  /** The filter and the local copy say the same; a nil filter matches an empty copy. */
  ghost predicate Agrees(filter: JsSet?, localFilter: JsSet)
    reads filter, localFilter
  {
    if filter == null then localFilter.elems == {} else filter.elems == localFilter.elems
  }

  /** The table's state: the local copy of the filter and the re-render counter. */
  class Table {
    var localFilter: JsSet
    var update: int

    constructor ()
      ensures fresh(localFilter) && localFilter.elems == {} && update == 0
    {
      localFilter := new JsSet({});
      update := 0;
    }

    /**
     * The sync effect: when eqSet says the filter and the local copy differ,
     * the copy is replaced by a new Set of the filter (empty for nil) and the
     * counter goes up; otherwise nothing changes. Either way they agree after.
     */
    method SyncFilter(filter: JsSet?)
      modifies this
      ensures old(EqSet(filter, localFilter)) ==> localFilter == old(localFilter) && update == old(update)
      ensures !old(EqSet(filter, localFilter)) ==>
        && fresh(localFilter) && update == old(update) + 1
        && localFilter.elems == (if filter == null then {} else filter.elems)
      ensures Agrees(filter, localFilter)
      ensures old(localFilter) != filter ==> localFilter != filter
    {
      if !EqSet(filter, localFilter) {
        localFilter := new JsSet(if filter == null then {} else filter.elems);
        update := update + 1;
      }
    }

    /**
     * A click on a button whose selection mirrors the local copy: the button
     * updates the local copy, and onClick replaces the filter through
     * onElementClicked. Filter and copy still agree, so the following sync
     * re-renders nothing.
     */
    method Click(button: ElementButton, filter: JsSet?) returns (newFilter: JsSet)
      requires button.selectedInternal == (button.symbol in localFilter.elems)
      requires Agrees(filter, localFilter) && filter != localFilter
      modifies button, localFilter, filter
      ensures localFilter == old(localFilter)
      ensures button.selectedInternal == (button.symbol in localFilter.elems)
      ensures Agrees(newFilter, localFilter) && EqSet(newFilter, localFilter)
    {
      button.HandleClick(localFilter);
      newFilter := OnElementClicked(filter, button.symbol);
    }
  }

  // ---------------------------------------------------------------------------
  // The element grid

  /** One entry of the element data: symbol, name, number, grid position and category. */
  datatype ElementData = ElementData(symbol: string, name: string, number: nat, xpos: int, ypos: int, category: string)

  /** The element lies in the 10 x 18 grid. */
  predicate InGrid(e: ElementData) {
    1 <= e.ypos <= 10 && 1 <= e.xpos <= 18
  }

  /** The index of the first c in s, if any. */
  function IndexOf(s: string, c: char): (r: Option<nat>)
    ensures r.Some? ==> r.value < |s| && s[r.value] == c && NoChar(s[..r.value], c)
    ensures r.None? ==> NoChar(s, c)
    decreases |s|
  {
    if s == [] then None
    else if s[0] == c then Some(0)
    else
      var k := IndexOf(s[1..], c);
      assert k.Some? ==> s[..k.value + 1] == [s[0]] + s[1..][..k.value];
      if k.Some? then Some(k.value + 1) else None
  }

  /** s.replace(c, ''), with a string pattern: only the first c is removed. */
  function RemoveFirst(s: string, c: char): (r: string)
    ensures IndexOf(s, c).None? ==> r == s
    ensures IndexOf(s, c).Some? ==> var k := IndexOf(s, c).value; r == s[..k] + s[k + 1..]
    decreases |s|
  {
    if s == [] then s
    else if s[0] == c then s[1..]
    else
      var rest := RemoveFirst(s[1..], c);
      RemoveFirstStep(s, c, IndexOf(s[1..], c), rest);
      [s[0]] + rest
  }

  /** One step of RemoveFirst past a character that is not c. */
  lemma RemoveFirstStep(s: string, c: char, k: Option<nat>, rest: string)
    requires s != [] && s[0] != c && k == IndexOf(s[1..], c)
    requires k.None? ==> rest == s[1..]
    requires k.Some? ==> k.value < |s| - 1 && rest == s[1..][..k.value] + s[1..][k.value + 1..]
    ensures IndexOf(s, c).None? ==> [s[0]] + rest == s
    ensures IndexOf(s, c).Some? ==> var j := IndexOf(s, c).value; [s[0]] + rest == s[..j] + s[j + 1..]
  {
    if k.Some? {
      assert IndexOf(s, c) == Some(k.value + 1);
      ConsSplit(s, k.value);
    } else {
      assert [s[0]] + s[1..] == s;
    }
  }

  lemma ConsSplit(s: string, k: nat)
    requires k + 1 < |s|
    ensures [s[0]] + (s[1..][..k] + s[1..][k + 1..]) == s[..k + 1] + s[k + 2..]
  {
    assert s[1..][..k] == s[1..k + 1];
    assert s[1..][k + 1..] == s[k + 2..];
    assert s[..k + 1] == [s[0]] + s[1..k + 1];
  }

  /** The element as placed in the grid: its category without its first space. */
  function Cleaned(e: ElementData): ElementData {
    e.(category := RemoveFirst(e.category, ' '))
  }

  /** What the grid holds at row i, column j after placing data: the last element there, cleaned. */
  function LastAt(data: seq<ElementData>, i: int, j: int): (r: Option<ElementData>)
    ensures r.Some? ==> r.value.ypos == i + 1 && r.value.xpos == j + 1
    decreases |data|
  {
    if data == [] then None
    else
      var e := data[|data| - 1];
      if e.ypos - 1 == i && e.xpos - 1 == j then Some(Cleaned(e))
      else LastAt(data[..|data| - 1], i, j)
  }

  /**
   * The grid: a 10 x 18 table of empty cells, then each element written at
   * (ypos - 1, xpos - 1) with its category cleaned, later ones overwriting.
   */
  method BuildGrid(data: seq<ElementData>) returns (grid: array2<Option<ElementData>>)
    requires forall k | 0 <= k < |data| :: InGrid(data[k])
    ensures fresh(grid) && grid.Length0 == 10 && grid.Length1 == 18
    ensures forall i, j | 0 <= i < 10 && 0 <= j < 18 :: grid[i, j] == LastAt(data, i, j)
  {
    grid := new Option<ElementData>[10, 18]((i, j) => None);
    var k := 0;
    while k < |data|
      invariant 0 <= k <= |data|
      invariant forall i, j | 0 <= i < 10 && 0 <= j < 18 :: grid[i, j] == LastAt(data[..k], i, j)
    {
      var e := data[k];
      assert data[..k + 1][..k] == data[..k];
      grid[e.ypos - 1, e.xpos - 1] := Some(Cleaned(e));
      k := k + 1;
    }
    assert data[..k] == data;
  }

  /** With no two elements at one position, every element sits at its own position. */
  lemma {:induction false} PlacedAtPosition(data: seq<ElementData>, k: nat)
    requires k < |data|
    requires forall a, b | 0 <= a < b < |data| :: (data[a].xpos, data[a].ypos) != (data[b].xpos, data[b].ypos)
    ensures LastAt(data, data[k].ypos - 1, data[k].xpos - 1) == Some(Cleaned(data[k]))
    decreases |data|
  {
    if k < |data| - 1 {
      PlacedAtPosition(data[..|data| - 1], k);
    }
  }

  /** A cell no element names stays empty. */
  lemma {:induction false} EmptyCell(data: seq<ElementData>, i: int, j: int)
    requires forall k | 0 <= k < |data| :: data[k].ypos != i + 1 || data[k].xpos != j + 1
    ensures LastAt(data, i, j) == None
    decreases |data|
  {
    if data != [] {
      EmptyCell(data[..|data| - 1], i, j);
    }
  }
}
