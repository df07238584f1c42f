/** The value of a matrix of buttons: the state of every cell in order, the array keys of the
    cells, the number of columns, and the recorded selection. What clicking and displaying do to
    it, and which cell is then on. */
module Grids {
  import opened Php

  const ON := 1
  const OFF := 0
  const MIXED := -1

  /** `setNextState`: off and on in turn; a mixed state comes after on where it is allowed. */
  function NextState(state: int, allowsMixedState: bool): int
  {
    if state < OFF then OFF
    else if state == OFF then ON
    else if allowsMixedState then MIXED
    else OFF
  }

  datatype Grid = Grid(
    states: seq<int>, keys: seq<nat>, columns: int, radioMode: bool, row: int, column: int)

  /** Every cell has one key. */
  ghost predicate Keyed(g: Grid) {
    && g.columns > 0 && |g.keys| == |g.states|
    && forall i, j :: 0 <= i < j < |g.keys| ==> g.keys[i] != g.keys[j]
  }

  /** Nothing was ever removed: keys are positions. */
  ghost predicate Dense(keys: seq<nat>) {
    forall i :: 0 <= i < |keys| ==> keys[i] == i
  }

  // ----- coordinates -----

  /** `numberOfRows` is a real division, (n + columns - 1) / columns without rounding: the row is
      compared with it multiplied out. */
  predicate InRows(row: int, n: nat, columns: int)
  {
    0 <= row && row * columns < n + columns - 1
  }

  /** The array key that `cellAtRowColumn` reads, if it reads any. */
  function KeyAt(row: int, column: int, n: nat, columns: int): (key: Option<nat>)
    requires columns > 0
    ensures key.Some? ==> key.value == row * columns + column
  {
    if InRows(row, n, columns) && 0 <= column < columns then
      assert row * columns >= 0;
      Some(row * columns + column)
    else None
  }

  function RowOf(i: nat, columns: int): int
    requires columns > 0
  {
    i / columns
  }

  function ColumnOf(i: nat, columns: int): int
    requires columns > 0
  {
    i % columns
  }

  /** The key read at the coordinates of a cell is the index of the cell. */
  lemma KeyOfIndex(i: nat, n: nat, columns: int)
    requires columns > 0 && i < n
    ensures KeyAt(RowOf(i, columns), ColumnOf(i, columns), n, columns) == Some(i)
    ensures RowOf(i, columns) * columns + ColumnOf(i, columns) == i && 0 <= ColumnOf(i, columns) < columns
  {
    assert i / columns * columns + i % columns == i;
  }

  /** Coordinates that read an existing cell are the coordinates of that cell. The fraction that
      the real division leaves lets a row beyond the last one through, which holds no cell. */
  lemma IndexOfKey(row: int, column: int, n: nat, columns: int)
    requires columns > 0
    ensures KeyAt(row, column, n, columns).Some? && KeyAt(row, column, n, columns).value < n
        <==> 0 <= row && 0 <= column < columns && row * columns + column < n
    ensures var key := KeyAt(row, column, n, columns);
        key.Some? ==> RowOf(key.value, columns) == row && ColumnOf(key.value, columns) == column
  {
    if 0 <= column < columns {
      Divide(row, columns, column);
    }
  }

  /** The cell that `selectedCell` reads: the one whose key the recorded selection stands for. */
  function Selected(g: Grid): (i: Option<nat>)
    requires g.columns > 0
    ensures i.Some? ==> i.value < |g.states| && i.value < |g.keys|
    ensures i.Some? ==> KeyAt(g.row, g.column, |g.states|, g.columns) == Some(g.keys[i.value])
  {
    match KeyAt(g.row, g.column, |g.states|, g.columns)
    case None => None
    case Some(k) =>
      match PositionOf(g.keys, k)
      case Some(i) => if i < |g.states| then Some(i) else None
      case None => None
  }

  /** The cell at the recorded selection, counting positions. */
  function Place(g: Grid): (i: Option<nat>)
    requires g.columns > 0
    ensures i.Some? ==> i.value < |g.states|
  {
    match KeyAt(g.row, g.column, |g.states|, g.columns)
    case Some(k) => if k < |g.states| then Some(k) else None
    case None => None
  }

  lemma PositionIs(keys: seq<nat>, i: nat)
    requires i < |keys| && forall j, k :: 0 <= j < k < |keys| ==> keys[j] != keys[k]
    ensures PositionOf(keys, keys[i]) == Some(i)
  {
    var p := PositionOf(keys, keys[i]);
    assert keys[i] in keys;
    assert p.Some? && keys[p.value] == keys[i];
  }

  /** While nothing was removed, keys and positions select the same cell. */
  lemma DenseSelects(g: Grid)
    requires Keyed(g) && Dense(g.keys)
    ensures Selected(g) == Place(g)
  {
    match KeyAt(g.row, g.column, |g.states|, g.columns) {
      case Some(k) =>
        if k < |g.keys| {
          PositionIs(g.keys, k);
        }
      case None =>
    }
  }

  // ----- what the methods do -----

  /** `setSelected` of the selected cell, if there is one. */
  function Marked(g: Grid, state: int): (h: Grid)
    requires g.columns > 0
    ensures |h.states| == |g.states| && h.keys == g.keys
  {
    match Selected(g)
    case Some(i) => g.(states := g.states[i := state])
    case None => g
  }

  /** `selectRowColumn` */
  function SelectRowColumn(g: Grid, row: int, column: int): (h: Grid)
    requires g.columns > 0
    ensures h == g.(states := h.states, row := row, column := column) && |h.states| == |g.states|
  {
    if g.radioMode then Marked(Marked(g, OFF).(row := row, column := column), ON)
    else g.(row := row, column := column)
  }

  /** Clicking cell `i`: its new state, then the selection moves to its place. */
  function Clicked(g: Grid, i: nat, toggled: int): (h: Grid)
    requires g.columns > 0 && i < |g.states|
    ensures h == g.(states := h.states, row := RowOf(i, g.columns), column := ColumnOf(i, g.columns))
    ensures |h.states| == |g.states|
  {
    SelectRowColumn(g.(states := g.states[i := toggled]), RowOf(i, g.columns), ColumnOf(i, g.columns))
  }

  /** What `display` makes of the states: in radio mode they are derived again. */
  function Displayed(g: Grid): (h: Grid)
    requires g.columns > 0
    ensures h == g.(states := h.states) && |h.states| == |g.states|
  {
    if g.radioMode then g.(states := DisplayedFrom(g, 0, 0, |g.states|)) else g
  }

  /** The states of the last `left` cells, with the row and column counters of the loop. */
  function DisplayedFrom(g: Grid, row: int, column: int, left: nat): (s: seq<int>)
    requires g.columns > 0
    ensures |s| == left
    decreases left
  {
    if left == 0 then []
    else [if row == g.row && column == g.column then ON else OFF] +
         (if column + 1 >= g.columns then DisplayedFrom(g, row + 1, 0, left - 1)
          else DisplayedFrom(g, row, column + 1, left - 1))
  }

  // ----- radio exclusivity -----

  /** Exactly the given cell, or none, is on, and all others are off. */
  predicate OnlyOn(states: seq<int>, i: Option<nat>) {
    forall j :: 0 <= j < |states| ==> states[j] == if i == Some(j) then ON else OFF
  }

  /** No cell but these two is anything but off. */
  predicate OffBut(states: seq<int>, i: Option<nat>, j: Option<nat>) {
    forall k :: 0 <= k < |states| && i != Some(k) && j != Some(k) ==> states[k] == OFF
  }

  lemma PlaceAfterClick(g: Grid, i: nat, toggled: int)
    requires g.columns > 0 && i < |g.states|
    ensures Place(Clicked(g, i, toggled)) == Some(i)
  {
    KeyOfIndex(i, |g.states|, g.columns);
  }

  /** The states after a click on cell `i`: first its new state, then the selected cell off, then
      the cell on whose key is the place of `i`. */
  lemma ClickedStates(g: Grid, i: nat, toggled: int)
    requires Keyed(g) && i < |g.states|
    ensures var s := Clicked(g, i, toggled).states;
        forall k :: 0 <= k < |s| ==>
          s[k] == (if g.radioMode && g.keys[k] == i then ON
                   else if g.radioMode && Selected(g) == Some(k) then OFF
                   else if k == i then toggled
                   else g.states[k])
  {
    var before := g.(states := g.states[i := toggled]);
    assert Selected(before) == Selected(g);
    if g.radioMode {
      var off := Marked(before, OFF);
      var moved := off.(row := RowOf(i, g.columns), column := ColumnOf(i, g.columns));
      KeyOfIndex(i, |g.states|, g.columns);
      var p := PositionOf(g.keys, i);
      assert Selected(moved) == p;
      forall k | 0 <= k < |g.keys|
        ensures p == Some(k) <==> g.keys[k] == i
      {
        if g.keys[k] == i {
          PositionIs(g.keys, k);
        }
      }
    }
  }

  /** Clicking a cell of a radio matrix leaves exactly that cell on if and only if every cell but
      it and the selected one was off and the matrix finds the cell again: its key is its place.
      Where no cell has that key, it is enough that the click itself turned the cell on. */
  lemma ClickSelectsOnly(g: Grid, i: nat, toggled: int)
    requires Keyed(g) && g.radioMode && i < |g.states|
    ensures OnlyOn(Clicked(g, i, toggled).states, Some(i)) <==>
        && OffBut(g.states, Some(i), Selected(g))
        && (g.keys[i] == i || (i !in g.keys && toggled == ON && Selected(g) != Some(i)))
  {
    ClickedStates(g, i, toggled);
    var s := Clicked(g, i, toggled).states;
    if i in g.keys && g.keys[i] != i {
      var k :| 0 <= k < |g.keys| && g.keys[k] == i;
      assert s[k] == ON && k != i;
    }
    if OffBut(g.states, Some(i), Selected(g)) {
      assert forall k :: 0 <= k < |s| && k != i && g.keys[k] != i ==> s[k] == OFF;
    }
    if OnlyOn(s, Some(i)) {
      assert forall k :: 0 <= k < |s| && k != i ==> s[k] == OFF;
    }
  }

  /** The counters of the display loop stand at the coordinates of each cell. */
  lemma {:induction false} DisplayedAt(g: Grid, i: nat, left: nat, j: nat)
    requires g.columns > 0 && j < left
    ensures var s := DisplayedFrom(g, RowOf(i, g.columns), ColumnOf(i, g.columns), left);
        s[j] == if RowOf(i + j, g.columns) == g.row && ColumnOf(i + j, g.columns) == g.column then ON else OFF
    decreases j
  {
    if j > 0 {
      NextCounters(i, g.columns);
      DisplayedAt(g, i + 1, left - 1, j - 1);
    }
  }

  lemma NextCounters(i: nat, columns: int)
    requires columns > 0
    ensures ColumnOf(i, columns) + 1 >= columns
        ==> RowOf(i + 1, columns) == RowOf(i, columns) + 1 && ColumnOf(i + 1, columns) == 0
    ensures ColumnOf(i, columns) + 1 < columns
        ==> RowOf(i + 1, columns) == RowOf(i, columns) && ColumnOf(i + 1, columns) == ColumnOf(i, columns) + 1
  {
    var q, r := i / columns, i % columns;
    assert q * columns + r == i;
    if r + 1 >= columns {
      assert (q + 1) * columns + 0 == i + 1;
      Divide(q + 1, columns, 0);
    } else {
      Divide(q, columns, r + 1);
    }
  }

  /** From any states at all, displaying a radio matrix leaves exactly the cell on whose place is
      the recorded selection. */
  lemma DisplaySelectsOnly(g: Grid)
    requires g.columns > 0 && g.radioMode
    ensures OnlyOn(Displayed(g).states, Place(g))
    ensures Place(Displayed(g)) == Place(g)
  {
    forall j | 0 <= j < |g.states|
      ensures Displayed(g).states[j] == if Place(g) == Some(j) then ON else OFF
    {
      FirstCounters(g.columns);
      DisplayedAt(g, 0, |g.states|, j);
      KeyOfIndex(j, |g.states|, g.columns);
      IndexOfKey(g.row, g.column, |g.states|, g.columns);
    }
  }

  /** Displaying changes nothing where exactly the recorded selection is on. */
  lemma DisplaySettled(g: Grid)
    requires g.columns > 0 && g.radioMode && OnlyOn(g.states, Place(g))
    ensures Displayed(g) == g
  {
    DisplaySelectsOnly(g);
    assert Displayed(g).states == g.states;
  }

  lemma FirstCounters(columns: int)
    requires columns > 0
    ensures RowOf(0, columns) == 0 && ColumnOf(0, columns) == 0
  {
    Divide(0, columns, 0);
  }

  /** Clicking and displaying agree: the display changes nothing a click left if and only if the
      click left exactly its cell on. */
  lemma DisplayKeepsClick(g: Grid, i: nat, toggled: int)
    requires g.columns > 0 && g.radioMode && i < |g.states|
    ensures Displayed(Clicked(g, i, toggled)) == Clicked(g, i, toggled)
        <==> OnlyOn(Clicked(g, i, toggled).states, Some(i))
  {
    var h := Clicked(g, i, toggled);
    DisplaySelectsOnly(h);
    PlaceAfterClick(g, i, toggled);
    if OnlyOn(h.states, Some(i)) {
      assert Displayed(h).states == h.states;
    }
  }

  /** One click on a radio matrix in which exactly the selected cell is on, and which keeps all
      its cells or is displayed afterwards, leaves exactly the clicked cell on. */
  lemma ClickMovesOn(g: Grid, i: nat, toggled: int, displayed: bool)
    requires Keyed(g) && g.radioMode && i < |g.states| && OnlyOn(g.states, Place(g))
    requires Dense(g.keys) || displayed
    ensures var h := if displayed then Displayed(Clicked(g, i, toggled)) else Clicked(g, i, toggled);
        OnlyOn(h.states, Some(i)) && Place(h) == Some(i)
  {
    PlaceAfterClick(g, i, toggled);
    if displayed {
      DisplaySelectsOnly(Clicked(g, i, toggled));
    } else {
      DenseSelects(g);
      ClickSelectsOnly(g, i, toggled);
    }
  }

  // ----- cells by position and by key -----

  /** `cellAtRowColumn` reads by key, `getRowColumnOfCell` counts positions. They undo each other
      for a cell exactly if its key is its position, as it is while nothing was ever removed. */
  lemma CellAtItsCoordinates<T>(a: PhpArray<T>, i: nat, columns: int)
    requires a.Valid() && i < |a.vals| && columns > 0
    requires forall j, k :: 0 <= j < k < |a.vals| ==> a.vals[j] != a.vals[k]
    ensures var key := KeyAt(RowOf(i, columns), ColumnOf(i, columns), |a.vals|, columns);
        key.Some? && (Get(a, key.value) == Some(a.vals[i]) <==> a.keys[i] == i)
    ensures a.Dense() ==> a.keys[i] == i
  {
    KeyOfIndex(i, |a.vals|, columns);
    GetAt(a, i, i);
    if a.Dense() {
      DenseKeysUpTo(a, i);
    }
  }

  lemma GetAt<T>(a: PhpArray<T>, key: nat, i: nat)
    requires a.Valid() && i < |a.vals|
    requires forall j, k :: 0 <= j < k < |a.vals| ==> a.vals[j] != a.vals[k]
    ensures Get(a, key) == Some(a.vals[i]) <==> a.keys[i] == key
  {
    var p := PositionOf(a.keys, key);
    if p.Some? {
      var k := p.value;
      assert a.keys[k] == key;
      assert k != i ==> a.keys[k] != a.keys[i] && a.vals[k] != a.vals[i];
    }
  }
}
