/** What clicks and displays do to the value of a matrix, wherever it stands in the window, and
    what a click on a button does to all the other buttons. */
module Matrices {
  import opened Php
  import opened Persistence
  import opened Pages
  import opened PageLaws
  import opened Retouch
  import opened Dispatch
  import opened Surgery
  import opened Hierarchy
  import opened Links
  import opened Actions
  import Grids

  /** A matrix whose cells are buttons. */
  ghost predicate Group<V>(f: Forest<V>, m: V) {
    IsMatrix(f, m) && forall c :: c in SubsOf(f, m) ==> c in Views(f) && WidgetOf(f, c).kind.Button?
  }

  /** The grid of a matrix read from the widgets of another forest of the same shape. */
  lemma GridFrom<V>(f: Forest<V>, g: Forest<V>, keys: Keys<V>, m: V)
    requires Retouched(f, g) && m in Views(f)
    ensures m in Views(g) && SubsOf(g, m) == SubsOf(f, m) && (Group(f, m) ==> Group(g, m))
    ensures var a, b := GridOf(f, keys, m), GridOf(g, keys, m);
        && b.keys == a.keys && b.columns == a.columns && b.radioMode == a.radioMode && |b.states| == |a.states|
        && b.row == Number(WidgetOf(g, m), "selectedRow") && b.column == Number(WidgetOf(g, m), "selectedColumn")
        && forall i :: 0 <= i < |b.states| ==>
             SubsOf(f, m)[i] in Views(g) && b.states[i] == State(WidgetOf(g, SubsOf(f, m)[i]))
  {
    hide Retouched, Views, WidgetOf, SubsOf, TreeOf;
    RoleAt(f, g, m);
    SubsAreViews(f, m);
    forall c | c in SubsOf(f, m) ensures c in Views(g) && WidgetOf(g, c).kind.Button? == WidgetOf(f, c).kind.Button? {
      RoleAt(f, g, c);
    }
  }

  lemma CellsDistinct<V>(f: Forest<V>, m: V)
    requires Distinct(f) && m in Views(f)
    ensures m !in SubsOf(f, m)
    ensures forall i, j :: 0 <= i < j < |SubsOf(f, m)| ==> SubsOf(f, m)[i] != SubsOf(f, m)[j]
    ensures forall c :: c in SubsOf(f, m) ==> c in Views(f)
  {
    ChildrenAreBelow(f, m);
    SubsAreViews(f, m);
    TopsDistinct(TreeOf(f, m).subs);
  }

  /** Another widget for one view changes the grid of a matrix in that cell, or in its selection,
      or not at all. */
  lemma GridPut<V>(f: Forest<V>, keys: Keys<V>, m: V, x: V, u: Widget)
    requires Distinct(f) && m in Views(f) && x in Views(f) && Touched(WidgetOf(f, x), u)
    ensures var a, b, cells := GridOf(f, keys, m), GridOf(Put(f, x, u), keys, m), SubsOf(f, m);
        b == if x == m then a.(row := Number(u, "selectedRow"), column := Number(u, "selectedColumn"))
             else if x in cells then a.(states := a.states[IndexOf(cells, x) := State(u)])
             else a
  {
    var g := Put(f, x, u);
    PutRetouches(f, x, u);
    GridFrom(f, f, keys, m) by { Same(f); }
    GridFrom(f, g, keys, m);
    CellsDistinct(f, m);
    PutAt(f, x, u, m);
    var a, b, cells := GridOf(f, keys, m), GridOf(g, keys, m), SubsOf(f, m);
    forall i | 0 <= i < |cells|
      ensures b.states[i] == if x == cells[i] then State(u) else a.states[i]
    {
      PutAt(f, x, u, cells[i]);
    }
    if x != m && x in cells {
      assert b.states == a.states[IndexOf(cells, x) := State(u)];
    } else {
      assert b.states == a.states;
    }
  }

  lemma WithSelectedState(w: Widget, flag: bool)
    ensures Touched(w, WithSelected(w, flag))
    ensures w.kind.Button? || w.kind.PopUp? ==>
        State(WithSelected(w, flag)) == if flag then Grids.ON else Grids.OFF
  {
  }

  lemma MarkGrid<V>(f: Forest<V>, keys: Keys<V>, m: V, flag: bool)
    requires Distinct(f) && Group(f, m)
    ensures GridOf(MarkSelected(f, keys, m, flag), keys, m)
        == Grids.Marked(GridOf(f, keys, m), if flag then Grids.ON else Grids.OFF)
  {
    match SelectedCell(f, keys, m) {
      case Some(c) =>
        CellsDistinct(f, m);
        WithSelectedState(WidgetOf(f, c), flag);
        GridPut(f, keys, m, c, WithSelected(WidgetOf(f, c), flag));
      case None =>
    }
  }

  lemma PlacedGrid<V>(f: Forest<V>, keys: Keys<V>, m: V, row: int, column: int)
    requires Distinct(f) && m in Views(f)
    ensures GridOf(Placed(f, m, row, column), keys, m) == GridOf(f, keys, m).(row := row, column := column)
  {
    GridPut(f, keys, m, m, PlacedWidget(WidgetOf(f, m), row, column));
  }

  /** `selectRowColumn` does to a group of buttons what its value says. */
  lemma SelectGrid<V>(f: Forest<V>, keys: Keys<V>, m: V, row: int, column: int)
    requires Distinct(f) && Group(f, m)
    ensures GridOf(SelectAt(f, keys, m, row, column), keys, m)
        == Grids.SelectRowColumn(GridOf(f, keys, m), row, column)
  {
    hide GridOf, MarkSelected, Placed, Group, Retouched;
    MarkGrid(f, keys, m, false);
    MarkRetouches(f, keys, m, false);
    var g := MarkSelected(f, keys, m, false);
    GridFrom(f, g, keys, m);
    PlacedGrid(f, keys, m, row, column);
    PlacedGrid(g, keys, m, row, column);
    PlacedRetouches(g, m, row, column);
    var h := Placed(g, m, row, column);
    GridFrom(g, h, keys, m);
    MarkGrid(h, keys, m, true);
  }

  lemma CellGrid<V>(f: Forest<V>, keys: Keys<V>, m: V, cell: V)
    requires Distinct(f) && Group(f, m) && cell in SubsOf(f, m)
    ensures var g, i := GridOf(f, keys, m), IndexOf(SubsOf(f, m), cell);
        GridOf(ClickCell(f, keys, m, cell), keys, m)
        == Grids.SelectRowColumn(g, Grids.RowOf(i, g.columns), Grids.ColumnOf(i, g.columns))
  {
    hide SelectAt, Retouched;
    var i, columns := IndexOf(SubsOf(f, m), cell), GridOf(f, keys, m).columns;
    var row, column := Grids.RowOf(i, columns), Grids.ColumnOf(i, columns);
    var u := RecordedWidget(WidgetOf(f, m), row, column);
    GridPut(f, keys, m, m, u);
    PutRetouches(f, m, u);
    Distinctness(f, Put(f, m, u));
    GridFrom(f, Put(f, m, u), keys, m);
    SelectGrid(Put(f, m, u), keys, m, row, column);
  }

  lemma MarkLeaves<V>(f: Forest<V>, keys: Keys<V>, m: V, flag: bool)
    requires Distinct(f) && m in Views(f)
    ensures m in Views(MarkSelected(f, keys, m, flag)) && WidgetOf(MarkSelected(f, keys, m, flag), m) == WidgetOf(f, m)
  {
    ChildrenAreBelow(f, m);
    match SelectedCell(f, keys, m) {
      case Some(c) => PutAt(f, c, WithSelected(WidgetOf(f, c), flag), m);
      case None =>
    }
  }

  lemma SelectPlaces<V>(f: Forest<V>, keys: Keys<V>, m: V, row: int, column: int)
    requires Distinct(f) && m in Views(f)
    ensures var u := WidgetOf(SelectAt(f, keys, m, row, column), m);
        u.kind == WidgetOf(f, m).kind && Number(u, "selectedRow") == row && Number(u, "selectedColumn") == column
  {
    hide MarkSelected, Placed, Retouched, GridOf, WidgetOf;
    MarkLeaves(f, keys, m, false);
    MarkRetouches(f, keys, m, false);
    var g := MarkSelected(f, keys, m, false);
    PlaceIs(f, m, row, column);
    PlaceIs(g, m, row, column);
    PlacedRetouches(g, m, row, column);
    MarkLeaves(Placed(g, m, row, column), keys, m, true);
  }

  lemma PlaceIs<V>(f: Forest<V>, m: V, row: int, column: int)
    requires Distinct(f) && m in Views(f)
    ensures var u := WidgetOf(Placed(f, m, row, column), m);
        u.kind == WidgetOf(f, m).kind && Number(u, "selectedRow") == row && Number(u, "selectedColumn") == column
  {
    PutAt(f, m, PlacedWidget(WidgetOf(f, m), row, column), m);
  }

  /** A click on a cell is recorded by its row and column, and these are selected. */
  lemma ClickIsRecorded<V>(f: Forest<V>, keys: Keys<V>, m: V, cell: V)
    requires Distinct(f) && IsMatrix(f, m) && cell in SubsOf(f, m)
    ensures var i, columns := IndexOf(SubsOf(f, m), cell), WidgetOf(f, m).kind.columns;
        var u := WidgetOf(ClickCell(f, keys, m, cell), m);
        && u.kind.Matrix? && u.kind.clickedRow == i / columns && u.kind.clickedColumn == i % columns
        && Number(u, "selectedRow") == i / columns && Number(u, "selectedColumn") == i % columns
  {
    hide SelectAt, Retouched;
    var i, columns := IndexOf(SubsOf(f, m), cell), GridOf(f, keys, m).columns;
    var row, column := Grids.RowOf(i, columns), Grids.ColumnOf(i, columns);
    var u := RecordedWidget(WidgetOf(f, m), row, column);
    PutAt(f, m, u, m);
    PutRetouches(f, m, u);
    Distinctness(f, Put(f, m, u));
    SelectPlaces(Put(f, m, u), keys, m, row, column);
  }

  // ----- the rest of the window -----

  /** Nothing happened to the view. */
  ghost predicate Spared<V>(f: Forest<V>, g: Forest<V>, x: V)
    requires x in Views(f) && x in Views(g)
  {
    WidgetOf(g, x) == WidgetOf(f, x)
  }

  /** `selectRowColumn` of one matrix leaves every view alone but itself and its own children, and
      these too unless it is in radio mode. */
  lemma SelectSpares<V>(f: Forest<V>, keys: Keys<V>, m: V, row: int, column: int, x: V)
    requires Distinct(f) && m in Views(f) && x in Views(f) && x != m
    ensures !GridOf(f, keys, m).radioMode || x !in SubsOf(f, m) || !(WidgetOf(f, x).kind.Button? || WidgetOf(f, x).kind.PopUp?)
        ==> Spared(f, SelectAt(f, keys, m, row, column), x)
  {
    hide GridOf, Retouched;
    var g := MarkSelected(f, keys, m, false);
    MarkSpares(f, keys, m, false, x);
    MarkRetouches(f, keys, m, false);
    PutAt(f, m, PlacedWidget(WidgetOf(f, m), row, column), x);
    PutAt(g, m, PlacedWidget(WidgetOf(g, m), row, column), x);
    var h := Placed(g, m, row, column);
    PlacedRetouches(g, m, row, column);
    Twice(f, g, h);
    AlikeAt(f, h, m, None);
    MarkSpares(h, keys, m, true, x);
  }

  lemma MarkSpares<V>(f: Forest<V>, keys: Keys<V>, m: V, flag: bool, x: V)
    requires Distinct(f) && m in Views(f) && x in Views(f)
    ensures x !in SubsOf(f, m) || !(WidgetOf(f, x).kind.Button? || WidgetOf(f, x).kind.PopUp?)
        ==> Spared(f, MarkSelected(f, keys, m, flag), x)
  {
    match SelectedCell(f, keys, m) {
      case Some(c) => PutAt(f, c, WithSelected(WidgetOf(f, c), flag), x);
      case None =>
    }
  }

  lemma CellSpares<V>(f: Forest<V>, keys: Keys<V>, m: V, cell: V, x: V)
    requires Distinct(f) && m in Views(f) && cell in SubsOf(f, m) && x in Views(f) && x != m
    ensures !GridOf(f, keys, m).radioMode || x !in SubsOf(f, m) || !(WidgetOf(f, x).kind.Button? || WidgetOf(f, x).kind.PopUp?)
        ==> Spared(f, ClickCell(f, keys, m, cell), x)
  {
    hide SelectAt, Retouched;
    var i, columns := IndexOf(SubsOf(f, m), cell), GridOf(f, keys, m).columns;
    var row, column := Grids.RowOf(i, columns), Grids.ColumnOf(i, columns);
    var u := RecordedWidget(WidgetOf(f, m), row, column);
    var g := Put(f, m, u);
    PutRetouches(f, m, u);
    Distinctness(f, g);
    AlikeAt(f, g, m, None);
    PutAt(f, m, u, x);
    GridPut(f, keys, m, m, u);
    SelectSpares(g, keys, m, row, column, x);
  }

  /** `setSelected` of one matrix's cells may change the view. */
  ghost predicate Held<V>(f: Forest<V>, m: V, x: V)
    requires m in Views(f) && x in Views(f)
  {
    && WidgetOf(f, m).kind.Matrix? && WidgetOf(f, m).kind.radioMode && x in SubsOf(f, m)
    && (WidgetOf(f, x).kind.Button? || WidgetOf(f, x).kind.PopUp?)
  }

  /** Following an action up: no matrix that hears of it is the view or holds it as a button in
      radio mode. */
  ghost predicate Unheard<V>(f: Forest<V>, from: V, path: seq<V>, x: V)
    requires from in Views(f) && x in Views(f)
    decreases |path|
  {
    match Route(f, from, path)
    case None => true
    case Some(k) => x != path[k] && !Held(f, path[k], x) && Unheard(f, path[k], path[k + 1..], x)
  }

  lemma {:induction false} NearestStays<V>(f: Forest<V>, g: Forest<V>, path: seq<V>)
    requires Retouched(f, g)
    ensures Nearest(g, path) == Nearest(f, path)
  {
    if path != [] {
      Shape(f, g);
      if path[0] in Views(f) {
        RoleAt(f, g, path[0]);
      }
      NearestStays(f, g, path[1..]);
    }
  }

  lemma RouteStays<V>(f: Forest<V>, g: Forest<V>, from: V, path: seq<V>)
    requires Retouched(f, g) && from in Views(f)
    ensures from in Views(g) && Route(g, from, path) == Route(f, from, path)
  {
    NearestStays(f, g, path);
    RoleAt(f, g, from);
    match Nearest(f, path) {
      case Some(k) => RoleAt(f, g, path[k]);
      case None =>
    }
  }

  lemma HeldStays<V>(f: Forest<V>, g: Forest<V>, m: V, x: V)
    requires Retouched(f, g) && m in Views(f) && x in Views(f)
    ensures m in Views(g) && x in Views(g) && Held(g, m, x) == Held(f, m, x)
  {
    hide Retouched, Views, WidgetOf, SubsOf;
    RoleAt(f, g, m);
    RoleAt(f, g, x);
  }

  lemma {:induction false} UnheardStays<V>(f: Forest<V>, g: Forest<V>, from: V, path: seq<V>, x: V)
    requires Retouched(f, g) && from in Views(f) && x in Views(f)
    ensures from in Views(g) && x in Views(g) && Unheard(g, from, path, x) == Unheard(f, from, path, x)
    decreases |path|
  {
    hide Route, Retouched, Views, WidgetOf, SubsOf, Nearest, Held;
    RouteStays(f, g, from, path);
    RoleAt(f, g, x);
    match Route(f, from, path) {
      case Some(k) =>
        HeldStays(f, g, path[k], x);
        UnheardStays(f, g, path[k], path[k + 1..], x);
      case None =>
    }
  }

  lemma {:induction false} SendSpares<V>(f: Forest<V>, keys: Keys<V>, from: V, path: seq<V>, x: V)
    requires Distinct(f) && from in Views(f) && x in Views(f) && Unheard(f, from, path, x)
    ensures Spared(f, SendAction(f, keys, from, path), x)
    decreases |path|
  {
    hide ClickCell, Route, Retouched, Views, SubsOf, Nearest, Distinct;
    match Route(f, from, path) {
      case None =>
      case Some(k) =>
        var m, g := path[k], ClickCell(f, keys, path[k], from);
        CellSpares(f, keys, m, from, x);
        CellRetouches(f, keys, m, from);
        UnheardStays(f, g, m, path[k + 1..], x);
        SendSpares(g, keys, m, path[k + 1..], x);
    }
  }

  /** The grid of a group is the same if it and its cells were spared. */
  lemma GridSpared<V>(f: Forest<V>, g: Forest<V>, keys: Keys<V>, m: V)
    requires Retouched(f, g) && m in Views(f) && m in Views(g) && Spared(f, g, m)
    requires forall c :: c in SubsOf(f, m) ==> c in Views(f) && c in Views(g) && Spared(f, g, c)
    ensures GridOf(g, keys, m) == GridOf(f, keys, m)
  {
    GridFrom(f, g, keys, m);
    assert GridOf(g, keys, m).states == GridOf(f, keys, m).states;
  }

  /** A click that another matrix hears leaves the grid of a group of buttons alone. */
  lemma OtherCellGrid<V>(f: Forest<V>, keys: Keys<V>, m: V, other: V, cell: V)
    requires Distinct(f) && Group(f, m) && IsMatrix(f, other) && other != m && cell in SubsOf(f, other)
    ensures GridOf(ClickCell(f, keys, other, cell), keys, m) == GridOf(f, keys, m)
  {
    hide ClickCell, Retouched;
    var g := ClickCell(f, keys, other, cell);
    CellRetouches(f, keys, other, cell);
    CellSpares(f, keys, other, cell, m);
    CellsDistinct(f, m);
    forall c | c in SubsOf(f, m) ensures Spared(f, g, c) {
      ChildHasOneParent(f, m, c, other, None);
      CellSpares(f, keys, other, cell, c);
    }
    GridSpared(f, g, keys, m);
  }

  /** An action that does not come from a cell of the group leaves its grid alone. */
  lemma {:induction false} SendGrid<V>(f: Forest<V>, keys: Keys<V>, m: V, from: V, path: seq<V>)
    requires Distinct(f) && Group(f, m) && from in Views(f) && from !in SubsOf(f, m)
    ensures GridOf(SendAction(f, keys, from, path), keys, m) == GridOf(f, keys, m)
    decreases |path|
  {
    hide ClickCell, Retouched, GridOf, Views, SubsOf, Nearest, Distinct, WidgetOf;
    match Route(f, from, path) {
      case None =>
      case Some(k) =>
        var other, g := path[k], ClickCell(f, keys, path[k], from);
        OtherCellGrid(f, keys, m, other, from);
        CellRetouches(f, keys, other, from);
        GridFrom(f, g, keys, m);
        SendGrid(g, keys, m, other, path[k + 1..]);
    }
  }

  lemma ParentPath<V>(f: Forest<V>, m: V, c: V)
    requires Distinct(f) && m in Views(f) && c in SubsOf(f, m) && c in Views(f)
    ensures PathOf(f, c, []) == [m] + PathOf(f, m, [])
  {
    ChildHasOneParent(f, m, c, m, None);
    PathStep(f, c, [], None);
  }

  /** A click on a button of a group without an action of its own: its new state, and the
      selection moves to it. */
  lemma ClickedCellGrid<V>(f: Forest<V>, keys: Keys<V>, m: V, c: V)
    requires Distinct(f) && Group(f, m) && c in SubsOf(f, m) && c in Views(f) && WidgetOf(f, c).action == ""
    ensures GridOf(Click(f, keys, c), keys, m) == Grids.Clicked(
        GridOf(f, keys, m), IndexOf(SubsOf(f, m), c), State(ClickedWidget(WidgetOf(f, c))))
  {
    hide ClickCell, Retouched, ClickedWidget, GridOf, Views, SubsOf, WidgetOf, Put, IndexOf, Grids.SelectRowColumn;
    var u := ClickedWidget(WidgetOf(f, c));
    var g := Put(f, c, u);
    CellsDistinct(f, m);
    GridPut(f, keys, m, c, u);
    PutRetouches(f, c, u);
    Distinctness(f, g);
    GridFrom(f, g, keys, m);
    AlikeAt(f, g, c, None);
    ParentPath(f, m, c);
    var path := PathOf(f, c, []);
    assert path[0] == m && path[1..] == PathOf(f, m, []);
    var h := ClickCell(g, keys, m, c);
    CellGrid(g, keys, m, c);
    CellRetouches(g, keys, m, c);
    GridFrom(g, h, keys, m);
    SendGrid(h, keys, m, m, path[1..]);
  }

  /** A click on a button of a group that has an action of its own changes only its state. */
  lemma ActingCellGrid<V>(f: Forest<V>, keys: Keys<V>, m: V, c: V)
    requires Distinct(f) && Group(f, m) && c in SubsOf(f, m) && c in Views(f) && WidgetOf(f, c).action != ""
    ensures var g := GridOf(f, keys, m);
        GridOf(Click(f, keys, c), keys, m)
        == g.(states := g.states[IndexOf(SubsOf(f, m), c) := State(ClickedWidget(WidgetOf(f, c)))])
  {
    hide Retouched, ClickedWidget, GridOf;
    var u := ClickedWidget(WidgetOf(f, c));
    CellsDistinct(f, m);
    GridPut(f, keys, m, c, u);
    PutRetouches(f, c, u);
    AlikeAt(f, Put(f, c, u), c, None);
  }

  /** A click on any view but the matrix and its cells leaves the grid of a group alone. */
  lemma OtherClickGrid<V>(f: Forest<V>, keys: Keys<V>, m: V, x: V)
    requires Distinct(f) && Group(f, m) && x in Views(f) && x != m && x !in SubsOf(f, m)
    ensures GridOf(Click(f, keys, x), keys, m) == GridOf(f, keys, m)
  {
    hide Retouched, ClickedWidget, SelectAt, GridOf;
    var w, path := WidgetOf(f, x), PathOf(f, x, []);
    if w.kind.Matrix? {
      var g := SelectAt(f, keys, x, w.kind.clickedRow, w.kind.clickedColumn);
      SelectRetouches(f, keys, x, w.kind.clickedRow, w.kind.clickedColumn);
      SelectSpares(f, keys, x, w.kind.clickedRow, w.kind.clickedColumn, m);
      CellsDistinct(f, m);
      forall c | c in SubsOf(f, m) ensures Spared(f, g, c) {
        ChildHasOneParent(f, m, c, x, None);
        SelectSpares(f, keys, x, w.kind.clickedRow, w.kind.clickedColumn, c);
      }
      GridSpared(f, g, keys, m);
      GridFrom(f, g, keys, m);
      SendGrid(g, keys, m, x, path);
    } else {
      var g := Put(f, x, ClickedWidget(w));
      GridPut(f, keys, m, x, ClickedWidget(w));
      PutRetouches(f, x, ClickedWidget(w));
      Distinctness(f, g);
      GridFrom(f, g, keys, m);
      SendGrid(g, keys, m, x, path);
    }
  }
}
