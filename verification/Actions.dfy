/** What a mouseDown does: a view changes itself, and its action goes to a target or, without
    one, up to the nearest matrix, which moves its selection and sends its own action. */
module Actions {
  import opened Php
  import opened Persistence
  import opened Pages
  import opened Retouch
  import opened Dispatch
  import opened Surgery
  import opened Hierarchy
  import Grids

  /** The array keys of the subviews of each view. A matrix reads its cells by key. */
  type Keys<!V(==)> = map<V, seq<nat>>

  // ----- the view itself -----

  /** A tab view selects the clicked item, a checkbox or radio button takes its next state;
      other views leave themselves alone. */
  function ClickedWidget(w: Widget): (u: Widget)
    ensures Touched(w, u)
  {
    match w.kind
    case TabView(hideTab, i) =>
      if 0 <= i < |hideTab| && !hideTab[i] then w.(props := w.props["selectedIndex" := Int(i)]) else w
    case Button(buttonType, mixed) =>
      if buttonType.PushButton? then w else WithState(w, Grids.NextState(State(w), mixed))
    case _ => w
  }

  /** The kinds of view whose mouseDown ends in sending the action. */
  predicate Sends(kind: Kind) {
    kind.Button? || kind.PopUp? || kind.TextField? || kind.Matrix?
  }

  // ----- the way up -----

  /** The superviews of a view, nearest first. */
  ghost function PathOf<V>(f: Forest<V>, v: V, above: seq<V>): (path: seq<V>)
    requires v in Views(f)
    ensures forall u :: u in path ==> u in above || u in Views(f)
  {
    if f.view == v then above
    else if v in Views(f.subs) then PathOf(f.subs, v, [f.view] + above)
    else if v in Views(f.items) then PathOf(f.items, v, [])
    else PathOf(f.next, v, above)
  }

  lemma {:induction false} PathStep<V>(f: Forest<V>, v: V, above: seq<V>, parent: Option<V>)
    requires Distinct(f) && v in Views(f) && parent == if above == [] then None else Some(above[0])
    requires forall u :: u in above ==> u !in Views(f)
    ensures var path, q := PathOf(f, v, above), ParentOf(f, v, parent);
        && (q.None? <==> path == [])
        && (q.Some? ==> path[0] == q.value)
        && (q.Some? && q.value in Views(f) ==> path == [q.value] + PathOf(f, q.value, above))
        && (q.Some? && q.value !in Views(f) ==> path == above)
  {
    if f.view == v {
    } else if v in Views(f.subs) {
      PathStep(f.subs, v, [f.view] + above, Some(f.view));
    } else if v in Views(f.items) {
      PathStep(f.items, v, [], None);
    } else {
      PathStep(f.next, v, above, parent);
    }
  }

  ghost predicate IsMatrix<V>(f: Forest<V>, v: V) {
    v in Views(f) && WidgetOf(f, v).kind.Matrix?
  }

  /** The nearest matrix of a path. */
  ghost function Nearest<V>(f: Forest<V>, path: seq<V>): (k: Option<nat>)
    ensures k.Some? ==> k.value < |path| && IsMatrix(f, path[k.value])
    ensures forall j :: 0 <= j < (if k.Some? then k.value else |path|) ==> !IsMatrix(f, path[j])
  {
    if path == [] then None
    else if IsMatrix(f, path[0]) then Some(0)
    else match Nearest(f, path[1..])
      case None => None
      case Some(k) => Some(k + 1)
  }

  // ----- selecting in a matrix -----

  ghost function StatesOf<V>(f: Forest<V>, cells: seq<V>): (s: seq<int>)
    ensures |s| == |cells|
    ensures forall i :: 0 <= i < |cells| && cells[i] in Views(f) ==> s[i] == State(WidgetOf(f, cells[i]))
  {
    if cells == [] then []
    else [if cells[0] in Views(f) then State(WidgetOf(f, cells[0])) else 0] + StatesOf(f, cells[1..])
  }

  /** The value of a matrix. */
  ghost function GridOf<V>(f: Forest<V>, keys: Keys<V>, m: V): (g: Grids.Grid)
    requires m in Views(f)
    ensures g.columns > 0 && |g.states| == |SubsOf(f, m)|
  {
    var w := WidgetOf(f, m);
    Grids.Grid(StatesOf(f, SubsOf(f, m)), if m in keys then keys[m] else [],
               if w.kind.Matrix? then w.kind.columns else 1, w.kind.Matrix? && w.kind.radioMode,
               Number(w, "selectedRow"), Number(w, "selectedColumn"))
  }

  ghost function SelectedCell<V>(f: Forest<V>, keys: Keys<V>, m: V): (c: Option<V>)
    requires m in Views(f)
    ensures c.Some? ==> c.value in SubsOf(f, m) && c.value in Views(f)
  {
    SubsAreViews(f, m);
    match Grids.Selected(GridOf(f, keys, m))
    case Some(i) => Some(SubsOf(f, m)[i])
    case None => None
  }

  lemma SubsAreViews<V>(f: Forest<V>, m: V)
    requires m in Views(f)
    ensures forall c :: c in SubsOf(f, m) ==> c in Views(f)
  {
    TopsAreViews(TreeOf(f, m).subs);
  }

  /** `setSelected` of the selected cell, if there is one. */
  ghost function MarkSelected<V>(f: Forest<V>, keys: Keys<V>, m: V, flag: bool): (g: Forest<V>)
    requires m in Views(f)
    ensures Views(g) == Views(f)
  {
    match SelectedCell(f, keys, m)
    case Some(c) => Put(f, c, WithSelected(WidgetOf(f, c), flag))
    case None => f
  }

  function PlacedWidget(w: Widget, row: int, column: int): (u: Widget)
    ensures Touched(w, u)
  {
    w.(props := w.props["selectedRow" := Int(row)]["selectedColumn" := Int(column)])
  }

  ghost function Placed<V>(f: Forest<V>, m: V, row: int, column: int): (g: Forest<V>)
    requires m in Views(f)
    ensures Views(g) == Views(f)
  {
    Put(f, m, PlacedWidget(WidgetOf(f, m), row, column))
  }

  /** `selectRowColumn` */
  ghost function SelectAt<V>(f: Forest<V>, keys: Keys<V>, m: V, row: int, column: int): (g: Forest<V>)
    requires m in Views(f)
    ensures Views(g) == Views(f)
  {
    if GridOf(f, keys, m).radioMode
    then MarkSelected(Placed(MarkSelected(f, keys, m, false), m, row, column), keys, m, true)
    else Placed(f, m, row, column)
  }

  function RecordedWidget(w: Widget, row: int, column: int): (u: Widget)
    ensures Touched(w, u)
  {
    if w.kind.Matrix? then w.(kind := w.kind.(clickedRow := row, clickedColumn := column)) else w
  }

  /** `_clickedCell` of a direct child: the click is recorded and its place selected. */
  ghost function ClickCell<V>(f: Forest<V>, keys: Keys<V>, m: V, cell: V): (g: Forest<V>)
    requires m in Views(f) && cell in SubsOf(f, m)
    ensures Views(g) == Views(f)
  {
    var i := IndexOf(SubsOf(f, m), cell);
    var columns := GridOf(f, keys, m).columns;
    var row, column := Grids.RowOf(i, columns), Grids.ColumnOf(i, columns);
    SelectAt(Put(f, m, RecordedWidget(WidgetOf(f, m), row, column)), keys, m, row, column)
  }

  // ----- actions -----

  /** The matrix that an action without a target moves: the nearest one, if the sender is its
      direct child. */
  ghost function Route<V>(f: Forest<V>, from: V, path: seq<V>): (k: Option<nat>)
    requires from in Views(f)
    ensures k.Some? ==> k.value < |path| && IsMatrix(f, path[k.value]) && from in SubsOf(f, path[k.value])
    ensures k.Some? ==> k == Nearest(f, path) && WidgetOf(f, from).action == ""
  {
    match Nearest(f, path)
    case Some(k) => if WidgetOf(f, from).action == "" && from in SubsOf(f, path[k]) then Some(k) else None
    case None => None
  }

  ghost function SendAction<V>(f: Forest<V>, keys: Keys<V>, from: V, path: seq<V>): (g: Forest<V>)
    requires from in Views(f)
    ensures Views(g) == Views(f)
    decreases |path|
  {
    match Route(f, from, path)
    case None => f
    case Some(k) => SendAction(ClickCell(f, keys, path[k], from), keys, path[k], path[k + 1..])
  }

  /** The action that reaches a target, with its sender: at most one. */
  ghost function ActionsOf<V>(f: Forest<V>, from: V, path: seq<V>): (r: seq<(V, string)>)
    requires from in Views(f)
    ensures |r| <= 1
    decreases |path|
  {
    if WidgetOf(f, from).action != "" then [(from, WidgetOf(f, from).action)]
    else match Route(f, from, path)
      case None => []
      case Some(k) => ActionsOf(f, path[k], path[k + 1..])
  }

  /** `mouseDown` of one view. */
  ghost function Click<V>(f: Forest<V>, keys: Keys<V>, v: V): (g: Forest<V>)
    requires v in Views(f)
    ensures Views(g) == Views(f)
  {
    var w := WidgetOf(f, v);
    if w.kind.Matrix? then
      SendAction(SelectAt(f, keys, v, w.kind.clickedRow, w.kind.clickedColumn), keys, v, PathOf(f, v, []))
    else
      var g := Put(f, v, ClickedWidget(w));
      if Sends(w.kind) then SendAction(g, keys, v, PathOf(f, v, [])) else g
  }

  /** The actions that a mouseDown sends to targets. */
  ghost function ClickSends<V>(f: Forest<V>, v: V): seq<(V, string)>
    requires v in Views(f)
  {
    if Sends(WidgetOf(f, v).kind) then ActionsOf(f, v, PathOf(f, v, [])) else []
  }

  ghost function Clicks<V>(f: Forest<V>, keys: Keys<V>, calls: seq<V>): (g: Forest<V>)
    requires forall v :: v in calls ==> v in Views(f)
    ensures Views(g) == Views(f)
    decreases |calls|
  {
    if calls == [] then f else Clicks(Click(f, keys, calls[0]), keys, calls[1..])
  }

  ghost function ClicksSend<V>(f: Forest<V>, calls: seq<V>): seq<(V, string)>
    requires forall v :: v in calls ==> v in Views(f)
  {
    if calls == [] then [] else ClickSends(f, calls[0]) + ClicksSend(f, calls[1..])
  }

  /** The window after collecting and delivering. */
  ghost function Handled<V>(f: Forest<V>, keys: Keys<V>, form: Form, content: Option<Forest<V>>): (g: Forest<V>)
    requires Proper(f)
    ensures Views(g) == Views(f)
  {
    QueueTargets(f, form);
    CallsAreTargets(content, Queue(f, form));
    Clicks(Collect(f, form), keys, Calls(content, Queue(f, form)))
  }

  /** The actions that reach targets in a request. */
  ghost function HandledSends<V>(f: Forest<V>, form: Form, content: Option<Forest<V>>): seq<(V, string)>
    requires Proper(f)
  {
    QueueTargets(f, form);
    CallsAreTargets(content, Queue(f, form));
    ClicksSend(Collect(f, form), Calls(content, Queue(f, form)))
  }

  lemma {:induction false} CallsAreTargets<V>(content: Option<Forest<V>>, queue: seq<NSEvent<V>>)
    ensures forall v :: v in Calls(content, queue) ==> exists e :: e in queue && e.target == v
  {
    if queue != [] {
      CallsAreTargets(content, queue[1..]);
      forall v | v in Calls(content, queue)
        ensures exists e :: e in queue && e.target == v
      {
        if v != queue[0].target {
          assert v in Calls(content, queue[1..]);
          var e :| e in queue[1..] && e.target == v;
          assert e in queue;
        } else {
          assert queue[0] in queue;
        }
      }
    }
  }

  // ----- a click changes nothing but properties and the recorded click -----

  lemma SelectedTouches(w: Widget, flag: bool)
    ensures Touched(w, WithSelected(w, flag))
  {
  }

  lemma MarkRetouches<V>(f: Forest<V>, keys: Keys<V>, m: V, flag: bool)
    requires Distinct(f) && m in Views(f)
    ensures Retouched(f, MarkSelected(f, keys, m, flag)) && Distinct(MarkSelected(f, keys, m, flag))
  {
    hide Retouched, Distinct, Touched, Put, SelectedCell, WidgetOf;
    Same(f);
    match SelectedCell(f, keys, m) {
      case Some(c) =>
        SelectedTouches(WidgetOf(f, c), flag);
        PutRetouches(f, c, WithSelected(WidgetOf(f, c), flag));
      case None =>
    }
    Distinctness(f, MarkSelected(f, keys, m, flag));
  }

  lemma PlacedRetouches<V>(f: Forest<V>, m: V, row: int, column: int)
    requires Distinct(f) && m in Views(f)
    ensures Retouched(f, Placed(f, m, row, column)) && Distinct(Placed(f, m, row, column))
  {
    PutRetouches(f, m, PlacedWidget(WidgetOf(f, m), row, column));
    Distinctness(f, Placed(f, m, row, column));
  }

  lemma SelectRetouches<V>(f: Forest<V>, keys: Keys<V>, m: V, row: int, column: int)
    requires Distinct(f) && m in Views(f)
    ensures Retouched(f, SelectAt(f, keys, m, row, column)) && Distinct(SelectAt(f, keys, m, row, column))
  {
    hide Retouched, MarkSelected, Placed;
    PlacedRetouches(f, m, row, column);
    MarkRetouches(f, keys, m, false);
    var g := MarkSelected(f, keys, m, false);
    PlacedRetouches(g, m, row, column);
    var h := Placed(g, m, row, column);
    MarkRetouches(h, keys, m, true);
    Twice(f, g, h);
    Twice(f, h, MarkSelected(h, keys, m, true));
  }

  lemma CellRetouches<V>(f: Forest<V>, keys: Keys<V>, m: V, cell: V)
    requires Distinct(f) && m in Views(f) && cell in SubsOf(f, m)
    ensures Retouched(f, ClickCell(f, keys, m, cell)) && Distinct(ClickCell(f, keys, m, cell))
  {
    hide Retouched, SelectAt;
    var i := IndexOf(SubsOf(f, m), cell);
    var columns := GridOf(f, keys, m).columns;
    var row, column := Grids.RowOf(i, columns), Grids.ColumnOf(i, columns);
    var g := Put(f, m, RecordedWidget(WidgetOf(f, m), row, column));
    PutRetouches(f, m, RecordedWidget(WidgetOf(f, m), row, column));
    Distinctness(f, g);
    SelectRetouches(g, keys, m, row, column);
    Twice(f, g, ClickCell(f, keys, m, cell));
  }

  lemma {:induction false} SendRetouches<V>(f: Forest<V>, keys: Keys<V>, from: V, path: seq<V>)
    requires Distinct(f) && from in Views(f)
    ensures Retouched(f, SendAction(f, keys, from, path)) && Distinct(SendAction(f, keys, from, path))
    decreases |path|
  {
    hide Retouched, ClickCell, Route;
    match Route(f, from, path) {
      case None => Same(f);
      case Some(k) =>
        var g := ClickCell(f, keys, path[k], from);
        CellRetouches(f, keys, path[k], from);
        SendRetouches(g, keys, path[k], path[k + 1..]);
        Twice(f, g, SendAction(f, keys, from, path));
    }
  }

  lemma ClickRetouches<V>(f: Forest<V>, keys: Keys<V>, v: V)
    requires Distinct(f) && v in Views(f)
    ensures Retouched(f, Click(f, keys, v)) && Distinct(Click(f, keys, v))
  {
    hide Retouched, SelectAt, SendAction, ClickedWidget;
    var w := WidgetOf(f, v);
    var g;
    if w.kind.Matrix? {
      SelectRetouches(f, keys, v, w.kind.clickedRow, w.kind.clickedColumn);
      g := SelectAt(f, keys, v, w.kind.clickedRow, w.kind.clickedColumn);
    } else {
      PutRetouches(f, v, ClickedWidget(w));
      g := Put(f, v, ClickedWidget(w));
      Distinctness(f, g);
    }
    SendRetouches(g, keys, v, PathOf(f, v, []));
    Twice(f, g, SendAction(g, keys, v, PathOf(f, v, [])));
  }

  lemma {:induction false} ClicksRetouches<V>(f: Forest<V>, keys: Keys<V>, calls: seq<V>)
    requires Distinct(f) && forall v :: v in calls ==> v in Views(f)
    ensures Retouched(f, Clicks(f, keys, calls)) && Distinct(Clicks(f, keys, calls))
    decreases |calls|
  {
    hide Retouched, Click;
    if calls == [] {
      Same(f);
    } else {
      var g := Click(f, keys, calls[0]);
      ClickRetouches(f, keys, calls[0]);
      ClicksRetouches(g, keys, calls[1..]);
      Twice(f, g, Clicks(f, keys, calls));
    }
  }

  lemma HandledRetouches<V>(f: Forest<V>, keys: Keys<V>, form: Form, content: Option<Forest<V>>)
    requires Proper(f) && Distinct(f)
    ensures var g := Handled(f, keys, form, content);
        Retouched(f, g) && Distinct(g) && Proper(g) && Tops(g) == Tops(f)
  {
    CollectRetouches(f, form);
    var c := Collect(f, form);
    Distinctness(f, c);
    QueueTargets(f, form);
    CallsAreTargets(content, Queue(f, form));
    var calls := Calls(content, Queue(f, form));
    ClicksRetouches(c, keys, calls);
    Twice(f, c, Clicks(c, keys, calls));
    Properness(f, Clicks(c, keys, calls));
    Shape(f, Clicks(c, keys, calls));
  }
}
