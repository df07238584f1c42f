/** What a whole request makes of tab views, buttons and matrices: collecting, delivering and the
    actions that clicks send, end to end. */
module Delivery {
  import opened Php
  import opened Persistence
  import opened Pages
  import opened Retouch
  import opened Showing
  import opened Dispatch
  import opened Surgery
  import opened Hierarchy
  import opened Links
  import opened Actions
  import opened Matrices
  import Grids

  // ----- one click, seen from another view -----

  /** A click leaves every view alone but the clicked one, the matrices that hear of it, and the
      buttons these hold in radio mode. */
  lemma ClickSpares<V>(f: Forest<V>, keys: Keys<V>, v: V, x: V)
    requires Distinct(f) && v in Views(f) && x in Views(f) && x != v
    requires !Held(f, v, x) && Unheard(f, v, PathOf(f, v, []), x)
    ensures Spared(f, Click(f, keys, v), x)
  {
    hide Retouched, SelectAt, ClickedWidget, Unheard;
    var w, path := WidgetOf(f, v), PathOf(f, v, []);
    var g;
    if w.kind.Matrix? {
      g := SelectAt(f, keys, v, w.kind.clickedRow, w.kind.clickedColumn);
      SelectRetouches(f, keys, v, w.kind.clickedRow, w.kind.clickedColumn);
      SelectSpares(f, keys, v, w.kind.clickedRow, w.kind.clickedColumn, x);
    } else {
      g := Put(f, v, ClickedWidget(w));
      PutRetouches(f, v, ClickedWidget(w));
      Distinctness(f, g);
      PutAt(f, v, ClickedWidget(w), x);
    }
    UnheardStays(f, g, v, path, x);
    SendSpares(g, keys, v, path, x);
  }

  /** A tab view sends no action: a click on it changes it alone. */
  lemma TabClick<V>(f: Forest<V>, keys: Keys<V>, v: V, x: V)
    requires Distinct(f) && v in Views(f) && x in Views(f) && WidgetOf(f, v).kind.TabView?
    ensures WidgetOf(Click(f, keys, v), x) == if x == v then ClickedWidget(WidgetOf(f, v)) else WidgetOf(f, x)
  {
    PutAt(f, v, ClickedWidget(WidgetOf(f, v)), x);
  }

  /** No click on another view changes a tab view, or anything but the state of a pop-up button. */
  lemma OthersKeep<V>(f: Forest<V>, keys: Keys<V>, v: V, x: V)
    requires Distinct(f) && v in Views(f) && x in Views(f)
    ensures WidgetOf(f, x).kind.TabView? && x != v ==> Spared(f, Click(f, keys, v), x)
    ensures WidgetOf(f, x).kind.PopUp? ==>
        KeepsIndex(WidgetOf(f, x), WidgetOf(Click(f, keys, v), x))
  {
    hide Retouched, SelectAt, ClickedWidget, SendAction;
    var w, path := WidgetOf(f, v), PathOf(f, v, []);
    var g;
    if w.kind.Matrix? {
      g := SelectAt(f, keys, v, w.kind.clickedRow, w.kind.clickedColumn);
      SelectRetouches(f, keys, v, w.kind.clickedRow, w.kind.clickedColumn);
      SelectKeeps(f, keys, v, w.kind.clickedRow, w.kind.clickedColumn, x);
    } else {
      g := Put(f, v, ClickedWidget(w));
      PutRetouches(f, v, ClickedWidget(w));
      Distinctness(f, g);
      PutAt(f, v, ClickedWidget(w), x);
      ClickedKeeps(w);
    }
    RoleAt(f, g, x);
    SendKeeps(g, keys, v, path, x);
  }

  lemma ClickedKeeps(w: Widget)
    ensures w.kind.PopUp? ==> KeepsIndex(w, ClickedWidget(w))
  {
  }

  lemma MarkKeeps<V>(f: Forest<V>, keys: Keys<V>, m: V, flag: bool, x: V)
    requires Distinct(f) && m in Views(f) && x in Views(f)
    ensures WidgetOf(f, x).kind.TabView? ==> Spared(f, MarkSelected(f, keys, m, flag), x)
    ensures WidgetOf(f, x).kind.PopUp? ==> KeepsIndex(WidgetOf(f, x), WidgetOf(MarkSelected(f, keys, m, flag), x))
  {
    match SelectedCell(f, keys, m) {
      case Some(c) => PutAt(f, c, WithSelected(WidgetOf(f, c), flag), x);
      case None =>
    }
  }

  lemma PlacedKeeps<V>(f: Forest<V>, m: V, row: int, column: int, x: V)
    requires Distinct(f) && m in Views(f) && x in Views(f) && WidgetOf(f, m).kind.Matrix?
    ensures WidgetOf(f, x).kind.TabView? ==> Spared(f, Placed(f, m, row, column), x)
    ensures WidgetOf(f, x).kind.PopUp? ==> KeepsIndex(WidgetOf(f, x), WidgetOf(Placed(f, m, row, column), x))
  {
    PutAt(f, m, PlacedWidget(WidgetOf(f, m), row, column), x);
  }

  lemma SelectKeeps<V>(f: Forest<V>, keys: Keys<V>, m: V, row: int, column: int, x: V)
    requires Distinct(f) && IsMatrix(f, m) && x in Views(f)
    ensures WidgetOf(f, x).kind.TabView? ==> Spared(f, SelectAt(f, keys, m, row, column), x)
    ensures WidgetOf(f, x).kind.PopUp? ==> KeepsIndex(WidgetOf(f, x), WidgetOf(SelectAt(f, keys, m, row, column), x))
  {
    hide MarkSelected, Placed, Retouched;
    var g := MarkSelected(f, keys, m, false);
    MarkRetouches(f, keys, m, false);
    MarkKeeps(f, keys, m, false, x);
    RoleAt(f, g, m);
    PlacedKeeps(f, m, row, column, x);
    PlacedKeeps(g, m, row, column, x);
    var h := Placed(g, m, row, column);
    PlacedRetouches(g, m, row, column);
    MarkKeeps(h, keys, m, true, x);
  }

  lemma CellKeeps<V>(f: Forest<V>, keys: Keys<V>, m: V, cell: V, x: V)
    requires Distinct(f) && IsMatrix(f, m) && cell in SubsOf(f, m) && x in Views(f)
    ensures WidgetOf(f, x).kind.TabView? ==> Spared(f, ClickCell(f, keys, m, cell), x)
    ensures WidgetOf(f, x).kind.PopUp? ==> KeepsIndex(WidgetOf(f, x), WidgetOf(ClickCell(f, keys, m, cell), x))
  {
    hide SelectAt, Retouched;
    var i, columns := IndexOf(SubsOf(f, m), cell), GridOf(f, keys, m).columns;
    var row, column := Grids.RowOf(i, columns), Grids.ColumnOf(i, columns);
    var u := RecordedWidget(WidgetOf(f, m), row, column);
    PutRetouches(f, m, u);
    Distinctness(f, Put(f, m, u));
    RoleAt(f, Put(f, m, u), m);
    PutAt(f, m, u, x);
    SelectKeeps(Put(f, m, u), keys, m, row, column, x);
  }

  lemma {:induction false} SendKeeps<V>(f: Forest<V>, keys: Keys<V>, from: V, path: seq<V>, x: V)
    requires Distinct(f) && from in Views(f) && x in Views(f)
    ensures WidgetOf(f, x).kind.TabView? ==> Spared(f, SendAction(f, keys, from, path), x)
    ensures WidgetOf(f, x).kind.PopUp? ==> KeepsIndex(WidgetOf(f, x), WidgetOf(SendAction(f, keys, from, path), x))
    decreases |path|
  {
    hide ClickCell, Route, Retouched, Views, SubsOf, Nearest, Distinct;
    match Route(f, from, path) {
      case None =>
      case Some(k) =>
        var g := ClickCell(f, keys, path[k], from);
        CellKeeps(f, keys, path[k], from, x);
        CellRetouches(f, keys, path[k], from);
        SendKeeps(g, keys, path[k], path[k + 1..], x);
    }
  }

  // ----- all clicks of a request -----

  /** What a number of mouseDowns make of one tab view. */
  function Repeated(w: Widget, n: nat): Widget
    decreases n
  {
    if n == 0 then w else Repeated(ClickedWidget(w), n - 1)
  }

  /** A tab view that is told to select the same item again stays as it is. */
  lemma {:induction false} TabViewRepeats(w: Widget, n: nat)
    requires w.kind.TabView? && n > 0
    ensures Repeated(w, n) == ClickedWidget(w)
    decreases n
  {
    if n > 1 {
      var once := ClickedWidget(w);
      assert ClickedWidget(once).props == once.props;
      TabViewRepeats(once, n - 1);
    }
  }

  lemma {:induction false} TabViewClicks<V>(f: Forest<V>, keys: Keys<V>, calls: seq<V>, v: V)
    requires Distinct(f) && v in Views(f) && WidgetOf(f, v).kind.TabView?
    requires forall x :: x in calls ==> x in Views(f)
    ensures WidgetOf(Clicks(f, keys, calls), v) == Repeated(WidgetOf(f, v), Count(calls, v))
    decreases |calls|
  {
    hide ClickedWidget, Click, WidgetOf, Retouched;
    if calls != [] {
      var g := Click(f, keys, calls[0]);
      ClickRetouches(f, keys, calls[0]);
      RoleAt(f, g, v);
      if calls[0] == v { TabClick(f, keys, v, v); } else { OthersKeep(f, keys, calls[0], v); }
      TabViewClicks(g, keys, calls[1..], v);
    }
  }

  /** The index of a pop-up button is not changed by any clicks. */
  lemma {:induction false} PopUpClicks<V>(f: Forest<V>, keys: Keys<V>, calls: seq<V>, v: V)
    requires Distinct(f) && v in Views(f) && WidgetOf(f, v).kind.PopUp?
    requires forall x :: x in calls ==> x in Views(f)
    ensures KeepsIndex(WidgetOf(f, v), WidgetOf(Clicks(f, keys, calls), v))
    decreases |calls|
  {
    hide Click, WidgetOf, Retouched;
    if calls != [] {
      var g := Click(f, keys, calls[0]);
      ClickRetouches(f, keys, calls[0]);
      RoleAt(f, g, v);
      OthersKeep(f, keys, calls[0], v);
      PopUpClicks(g, keys, calls[1..], v);
    }
  }

  lemma PressedWidget<V>(v: V, w: Widget, form: Form, i: nat)
    requires ProperWidget(w)
    requires w.kind.TabView? && i < |w.kind.hideTab| && !w.kind.hideTab[i]
    requires TabName(w.id, i) in form && forall j: nat :: j < i ==> TabName(w.id, j) !in form
    ensures |OwnEvents(v, w, form)| == 1
    ensures Selected(ClickedWidget(CollectedWidget(w, form))) == Some(i)
  {
    assert Pressed(w.id, 0, |w.kind.hideTab|, form) == Some(i);
  }

  lemma HandledIs<V>(f: Forest<V>, keys: Keys<V>, form: Form, content: Option<Forest<V>>)
    requires Proper(f) && Distinct(f)
    ensures var c, calls := Collect(f, form), Calls(content, Queue(f, form));
        && Distinct(c) && Views(c) == Views(f) && Retouched(f, c) && (forall x :: x in calls ==> x in Views(f))
        && Handled(f, keys, form, content) == Clicks(c, keys, calls)
  {
    CollectRetouches(f, form);
    Distinctness(f, Collect(f, form));
    QueueTargets(f, form);
    CallsAreTargets(content, Queue(f, form));
  }

  /** Pressing the button of a tab that is not withheld puts that tab on display. */
  lemma PressedTabIsSelected<V>(f: Forest<V>, keys: Keys<V>, form: Form, content: Option<Forest<V>>, v: V, i: nat)
    requires Proper(f) && Distinct(f) && v in Views(f) && Asked(f, v) && Reached(content, v)
    requires var w := WidgetOf(f, v);
             w.kind.TabView? && i < |w.kind.hideTab| && !w.kind.hideTab[i] &&
             TabName(w.id, i) in form && forall j: nat :: j < i ==> TabName(w.id, j) !in form
    ensures Selected(WidgetOf(Handled(f, keys, form, content), v)) == Some(i)
  {
    hide ClickedWidget, Clicks, Retouched;
    var w := WidgetOf(f, v);
    var calls := Calls(content, Queue(f, form));
    HandledIs(f, keys, form, content);
    QueueCounts(f, form, v);
    CallsCount(content, Queue(f, form), v);
    CollectedAt(f, form, v);
    RoleAt(f, Collect(f, form), v);
    TabViewClicks(Collect(f, form), keys, calls, v);
    PressedWidget(v, w, form, i);
    TabViewRepeats(CollectedWidget(w, form), Count(calls, v));
  }

  /** Without a pressed tab button, or a reached one, a tab view keeps its item. */
  lemma UnpressedTabStays<V>(f: Forest<V>, keys: Keys<V>, form: Form, content: Option<Forest<V>>, v: V)
    requires Proper(f) && Distinct(f) && v in Views(f) && WidgetOf(f, v).kind.TabView?
    requires forall j: nat :: j < |WidgetOf(f, v).kind.hideTab| ==> TabName(WidgetOf(f, v).id, j) !in form
    ensures Selected(WidgetOf(Handled(f, keys, form, content), v)) == Selected(WidgetOf(f, v))
  {
    hide Clicks, Retouched;
    var w := WidgetOf(f, v);
    var calls := Calls(content, Queue(f, form));
    HandledIs(f, keys, form, content);
    CollectedAt(f, form, v);
    RoleAt(f, Collect(f, form), v);
    TabViewClicks(Collect(f, form), keys, calls, v);
    if Asked(f, v) {
      assert Pressed(w.id, 0, |w.kind.hideTab|, form).None?;
      UnpressedRepeats(CollectedWidget(w, form), Count(calls, v));
    } else {
      QueueCounts(f, form, v);
      CallsCount(content, Queue(f, form), v);
    }
  }

  /** A withheld tab cannot be selected, not even if its button is posted although no page has it. */
  lemma WithheldTabStays<V>(f: Forest<V>, keys: Keys<V>, form: Form, content: Option<Forest<V>>, v: V, i: nat)
    requires Proper(f) && Distinct(f) && v in Views(f) && Asked(f, v)
    requires var w := WidgetOf(f, v);
             w.kind.TabView? && i < |w.kind.hideTab| && w.kind.hideTab[i] &&
             TabName(w.id, i) in form && forall j: nat :: j < i ==> TabName(w.id, j) !in form
    ensures Selected(WidgetOf(Handled(f, keys, form, content), v)) == Selected(WidgetOf(f, v))
  {
    hide Clicks, Retouched, CollectedWidget, Queue, Collect, Calls, Pages.Selected;
    var w := WidgetOf(f, v);
    var calls := Calls(content, Queue(f, form));
    HandledIs(f, keys, form, content);
    CollectedAt(f, form, v);
    RoleAt(f, Collect(f, form), v);
    TabViewClicks(Collect(f, form), keys, calls, v);
    WithheldWidget(w, form, i);
    UnpressedRepeats(CollectedWidget(w, form), Count(calls, v));
  }

  lemma WithheldWidget(w: Widget, form: Form, i: nat)
    requires ProperWidget(w) && w.kind.TabView? && i < |w.kind.hideTab| && w.kind.hideTab[i]
    requires TabName(w.id, i) in form && forall j: nat :: j < i ==> TabName(w.id, j) !in form
    ensures var u := CollectedWidget(w, form);
        u.kind.TabView? && u.kind.hideTab == w.kind.hideTab && u.kind.clickedItem == i && Selected(u) == Selected(w)
  {
    assert Pressed(w.id, 0, |w.kind.hideTab|, form) == Some(i);
  }

  lemma {:induction false} UnpressedRepeats(w: Widget, n: nat)
    requires w.kind.TabView?
    requires 0 <= w.kind.clickedItem < |w.kind.hideTab| ==> w.kind.hideTab[w.kind.clickedItem]
    ensures Repeated(w, n) == w
    decreases n
  {
    if n > 0 {
      UnpressedRepeats(w, n - 1);
    }
  }

  // ----- the climb -----

  /** What an action without a target does once the nearest matrix is known. */
  lemma ClimbReaches<V>(f: Forest<V>, keys: Keys<V>, v: V, path: seq<V>, i: nat)
    requires v in Views(f) && WidgetOf(f, v).action == "" && i < |path| && IsMatrix(f, path[i])
    requires forall j :: 0 <= j < i ==> !IsMatrix(f, path[j])
    ensures v in SubsOf(f, path[i]) ==>
        && SendAction(f, keys, v, path) == SendAction(ClickCell(f, keys, path[i], v), keys, path[i], path[i + 1..])
        && ActionsOf(f, v, path) == ActionsOf(f, path[i], path[i + 1..])
    ensures v !in SubsOf(f, path[i]) ==> SendAction(f, keys, v, path) == f && ActionsOf(f, v, path) == []
  {
    hide ClickCell, WidgetOf, SubsOf;
    assert Nearest(f, path) == Some(i);
    assert Route(f, v, path) == if v in SubsOf(f, path[i]) then Some(i) else None;
  }

  lemma ClimbEnds<V>(f: Forest<V>, keys: Keys<V>, v: V, path: seq<V>)
    requires v in Views(f) && WidgetOf(f, v).action == "" && forall j :: 0 <= j < |path| ==> !IsMatrix(f, path[j])
    ensures SendAction(f, keys, v, path) == f && ActionsOf(f, v, path) == []
  {
    assert Nearest(f, path).None?;
  }

  // ----- one event after the other -----

  lemma {:induction false} PathStays<V>(f: Forest<V>, g: Forest<V>, v: V, above: seq<V>)
    requires Retouched(f, g) && v in Views(f)
    ensures v in Views(g) && PathOf(g, v, above) == PathOf(f, v, above)
  {
    hide Touched;
    Shape(f.subs, g.subs);
    Shape(f.items, g.items);
    Shape(f.next, g.next);
    if f.view == v {
    } else if v in Views(f.subs) {
      PathStays(f.subs, g.subs, v, [f.view] + above);
    } else if v in Views(f.items) {
      PathStays(f.items, g.items, v, []);
    } else {
      PathStays(f.next, g.next, v, above);
    }
  }

  lemma {:induction false} ActionsStay<V>(f: Forest<V>, g: Forest<V>, from: V, path: seq<V>)
    requires Retouched(f, g) && from in Views(f)
    ensures from in Views(g) && ActionsOf(g, from, path) == ActionsOf(f, from, path)
    decreases |path|
  {
    hide Retouched, Route, Views, WidgetOf, SubsOf, Nearest;
    RouteStays(f, g, from, path);
    RoleAt(f, g, from);
    match Route(f, from, path) {
      case Some(k) => ActionsStay(f, g, path[k], path[k + 1..]);
      case None =>
    }
  }

  /** What a mouseDown sends does not depend on what happened before it in the request. */
  lemma SendsStay<V>(f: Forest<V>, g: Forest<V>, v: V)
    requires Retouched(f, g) && v in Views(f)
    ensures v in Views(g) && ClickSends(g, v) == ClickSends(f, v)
  {
    hide Retouched;
    AlikeAt(f, g, v, None);
    PathStays(f, g, v, []);
    ActionsStay(f, g, v, PathOf(f, v, []));
  }

  lemma {:induction false} ClicksConcat<V>(f: Forest<V>, keys: Keys<V>, calls: seq<V>, v: V)
    requires v in Views(f) && forall x :: x in calls ==> x in Views(f)
    ensures Clicks(f, keys, calls + [v]) == Click(Clicks(f, keys, calls), keys, v)
    ensures ClicksSend(f, calls + [v]) == ClicksSend(f, calls) + ClickSends(f, v)
    decreases |calls|
  {
    hide Click, ClickSends;
    if calls == [] {
      assert [v][1..] == [] && calls + [v] == [v];
      assert Clicks(f, keys, [v]) == Clicks(Click(f, keys, v), keys, []);
      assert ClicksSend(f, [v]) == ClickSends(f, v) + ClicksSend(f, []);
    } else {
      assert (calls + [v])[1..] == calls[1..] + [v] && (calls + [v])[0] == calls[0];
      ClicksConcat(Click(f, keys, calls[0]), keys, calls[1..], v);
      SendsConcat(f, calls, v);
    }
  }

  lemma {:induction false} SendsConcat<V>(f: Forest<V>, calls: seq<V>, v: V)
    requires v in Views(f) && forall x :: x in calls ==> x in Views(f)
    ensures ClicksSend(f, calls + [v]) == ClicksSend(f, calls) + ClickSends(f, v)
    decreases |calls|
  {
    hide ClickSends;
    if calls == [] {
      assert [v][1..] == [] && calls + [v] == [v];
      assert ClicksSend(f, [v]) == ClickSends(f, v) + ClicksSend(f, []);
    } else {
      assert (calls + [v])[1..] == calls[1..] + [v] && (calls + [v])[0] == calls[0];
      SendsConcat(f, calls[1..], v);
      assert ClickSends(f, calls[0]) + (ClicksSend(f, calls[1..]) + ClickSends(f, v))
          == ClickSends(f, calls[0]) + ClicksSend(f, calls[1..]) + ClickSends(f, v);
    }
  }

  /** Delivering one event more. */
  lemma OneMoreEvent<V>(f: Forest<V>, keys: Keys<V>, content: Option<Forest<V>>, queue: seq<NSEvent<V>>, i: nat)
    requires Distinct(f) && i < |queue| && forall e :: e in queue ==> e.target in Views(f)
    ensures queue[i].target in Views(f)
    ensures forall x :: x in Calls(content, queue[..i]) ==> x in Views(f)
    ensures forall x :: x in Calls(content, queue[..i + 1]) ==> x in Views(f)
    ensures var before, after, v := Calls(content, queue[..i]), Calls(content, queue[..i + 1]), queue[i].target;
        if Reached(content, v) then
          && after == before + [v]
          && Clicks(f, keys, after) == Click(Clicks(f, keys, before), keys, v)
          && ClicksSend(f, after) == ClicksSend(f, before) + ClickSends(Clicks(f, keys, before), v)
        else after == before
  {
    hide Clicks, Click, ClicksSend, ClickSends, Retouched;
    var before, v := Calls(content, queue[..i]), queue[i].target;
    assert queue[..i + 1] == queue[..i] + [queue[i]] && queue[i] in queue;
    assert [queue[i]][1..] == [];
    CallsConcat(content, queue[..i], [queue[i]]);
    assert Calls(content, [queue[i]]) == if Reached(content, v) then [v] else [];
    CallsAreTargets(content, queue[..i]);
    forall x | x in before ensures x in Views(f) {
      var e :| e in queue[..i] && e.target == x;
      assert e in queue;
    }
    ClicksConcat(f, keys, before, v);
    ClicksRetouches(f, keys, before);
    SendsStay(f, Clicks(f, keys, before), v);
  }

  // ----- pressing one button -----

  lemma {:induction false} CalledCounts<V>(calls: seq<V>, x: V)
    ensures x in calls <==> Count(calls, x) > 0
  {
    if calls != [] {
      CalledCounts(calls[1..], x);
    }
  }

  /** When the id of a button was posted: it is called once, and besides it only tab views and
      pop-up buttons are. */
  ghost predicate PressCalls<V>(f: Forest<V>, calls: seq<V>, pressed: V) {
    && Count(calls, pressed) <= 1
    && forall x :: x in calls ==>
         x in Views(f) && (x == pressed || WidgetOf(f, x).kind.TabView? || WidgetOf(f, x).kind.PopUp?)
  }

  ghost predicate Posts<V>(f: Forest<V>, form: Form, content: Option<Forest<V>>, pressed: V)
  {
    && Proper(f) && Distinct(f) && DistinctIds(f) && pressed in Views(f) && WidgetOf(f, pressed).kind.Button?
    && Asked(f, pressed) && Reached(content, pressed) && Lookup(form, "NSEvent") == Some(WidgetOf(f, pressed).id)
  }

  lemma PostedCalls<V>(f: Forest<V>, form: Form, content: Option<Forest<V>>, pressed: V)
    requires Posts(f, form, content, pressed)
    ensures var calls := Calls(content, Queue(f, form));
        PressCalls(f, calls, pressed) && Count(calls, pressed) == 1
  {
    var calls := Calls(content, Queue(f, form));
    QueueTargets(f, form);
    CallsAreTargets(content, Queue(f, form));
    PostedEventArrives(f, form, content, pressed, pressed);
    forall x | x in calls && x != pressed
      ensures WidgetOf(f, x).kind.TabView? || WidgetOf(f, x).kind.PopUp?
    {
      CalledCounts(calls, x);
      PostedEventArrives(f, form, content, pressed, x);
    }
  }

  /** While an id is posted, collecting leaves buttons and matrices as they are. */
  lemma CollectLeaves<V>(f: Forest<V>, form: Form, x: V)
    requires Proper(f) && x in Views(f) && "NSEvent" in form
    ensures x in Views(Collect(f, form))
    ensures WidgetOf(f, x).kind.Button? || WidgetOf(f, x).kind.Matrix? ==> WidgetOf(Collect(f, form), x) == WidgetOf(f, x)
  {
    CollectedAt(f, form, x);
  }

  lemma PressCallsStay<V>(f: Forest<V>, g: Forest<V>, calls: seq<V>, pressed: V)
    requires Retouched(f, g) && PressCalls(f, calls, pressed)
    ensures PressCalls(g, calls, pressed)
  {
    hide Retouched;
    forall x | x in calls
      ensures x in Views(g) && (x == pressed || WidgetOf(g, x).kind.TabView? || WidgetOf(g, x).kind.PopUp?)
    {
      RoleAt(f, g, x);
    }
  }

  lemma PressCallsRest<V>(f: Forest<V>, calls: seq<V>, pressed: V)
    requires PressCalls(f, calls, pressed) && calls != []
    ensures PressCalls(f, calls[1..], pressed)
    ensures calls[0] == pressed ==> Count(calls[1..], pressed) == 0
  {
  }

  // ----- the matrix that holds the button -----

  /** What a click on button `i` makes of its matrix: the button takes its next state, and the
      selection moves to it unless it has an action of its own. */
  function Hit(g: Grids.Grid, i: nat, toggled: int, acts: bool): (h: Grids.Grid)
    requires g.columns > 0 && i < |g.states|
  {
    if acts then g.(states := g.states[i := toggled]) else Grids.Clicked(g, i, toggled)
  }

  /** The same for a matrix with these cells. */
  function HitIn<V(==)>(g: Grids.Grid, cells: seq<V>, pressed: V, w: Widget): (h: Grids.Grid)
    requires g.columns > 0 && |g.states| == |cells|
  {
    if pressed in cells then Hit(g, IndexOf(cells, pressed), State(ClickedWidget(w)), w.action != "") else g
  }

  lemma ToggledIs(w: Widget, u: Widget)
    requires w.kind.Button? && u.kind == w.kind && State(u) == State(w)
    ensures State(ClickedWidget(u)) == State(ClickedWidget(w))
  {
  }

  /** The clicks of a request hit a group of buttons in the pressed one only. */
  lemma {:induction false} ClicksGrid<V>(f: Forest<V>, keys: Keys<V>, m: V, calls: seq<V>, pressed: V)
    requires Distinct(f) && Group(f, m) && m in Views(f) && pressed in Views(f) && WidgetOf(f, pressed).kind.Button?
    requires PressCalls(f, calls, pressed)
    ensures var g, w := GridOf(f, keys, m), WidgetOf(f, pressed);
        GridOf(Clicks(f, keys, calls), keys, m) ==
        if Count(calls, pressed) == 1 then HitIn(g, SubsOf(f, m), pressed, w) else g
    decreases |calls|
  {
    hide Click, Retouched, ClickedWidget, GridOf, HitIn, Group, PressCalls, WidgetOf, Views, SubsOf;
    if calls != [] {
      var x := calls[0];
      FirstClick(f, keys, m, calls, pressed);
      var g := Click(f, keys, x);
      ClickRetouches(f, keys, x);
      GridFrom(f, g, keys, m);
      RoleAt(f, g, pressed);
      PressCallsStay(f, g, calls, pressed);
      PressCallsRest(g, calls, pressed);
      ClicksGrid(g, keys, m, calls[1..], pressed);
      SameToggle(f, g, keys, m, pressed);
    }
  }

  lemma SameToggle<V>(f: Forest<V>, g: Forest<V>, keys: Keys<V>, m: V, pressed: V)
    requires Retouched(f, g) && m in Views(f) && pressed in Views(f) && WidgetOf(f, pressed).kind.Button?
    ensures m in Views(g) && pressed in Views(g)
    ensures GridOf(g, keys, m) == GridOf(f, keys, m) ==>
        HitIn(GridOf(g, keys, m), SubsOf(g, m), pressed, WidgetOf(g, pressed))
        == HitIn(GridOf(f, keys, m), SubsOf(f, m), pressed, WidgetOf(f, pressed))
  {
    hide Retouched, ClickedWidget, Hit;
    GridFrom(f, g, keys, m);
    GridFrom(f, f, keys, m) by { Same(f); }
    AlikeAt(f, g, pressed, None);
    if GridOf(g, keys, m) == GridOf(f, keys, m) && pressed in SubsOf(f, m) {
      var i := IndexOf(SubsOf(f, m), pressed);
      assert GridOf(g, keys, m).states[i] == GridOf(f, keys, m).states[i];
      ToggledIs(WidgetOf(f, pressed), WidgetOf(g, pressed));
    }
  }

  lemma FirstClick<V>(f: Forest<V>, keys: Keys<V>, m: V, calls: seq<V>, pressed: V)
    requires Distinct(f) && Group(f, m) && pressed in Views(f) && WidgetOf(f, pressed).kind.Button?
    requires PressCalls(f, calls, pressed) && calls != []
    ensures calls[0] in Views(f)
    ensures var g, w := GridOf(f, keys, m), WidgetOf(f, pressed);
        GridOf(Click(f, keys, calls[0]), keys, m) ==
        if calls[0] == pressed then HitIn(g, SubsOf(f, m), pressed, w) else g
  {
    hide Click, Retouched, ClickedWidget, GridOf;
    var x := calls[0];
    assert x in calls;
    if x in SubsOf(f, m) {
      if WidgetOf(f, x).action == "" { ClickedCellGrid(f, keys, m, x); } else { ActingCellGrid(f, keys, m, x); }
    } else {
      OtherClickGrid(f, keys, m, x);
    }
  }

  /** End to end: a posted button hits its matrix, and no other group of buttons changes. */
  lemma PostedGrid<V>(f: Forest<V>, keys: Keys<V>, form: Form, content: Option<Forest<V>>, pressed: V, m: V)
    requires Posts(f, form, content, pressed) && Group(f, m)
    ensures var g, w := GridOf(f, keys, m), WidgetOf(f, pressed);
        GridOf(Handled(f, keys, form, content), keys, m) == HitIn(g, SubsOf(f, m), pressed, w)
  {
    hide Clicks, Retouched, HitIn, GridOf, Group, PressCalls;
    var c, calls := Collect(f, form), Calls(content, Queue(f, form));
    HandledIs(f, keys, form, content);
    PostedCalls(f, form, content, pressed);
    PressCallsStay(f, c, calls, pressed);
    CollectLeaves(f, form, pressed);
    CollectedGrid(f, keys, form, m);
    GridFrom(f, c, keys, m);
    ClicksGrid(c, keys, m, calls, pressed);
  }

  lemma CollectedGrid<V>(f: Forest<V>, keys: Keys<V>, form: Form, m: V)
    requires Proper(f) && Distinct(f) && Group(f, m) && "NSEvent" in form
    ensures m in Views(Collect(f, form)) && GridOf(Collect(f, form), keys, m) == GridOf(f, keys, m)
  {
    hide Retouched;
    CollectRetouches(f, form);
    CollectLeaves(f, form, m);
    forall c | c in SubsOf(f, m)
      ensures c in Views(f) && c in Views(Collect(f, form)) && Spared(f, Collect(f, form), c)
    {
      CollectLeaves(f, form, c);
    }
    GridSpared(f, Collect(f, form), keys, m);
  }

  /** Posting a button of a matrix in radio mode, one without an action of its own, leaves exactly
      that button on if and only if every other one but the selected one was off and the matrix
      finds the button again. */
  lemma PostedButtonIsOn<V>(f: Forest<V>, keys: Keys<V>, form: Form, content: Option<Forest<V>>, pressed: V, m: V)
    requires Posts(f, form, content, pressed) && Group(f, m) && pressed in SubsOf(f, m)
    requires WidgetOf(f, pressed).action == "" && WidgetOf(f, m).kind.radioMode && Grids.Keyed(GridOf(f, keys, m))
    ensures var g, h := GridOf(f, keys, m), GridOf(Handled(f, keys, form, content), keys, m);
        var i, toggled := IndexOf(SubsOf(f, m), pressed), State(ClickedWidget(WidgetOf(f, pressed)));
        Grids.OnlyOn(h.states, Some(i)) <==>
        && Grids.OffBut(g.states, Some(i), Grids.Selected(g))
        && (g.keys[i] == i || (i !in g.keys && toggled == Grids.ON && Grids.Selected(g) != Some(i)))
  {
    hide Handled, ClickedWidget, Grids.OnlyOn, Grids.OffBut;
    PostedGrid(f, keys, form, content, pressed, m);
    var i, toggled := IndexOf(SubsOf(f, m), pressed), State(ClickedWidget(WidgetOf(f, pressed)));
    Grids.ClickSelectsOnly(GridOf(f, keys, m), i, toggled);
  }

  // ----- every single button -----

  /** Wherever the view is a cell in radio mode, it is one of buttons only. */
  ghost predicate AmongButtons<V>(f: Forest<V>, keys: Keys<V>, b: V)
  {
    forall p :: p in Views(f) && Holds(f, p, b) ==> Group(f, p) && Grids.Keyed(GridOf(f, keys, p))
  }

  ghost predicate Holds<V>(f: Forest<V>, p: V, b: V)
  {
    p in Views(f) && WidgetOf(f, p).kind.Matrix? && WidgetOf(f, p).kind.radioMode && b in SubsOf(f, p)
  }

  ghost predicate Unheld<V>(f: Forest<V>, b: V)
  {
    forall p :: p in Views(f) ==> !Holds(f, p, b)
  }

  lemma {:induction false} UnheldUnheard<V>(f: Forest<V>, from: V, path: seq<V>, b: V)
    requires from in Views(f) && b in Views(f) && WidgetOf(f, b).kind.Button? && Unheld(f, b)
    ensures Unheard(f, from, path, b)
    decreases |path|
  {
    match Route(f, from, path) {
      case Some(k) =>
        assert !Holds(f, path[k], b);
        UnheldUnheard(f, path[k], path[k + 1..], b);
      case None =>
    }
  }

  /** A button that no matrix in radio mode holds is changed by the clicks on itself only. */
  lemma UnheldClick<V>(f: Forest<V>, keys: Keys<V>, v: V, b: V)
    requires Distinct(f) && v in Views(f) && b in Views(f) && WidgetOf(f, b).kind.Button? && Unheld(f, b)
    ensures WidgetOf(Click(f, keys, v), b) == if v == b then ClickedWidget(WidgetOf(f, b)) else WidgetOf(f, b)
  {
    hide Retouched, ClickedWidget, Unheard;
    assert !Holds(f, v, b);
    UnheldUnheard(f, v, PathOf(f, v, []), b);
    if v != b {
      ClickSpares(f, keys, v, b);
    } else {
      var g := Put(f, v, ClickedWidget(WidgetOf(f, v)));
      PutRetouches(f, v, ClickedWidget(WidgetOf(f, v)));
      Distinctness(f, g);
      PutAt(f, v, ClickedWidget(WidgetOf(f, v)), b);
      UnheardStays(f, g, v, PathOf(f, v, []), b);
      SendSpares(g, keys, v, PathOf(f, v, []), b);
    }
  }

  lemma HoldsStays<V>(f: Forest<V>, g: Forest<V>, b: V)
    requires Retouched(f, g) && Unheld(f, b)
    ensures Unheld(g, b)
  {
    hide Retouched;
    Shape(f, g);
    forall p | p in Views(g) ensures !Holds(g, p, b) {
      assert !Holds(f, p, b);
      if p in Views(f) {
        RoleAt(f, g, p);
      }
    }
  }

  lemma {:induction false} UnheldClicks<V>(f: Forest<V>, keys: Keys<V>, calls: seq<V>, b: V)
    requires Distinct(f) && b in Views(f) && WidgetOf(f, b).kind.Button? && Unheld(f, b)
    requires forall x :: x in calls ==> x in Views(f)
    ensures Count(calls, b) == 0 ==> WidgetOf(Clicks(f, keys, calls), b) == WidgetOf(f, b)
    ensures Count(calls, b) == 1 ==> WidgetOf(Clicks(f, keys, calls), b) == ClickedWidget(WidgetOf(f, b))
    decreases |calls|
  {
    hide Click, Retouched, ClickedWidget, Holds, WidgetOf;
    if calls != [] {
      var g := Click(f, keys, calls[0]);
      UnheldClick(f, keys, calls[0], b);
      ClickRetouches(f, keys, calls[0]);
      RoleAt(f, g, b);
      HoldsStays(f, g, b);
      UnheldClicks(g, keys, calls[1..], b);
    }
  }

  lemma PostedUnheld<V>(f: Forest<V>, keys: Keys<V>, form: Form, content: Option<Forest<V>>, pressed: V, b: V)
    requires Posts(f, form, content, pressed)
    requires b in Views(f) && WidgetOf(f, b).kind.Button? && Unheld(f, b)
    ensures WidgetOf(Handled(f, keys, form, content), b)
        == if b == pressed then ClickedWidget(WidgetOf(f, b)) else WidgetOf(f, b)
  {
    hide Clicks, Retouched, ClickedWidget, Holds, PressCalls;
    var c, calls := Collect(f, form), Calls(content, Queue(f, form));
    HandledIs(f, keys, form, content);
    PostedCalls(f, form, content, pressed);
    CollectLeaves(f, form, b);
    HoldsStays(f, c, b);
    UnheldClicks(c, keys, calls, b);
    if b != pressed {
      PostedEventArrives(f, form, content, pressed, b);
    }
  }

  /** The matrix in radio mode that a press of the view moves. */
  ghost predicate Moves<V>(f: Forest<V>, pressed: V, p: V)
    requires pressed in Views(f)
  {
    Holds(f, p, pressed) && WidgetOf(f, pressed).action == ""
  }

  /** The state of a clicked button: checkboxes and radio buttons cycle, others stay. */
  function Toggled(w: Widget): (state: int)
    requires w.kind.Button?
    ensures State(ClickedWidget(w)) == state
  {
    if w.kind.buttonType.PushButton? then State(w)
    else if State(w) == 0 then 1
    else if State(w) > 0 && w.kind.allowsMixedState then -1
    else 0
  }

  /** The cell that a matrix reads at the place of one of its cells: that cell itself, as long as
      none before it was removed. */
  ghost function ReadAt<V>(f: Forest<V>, keys: Keys<V>, p: V, c: V): (r: Option<V>)
    requires p in Views(f) && c in SubsOf(f, p)
    ensures r.Some? ==> r.value in SubsOf(f, p)
  {
    match PositionOf(GridOf(f, keys, p).keys, IndexOf(SubsOf(f, p), c))
    case Some(i) => if i < |SubsOf(f, p)| then Some(SubsOf(f, p)[i]) else None
    case None => None
  }

  ghost predicate TurnsOn<V>(f: Forest<V>, keys: Keys<V>, pressed: V, p: V, b: V)
    requires pressed in Views(f)
  {
    Moves(f, pressed, p) && ReadAt(f, keys, p, pressed) == Some(b)
  }

  ghost predicate TurnsOff<V>(f: Forest<V>, keys: Keys<V>, pressed: V, p: V, b: V)
    requires pressed in Views(f)
  {
    Moves(f, pressed, p) && SelectedCell(f, keys, p) == Some(b)
  }

  /** End to end, for every button of a window: if the posted button moves a matrix in radio mode,
      the button that the matrix reads at its place goes on and the one that it had selected goes
      off; apart from that the posted button takes its next state, and every other button keeps
      its state. */
  lemma PostedButtonChanges<V>(
      f: Forest<V>, keys: Keys<V>, form: Form, content: Option<Forest<V>>, pressed: V, b: V)
    requires Posts(f, form, content, pressed) && b in Views(f) && WidgetOf(f, b).kind.Button? && AmongButtons(f, keys, b)
    ensures State(WidgetOf(Handled(f, keys, form, content), b)) ==
        if exists p :: TurnsOn(f, keys, pressed, p, b) then Grids.ON
        else if exists p :: TurnsOff(f, keys, pressed, p, b) then Grids.OFF
        else if b == pressed then Toggled(WidgetOf(f, b))
        else State(WidgetOf(f, b))
  {
    hide Handled, ClickedWidget, Retouched, TurnsOn, TurnsOff, AmongButtons, Holds, WidgetOf, Distinct, Proper, DistinctIds;
    if p :| p in Views(f) && Holds(f, p, b) {
      TurnsHeld(f, keys, pressed, p, b);
      HeldButtonState(f, keys, form, content, pressed, p, b);
    } else {
      PostedUnheld(f, keys, form, content, pressed, b);
      TurnsUnheld(f, keys, pressed, b);
    }
  }

  /** While no cell was removed, a matrix reads every cell at its own place. */
  lemma DenseReads<V>(f: Forest<V>, keys: Keys<V>, p: V, c: V)
    requires p in Views(f) && c in SubsOf(f, p)
    requires Grids.Keyed(GridOf(f, keys, p)) && Grids.Dense(GridOf(f, keys, p).keys)
    ensures ReadAt(f, keys, p, c) == Some(c)
  {
    Grids.PositionIs(GridOf(f, keys, p).keys, IndexOf(SubsOf(f, p), c));
  }

  lemma TurnsUnheld<V>(f: Forest<V>, keys: Keys<V>, pressed: V, b: V)
    requires pressed in Views(f) && Unheld(f, b)
    ensures !exists p :: TurnsOn(f, keys, pressed, p, b)
    ensures !exists p :: TurnsOff(f, keys, pressed, p, b)
  {
    hide GridOf;
    forall p | Moves(f, pressed, p) ensures SelectedCell(f, keys, p) != Some(b) && ReadAt(f, keys, p, pressed) != Some(b) {
      assert !Holds(f, p, b);
    }
  }

  lemma TurnsHeld<V>(f: Forest<V>, keys: Keys<V>, pressed: V, p: V, b: V)
    requires Distinct(f) && pressed in Views(f) && Holds(f, p, b)
    ensures (exists q :: TurnsOn(f, keys, pressed, q, b)) <==> TurnsOn(f, keys, pressed, p, b)
    ensures (exists q :: TurnsOff(f, keys, pressed, q, b)) <==> TurnsOff(f, keys, pressed, p, b)
  {
    hide GridOf, WidgetOf, SubsOf, Views, Distinct;
    forall q | Moves(f, pressed, q) && (ReadAt(f, keys, q, pressed) == Some(b) || SelectedCell(f, keys, q) == Some(b))
      ensures q == p
    {
      HeldByOne(f, p, q, b);
    }
  }

  lemma HeldByOne<V>(f: Forest<V>, p: V, q: V, b: V)
    requires Distinct(f) && Holds(f, p, b) && q in Views(f) && b in SubsOf(f, q)
    ensures q == p
  {
    ChildHasOneParent(f, p, b, q, None);
  }

  lemma HeldButtonState<V>(
      f: Forest<V>, keys: Keys<V>, form: Form, content: Option<Forest<V>>, pressed: V, p: V, b: V)
    requires Posts(f, form, content, pressed) && b in Views(f) && WidgetOf(f, b).kind.Button?
    requires Holds(f, p, b) && AmongButtons(f, keys, b)
    ensures State(WidgetOf(Handled(f, keys, form, content), b)) ==
        if TurnsOn(f, keys, pressed, p, b) then Grids.ON
        else if TurnsOff(f, keys, pressed, p, b) then Grids.OFF
        else if b == pressed then Toggled(WidgetOf(f, b))
        else State(WidgetOf(f, b))
  {
    hide Handled, ClickedWidget, Retouched, Hit, GridOf, Group, Views, WidgetOf, SubsOf, Distinct, Proper, DistinctIds, Asked,
      Grids.Keyed, Grids.Selected, ReadAt, SelectedCell;
    var cells, g := SubsOf(f, p), GridOf(f, keys, p);
    var h := Handled(f, keys, form, content);
    var j, w := IndexOf(cells, b), WidgetOf(f, pressed);
    HandledRetouches(f, keys, form, content);
    PostedGrid(f, keys, form, content, pressed, p);
    StateInGrid(f, h, keys, p, b);
    StateInGrid(f, f, keys, p, b) by { Same(f); }
    SelectedInGrid(f, keys, p, b);
    if pressed in cells {
      ReadInGrid(f, keys, p, pressed, b);
      HitStates(g, IndexOf(cells, pressed), State(ClickedWidget(w)), w.action != "", j);
      assert j == IndexOf(cells, pressed) ==> b == pressed;
    }
  }

  lemma StateInGrid<V>(f: Forest<V>, h: Forest<V>, keys: Keys<V>, p: V, b: V)
    requires Retouched(f, h) && p in Views(f) && b in SubsOf(f, p)
    ensures p in Views(h) && b in Views(h)
    ensures var g := GridOf(h, keys, p); var j := IndexOf(SubsOf(f, p), b);
        |g.states| == |SubsOf(f, p)| && State(WidgetOf(h, b)) == g.states[j]
  {
    hide Retouched, GridOf, Views, WidgetOf, SubsOf;
    GridFrom(f, h, keys, p);
  }

  lemma SelectedInGrid<V>(f: Forest<V>, keys: Keys<V>, p: V, b: V)
    requires Distinct(f) && Holds(f, p, b)
    ensures SelectedCell(f, keys, p) == Some(b)
        <==> Grids.Selected(GridOf(f, keys, p)) == Some(IndexOf(SubsOf(f, p), b))
    ensures GridOf(f, keys, p).radioMode
  {
    hide Grids.Selected;
    CellsDistinct(f, p);
  }

  lemma ReadInGrid<V>(f: Forest<V>, keys: Keys<V>, p: V, c: V, b: V)
    requires Distinct(f) && p in Views(f) && c in SubsOf(f, p) && b in SubsOf(f, p) && Grids.Keyed(GridOf(f, keys, p))
    ensures ReadAt(f, keys, p, c) == Some(b)
        <==> GridOf(f, keys, p).keys[IndexOf(SubsOf(f, p), b)] == IndexOf(SubsOf(f, p), c)
  {
    hide GridOf, SubsOf, Views, Distinct, PositionOf, IndexOf;
    var g, cells := GridOf(f, keys, p), SubsOf(f, p);
    CellsDistinct(f, p);
    var i, j := IndexOf(cells, c), IndexOf(cells, b);
    if g.keys[j] == i {
      Grids.PositionIs(g.keys, j);
    }
    var r := PositionOf(g.keys, i);
    assert r.Some? ==> g.keys[r.value] == i && (r.value != j ==> cells[r.value] != b);
  }

  lemma HitStates(g: Grids.Grid, i: nat, toggled: int, acts: bool, j: nat)
    requires Grids.Keyed(g) && g.radioMode && i < |g.states| && j < |g.states|
    ensures Hit(g, i, toggled, acts).states[j] ==
        if !acts && g.keys[j] == i then Grids.ON
        else if !acts && Grids.Selected(g) == Some(j) then Grids.OFF
        else if j == i then toggled
        else g.states[j]
  {
    Grids.ClickedStates(g, i, toggled);
  }

  // ----- what a press sends -----

  /** The view whose action is sent for a view: itself if it has one, else that of its superview
      as long as this is a matrix. */
  ghost function Actor<V>(f: Forest<V>, v: V): (a: Option<V>)
    requires Distinct(f) && v in Views(f)
    ensures a.Some? ==> a.value in Views(f) && WidgetOf(f, a.value).action != ""
    decreases |PathOf(f, v, [])|
  {
    PathStep(f, v, [], None);
    if WidgetOf(f, v).action != "" then Some(v)
    else match ParentOf(f, v, None)
      case Some(p) => if IsMatrix(f, p) then Actor(f, p) else None
      case None => None
  }

  ghost function ActorSends<V>(f: Forest<V>, v: V): seq<(V, string)>
    requires Distinct(f) && v in Views(f)
  {
    match Actor(f, v)
    case Some(a) => [(a, WidgetOf(f, a).action)]
    case None => []
  }

  /** The climb from superview to superview finds the nearest matrix exactly where the superview is
      one. */
  lemma RouteIsParent<V>(f: Forest<V>, v: V)
    requires Distinct(f) && v in Views(f) && WidgetOf(f, v).action == ""
    ensures var path, q := PathOf(f, v, []), ParentOf(f, v, None);
        if q.Some? && IsMatrix(f, q.value)
        then path != [] && path[0] == q.value && path[1..] == PathOf(f, q.value, []) && Route(f, v, path) == Some(0)
        else Route(f, v, path).None?
  {
    var path, q := PathOf(f, v, []), ParentOf(f, v, None);
    PathStep(f, v, [], None);
    if q.Some? && IsMatrix(f, q.value) {
      assert Nearest(f, path) == Some(0);
      ParentHasChild(f, v, q.value, None);
    } else if Route(f, v, path).Some? {
      var m := path[Route(f, v, path).value];
      ChildHasOneParent(f, m, v, m, None);
    }
  }

  lemma {:induction false} ActionIsActors<V>(f: Forest<V>, v: V)
    requires Distinct(f) && v in Views(f)
    ensures ActionsOf(f, v, PathOf(f, v, [])) == ActorSends(f, v)
    decreases |PathOf(f, v, [])|
  {
    hide Route, Nearest, Distinct, ParentOf, Views;
    if WidgetOf(f, v).action == "" {
      RouteIsParent(f, v);
      var path, q := PathOf(f, v, []), ParentOf(f, v, None);
      if q.Some? && IsMatrix(f, q.value) {
        ActionIsActors(f, q.value);
      }
    }
  }

  /** Exactly the controls send something when they are clicked: their own action or that of the first
      acting matrix on the climb. */
  lemma WhoSends<V>(f: Forest<V>, v: V)
    requires Distinct(f) && v in Views(f)
    ensures var kind := WidgetOf(f, v).kind;
        ClickSends(f, v) ==
        if kind.Button? || kind.PopUp? || kind.TextField? || kind.Matrix? then ActorSends(f, v) else []
  {
    hide ActorSends, ActionsOf;
    ActionIsActors(f, v);
  }

  lemma {:induction false} ClicksSendStays<V>(f: Forest<V>, g: Forest<V>, calls: seq<V>)
    requires Retouched(f, g) && forall x :: x in calls ==> x in Views(f)
    ensures forall x :: x in calls ==> x in Views(g)
    ensures ClicksSend(g, calls) == ClicksSend(f, calls)
  {
    hide Retouched, ClickSends;
    Shape(f, g);
    if calls != [] {
      SendsStay(f, g, calls[0]);
      ClicksSendStays(f, g, calls[1..]);
    }
  }

  lemma {:induction false} QuietSends<V>(f: Forest<V>, calls: seq<V>)
    requires forall x :: x in calls ==> x in Views(f) && WidgetOf(f, x).kind.TabView?
    ensures ClicksSend(f, calls) == []
  {
    if calls != [] {
      QuietSends(f, calls[1..]);
    }
  }

  lemma {:induction false} SendsSplit<V>(f: Forest<V>, calls: seq<V>, v: V) returns (before: seq<V>, after: seq<V>)
    requires v in calls && forall x :: x in calls ==> x in Views(f)
    ensures calls == before + [v] + after
    ensures ClicksSend(f, calls) == ClicksSend(f, before) + ClickSends(f, v) + ClicksSend(f, after)
  {
    hide ClickSends;
    if calls[0] == v {
      before, after := [], calls[1..];
      assert calls == [] + [v] + calls[1..];
    } else {
      before, after := SendsSplit(f, calls[1..], v);
      before := [calls[0]] + before;
      assert before[1..] + [v] + after == calls[1..];
      assert before[0] == calls[0];
    }
  }

  /** End to end: a posted button sends its own action, or that of the first acting matrix on the
      climb, exactly once, and nothing if there is none. Whatever else is sent comes from pop-up
      buttons that were changed. */
  lemma PostedButtonSends<V>(f: Forest<V>, form: Form, content: Option<Forest<V>>, pressed: V)
    returns (before: seq<V>, after: seq<V>)
    requires Posts(f, form, content, pressed)
    ensures forall x :: x in before + after ==>
        x in Views(f) && x != pressed && (WidgetOf(f, x).kind.TabView? || WidgetOf(f, x).kind.PopUp?)
    ensures HandledSends(f, form, content) == ClicksSend(f, before) + ActorSends(f, pressed) + ClicksSend(f, after)
    ensures (forall x :: x in before + after ==> WidgetOf(f, x).kind.TabView?) ==>
        HandledSends(f, form, content) == ActorSends(f, pressed)
  {
    hide ClicksSend, ClickSends, ActionsOf, ActorSends, Retouched, Calls, Queue, Collect, PathOf;
    var calls := Calls(content, Queue(f, form));
    PostedCalls(f, form, content, pressed);
    CollectRetouches(f, form);
    ClicksSendStays(f, Collect(f, form), calls);
    CalledCounts(calls, pressed);
    before, after := SendsSplit(f, calls, pressed);
    CountedOnce(before, pressed, after);
    ButtonSends(f, pressed);
    forall x | x in before + after ensures x in calls {}
    if forall x :: x in before + after ==> WidgetOf(f, x).kind.TabView? {
      forall x | x in before ensures WidgetOf(f, x).kind.TabView? { assert x in before + after; }
      forall x | x in after ensures WidgetOf(f, x).kind.TabView? { assert x in before + after; }
      QuietSends(f, before);
      QuietSends(f, after);
      assert [] + ActorSends(f, pressed) + [] == ActorSends(f, pressed);
    }
  }

  lemma ButtonSends<V>(f: Forest<V>, v: V)
    requires Distinct(f) && v in Views(f) && WidgetOf(f, v).kind.Button?
    ensures ClickSends(f, v) == ActorSends(f, v)
  {
    ActionIsActors(f, v);
  }

  lemma {:induction false} CountedOnce<V>(before: seq<V>, v: V, after: seq<V>)
    requires Count(before + [v] + after, v) == 1
    ensures v !in before && v !in after
  {
    var calls := before + [v] + after;
    if before == [] {
      assert calls[1..] == after;
      CalledCounts(after, v);
    } else {
      assert calls[1..] == before[1..] + [v] + after;
      CalledCounts(calls[1..], v);
      assert v in calls[1..];
      CountedOnce(before[1..], v, after);
    }
  }

  // ----- a matrix that lost a cell -----

  /** A radio matrix 1 in one column. It had three buttons; the first was removed, so that the
      keys of the other two, 2 and 3, are one beyond their places. */
  function ThinnedMatrix(): Forest<nat>
  {
    var place := map["selectedRow" := Int(0), "selectedColumn" := Int(0)];
    var persists := [Persistor("selectedRow", None, Int(0)), Persistor("selectedColumn", None, Int(0))];
    Node(1, Widget(Matrix(1, true, -1, -1), "1", false, "", place, persists),
         Node(2, RadioButton("2"), Nil, Nil, Node(3, RadioButton("3"), Nil, Nil, Nil)), Nil, Nil)
  }

  function RadioButton(id: string): Widget
  {
    Widget(Button(Radio, false), id, false, "", map["state" := Int(0)], [Persistor("state", None, Int(0))])
  }

  const THINNED_KEYS: Keys<nat> := map[1 := [1, 2]]

  lemma ThinnedShape()
    ensures var f := ThinnedMatrix();
        && Proper(f) && Distinct(f) && Views(f) == {1, 2, 3} && SubsOf(f, 1) == [2, 3] && Group(f, 1)
        && WidgetOf(f, 2) == RadioButton("2") && WidgetOf(f, 3) == RadioButton("3") && WidgetOf(f, 1) == f.w
  {
    var f := ThinnedMatrix();
    var second := f.subs.next;
    assert Views(second) == {3} && Views(f.subs) == {2, 3} && Views(f) == {1, 2, 3};
    assert Proper(second) && Proper(f.subs);
    assert Tops(second) == [3] && [2] + [3] == [2, 3];
    assert TreeOf(f, 1) == Tree(f);
    assert WidgetOf(f, 3) == WidgetOf(f.subs, 3) == second.w;
  }

  /** Pressing its second button turns both buttons on: the matrix reads the other one at the place
      of the pressed one. */
  lemma ThinnedMatrixFails(form: Form)
    requires form == map["NSEvent" := "3"]
    ensures var f := ThinnedMatrix();
        && Posts(f, form, None, 3) && 1 in Views(f)
        && GridOf(Handled(f, THINNED_KEYS, form, None), THINNED_KEYS, 1).states == [Grids.ON, Grids.ON]
  {
    var f := ThinnedMatrix();
    ThinnedShape();
    ThinnedPosts(form);
    PostedGrid(f, THINNED_KEYS, form, None, 3, 1);
    ThinnedGrid();
    ThinnedHit();
  }

  lemma ThinnedPosts(form: Form)
    requires form == map["NSEvent" := "3"]
    ensures Posts(ThinnedMatrix(), form, None, 3)
  {
    var f := ThinnedMatrix();
    ThinnedShape();
    assert DistinctIds(f) by {
      assert "1"[0] != "2"[0] && "1"[0] != "3"[0] && "2"[0] != "3"[0];
    }
  }

  const THINNED := Grids.Grid([0, 0], [1, 2], 1, true, 0, 0)

  lemma ThinnedGrid()
    ensures 1 in Views(ThinnedMatrix()) && GridOf(ThinnedMatrix(), THINNED_KEYS, 1) == THINNED
  {
    var f := ThinnedMatrix();
    ThinnedShape();
    var g := GridOf(f, THINNED_KEYS, 1);
    assert g.states[0] == 0 && g.states[1] == 0;
    assert g.states == [0, 0];
  }

  lemma ThinnedHit()
    ensures var w := RadioButton("3");
        HitIn(THINNED, [2, 3], 3, w).states == [Grids.ON, Grids.ON]
  {
    Grids.ClickedStates(THINNED, 1, 1);
  }
}
