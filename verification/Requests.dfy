/** Any number of requests: the page of one window is posted, the next request builds the views
    again, handles the form and displays the window that the next page is drawn from. */
module Requests {
  import opened Php
  import opened Persistence
  import opened Pages
  import opened PageLaws
  import opened RoundTrip
  import opened Retouch
  import opened Showing
  import opened Dispatch
  import opened Surgery
  import opened Hierarchy
  import opened Links
  import opened Actions
  import opened Matrices
  import opened Delivery
  import opened Controls
  import opened PopUp
  import Grids

  // ----- one request -----

  ghost predicate Built<V>(f: Forest<V>) {
    Proper(f) && Distinct(f) && Unique(f) && FieldDefaults(f)
  }

  lemma RebuiltIsBuilt<V>(f: Forest<V>, form: Form)
    requires Proper(f) && Distinct(f)
    ensures var r := Rebuild(f, form); Proper(r) && Distinct(r) && Views(r) == Views(f)
  {
    var r := Rebuild(f, form);
    Shape(f, r);
    Properness(f, r);
    Distinctness(f, r);
  }

  /** The window that the next request displays. */
  ghost function NextWindow<V>(f: Forest<V>, keys: Keys<V>, form: Form, content: Option<Forest<V>>): (g: Forest<V>)
    requires Proper(f) && Distinct(f)
    ensures Views(g) == Views(f)
  {
    RebuiltIsBuilt(f, form);
    Shown(Handled(Rebuild(f, form), keys, form, content), Every, true)
  }

  lemma NextRetouches<V>(f: Forest<V>, keys: Keys<V>, form: Form, content: Option<Forest<V>>)
    requires Proper(f) && Distinct(f)
    ensures var g := NextWindow(f, keys, form, content);
        && Retouched(f, g) && Proper(g) && Distinct(g) && (Built(f) ==> Built(g))
  {
    hide Retouched, Handled, Shown;
    var r := Rebuild(f, form);
    RebuiltIsBuilt(f, form);
    HandledRetouches(r, keys, form, content);
    var h := Handled(r, keys, form, content);
    ShownRetouches(h, Every, true);
    var g := Shown(h, Every, true);
    Twice(f, r, h);
    Twice(f, h, g);
    Properness(f, g);
    Distinctness(f, g);
    Uniqueness(f, g);
    if Built(f) {
      FieldDefaultsStay(f, g);
    }
  }

  /** The browser sends back what the page holds under the names of a view. */
  ghost predicate Faithful<V>(f: Forest<V>, v: V, form: Form)
    requires Proper(f) && v in Views(f)
  {
    forall n :: n in OwnNames(WidgetOf(f, v)) ==> Lookup(form, n) == Lookup(Echo(Page(f)), n)
  }

  /** Whatever else the form holds, a view whose names were sent back faithfully is constructed
      with the properties that displaying left, converted. */
  lemma RebuiltFaithfully<V>(f: Forest<V>, form: Form, v: V)
    requires Built(f) && v in Views(f) && Faithful(f, v, form) && !WidgetOf(f, v).kind.TextField?
    ensures var g := Shown(f, Every, true);
        && v in Views(Rebuild(f, form)) && v in Views(g)
        && WidgetOf(Rebuild(f, form), v) == ConvertedWidget(WidgetOf(g, v))
  {
    hide Page, Echo, Drawn, HiddenAfter, ConvertedWidget, RebuiltWidget, Constructed, Converted, Retouched, ProperWidget, Shown;
    var g := Displayed(f);
    DisplayedAt(f, v);
    WidgetsAreProper(g, v);
    RebuildShown(f, Every, true, form);
    RebuiltAt(g, form, v);
    SameNames(WidgetOf(f, v), WidgetOf(g, v));
    var w := WidgetOf(g, v);
    forall i | 0 <= i < |w.persists|
      ensures w.persists[i].property in w.props
      ensures Constructed(w.id, w.persists[i], form) == Converted(w.persists[i], w.props[w.persists[i].property])
    {
      PersistsInProps(w, i);
      PropertyCarried(f, v, i);
      SameConstructed(w, w.persists[i], form, Echo(Page(f)));
    }
    RebuiltIsConverted(w, form);
  }

  lemma SameNames(w: Widget, u: Widget)
    requires Touched(w, u)
    ensures OwnNames(u) == OwnNames(w)
  {
  }

  lemma PersistsInProps(w: Widget, i: nat)
    requires ProperWidget(w) && i < |w.persists|
    ensures w.persists[i].property in w.props && Claims(w.id, w.persists[i]) <= OwnNames(w)
  {
    forall n | n in Claims(w.id, w.persists[i]) ensures n in OwnNames(w) {
      ClaimsAreOwn(w, i);
    }
  }

  lemma SameConstructed(w: Widget, p: Persistor, form: Form, echo: Form)
    requires Claims(w.id, p) <= OwnNames(w)
    requires forall n :: n in OwnNames(w) ==> Lookup(form, n) == Lookup(echo, n)
    ensures Constructed(w.id, p, form) == Constructed(w.id, p, echo)
  {
    var n, m := NameOf(w.id, p), AutoName(w.id, p.property);
    assert n in Claims(w.id, p) && m in Claims(w.id, p);
    assert Lookup(form, n) == Lookup(echo, n) && Lookup(form, m) == Lookup(echo, m);
  }

  // ----- what displaying does to a matrix -----

  lemma {:induction false} DerivedTree<V>(f: Forest<V>, m: Widget, row: int, column: int, v: V)
    requires m.kind.Matrix? && v in Views(f) && WidgetOf(f, v).kind.Matrix?
    ensures TreeOf(Derived(f, m, row, column), v) == TreeOf(f, v)
    ensures OnDisplay(Derived(f, m, row, column), v, Every) == OnDisplay(f, v, Every)
  {
    if f.view != v && v !in Views(f.subs) && v !in Views(f.items) {
      if column + 1 >= m.kind.columns {
        DerivedTree(f.next, m, row + 1, 0, v);
      } else {
        DerivedTree(f.next, m, row, column + 1, v);
      }
    }
  }

  /** The tree of a matrix with its cells displayed. */
  function WithCellsShown<V>(t: Forest<V>): Forest<V>
    requires t.Node?
  {
    t.(subs := ShownSubs(t.w, t.subs))
  }

  /** A matrix on display shows its cells, any other matrix is left alone. */
  lemma {:induction false} ShownTree<V>(f: Forest<V>, pick: Pick, top: bool, v: V)
    requires Proper(f) && v in Views(f) && WidgetOf(f, v).kind.Matrix?
    ensures TreeOf(Shown(f, pick, top), v) == if OnDisplay(f, v, pick) then WithCellsShown(TreeOf(f, v)) else TreeOf(f, v)
    decreases Size(f), 0
  {
    hide ProperWidget, WithCellsShown, ShownSubs, ShownWidget, Draws, Length;
    var Node(u, w, subs, items, next) := f;
    var g := Shown(f, pick, top);
    if u == v {
      ShownMatrix(f, top);
      assert TreeOf(g, v) == Tree(g);
    } else if v in Views(subs) {
      assert TreeOf(g, v) == TreeOf(g.subs, v);
      ShownSubsTree(w, subs, v);
    } else if v in Views(items) {
      assert TreeOf(g, v) == TreeOf(g.items, v);
      ShownTree(items, Only(Selected(w)), true, v);
    } else {
      assert TreeOf(g, v) == TreeOf(g.next, v);
      ShownTree(next, Next(pick), top, v);
    }
  }

  lemma ShownMatrix<V>(f: Forest<V>, top: bool)
    requires f.Node? && Proper(f) && f.w.kind.Matrix?
    ensures ShownWidget(f.w, top) == f.w && ShownItems(f.w, f.items) == f.items
    ensures Tree(f.(subs := ShownSubs(f.w, f.subs))) == WithCellsShown(Tree(f))
    ensures f.w.hidden ==> ShownSubs(f.w, f.subs) == f.subs
  {
  }

  lemma {:induction false} ShownSubsTree<V>(w: Widget, subs: Forest<V>, v: V)
    requires Proper(subs) && v in Views(subs) && WidgetOf(subs, v).kind.Matrix?
    ensures TreeOf(ShownSubs(w, subs), v) ==
        if !w.hidden && !w.kind.TabView? && OnDisplay(subs, v, Every) then WithCellsShown(TreeOf(subs, v)) else TreeOf(subs, v)
    decreases Size(subs), 1
  {
    hide ProperWidget, WithCellsShown, Derived, Shown, OnDisplay, TreeOf;
    ShownTree(subs, Every, false, v);
    if w.kind.Matrix? {
      DerivedTree(subs, w, 0, 0, v);
      DerivedProper(subs, w, 0, 0);
      ShownTree(Derived(subs, w, 0, 0), Every, false, v);
    }
  }

  /** The states of the views at the top of a list. */
  ghost function TopStates<V>(f: Forest<V>): (s: seq<int>)
    ensures |s| == |Tops(f)|
  {
    if f.Nil? then [] else [State(f.w)] + TopStates(f.next)
  }

  lemma {:induction false} ShownTops<V>(f: Forest<V>)
    ensures TopStates(Shown(f, Every, false)) == TopStates(f)
  {
    if f.Node? {
      ShownTops(f.next);
    }
  }

  ghost predicate ButtonTops<V>(f: Forest<V>) {
    f.Node? ==> f.w.kind.Button? && ButtonTops(f.next)
  }

  lemma {:induction false} DerivedTops<V>(f: Forest<V>, m: Widget, g: Grids.Grid, row: int, column: int)
    requires m.kind.Matrix? && g.columns == m.kind.columns && ButtonTops(f)
    requires g.row == Number(m, "selectedRow") && g.column == Number(m, "selectedColumn")
    ensures TopStates(Derived(f, m, row, column)) == Grids.DisplayedFrom(g, row, column, |Tops(f)|)
  {
    hide WithSelected, State, Number;
    if f.Node? {
      WithSelectedState(f.w, row == g.row && column == g.column);
      assert Tops(f) == [f.view] + Tops(f.next) && |Tops(f)| == 1 + |Tops(f.next)|;
      if column + 1 >= g.columns {
        DerivedTops(f.next, m, g, row + 1, 0);
      } else {
        DerivedTops(f.next, m, g, row, column + 1);
      }
    }
  }

  lemma {:induction false} ButtonsOnTop<V>(f: Forest<V>)
    requires Distinct(f) && forall c :: c in Tops(f) ==> c in Views(f) && WidgetOf(f, c).kind.Button?
    ensures ButtonTops(f)
  {
    if f.Node? {
      assert f.view in Tops(f) && WidgetOf(f, f.view) == f.w;
      TopsAreViews(f.next);
      forall c | c in Tops(f.next) ensures WidgetOf(f.next, c).kind.Button? {
        assert c in Tops(f) && WidgetOf(f, c) == WidgetOf(f.next, c);
      }
      ButtonsOnTop(f.next);
    }
  }

  lemma {:induction false} TopStatesAre<V>(f: Forest<V>, i: nat)
    requires Distinct(f) && i < |Tops(f)|
    ensures Tops(f)[i] in Views(f) && TopStates(f)[i] == State(WidgetOf(f, Tops(f)[i]))
  {
    if i > 0 {
      TopStatesAre(f.next, i - 1);
    }
  }

  lemma GridStates<V>(f: Forest<V>, keys: Keys<V>, m: V)
    requires Distinct(f) && m in Views(f)
    ensures GridOf(f, keys, m).states == TopStates(TreeOf(f, m).subs)
  {
    hide TreeOf, GridOf, TopStates;
    var t, cells := TreeOf(f, m), SubsOf(f, m);
    GridFrom(f, f, keys, m) by { Same(f); }
    forall i | 0 <= i < |cells|
      ensures GridOf(f, keys, m).states[i] == TopStates(t.subs)[i]
    {
      TopStatesAre(t.subs, i);
      CellWidget(f, m, cells[i]);
    }
  }

  lemma CellWidget<V>(f: Forest<V>, m: V, c: V)
    requires Distinct(f) && m in Views(f) && c in Views(TreeOf(f, m).subs)
    ensures c in Views(f) && WidgetOf(f, c) == WidgetOf(TreeOf(f, m).subs, c)
  {
    var t := TreeOf(f, m);
    TreeOfTree(f, m, c);
    assert TreeOf(t, c) == TreeOf(t.subs, c);
  }

  lemma {:induction false} OnDisplayIsShown<V>(f: Forest<V>, v: V, pick: Pick)
    requires v in Views(f) && OnDisplay(f, v, pick)
    ensures !WidgetOf(f, v).hidden
  {
    if f.view == v {
    } else if v in Views(f.subs) {
      OnDisplayIsShown(f.subs, v, Every);
    } else if v in Views(f.items) {
      OnDisplayIsShown(f.items, v, Only(Selected(f.w)));
    } else {
      OnDisplayIsShown(f.next, v, Next(pick));
    }
  }

  lemma ShownCells<V>(m: Widget, subs: Forest<V>, g: Grids.Grid)
    requires m.kind.Matrix? && ButtonTops(subs) && !m.hidden
    requires g.columns == m.kind.columns && g.radioMode == m.kind.radioMode && g.states == TopStates(subs)
    requires g.row == Number(m, "selectedRow") && g.column == Number(m, "selectedColumn")
    ensures TopStates(ShownSubs(m, subs)) == Grids.Displayed(g).states
  {
    hide Shown, Derived, TopStates;
    ShownTops(subs);
    if m.kind.radioMode {
      DerivedTops(subs, m, g, 0, 0);
      ShownTops(Derived(subs, m, 0, 0));
    }
  }

  /** Displaying a window does to a group of buttons what displaying its value does. */
  lemma ShownGrid<V>(f: Forest<V>, keys: Keys<V>, m: V)
    requires Proper(f) && Distinct(f) && Group(f, m) && m in Views(f)
    ensures m in Views(Shown(f, Every, true))
    ensures GridOf(Shown(f, Every, true), keys, m)
        == if OnDisplay(f, m, Every) then Grids.Displayed(GridOf(f, keys, m)) else GridOf(f, keys, m)
  {
    hide Retouched, OnDisplay, Shown, ShownSubs, TopStates, Views, TreeOf, Grids.Displayed, WidgetOf, SubsOf;
    var g, t := Shown(f, Every, true), TreeOf(f, m);
    GroupTops(f, m);
    ShownRetouches(f, Every, true);
    Distinctness(f, g);
    ShownTree(f, Every, true, m);
    ShownAt(f, Every, true, m);
    GridStates(f, keys, m);
    GridFrom(f, g, keys, m);
    GridStates(g, keys, m);
    if OnDisplay(f, m, Every) {
      OnDisplayIsShown(f, m, Every);
      ShownCells(t.w, t.subs, GridOf(f, keys, m));
    }
  }

  lemma GroupTops<V>(f: Forest<V>, m: V)
    requires Distinct(f) && Group(f, m) && m in Views(f)
    ensures WidgetOf(f, m).kind.Matrix? && ButtonTops(TreeOf(f, m).subs)
  {
    var s := TreeOf(f, m).subs;
    TopsAreViews(s);
    forall c | c in Tops(s) ensures WidgetOf(s, c).kind.Button? {
      CellWidget(f, m, c);
    }
    ButtonsOnTop(s);
  }

  // ----- any number of requests -----

  /** A form, and what the user did to the view that a run is about. */
  datatype Request<+T> = Request(form: Form, choice: Option<T>)

  ghost function Windows<V, T>(
      f: Forest<V>, keys: Keys<V>, content: Option<Forest<V>>, requests: seq<Request<T>>): (g: Forest<V>)
    requires Proper(f) && Distinct(f)
    ensures Views(g) == Views(f)
    decreases |requests|
  {
    if requests == [] then f
    else
      NextRetouches(f, keys, requests[0].form, content);
      Windows(NextWindow(f, keys, requests[0].form, content), keys, content, requests[1..])
  }

  /** The last choice made, or the one before. */
  function LastChoice<T>(requests: seq<Request<T>>, before: Option<T>): Option<T>
    decreases |requests|
  {
    if requests == [] then before
    else LastChoice(requests[1..], if requests[0].choice.Some? then requests[0].choice else before)
  }

  // ----- tab views -----

  /** The user pressed a submit button that the page has for a tab, or none of this tab view. */
  ghost predicate TabRequest<V>(f: Forest<V>, content: Option<Forest<V>>, v: V, form: Form, pressed: Option<nat>)
    requires Proper(f)
  {
    && v in Views(f) && WidgetOf(f, v).kind.TabView? && Faithful(f, v, form)
    && var id, hideTab := WidgetOf(f, v).id, WidgetOf(f, v).kind.hideTab;
       match pressed
       case Some(i) =>
         && Asked(f, v) && Reached(content, v) && On(Page(f), SubmitOf(TabName(id, i))) != []
         && TabName(id, i) in form && forall j: nat :: j < i ==> TabName(id, j) !in form
       case None => forall j: nat :: j < |hideTab| ==> TabName(id, j) !in form
  }

  lemma {:induction false} AskedStays<V>(f: Forest<V>, g: Forest<V>, v: V)
    requires Retouched(f, g) && v in Views(f)
    ensures v in Views(g) && Asked(g, v) == Asked(f, v)
  {
    hide Touched;
    Shape(f, g);
    Shape(f.subs, g.subs);
    Shape(f.items, g.items);
    assert f.w.kind.PopUp? == g.w.kind.PopUp? by { RoleAt(f, g, f.view); }
    if f.view == v {
    } else if v in Views(f.subs) {
      AskedStays(f.subs, g.subs, v);
    } else if v in Views(f.items) {
      AskedStays(f.items, g.items, v);
    } else {
      AskedStays(f.next, g.next, v);
    }
  }

  /** The tab pressed in one request is the tab selected in the window that this request draws,
      and therefore on the page; otherwise the tab view shows what it showed before. */
  lemma NextTab<V>(
      f: Forest<V>, keys: Keys<V>, content: Option<Forest<V>>, v: V, form: Form, pressed: Option<nat>)
    requires Built(f) && TabRequest(f, content, v, form, pressed)
    ensures Selected(WidgetOf(NextWindow(f, keys, form, content), v))
        == if pressed.Some? then pressed else Selected(WidgetOf(f, v))
  {
    hide Retouched, Handled, Shown, ConvertedWidget, Page, Echo, Pages.Selected, Drawn, HiddenAfter, Unique, FieldDefaults,
      Faithful;
    var r := Rebuild(f, form);
    RebuiltIsBuilt(f, form);
    WidgetsAreProper(f, v);
    RebuiltFaithfully(f, form, v);
    DisplayedAt(f, v);
    ConvertedNumber(WidgetOf(f, v), "selectedIndex");
    AlikeAt(f, r, v, None);
    AskedStays(f, r, v);
    ShownAt(Handled(r, keys, form, content), Every, true, v);
    HandledRetouches(r, keys, form, content);
    RoleAt(r, Handled(r, keys, form, content), v);
    match pressed {
      case Some(i) =>
        TabOnPage(f, v, i);
        PressedTabIsSelected(r, keys, form, content, v, i);
      case None => UnpressedTabStays(r, keys, form, content, v);
    }
  }

  ghost predicate TabRun<V>(
      f: Forest<V>, keys: Keys<V>, content: Option<Forest<V>>, v: V, requests: seq<Request<nat>>)
    requires Proper(f) && Distinct(f)
    decreases |requests|
  {
    NextIsProper(f, keys, content, requests);
    requests == [] ||
    (TabRequest(f, content, v, requests[0].form, requests[0].choice) &&
     TabRun(NextWindow(f, keys, requests[0].form, content), keys, content, v, requests[1..]))
  }

  lemma NextIsProper<V, T>(f: Forest<V>, keys: Keys<V>, content: Option<Forest<V>>, requests: seq<Request<T>>)
    requires Proper(f) && Distinct(f)
    ensures requests != [] ==>
        var g := NextWindow(f, keys, requests[0].form, content);
        Retouched(f, g) && Proper(g) && Distinct(g) && (Built(f) ==> Built(g))
  {
    if requests != [] {
      NextRetouches(f, keys, requests[0].form, content);
    }
  }

  /** Over any run of requests a tab view shows the tab that was pressed last. */
  lemma {:induction false} LastPressedTabIsSelected<V>(
      f: Forest<V>, keys: Keys<V>, content: Option<Forest<V>>, v: V, requests: seq<Request<nat>>)
    requires Built(f) && v in Views(f) && TabRun(f, keys, content, v, requests)
    ensures var last := LastChoice<nat>(requests, None);
        Selected(WidgetOf(Windows(f, keys, content, requests), v))
        == if last.Some? then last else Selected(WidgetOf(f, v))
    decreases |requests|
  {
    hide Retouched, NextWindow, Pages.Selected, TabRequest;
    if requests != [] {
      var q := requests[0];
      NextIsProper(f, keys, content, requests);
      NextTab(f, keys, content, v, q.form, q.choice);
      LastPressedTabIsSelected(NextWindow(f, keys, q.form, content), keys, content, v, requests[1..]);
      LastChoiceFrom(requests[1..], q.choice);
    }
  }

  lemma {:induction false} LastChoiceFrom<T>(requests: seq<Request<T>>, before: Option<T>)
    ensures LastChoice(requests, before)
        == if LastChoice(requests, None).Some? then LastChoice(requests, None) else before
    decreases |requests|
  {
    if requests != [] {
      LastChoiceFrom(requests[1..], if requests[0].choice.Some? then requests[0].choice else before);
      LastChoiceFrom(requests[1..], requests[0].choice);
    }
  }

  // ----- pop-up buttons -----

  /** The page was posted with an item picked, if the pop-up button was on it to pick from. */
  ghost predicate PopUpRequest<V>(f: Forest<V>, content: Option<Forest<V>>, v: V, form: Form, picked: Option<nat>)
    requires Proper(f)
  {
    v in Views(f) && Posted(f, v, form, picked) && (picked.Some? ==> Asked(f, v) && Reached(content, v))
  }

  /** How many mouseDowns the view gets in the next request. */
  ghost function Heard<V>(f: Forest<V>, content: Option<Forest<V>>, v: V, form: Form): nat
    requires Proper(f) && Distinct(f)
  {
    RebuiltIsBuilt(f, form);
    Count(Calls(content, Queue(Rebuild(f, form), form)), v)
  }

  ghost function IndexOfPopUp<V>(f: Forest<V>, v: V): int
    requires v in Views(f)
  {
    Number(WidgetOf(f, v), "selectedIndex")
  }

  lemma NextPick<V>(
      f: Forest<V>, keys: Keys<V>, content: Option<Forest<V>>, v: V, form: Form, picked: Option<nat>)
    requires Built(f) && PopUpRequest(f, content, v, form, picked)
    ensures IndexOfPopUp(NextWindow(f, keys, form, content), v) == if picked.Some? then picked.value else IndexOfPopUp(f, v)
    ensures Heard(f, content, v, form) == if picked.Some? && picked.value != IndexOfPopUp(f, v) then 1 else 0
  {
    hide Retouched, Collect, Queue, Clicks, Shown, Page, Echo, OwnEvents, CollectedWidget, ConvertedWidget, RebuiltWidget;
    var r := Rebuild(f, form);
    RebuiltIsBuilt(f, form);
    ChangeIsNoticed(f, v, form, picked);
    AskedStays(f, r, v);
    QueueCounts(r, form, v);
    CallsCount(content, Queue(r, form), v);
    CollectedAt(r, form, v);
    HandledIs(r, keys, form, content);
    var h := Handled(r, keys, form, content);
    PopUpCollected(v, WidgetOf(r, v), form);
    RoleAt(r, Collect(r, form), v);
    PopUpClicks(Collect(r, form), keys, Calls(content, Queue(r, form)), v);
    ShownAt(h, Every, true, v);
  }

  lemma PopUpCollected<V>(v: V, w: Widget, form: Form)
    requires ProperWidget(w) && w.kind.PopUp?
    ensures InheritedEvent(v, w, form) == []
    ensures w.id !in form ==> OwnEvents(v, w, form) == [] && CollectedWidget(w, form) == w
    ensures "selectedIndex" in w.props && "selectedIndex" in CollectedWidget(w, form).props
  {
  }

  ghost predicate PopUpRun<V>(
      f: Forest<V>, keys: Keys<V>, content: Option<Forest<V>>, v: V, requests: seq<Request<nat>>)
    requires Proper(f) && Distinct(f)
    decreases |requests|
  {
    NextIsProper(f, keys, content, requests);
    requests == [] ||
    (PopUpRequest(f, content, v, requests[0].form, requests[0].choice) &&
     PopUpRun(NextWindow(f, keys, requests[0].form, content), keys, content, v, requests[1..]))
  }

  ghost function HeardOver<V>(
      f: Forest<V>, keys: Keys<V>, content: Option<Forest<V>>, v: V, requests: seq<Request<nat>>): nat
    requires Proper(f) && Distinct(f)
    decreases |requests|
  {
    NextIsProper(f, keys, content, requests);
    if requests == [] then 0
    else
      Heard(f, content, v, requests[0].form) +
      HeardOver(NextWindow(f, keys, requests[0].form, content), keys, content, v, requests[1..])
  }

  /** How often a pick differed from the selection before it. */
  function Changes(requests: seq<Request<nat>>, s: int): nat
    decreases |requests|
  {
    if requests == [] then 0
    else
      var now := requests[0].choice;
      (if now.Some? && now.value != s then 1 else 0) + Changes(requests[1..], if now.Some? then now.value else s)
  }

  /** Over any run of requests the selection of a pop-up button is the item picked last, and the
      button heard of every change and of nothing else. */
  lemma {:induction false} LastPickIsSelected<V>(
      f: Forest<V>, keys: Keys<V>, content: Option<Forest<V>>, v: V, requests: seq<Request<nat>>)
    requires Built(f) && v in Views(f) && PopUpRun(f, keys, content, v, requests)
    ensures var last := LastChoice<nat>(requests, None);
        IndexOfPopUp(Windows(f, keys, content, requests), v) == if last.Some? then last.value else IndexOfPopUp(f, v)
    ensures HeardOver(f, keys, content, v, requests) == Changes(requests, IndexOfPopUp(f, v))
    decreases |requests|
  {
    hide Retouched, NextWindow, IndexOfPopUp, PopUpRequest, Heard;
    if requests != [] {
      var q := requests[0];
      NextIsProper(f, keys, content, requests);
      NextPick(f, keys, content, v, q.form, q.choice);
      LastPickIsSelected(NextWindow(f, keys, q.form, content), keys, content, v, requests[1..]);
      LastChoiceFrom(requests[1..], q.choice);
    }
  }

  // ----- radio buttons -----

  /** A click anywhere but on a group of buttons leaves its grid alone. */
  lemma {:induction false} OtherClicksGrid<V>(f: Forest<V>, keys: Keys<V>, m: V, calls: seq<V>)
    requires Distinct(f) && Group(f, m) && m in Views(f)
    requires forall x :: x in calls ==> x in Views(f) && x != m && x !in SubsOf(f, m)
    ensures GridOf(Clicks(f, keys, calls), keys, m) == GridOf(f, keys, m)
    decreases |calls|
  {
    hide Click, Retouched, GridOf, Group, SubsOf;
    if calls != [] {
      var g := Click(f, keys, calls[0]);
      OtherClickGrid(f, keys, m, calls[0]);
      ClickRetouches(f, keys, calls[0]);
      GridFrom(f, g, keys, m);
      OtherClicksGrid(g, keys, m, calls[1..]);
    }
  }

  /** Posting the id of a view that is neither the matrix nor one of its cells. */
  lemma UnpostedGrid<V>(f: Forest<V>, keys: Keys<V>, form: Form, content: Option<Forest<V>>, m: V)
    requires Proper(f) && Distinct(f) && Group(f, m) && m in Views(f) && "NSEvent" in form
    requires forall x :: x in [m] + SubsOf(f, m) ==> x in Views(f) && !EventIsForMe(WidgetOf(f, x), form)
    ensures GridOf(Handled(f, keys, form, content), keys, m) == GridOf(f, keys, m)
  {
    hide Clicks, Retouched, GridOf, EventIsForMe, Collect, Queue;
    var c, calls := Collect(f, form), Calls(content, Queue(f, form));
    HandledIs(f, keys, form, content);
    CollectedGrid(f, keys, form, m);
    GridFrom(f, c, keys, m);
    forall x | x in calls ensures x != m && x !in SubsOf(f, m) {
      CalledCounts(calls, x);
      if x in [m] + SubsOf(f, m) {
        NoSuchIdNoCall(f, form, content, x);
      }
    }
    OtherClicksGrid(c, keys, m, calls);
  }

  /** The whole value of a group of buttons, as displaying leaves it, reaches the next request. */
  lemma RebuiltGrid<V>(f: Forest<V>, keys: Keys<V>, form: Form, m: V)
    requires Built(f) && Group(f, m) && m in Views(f)
    requires forall x :: x in [m] + SubsOf(f, m) ==> x in Views(f) && Faithful(f, x, form)
    ensures m in Views(Rebuild(f, form)) && m in Views(Shown(f, Every, true))
    ensures GridOf(Rebuild(f, form), keys, m) == GridOf(Shown(f, Every, true), keys, m)
  {
    hide Retouched, Faithful, ConvertedWidget, Built, Views, WidgetOf, SubsOf, Shown;
    var r, g, cells := Rebuild(f, form), Shown(f, Every, true), SubsOf(f, m);
    ShownRetouches(f, Every, true);
    GridFrom(f, r, keys, m);
    GridFrom(f, g, keys, m);
    assert m in [m] + cells;
    RebuiltFaithfully(f, form, m);
    DisplayedWidget(f, m);
    ConvertedNumber(WidgetOf(g, m), "selectedRow");
    ConvertedNumber(WidgetOf(g, m), "selectedColumn");
    forall i | 0 <= i < |cells|
      ensures GridOf(r, keys, m).states[i] == GridOf(g, keys, m).states[i]
    {
      assert cells[i] in [m] + cells;
      RebuiltFaithfully(f, form, cells[i]);
      DisplayedWidget(f, cells[i]);
      ConvertedNumber(WidgetOf(g, cells[i]), "state");
    }
  }

  lemma DisplayedWidget<V>(f: Forest<V>, v: V)
    requires Built(f) && v in Views(f)
    ensures var g := Shown(f, Every, true);
        v in Views(g) && ProperWidget(WidgetOf(g, v)) && WidgetOf(g, v).kind == WidgetOf(f, v).kind
  {
    ShownProper(f, Every, true);
    WidgetsAreProper(Shown(f, Every, true), v);
    DisplayedAt(f, v);
  }

  /** Whatever its buttons showed before: once a matrix in radio mode is displayed, exactly the
      button whose id was posted is on. */
  lemma PressedIsShown<V>(f: Forest<V>, keys: Keys<V>, form: Form, content: Option<Forest<V>>, pressed: V, m: V)
    requires Posts(f, form, content, pressed) && Group(f, m) && m in Views(f) && pressed in SubsOf(f, m)
    requires WidgetOf(f, pressed).action == "" && WidgetOf(f, m).kind.radioMode
    requires OnDisplay(Handled(f, keys, form, content), m, Every)
    ensures var g := GridOf(Shown(Handled(f, keys, form, content), Every, true), keys, m);
        Grids.OnlyOn(g.states, Some(IndexOf(SubsOf(f, m), pressed))) && Grids.Place(g) == Some(IndexOf(SubsOf(f, m), pressed))
  {
    hide Retouched, Handled, Shown, ClickedWidget, GridOf, OnDisplay, Group, Grids.Clicked, Grids.Displayed;
    var h := Handled(f, keys, form, content);
    var i, toggled := IndexOf(SubsOf(f, m), pressed), State(ClickedWidget(WidgetOf(f, pressed)));
    var g := GridOf(f, keys, m);
    GridMode(f, keys, m);
    PostedGrid(f, keys, form, content, pressed, m);
    HandledRetouches(f, keys, form, content);
    GridFrom(f, h, keys, m);
    ShownGrid(h, keys, m);
    Grids.PlaceAfterClick(g, i, toggled);
    Grids.DisplaySelectsOnly(Grids.Clicked(g, i, toggled));
  }

  lemma GridMode<V>(f: Forest<V>, keys: Keys<V>, m: V)
    requires m in Views(f) && Group(f, m)
    ensures GridOf(f, keys, m).radioMode == WidgetOf(f, m).kind.radioMode
  {
  }

  /** The user pressed a button of this matrix that moves its selection, or something else: at most
      a button that has an action of its own. Without being displayed again, a matrix must not have
      lost cells, and no button with an action of its own may change. */
  ghost predicate RadioRequest<V>(
      f: Forest<V>, keys: Keys<V>, content: Option<Forest<V>>, m: V, form: Form, pressed: Option<V>)
    requires Proper(f) && Distinct(f)
  {
    && m in Views(f) && Group(f, m) && "NSEvent" in form
    && (forall x :: x in [m] + SubsOf(f, m) ==> x in Views(f) && Faithful(f, x, form))
    && (OnDisplay(NextWindow(f, keys, form, content), m, Every) ||
        (Grids.Dense(GridOf(f, keys, m).keys) && forall x :: x in [m] + SubsOf(f, m) ==> !PressedActs(f, form, x)))
    && match pressed
       case Some(c) => c in SubsOf(f, m) && Posts(f, form, content, c) && WidgetOf(f, c).action == ""
       case None => forall x :: x in [m] + SubsOf(f, m) ==>
         x in Views(f) && (EventIsForMe(WidgetOf(f, x), form) ==> x != m && PressedActs(f, form, x) && Posts(f, form, content, x))
  }

  /** The view was pressed and has an action of its own. */
  ghost predicate PressedActs<V>(f: Forest<V>, form: Form, x: V)
  {
    x in Views(f) && EventIsForMe(WidgetOf(f, x), form) && WidgetOf(f, x).action != ""
  }

  ghost predicate RadioRun<V>(
      f: Forest<V>, keys: Keys<V>, content: Option<Forest<V>>, m: V, requests: seq<Request<V>>)
    requires Proper(f) && Distinct(f)
    decreases |requests|
  {
    NextIsProper(f, keys, content, requests);
    requests == [] ||
    (RadioRequest(f, keys, content, m, requests[0].form, requests[0].choice) &&
     RadioRun(NextWindow(f, keys, requests[0].form, content), keys, content, m, requests[1..]))
  }

  /** Exactly this cell of the matrix is on, and it is the recorded selection. */
  ghost predicate OnAt<V>(f: Forest<V>, keys: Keys<V>, m: V, at: Option<V>)
    requires m in Views(f)
  {
    var g := GridOf(f, keys, m);
    && Grids.OnlyOn(g.states, Grids.Place(g))
    && (match at
        case Some(c) => c in SubsOf(f, m) && Grids.Place(g) == Some(IndexOf(SubsOf(f, m), c))
        case None => Grids.Place(g).None?)
  }

  lemma PostsStays<V>(f: Forest<V>, g: Forest<V>, form: Form, content: Option<Forest<V>>, pressed: V)
    requires Retouched(f, g) && Posts(f, form, content, pressed)
    ensures Posts(g, form, content, pressed)
  {
    hide Retouched, Asked;
    Shape(f, g);
    Properness(f, g);
    Distinctness(f, g);
    AskedStays(f, g, pressed);
    RoleAt(f, g, pressed);
    forall u, v | u in Views(g) && v in Views(g) && WidgetOf(g, u).id == WidgetOf(g, v).id
      ensures u == v
    {
      RoleAt(f, g, u);
      RoleAt(f, g, v);
    }
  }

  /** The grid of a group in the next window. */
  lemma NextGrid<V>(f: Forest<V>, keys: Keys<V>, content: Option<Forest<V>>, m: V, form: Form)
    requires Proper(f) && Distinct(f) && Group(f, m) && m in Views(f)
    ensures var r, g := Rebuild(f, form), NextWindow(f, keys, form, content);
        && Proper(r) && Distinct(r) && m in Views(r) && Group(r, m) && m in Views(g) && SubsOf(g, m) == SubsOf(f, m)
        && var h := Handled(r, keys, form, content);
           && m in Views(h)
           && GridOf(g, keys, m)
              == if OnDisplay(g, m, Every) then Grids.Displayed(GridOf(h, keys, m)) else GridOf(h, keys, m)
  {
    hide Retouched, Handled, Shown, OnDisplay, GridOf, Grids.Displayed, Group, Views, SubsOf;
    var r := Rebuild(f, form);
    RebuiltIsBuilt(f, form);
    GridFrom(f, r, keys, m);
    var h := Handled(r, keys, form, content);
    HandledRetouches(r, keys, form, content);
    GridFrom(r, h, keys, m);
    ShownGrid(h, keys, m);
    ShownRetouches(h, Every, true);
    GridFrom(h, Shown(h, Every, true), keys, m);
    ShownFate(h, Every, true);
    FateAt(h, Shown(h, Every, true), m, false, Every);
  }

  /** One request: the pressed button is the one that is on, or the one that was stays. */
  lemma NextRadio<V>(
      f: Forest<V>, keys: Keys<V>, content: Option<Forest<V>>, m: V, form: Form, pressed: Option<V>, at: Option<V>)
    requires Built(f) && RadioRequest(f, keys, content, m, form, pressed) && WidgetOf(f, m).kind.radioMode
    requires Grids.Keyed(GridOf(f, keys, m)) && OnAt(f, keys, m, at)
    ensures OnAt(NextWindow(f, keys, form, content), keys, m, if pressed.Some? then pressed else at)
  {
    hide Retouched, Handled, NextWindow, ClickedWidget, OnDisplay, Group, Posts, Faithful, EventIsForMe, GridOf, Asked,
      Grids.Displayed, Grids.OnlyOn, Grids.Place, Grids.Keyed, Grids.Dense, Views, WidgetOf, SubsOf, Distinct, Proper, Unique;
    var r := Rebuild(f, form);
    NextGrid(f, keys, content, m, form);
    RebuiltSettled(f, keys, form, m);
    GridMode(f, keys, m);
    match pressed {
      case Some(c) => RadioPressed(f, r, keys, content, m, form, c);
      case None =>
        if x :| x in [m] + SubsOf(f, m) && x in Views(f) && EventIsForMe(WidgetOf(f, x), form) {
          ActingPressed(f, r, keys, content, m, form, x);
        } else {
          NonePressed(f, r, keys, content, m, form);
        }
    }
  }

  /** A group in which exactly the recorded selection is on is rebuilt as it was. */
  lemma RebuiltSettled<V>(f: Forest<V>, keys: Keys<V>, form: Form, m: V)
    requires Built(f) && Group(f, m) && m in Views(f) && WidgetOf(f, m).kind.radioMode
    requires forall x :: x in [m] + SubsOf(f, m) ==> x in Views(f) && Faithful(f, x, form)
    requires var g := GridOf(f, keys, m); Grids.OnlyOn(g.states, Grids.Place(g))
    ensures m in Views(Rebuild(f, form)) && GridOf(Rebuild(f, form), keys, m) == GridOf(f, keys, m)
  {
    hide Retouched, Faithful, GridOf, OnDisplay, Shown, Grids.OnlyOn, Grids.Place, Grids.Displayed;
    RebuiltGrid(f, keys, form, m);
    ShownGrid(f, keys, m);
    GridMode(f, keys, m);
    Grids.DisplaySettled(GridOf(f, keys, m));
  }

  lemma RadioPressed<V>(
      f: Forest<V>, r: Forest<V>, keys: Keys<V>, content: Option<Forest<V>>, m: V, form: Form, c: V)
    requires Retouched(f, r) && Proper(r) && Distinct(r) && m in Views(f) && m in Views(r) && Group(r, m)
    requires c in Views(f) && c in SubsOf(f, m) && Posts(f, form, content, c) && WidgetOf(f, c).action == ""
    requires GridOf(r, keys, m) == GridOf(f, keys, m) && GridOf(f, keys, m).radioMode && Grids.Keyed(GridOf(f, keys, m))
    requires var g := GridOf(f, keys, m); Grids.OnlyOn(g.states, Grids.Place(g))
    ensures var g, h, i := GridOf(f, keys, m), GridOf(Handled(r, keys, form, content), keys, m), IndexOf(SubsOf(f, m), c);
        && (Grids.OnlyOn(Grids.Displayed(h).states, Some(i)) && Grids.Place(Grids.Displayed(h)) == Some(i))
        && (Grids.Dense(g.keys) ==> Grids.OnlyOn(h.states, Some(i)) && Grids.Place(h) == Some(i))
  {
    hide Retouched, Handled, ClickedWidget, Group, Posts, GridOf, Asked,
      Grids.Clicked, Grids.Displayed, Grids.OnlyOn, Grids.Place, Grids.Keyed, Grids.Dense;
    PostsStays(f, r, form, content, c);
    RoleAt(f, r, c);
    RoleAt(f, r, m);
    PostedGrid(r, keys, form, content, c, m);
    var g, i, toggled := GridOf(f, keys, m), IndexOf(SubsOf(f, m), c), State(ClickedWidget(WidgetOf(r, c)));
    Grids.ClickMovesOn(g, i, toggled, true);
    if Grids.Dense(g.keys) {
      Grids.ClickMovesOn(g, i, toggled, false);
    }
  }

  lemma ActingPressed<V>(
      f: Forest<V>, r: Forest<V>, keys: Keys<V>, content: Option<Forest<V>>, m: V, form: Form, c: V)
    requires Retouched(f, r) && Proper(r) && Distinct(r) && m in Views(f) && m in Views(r) && Group(r, m)
    requires c in Views(f) && c in SubsOf(f, m) && Posts(f, form, content, c) && WidgetOf(f, c).action != ""
    requires GridOf(r, keys, m) == GridOf(f, keys, m) && GridOf(f, keys, m).radioMode
    ensures var g, h := GridOf(f, keys, m), GridOf(Handled(r, keys, form, content), keys, m);
        Grids.OnlyOn(Grids.Displayed(h).states, Grids.Place(g)) && Grids.Place(Grids.Displayed(h)) == Grids.Place(g)
  {
    hide Retouched, Handled, ClickedWidget, Group, Posts, GridOf, Asked, Grids.Displayed, Grids.OnlyOn, Views, WidgetOf, SubsOf,
      Distinct, Proper, IndexOf;
    PostsStays(f, r, form, content, c);
    RoleAt(f, r, c);
    RoleAt(f, r, m);
    PostedGrid(r, keys, form, content, c, m);
    Grids.DisplaySelectsOnly(GridOf(Handled(r, keys, form, content), keys, m));
  }

  lemma NonePressed<V>(
      f: Forest<V>, r: Forest<V>, keys: Keys<V>, content: Option<Forest<V>>, m: V, form: Form)
    requires Retouched(f, r) && Proper(r) && Distinct(r) && m in Views(f) && m in Views(r) && Group(r, m)
    requires "NSEvent" in form && GridOf(r, keys, m) == GridOf(f, keys, m) && GridOf(f, keys, m).radioMode
    requires forall x :: x in [m] + SubsOf(f, m) ==> x in Views(f) && !EventIsForMe(WidgetOf(f, x), form)
    requires var g := GridOf(f, keys, m); Grids.OnlyOn(g.states, Grids.Place(g))
    ensures var g, h := GridOf(f, keys, m), GridOf(Handled(r, keys, form, content), keys, m);
        h == g && Grids.Displayed(h) == g
  {
    hide Retouched, Handled, EventIsForMe, GridOf, Grids.Displayed, Grids.OnlyOn, Grids.Place;
    RoleAt(f, r, m);
    forall x | x in [m] + SubsOf(r, m) ensures x in Views(r) && !EventIsForMe(WidgetOf(r, x), form) {
      SameEvent(f, r, form, x);
    }
    UnpostedGrid(r, keys, form, content, m);
    Grids.DisplaySettled(GridOf(f, keys, m));
  }

  lemma SameEvent<V>(f: Forest<V>, g: Forest<V>, form: Form, x: V)
    requires Retouched(f, g) && x in Views(f)
    ensures x in Views(g) && EventIsForMe(WidgetOf(g, x), form) == EventIsForMe(WidgetOf(f, x), form)
  {
    RoleAt(f, g, x);
  }

  /** Over any run of requests exactly the button of a radio matrix that was pressed last is on. */
  lemma {:induction false} LastPressedIsOn<V>(
      f: Forest<V>, keys: Keys<V>, content: Option<Forest<V>>, m: V, requests: seq<Request<V>>, at: Option<V>)
    requires Built(f) && m in Views(f) && Group(f, m) && WidgetOf(f, m).kind.radioMode
    requires RadioRun(f, keys, content, m, requests)
    requires Grids.Keyed(GridOf(f, keys, m)) && OnAt(f, keys, m, at)
    ensures OnAt(Windows(f, keys, content, requests), keys, m, LastChoice(requests, at))
    decreases |requests|
  {
    hide Retouched, NextWindow, RadioRequest, OnAt, GridOf, Unique, Views, Distinct, Proper;
    if requests != [] {
      var q := requests[0];
      var g := NextWindow(f, keys, q.form, content);
      NextIsProper(f, keys, content, requests);
      NextRadio(f, keys, content, m, q.form, q.choice, at);
      GridFrom(f, g, keys, m);
      RoleAt(f, g, m);
      LastPressedIsOn(g, keys, content, m, requests[1..], if q.choice.Some? then q.choice else at);
    }
  }
}
