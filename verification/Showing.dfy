/** Displaying a window changes the states of buttons and the position of scroll views, and nothing
    else: no view is drawn or hidden for it that was not before, and displaying again changes
    nothing any more. */
module Showing {
  import opened Php
  import opened Persistence
  import opened Pages
  import opened PageLaws
  import opened Retouch

  // ----- what is drawn and what is hidden -----

  /** What the passes look at when they decide which views are drawn and which are hidden. */
  predicate SameRole(w: Widget, u: Widget) {
    && u.hidden == w.hidden && u.kind.TabView? == w.kind.TabView? && Draws(u.kind) == Draws(w.kind)
    && Selected(u) == Selected(w)
  }

  ghost predicate SameFate<V>(f: Forest<V>, g: Forest<V>) {
    match f
    case Nil => g.Nil?
    case Node(v, w, subs, items, next) =>
      && g.Node? && g.view == v && SameRole(w, g.w)
      && SameFate(subs, g.subs) && SameFate(items, g.items) && SameFate(next, g.next)
  }

  lemma {:induction false} FateItself<V>(f: Forest<V>)
    ensures SameFate(f, f)
  {
    if f.Node? {
      FateItself(f.subs);
      FateItself(f.items);
      FateItself(f.next);
    }
  }

  lemma {:induction false} FateTwice<V>(f: Forest<V>, g: Forest<V>, h: Forest<V>)
    requires SameFate(f, g) && SameFate(g, h)
    ensures SameFate(f, h)
  {
    if f.Node? {
      FateTwice(f.subs, g.subs, h.subs);
      FateTwice(f.items, g.items, h.items);
      FateTwice(f.next, g.next, h.next);
    }
  }

  lemma {:induction false} FateViews<V>(f: Forest<V>, g: Forest<V>)
    requires SameFate(f, g)
    ensures Views(g) == Views(f)
  {
    if f.Node? {
      FateViews(f.subs, g.subs);
      FateViews(f.items, g.items);
      FateViews(f.next, g.next);
    }
  }

  lemma {:induction false} FateAt<V>(f: Forest<V>, g: Forest<V>, v: V, above: bool, pick: Pick)
    requires SameFate(f, g) && v in Views(f)
    ensures v in Views(g) && SameRole(WidgetOf(f, v), WidgetOf(g, v))
    ensures OnDisplay(g, v, pick) == OnDisplay(f, v, pick)
    ensures HiddenAfter(g, v, above, pick) == HiddenAfter(f, v, above, pick)
  {
    hide Selected, Draws;
    var Node(u, w, subs, items, next) := f;
    FateViews(subs, g.subs);
    FateViews(items, g.items);
    FateViews(next, g.next);
    if u == v {
    } else if v in Views(subs) {
      FateAt(subs, g.subs, v, above || Flag(w, pick), Every);
    } else if v in Views(items) {
      FateAt(items, g.items, v, false, Only(Selected(w)));
    } else {
      FateAt(next, g.next, v, above, Next(pick));
    }
  }

  lemma DisplayedRole(w: Widget, flag: bool, top: bool)
    ensures SameRole(w, WithSelected(w, flag)) && SameRole(w, ShownWidget(w, top)) && SameRole(w, w)
  {
  }

  lemma {:induction false} DerivedFate<V>(f: Forest<V>, m: Widget, row: int, column: int)
    requires m.kind.Matrix?
    ensures SameFate(f, Derived(f, m, row, column))
  {
    if f.Node? {
      DisplayedRole(f.w, row == Number(m, "selectedRow") && column == Number(m, "selectedColumn"), true);
      hide SameRole, WithSelected;
      FateItself(f.subs);
      FateItself(f.items);
      if column + 1 >= m.kind.columns {
        DerivedFate(f.next, m, row + 1, 0);
      } else {
        DerivedFate(f.next, m, row, column + 1);
      }
    }
  }

  lemma {:induction false} ShownFate<V>(f: Forest<V>, pick: Pick, top: bool)
    ensures SameFate(f, Shown(f, pick, top))
    decreases Size(f), 0
  {
    hide SameRole, ShownWidget, ShownSubs, Derived;
    if f.Node? {
      DisplayedRole(f.w, true, top);
      FateItself(f.subs);
      FateItself(f.items);
      ShownFate(f.next, Next(pick), top);
      ShownFate(f.items, Only(Selected(f.w)), true);
      SubsFate(f.w, f.subs);
    }
  }

  lemma {:induction false} SubsFate<V>(w: Widget, subs: Forest<V>)
    ensures SameFate(subs, ShownSubs(w, subs))
    decreases Size(subs), 1
  {
    hide SameFate, Derived, Shown;
    FateItself(subs);
    ShownFate(subs, Every, false);
    if w.kind.Matrix? {
      var derived := Derived(subs, w, 0, 0);
      DerivedFate(subs, w, 0, 0);
      ShownFate(derived, Every, false);
      FateTwice(subs, derived, Shown(derived, Every, false));
    }
  }

  // ----- one view -----

  /** The index of a pop-up button is what it was. */
  predicate KeepsIndex(w: Widget, u: Widget) {
    && u.kind == w.kind
    && ("selectedIndex" in w.props ==>
          "selectedIndex" in u.props && u.props["selectedIndex"] == w.props["selectedIndex"])
  }

  /** Nothing but the state of a button and the position of a scroll view is different. */
  predicate StateOnly(w: Widget, u: Widget) {
    && u.kind == w.kind && (w.kind.PopUp? ==> KeepsIndex(w, u))
    && (!w.kind.PopUp? && !w.kind.Button? && !w.kind.ScrollView? ==> u == w)
  }

  lemma DisplayedStateOnly(w: Widget, flag: bool, top: bool)
    ensures StateOnly(w, WithSelected(w, flag)) && StateOnly(w, ShownWidget(w, top)) && StateOnly(w, w)
  {
  }

  lemma {:induction false} DerivedAt<V>(f: Forest<V>, m: Widget, row: int, column: int, v: V)
    requires m.kind.Matrix? && v in Views(f)
    ensures StateOnly(WidgetOf(f, v), WidgetOf(Derived(f, m, row, column), v))
  {
    hide WithSelected, StateOnly, Number;
    DisplayedStateOnly(f.w, row == Number(m, "selectedRow") && column == Number(m, "selectedColumn"), true);
    DisplayedStateOnly(WidgetOf(f, v), true, true);
    if f.view != v && v !in Views(f.subs) && v !in Views(f.items) {
      if column + 1 >= m.kind.columns {
        DerivedAt(f.next, m, row + 1, 0, v);
      } else {
        DerivedAt(f.next, m, row, column + 1, v);
      }
    }
  }

  lemma {:induction false} ShownAt<V>(f: Forest<V>, pick: Pick, top: bool, v: V)
    requires v in Views(f)
    ensures StateOnly(WidgetOf(f, v), WidgetOf(Shown(f, pick, top), v))
    decreases Size(f), 0
  {
    hide ShownSubs, ShownWidget, StateOnly;
    var Node(u, w, subs, items, next) := f;
    var g := Shown(f, pick, top);
    DisplayedStateOnly(w, true, top);
    DisplayedStateOnly(WidgetOf(f, v), true, top);
    if u == v {
      assert WidgetOf(g, v) == g.w;
    } else if v in Views(subs) {
      assert WidgetOf(g, v) == WidgetOf(g.subs, v);
      SubsAt(w, subs, v);
    } else if v in Views(items) {
      assert WidgetOf(g, v) == WidgetOf(g.items, v);
      ShownAt(items, Only(Selected(w)), true, v);
    } else {
      assert WidgetOf(g, v) == WidgetOf(g.next, v);
      ShownAt(next, Next(pick), top, v);
    }
  }

  lemma {:induction false} SubsAt<V>(w: Widget, subs: Forest<V>, v: V)
    requires v in Views(subs)
    ensures StateOnly(WidgetOf(subs, v), WidgetOf(ShownSubs(w, subs), v))
    decreases Size(subs), 1
  {
    hide Derived;
    DisplayedStateOnly(WidgetOf(subs, v), true, false);
    ShownAt(subs, Every, false, v);
    if w.kind.Matrix? {
      DerivedAt(subs, w, 0, 0, v);
      ShownAt(Derived(subs, w, 0, 0), Every, false, v);
    }
  }

  lemma {:induction false} DerivedLeaves<V>(f: Forest<V>, m: Widget, row: int, column: int, v: V)
    requires m.kind.Matrix? && v in Views(f) && WidgetOf(f, v).kind.ScrollView?
    ensures WidgetOf(Derived(f, m, row, column), v) == WidgetOf(f, v)
  {
    if f.view != v && v !in Views(f.subs) && v !in Views(f.items) {
      if column + 1 >= m.kind.columns {
        DerivedLeaves(f.next, m, row + 1, 0, v);
      } else {
        DerivedLeaves(f.next, m, row, column + 1, v);
      }
    }
  }

  /** A scroll view on display that has no superview forgets its position, any other keeps it. */
  lemma {:induction false} ShownScroller<V>(f: Forest<V>, pick: Pick, parent: Option<V>, v: V)
    requires v in Views(f) && WidgetOf(f, v).kind.ScrollView?
    ensures var w := WidgetOf(f, v);
        WidgetOf(Shown(f, pick, parent.None?), v) ==
        if OnDisplay(f, v, pick) && ParentOf(f, v, parent).None?
        then w.(props := w.props["scrollX" := Str("")]["scrollY" := Str("")]) else w
    decreases Size(f), 0
  {
    hide ShownSubs, Pages.Selected;
    var Node(u, w, subs, items, next) := f;
    var g := Shown(f, pick, parent.None?);
    if u == v {
      assert WidgetOf(g, v) == g.w;
    } else if v in Views(subs) {
      assert WidgetOf(g, v) == WidgetOf(g.subs, v);
      ShownSubsScroller(w, subs, u, v);
    } else if v in Views(items) {
      assert WidgetOf(g, v) == WidgetOf(g.items, v);
      ShownScroller(items, Only(Selected(w)), None, v);
    } else {
      assert WidgetOf(g, v) == WidgetOf(g.next, v);
      ShownScroller(next, Next(pick), parent, v);
    }
  }

  lemma {:induction false} ShownSubsScroller<V>(w: Widget, subs: Forest<V>, u: V, v: V)
    requires v in Views(subs) && WidgetOf(subs, v).kind.ScrollView?
    ensures var x := WidgetOf(subs, v);
        WidgetOf(ShownSubs(w, subs), v) ==
        if !w.hidden && !w.kind.TabView? && OnDisplay(subs, v, Every) && ParentOf(subs, v, Some(u)).None?
        then x.(props := x.props["scrollX" := Str("")]["scrollY" := Str("")]) else x
    decreases Size(subs), 1
  {
    hide Shown, Derived, OnDisplay, WidgetOf, ParentOf, Retouched, SameFate;
    ShownScroller(subs, Every, Some(u), v);
    if w.kind.Matrix? {
      var derived := Derived(subs, w, 0, 0);
      DerivedLeaves(subs, w, 0, 0, v);
      DerivedFate(subs, w, 0, 0);
      FateAt(subs, derived, v, false, Every);
      DerivedRetouches(subs, w, 0, 0);
      AlikeAt(subs, derived, v, Some(u));
      ShownScroller(derived, Every, Some(u), v);
    }
  }

  // ----- displaying again -----

  /** The cells already have the states that the matrix derives. */
  ghost predicate CellsSettled<V>(f: Forest<V>, m: Widget, row: int, column: int)
    requires m.kind.Matrix?
  {
    f.Nil? ||
    (&& WithSelected(f.w, row == Number(m, "selectedRow") && column == Number(m, "selectedColumn")) == f.w
     && if column + 1 >= m.kind.columns then CellsSettled(f.next, m, row + 1, 0) else CellsSettled(f.next, m, row, column + 1))
  }

  /** Displaying finds nothing to change. */
  ghost predicate Settled<V>(f: Forest<V>, pick: Pick, top: bool)
    decreases f, 0
  {
    match f
    case Nil => true
    case Node(_, w, subs, items, next) =>
      && (Chosen(pick) ==> ShownWidget(w, top) == w && SubsSettled(w, subs) && ItemsSettled(w, items))
      && Settled(next, Next(pick), top)
  }

  ghost predicate SubsSettled<V>(w: Widget, subs: Forest<V>)
    decreases subs, 1
  {
    w.kind.TabView? || w.hidden ||
    ((w.kind.Matrix? && w.kind.radioMode ==> CellsSettled(subs, w, 0, 0)) && Settled(subs, Every, false))
  }

  ghost predicate ItemsSettled<V>(w: Widget, items: Forest<V>)
    decreases items, 1
  {
    w.kind.TabView? ==> Settled(items, Only(Selected(w)), true)
  }

  lemma {:induction false} DerivedIsSettled<V>(f: Forest<V>, m: Widget, row: int, column: int)
    requires m.kind.Matrix?
    ensures CellsSettled(Derived(f, m, row, column), m, row, column)
  {
    if f.Node? {
      SelectedAgain(f.w, row == Number(m, "selectedRow") && column == Number(m, "selectedColumn"));
      hide WithSelected;
      if column + 1 >= m.kind.columns {
        DerivedIsSettled(f.next, m, row + 1, 0);
      } else {
        DerivedIsSettled(f.next, m, row, column + 1);
      }
    }
  }

  lemma SelectedAgain(w: Widget, flag: bool)
    ensures WithSelected(WithSelected(w, flag), flag) == WithSelected(w, flag)
  {
  }

  lemma {:induction false} SettledCellsStay<V>(f: Forest<V>, m: Widget, row: int, column: int)
    requires m.kind.Matrix? && CellsSettled(f, m, row, column)
    ensures Derived(f, m, row, column) == f
  {
    if f.Node? {
      hide WithSelected;
      if column + 1 >= m.kind.columns {
        SettledCellsStay(f.next, m, row + 1, 0);
      } else {
        SettledCellsStay(f.next, m, row, column + 1);
      }
    }
  }

  /** Displaying below the cells leaves the cells themselves. */
  lemma {:induction false} ShownCellsStay<V>(f: Forest<V>, m: Widget, row: int, column: int)
    requires m.kind.Matrix? && CellsSettled(f, m, row, column)
    ensures CellsSettled(Shown(f, Every, false), m, row, column)
  {
    if f.Node? {
      hide WithSelected, ShownSubs, ShownItems;
      if column + 1 >= m.kind.columns {
        ShownCellsStay(f.next, m, row + 1, 0);
      } else {
        ShownCellsStay(f.next, m, row, column + 1);
      }
    }
  }

  lemma ShownWidgetAgain(w: Widget, top: bool)
    ensures var u := ShownWidget(w, top);
        && ShownWidget(u, top) == u && u.kind == w.kind && u.hidden == w.hidden
        && (!w.kind.ScrollView? ==> u == w)
  {
  }

  lemma {:induction false} ShownIsSettled<V>(f: Forest<V>, pick: Pick, top: bool)
    ensures Settled(Shown(f, pick, top), pick, top)
    decreases Size(f)
  {
    hide ShownWidget, CellsSettled, Derived;
    if f.Node? {
      ShownWidgetAgain(f.w, top);
      ShownIsSettled(f.next, Next(pick), top);
      ShownIsSettled(f.subs, Every, false);
      ShownIsSettled(f.items, Only(Selected(f.w)), true);
      if f.w.kind.Matrix? {
        var derived := Derived(f.subs, f.w, 0, 0);
        DerivedIsSettled(f.subs, f.w, 0, 0);
        ShownCellsStay(derived, f.w, 0, 0);
        ShownIsSettled(derived, Every, false);
      }
    }
  }

  lemma {:induction false} SettledStays<V>(f: Forest<V>, pick: Pick, top: bool)
    requires Settled(f, pick, top)
    ensures Shown(f, pick, top) == f
    decreases Size(f)
  {
    hide ShownWidget, CellsSettled, Derived;
    if f.Node? {
      SettledStays(f.next, Next(pick), top);
      if Chosen(pick) {
        if !f.w.kind.TabView? && !f.w.hidden {
          SettledStays(f.subs, Every, false);
          if f.w.kind.Matrix? && f.w.kind.radioMode {
            SettledCellsStay(f.subs, f.w, 0, 0);
          }
        }
        if f.w.kind.TabView? {
          SettledStays(f.items, Only(Selected(f.w)), true);
        }
      }
    }
  }

  /** Displaying a window that was displayed changes nothing. */
  lemma ShownTwice<V>(f: Forest<V>, pick: Pick, top: bool)
    ensures Shown(Shown(f, pick, top), pick, top) == Shown(f, pick, top)
  {
    ShownIsSettled(f, pick, top);
    SettledStays(Shown(f, pick, top), pick, top);
  }

  /** The page of a window is the page of what displaying makes of it. */
  lemma PageOfShown<V>(f: Forest<V>)
    requires Proper(f)
    ensures var g := Shown(f, Every, true);
        && Proper(g) && Page(f) == Page(g)
        && Proper(Done(g, false, Every)) && Page(f) == Display(g, Every) + WritePersist(Done(g, false, Every))
  {
    ShownProper(f, Every, true);
    ShownTwice(f, Every, true);
    DisplayShown(f, Every, true);
    DoneProper(Shown(f, Every, true), false, Every);
  }
}
