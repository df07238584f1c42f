/** What a page promises: every visible view is drawn exactly once, every form name is written
    as often as it should be, and the next request restores what it can. */
module PageLaws {
  import opened Php
  import opened Persistence
  import opened Pages
  import opened Retouch

  // ----- which views are drawn, which are hidden -----

  /** Following the list top down: the view is displayed, and its subviews with it. */
  ghost predicate OnDisplay<V>(f: Forest<V>, v: V, pick: Pick)
    requires v in Views(f)
  {
    var Node(u, w, subs, items, next) := f;
    if v == u then Chosen(pick) && !w.hidden && !w.kind.TabView?
    else if v in Views(subs) then Chosen(pick) && !w.hidden && !w.kind.TabView? && OnDisplay(subs, v, Every)
    else if v in Views(items) then Chosen(pick) && w.kind.TabView? && OnDisplay(items, v, Only(Selected(w)))
    else OnDisplay(next, v, Next(pick))
  }

  /** The view is on display and draws itself. */
  ghost predicate Drawn<V>(f: Forest<V>, v: V, pick: Pick)
    requires v in Views(f)
  {
    OnDisplay(f, v, pick) && Draws(WidgetOf(f, v).kind)
  }

  /** Climbing superviews as `isHidden` does, with the flags that a tab view gives its items. */
  ghost predicate HiddenAfter<V>(f: Forest<V>, v: V, above: bool, pick: Pick)
    requires v in Views(f)
  {
    var Node(u, w, subs, items, next) := f;
    var h := above || Flag(w, pick);
    if v == u then h
    else if v in Views(subs) then HiddenAfter(subs, v, h, Every)
    else if v in Views(items) then HiddenAfter(items, v, false, Only(Selected(w)))
    else HiddenAfter(next, v, above, Next(pick))
  }

  ghost function DrawCount<V>(out: seq<Output<V>>, v: V): nat
  {
    if out == [] then 0 else (if out[0] == DrawCall(v) then 1 else 0) + DrawCount(out[1..], v)
  }

  lemma {:induction false} DrawCountConcat<V>(a: seq<Output<V>>, b: seq<Output<V>>, v: V)
    ensures DrawCount(a + b, v) == DrawCount(a, v) + DrawCount(b, v)
  {
    if a == [] {
      assert a + b == b;
    } else {
      DrawCountConcat(a[1..], b, v);
      assert (a + b)[1..] == a[1..] + b;
    }
  }

  lemma {:induction false} TabButtonsAreQuiet<V>(id: string, hideTab: seq<bool>, i: nat, v: V, n: string)
    requires i <= |hideTab|
    ensures DrawCount(TabButtons(id, hideTab, i), v) == 0
    ensures Values<V>(TabButtons(id, hideTab, i), n) == []
    decreases |hideTab| - i
  {
    if i < |hideTab| {
      TabButtonsAreQuiet(id, hideTab, i + 1, v, n);
      var b: seq<Output<V>> := TabButtons(id, hideTab, i);
      if !hideTab[i] {
        assert b[1..] == TabButtons(id, hideTab, i + 1);
      } else {
        assert b == TabButtons(id, hideTab, i + 1);
      }
    }
  }

  lemma DrawIsOneCall<V>(u: V, w: Widget, v: V)
    requires ProperWidget(w)
    ensures DrawCount(Draw(u, w), v) == if u == v && Draws(w.kind) then 1 else 0
  {
    if Draws(w.kind) {
      var d := Draw(u, w);
      assert d[0] == DrawCall(u);
      var rest := d[1..];
      assert rest != [] ==> rest[0].Element? && rest[1..] == [];
      assert DrawCount(rest, v) == 0;
    }
  }

  lemma {:induction false} UndrawnElsewhere<V>(f: Forest<V>, v: V, pick: Pick)
    requires Proper(f) && v !in Views(f)
    ensures DrawCount(Display(f, pick), v) == 0
  {
    match f
    case Nil =>
    case Node(u, w, subs, items, next) =>
      DisplaySplits(f, pick, v, "");
      UndrawnElsewhere(subs, v, Every);
      UndrawnElsewhere(items, v, Only(Selected(w)));
      UndrawnElsewhere(next, v, Next(pick));
  }

  /** The counts of a display, part by part. */
  lemma DisplaySplits<V>(f: Forest<V>, pick: Pick, v: V, n: string)
    requires Proper(f) && f.Node?
    ensures DrawCount(Display(f, pick), v) ==
            (if Chosen(pick) then DrawCount(Show(f), v) else 0) + DrawCount(Display(f.next, Next(pick)), v)
    ensures Values(Display(f, pick), n) ==
            (if Chosen(pick) then Values(Show(f), n) else []) + Values(Display(f.next, Next(pick)), n)
    ensures ShowSplits(f, v, n)
  {
    ShowCounts(f, v, n);
    if Chosen(pick) {
      DrawCountConcat(Show(f), Display(f.next, Next(pick)), v);
      ValuesConcat(Show(f), Display(f.next, Next(pick)), n);
    } else {
      DrawCountConcat([], Display(f.next, Next(pick)), v);
      ValuesConcat([], Display(f.next, Next(pick)), n);
    }
  }

  ghost predicate ShowSplits<V>(f: Forest<V>, v: V, n: string)
    requires Proper(f) && f.Node?
  {
    var w := f.w;
    && DrawCount(Show(f), v) ==
         (if w.kind.TabView? then DrawCount(Display(f.items, Only(Selected(w))), v)
          else if w.hidden then 0
          else DrawCount(Display(f.subs, Every), v) + (if f.view == v && Draws(w.kind) then 1 else 0))
    && Values(Show(f), n) ==
         (if w.kind.TabView? then Values(Display(f.items, Only(Selected(w))), n)
          else if w.hidden then []
          else Values(Display(f.subs, Every), n) + Values(Draw(f.view, w), n))
  }

  lemma ShowCounts<V>(f: Forest<V>, v: V, n: string)
    requires Proper(f) && f.Node?
    ensures ShowSplits(f, v, n)
  {
    var w := f.w;
    if w.kind.TabView? {
      TabButtonsAreQuiet(w.id, w.kind.hideTab, 0, v, n);
      DrawCountConcat(TabButtons(w.id, w.kind.hideTab, 0), Display(f.items, Only(Selected(w))), v);
      ValuesConcat(TabButtons(w.id, w.kind.hideTab, 0), Display(f.items, Only(Selected(w))), n);
    } else {
      DrawCountConcat(Display(f.subs, Every), Draw(f.view, w), v);
      ValuesConcat(Display(f.subs, Every), Draw(f.view, w), n);
      DrawIsOneCall(f.view, w, v);
    }
  }

  /** A view on display draws itself, unless it is a matrix or a collection view. */
  lemma {:induction false} DrawsItself<V>(f: Forest<V>, v: V, pick: Pick)
    requires v in Views(f)
    ensures OnDisplay(f, v, pick) ==> !WidgetOf(f, v).kind.TabView?
    ensures var kind := WidgetOf(f, v).kind; Drawn(f, v, pick) <==> OnDisplay(f, v, pick) && !kind.Matrix? && !kind.Collection?
  {
    if f.view == v {
    } else if v in Views(f.subs) {
      DrawsItself(f.subs, v, Every);
    } else if v in Views(f.items) {
      DrawsItself(f.items, v, Only(Selected(f.w)));
    } else {
      DrawsItself(f.next, v, Next(pick));
    }
  }

  /** Visible traversal: every view that should be drawn is drawn exactly once, no other is. */
  lemma {:induction false} DrawnExactlyOnce<V>(f: Forest<V>, v: V, pick: Pick)
    requires Proper(f) && Distinct(f) && v in Views(f)
    ensures DrawCount(Display(f, pick), v) == if Drawn(f, v, pick) then 1 else 0
    ensures var kind := WidgetOf(f, v).kind; Drawn(f, v, pick) <==> OnDisplay(f, v, pick) && !kind.Matrix? && !kind.Collection?
  {
    DrawsItself(f, v, pick);
    hide ProperWidget, Display, Show, DrawCount, Values, Length, Draws;
    var Node(u, w, subs, items, next) := f;
    DisplaySplits(f, pick, v, "");
    if v in Views(subs) { DrawnExactlyOnce(subs, v, Every); } else { UndrawnElsewhere(subs, v, Every); }
    if v in Views(items) {
      DrawnExactlyOnce(items, v, Only(Selected(w)));
    } else {
      UndrawnElsewhere(items, v, Only(Selected(w)));
    }
    if v in Views(next) { DrawnExactlyOnce(next, v, Next(pick)); } else { UndrawnElsewhere(next, v, Next(pick)); }
  }

  ghost predicate Within<T>(part: seq<T>, whole: seq<T>) {
    exists i :: IsAt(part, whole, i)
  }

  ghost predicate IsAt<T>(part: seq<T>, whole: seq<T>, i: int) {
    0 <= i && i + |part| <= |whole| && whole[i..i + |part|] == part
  }

  lemma WithinFrom<T>(p: seq<T>, part: seq<T>, q: seq<T>)
    ensures Within(part, p + part + q)
  {
    assert IsAt(part, p + part + q, |p|);
  }

  lemma WithinWider<T>(part: seq<T>, p: seq<T>, whole: seq<T>, q: seq<T>)
    requires Within(part, whole)
    ensures Within(part, p + whole + q)
  {
    var i :| IsAt(part, whole, i);
    assert (p + whole + q)[|p| + i..|p| + i + |part|] == whole[i..i + |part|];
    assert IsAt(part, p + whole + q, |p| + i);
  }

  /** Children before parents: a drawn view draws right after all its visible subviews. */
  lemma {:induction false} DrawnAfterSubviews<V>(f: Forest<V>, v: V, pick: Pick)
    requires Proper(f) && Distinct(f) && v in Views(f) && Drawn(f, v, pick)
    ensures var t := TreeOf(f, v);
            Within(Display(t.subs, Every) + Draw(v, t.w), Display(f, pick))
  {
    var t := TreeOf(f, v);
    var part := Display(t.subs, Every) + Draw(v, t.w);
    var p, inner, q := DisplayAround(f, v, pick);
    if f.view == v {
      WithinFrom(p, part, q);
    } else {
      if v in Views(f.subs) {
        DrawnAfterSubviews(f.subs, v, Every);
      } else if v in Views(f.items) {
        DrawnAfterSubviews(f.items, v, Only(Selected(f.w)));
      } else {
        DrawnAfterSubviews(f.next, v, Next(pick));
      }
      WithinWider(part, p, inner, q);
    }
  }

  /** Where the part of a display that concerns one drawn view lies. */
  lemma DisplayAround<V>(f: Forest<V>, v: V, pick: Pick)
    returns (p: seq<Output<V>>, inner: seq<Output<V>>, q: seq<Output<V>>)
    requires Proper(f) && v in Views(f) && Drawn(f, v, pick)
    ensures Display(f, pick) == p + inner + q
    ensures inner ==
      if v == f.view then Display(f.subs, Every) + Draw(v, f.w)
      else if v in Views(f.subs) then Display(f.subs, Every)
      else if v in Views(f.items) then Display(f.items, Only(Selected(f.w)))
      else Display(f.next, Next(pick))
  {
    hide Show, Draw;
    var rest := Display(f.next, Next(pick));
    if v == f.view || v in Views(f.subs) || v in Views(f.items) {
      p, inner, q := ShowAround(f, v);
      q := q + rest;
      assert Display(f, pick) == Show(f) + rest;
    } else {
      p, inner, q := if Chosen(pick) then Show(f) else [], rest, [];
    }
  }

  lemma ShowAround<V>(f: Forest<V>, v: V)
    returns (p: seq<Output<V>>, inner: seq<Output<V>>, q: seq<Output<V>>)
    requires Proper(f) && v in Views(f) && (v == f.view || v in Views(f.subs) || v in Views(f.items))
    requires Drawn(f, v, Every)
    ensures Show(f) == p + inner + q
    ensures inner ==
      if v == f.view then Display(f.subs, Every) + Draw(v, f.w)
      else if v in Views(f.subs) then Display(f.subs, Every)
      else Display(f.items, Only(Selected(f.w)))
  {
    if v == f.view {
      p, inner, q := [], Show(f), [];
    } else if v in Views(f.subs) {
      p, inner, q := [], Display(f.subs, Every), Draw(f.view, f.w);
    } else {
      p, inner, q := TabButtons(f.w.id, f.w.kind.hideTab, 0), Display(f.items, Only(Selected(f.w))), [];
    }
  }

  // ----- the form -----

  lemma ClaimsAreOwn(w: Widget, i: nat)
    requires i < |w.persists|
    ensures Claims(w.id, w.persists[i]) <= OwnNames(w)
  {
  }

  lemma {:induction false} OwnNamesAreNames<V>(f: Forest<V>, v: V)
    requires v in Views(f)
    ensures OwnNames(WidgetOf(f, v)) <= Names(f)
  {
    if f.view == v {
    } else if v in Views(f.subs) {
      OwnNamesAreNames(f.subs, v);
    } else if v in Views(f.items) {
      OwnNamesAreNames(f.items, v);
    } else {
      OwnNamesAreNames(f.next, v);
    }
  }

  /** What drawing one view puts under a name. */
  lemma DrawValues<V>(v: V, w: Widget, n: string)
    requires ProperWidget(w)
    ensures Values(Draw(v, w), n) ==
      (match w.kind
       case TextField(true, password) =>
         if NameOf(w.id, w.persists[0]) == n then [if password then "" else Text(w.props["string"])] else []
       case _ => [])
  {
    if Draws(w.kind) {
      var d := Draw(v, w);
      var rest := d[1..];
      assert rest != [] ==> rest[1..] == [];
      assert Values(rest, n) == Values(d, n);
    }
  }

  lemma DrawForeign<V>(v: V, w: Widget, n: string)
    requires ProperWidget(w) && n !in OwnNames(w)
    ensures Values(Draw(v, w), n) == []
  {
    DrawValues(v, w, n);
    if w.kind.TextField? { ClaimsAreOwn(w, 0); }
  }

  lemma {:induction false} DisplayForeign<V>(f: Forest<V>, pick: Pick, n: string)
    requires Proper(f) && n !in Names(f)
    ensures Values(Display(f, pick), n) == []
  {
    match f
    case Nil =>
    case Node(v, w, subs, items, next) =>
      DisplaySplits(f, pick, v, n);
      DrawForeign(v, w, n);
      DisplayForeign(subs, Every, n);
      DisplayForeign(items, Only(Selected(w)), n);
      DisplayForeign(next, Next(pick), n);
  }

  /** The values that drawing puts under one of the names a view's persistor may look under. */
  ghost function DrawnValues<V>(f: Forest<V>, v: V, pick: Pick, n: string): seq<string>
    requires Proper(f) && v in Views(f)
    requires ProperWidget(WidgetOf(f, v))
  {
    if Drawn(f, v, pick) then Values(Draw(v, WidgetOf(f, v)), n) else []
  }

  lemma {:induction false} WidgetsAreProper<V>(f: Forest<V>, v: V)
    requires Proper(f) && v in Views(f)
    ensures ProperWidget(WidgetOf(f, v))
  {
    if f.view == v {
    } else if v in Views(f.subs) {
      WidgetsAreProper(f.subs, v);
    } else if v in Views(f.items) {
      WidgetsAreProper(f.items, v);
    } else {
      WidgetsAreProper(f.next, v);
    }
  }

  lemma {:induction false} DisplayValues<V>(f: Forest<V>, v: V, pick: Pick, n: string)
    requires Proper(f) && Distinct(f) && Unique(f) && v in Views(f) && n in OwnNames(WidgetOf(f, v))
    ensures ProperWidget(WidgetOf(f, v))
    ensures Values(Display(f, pick), n) == DrawnValues(f, v, pick, n)
    decreases f, 1
  {
    hide Display, Show, Values, Draw, OwnNames;
    WidgetsAreProper(f, v);
    DisplaySplits(f, pick, v, n);
    if v in Views(f.next) {
      OwnNamesAreNames(f.next, v);
      ShowForeign(f, v, n);
      DisplayValues(f.next, v, Next(pick), n);
    } else {
      ShowValues(f, v, n);
      DisplayForeign(f.next, Next(pick), n);
    }
  }

  lemma ShowForeign<V>(f: Forest<V>, v: V, n: string)
    requires Proper(f) && f.Node? && n !in OwnNames(f.w) && n !in Names(f.subs) && n !in Names(f.items)
    ensures Values(Show(f), n) == []
  {
    ShowCounts(f, v, n);
    DisplayForeign(f.subs, Every, n);
    DisplayForeign(f.items, Only(Selected(f.w)), n);
    DrawForeign(f.view, f.w, n);
  }

  lemma {:induction false} ShowValues<V>(f: Forest<V>, v: V, n: string)
    requires Proper(f) && Distinct(f) && Unique(f) && v in Views(f) && v !in Views(f.next)
    requires n in OwnNames(WidgetOf(f, v))
    ensures ProperWidget(WidgetOf(f, v)) && n !in Names(f.next)
    ensures Values(Show(f), n) == DrawnValues(f, v, Every, n)
    decreases f, 0
  {
    hide Display, Show, Values, Draw, OwnNames;
    WidgetsAreProper(f, v);
    ShowCounts(f, v, n);
    if f.view == v {
      DrawValues(v, f.w, n);
      DisplayForeign(f.subs, Every, n);
      DisplayForeign(f.items, Only(Selected(f.w)), n);
    } else if v in Views(f.subs) {
      OwnNamesAreNames(f.subs, v);
      DrawForeign(f.view, f.w, n);
      DisplayValues(f.subs, v, Every, n);
      DisplayForeign(f.items, Only(Selected(f.w)), n);
    } else {
      OwnNamesAreNames(f.items, v);
      DrawForeign(f.view, f.w, n);
      DisplayForeign(f.subs, Every, n);
      DisplayValues(f.items, v, Only(Selected(f.w)), n);
    }
  }

  // ----- the two ways of asking whether a view is hidden -----

  /** Climbing superviews as `isHidden` does. */
  ghost predicate HiddenNow<V>(f: Forest<V>, v: V, above: bool)
    requires v in Views(f)
  {
    var Node(u, w, subs, items, next) := f;
    if v == u then above || w.hidden
    else if v in Views(subs) then HiddenNow(subs, v, above || w.hidden)
    else if v in Views(items) then HiddenNow(items, v, false)
    else HiddenNow(next, v, above)
  }

  ghost predicate NoTabViews<V>(f: Forest<V>)
  {
    match f
    case Nil => true
    case Node(_, w, subs, items, next) => !w.kind.TabView? && items.Nil? && NoTabViews(subs) && NoTabViews(next)
  }

  /** Without tab views, the top-down skip of `display` and the bottom-up test of `isHidden`
      agree on every view; a view draws if it is not hidden and of a kind that draws. */
  lemma {:induction false} DrawnIffNotHidden<V>(f: Forest<V>, v: V)
    requires NoTabViews(f) && v in Views(f)
    ensures OnDisplay(f, v, Every) <==> !HiddenNow(f, v, false)
    ensures Drawn(f, v, Every) <==> !HiddenNow(f, v, false) && Draws(WidgetOf(f, v).kind)
  {
    var Node(u, w, subs, items, next) := f;
    if u == v {
    } else if v in Views(subs) {
      if w.hidden { HiddenBelow(subs, v); } else { DrawnIffNotHidden(subs, v); }
    } else {
      DrawnIffNotHidden(next, v);
    }
  }

  lemma {:induction false} HiddenBelow<V>(f: Forest<V>, v: V)
    requires NoTabViews(f) && v in Views(f)
    ensures HiddenNow(f, v, true)
  {
    if f.view == v {
    } else if v in Views(f.subs) {
      HiddenBelow(f.subs, v);
    } else {
      HiddenBelow(f.next, v);
    }
  }

  /** The finishing pass leaves exactly the flags it decided by. */
  lemma {:induction false} HiddenAfterIsHidden<V>(f: Forest<V>, v: V, above: bool, pick: Pick)
    requires Proper(f) && v in Views(f)
    ensures HiddenNow(Done(f, above, pick), v, above) == HiddenAfter(f, v, above, pick)
  {
    var Node(u, w, subs, items, next) := f;
    var h := above || Flag(w, pick);
    var g := Done(f, above, pick);
    assert g.view == u && g.w.hidden == Flag(w, pick);
    if u == v {
    } else if v in Views(subs) {
      HiddenAfterIsHidden(subs, v, h, Every);
    } else if v in Views(items) {
      HiddenAfterIsHidden(items, v, false, Only(Selected(w)));
    } else {
      HiddenAfterIsHidden(next, v, above, Next(pick));
    }
  }

  // ----- what displaying changes -----

  lemma ShowIgnoresState<V>(f: Forest<V>, flag: bool)
    requires Proper(f) && f.Node?
    ensures var g := f.(w := WithSelected(f.w, flag)); Proper(g) && Show(g) == Show(f)
  {
  }

  lemma {:induction false} DisplayDerived<V>(f: Forest<V>, m: Widget, row: int, column: int)
    requires Proper(f) && m.kind.Matrix?
    ensures Proper(Derived(f, m, row, column)) && Display(Derived(f, m, row, column), Every) == Display(f, Every)
  {
    hide WithSelected, Number, ProperWidget, Show;
    if f.Node? {
      ShowIgnoresState(f, row == Number(m, "selectedRow") && column == Number(m, "selectedColumn"));
      DerivedProper(f, m, row, column);
      ShowHead(f.(w := Derived(f, m, row, column).w), Derived(f, m, row, column));
      if column + 1 >= m.kind.columns {
        DisplayDerived(f.next, m, row + 1, 0);
      } else {
        DisplayDerived(f.next, m, row, column + 1);
      }
    }
  }

  /** What displaying changes does not show: it shows the same page again. */
  lemma {:induction false} DisplayShown<V>(f: Forest<V>, pick: Pick, top: bool)
    requires Proper(f)
    ensures Proper(Shown(f, pick, top)) && Display(Shown(f, pick, top), pick) == Display(f, pick)
    decreases Size(f), 0
  {
    hide Show, ProperWidget, ShownWidget, ShownSubs, ShownItems, Derived;
    ShownProper(f, pick, top);
    if f.Node? {
      DisplayShown(f.next, Next(pick), top);
      if Chosen(pick) {
        DisplaySubsShown(f.w, f.subs);
        DisplayShown(f.items, Only(Selected(f.w)), true);
        ShowShown(f, Shown(f, pick, top), top);
      } else {
        ShowHead(f, Shown(f, pick, top));
      }
    }
  }

  lemma {:induction false} DisplaySubsShown<V>(w: Widget, subs: Forest<V>)
    requires Proper(subs)
    ensures Proper(ShownSubs(w, subs)) && Display(ShownSubs(w, subs), Every) == Display(subs, Every)
    decreases Size(subs), 1
  {
    hide Display, Shown, Derived, Proper;
    DisplayShown(subs, Every, false);
    if w.kind.Matrix? {
      DisplayDerived(subs, w, 0, 0);
      DisplayShown(Derived(subs, w, 0, 0), Every, false);
    }
  }

  /** A view shows the same once it and everything below it was displayed. */
  lemma ShowShown<V>(f: Forest<V>, g: Forest<V>, top: bool)
    requires f.Node? && g.Node? && Proper(f) && Proper(g) && g.view == f.view && g.w == ShownWidget(f.w, top)
    requires Proper(g.subs) && Display(g.subs, Every) == Display(f.subs, Every)
    requires g.items == ShownItems(f.w, f.items)
    requires var items := Shown(f.items, Only(Selected(f.w)), true);
        Proper(items) && Display(items, Only(Selected(f.w))) == Display(f.items, Only(Selected(f.w)))
    ensures Show(g) == Show(f)
  {
    hide Display, TabButtons, Shown, Proper;
  }

  /** The later trees of a list do not matter to the first. */
  lemma ShowHead<V>(f: Forest<V>, g: Forest<V>)
    requires f.Node? && g.Node? && Proper(f) && Proper(g) && g == f.(next := g.next)
    ensures Show(g) == Show(f)
  {
  }
}
