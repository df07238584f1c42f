/** Forests that differ only in what the passes of a request write into their widgets: properties
    and the record of a click. Everything else about them is the same. */
module Retouch {
  import opened Php
  import opened Persistence
  import opened Pages

  /** The kinds agree up to the recorded click. */
  predicate SameKind(k: Kind, l: Kind) {
    match k
    case TabView(hideTab, _) => l.TabView? && l.hideTab == hideTab
    case Matrix(columns, radioMode, _, _) => l.Matrix? && l.columns == columns && l.radioMode == radioMode
    case _ => l == k
  }

  ghost predicate Touched(w: Widget, u: Widget) {
    && SameKind(w.kind, u.kind) && u == w.(kind := u.kind, props := u.props)
    && w.props.Keys <= u.props.Keys
  }

  ghost predicate Retouched<V>(f: Forest<V>, g: Forest<V>) {
    match f
    case Nil => g.Nil?
    case Node(v, w, subs, items, next) =>
      && g.Node? && g.view == v && Touched(w, g.w)
      && Retouched(subs, g.subs) && Retouched(items, g.items) && Retouched(next, g.next)
  }

  lemma {:induction false} Same<V>(f: Forest<V>)
    ensures Retouched(f, f)
  {
    if f.Node? {
      Same(f.subs);
      Same(f.items);
      Same(f.next);
    }
  }

  lemma {:induction false} Twice<V>(f: Forest<V>, g: Forest<V>, h: Forest<V>)
    requires Retouched(f, g) && Retouched(g, h)
    ensures Retouched(f, h)
  {
    if f.Node? {
      Twice(f.subs, g.subs, h.subs);
      Twice(f.items, g.items, h.items);
      Twice(f.next, g.next, h.next);
    }
  }

  lemma {:induction false} Shape<V>(f: Forest<V>, g: Forest<V>)
    requires Retouched(f, g)
    ensures Views(g) == Views(f) && Tops(g) == Tops(f) && Length(g) == Length(f) && Size(g) == Size(f)
  {
    if f.Node? {
      Shape(f.subs, g.subs);
      Shape(f.items, g.items);
      Shape(f.next, g.next);
    }
  }

  lemma {:induction false} Distinctness<V>(f: Forest<V>, g: Forest<V>)
    requires Retouched(f, g) && Distinct(f)
    ensures Distinct(g)
  {
    if f.Node? {
      Shape(f.subs, g.subs);
      Shape(f.items, g.items);
      Shape(f.next, g.next);
      Distinctness(f.subs, g.subs);
      Distinctness(f.items, g.items);
      Distinctness(f.next, g.next);
    }
  }

  lemma TouchedProper(w: Widget, u: Widget)
    requires Touched(w, u) && ProperWidget(w)
    ensures ProperWidget(u) && OwnNames(u) == OwnNames(w) && (UniqueWidget(w) ==> UniqueWidget(u))
  {
  }

  lemma {:induction false} Properness<V>(f: Forest<V>, g: Forest<V>)
    requires Retouched(f, g) && Proper(f)
    ensures Proper(g)
  {
    if f.Node? {
      Shape(f.items, g.items);
      TouchedProper(f.w, g.w);
      hide ProperWidget;
      Properness(f.subs, g.subs);
      Properness(f.items, g.items);
      Properness(f.next, g.next);
    }
  }

  lemma {:induction false} Uniqueness<V>(f: Forest<V>, g: Forest<V>)
    requires Retouched(f, g) && Proper(f)
    ensures Names(g) == Names(f) && (Unique(f) ==> Unique(g))
  {
    hide ProperWidget, OwnNames, UniqueWidget, Touched, Length;
    if f.Node? {
      TouchedProper(f.w, g.w);
      Uniqueness(f.subs, g.subs);
      Uniqueness(f.items, g.items);
      Uniqueness(f.next, g.next);
    }
  }

  /** What the two forests share about one view. */
  ghost predicate Alike<V>(f: Forest<V>, g: Forest<V>, v: V, parent: Option<V>)
    requires v in Views(f) && v in Views(g)
  {
    && Touched(WidgetOf(f, v), WidgetOf(g, v))
    && SubsOf(g, v) == SubsOf(f, v) && ItemsOf(g, v) == ItemsOf(f, v) && ParentOf(g, v, parent) == ParentOf(f, v, parent)
    && Views(TreeOf(g, v)) == Views(TreeOf(f, v))
  }

  lemma {:induction false} AlikeAt<V>(f: Forest<V>, g: Forest<V>, v: V, parent: Option<V>)
    requires Retouched(f, g) && v in Views(f)
    ensures v in Views(g) && Alike(f, g, v, parent)
  {
    Shape(f.subs, g.subs);
    Shape(f.items, g.items);
    Shape(f.next, g.next);
    hide Touched;
    if f.view == v {
    } else if v in Views(f.subs) {
      AlikeAt(f.subs, g.subs, v, Some(f.view));
      AlikeBelow(f, g, f.subs, g.subs, v, parent, Some(f.view));
    } else if v in Views(f.items) {
      AlikeAt(f.items, g.items, v, None);
      AlikeBelow(f, g, f.items, g.items, v, parent, None);
    } else {
      AlikeAt(f.next, g.next, v, parent);
      AlikeBelow(f, g, f.next, g.next, v, parent, parent);
    }
  }

  lemma AlikeBelow<V>(f: Forest<V>, g: Forest<V>, s: Forest<V>, t: Forest<V>, v: V, parent: Option<V>, inner: Option<V>)
    requires v in Views(f) && v in Views(g) && v in Views(s) && v in Views(t) && Alike(s, t, v, inner)
    requires TreeOf(f, v) == TreeOf(s, v) && TreeOf(g, v) == TreeOf(t, v)
    requires WidgetOf(f, v) == WidgetOf(s, v) && WidgetOf(g, v) == WidgetOf(t, v)
    requires ParentOf(f, v, parent) == ParentOf(s, v, inner) && ParentOf(g, v, parent) == ParentOf(t, v, inner)
    ensures Alike(f, g, v, parent)
  {
  }

  /** The parts of a view that an action looks at. */
  lemma RoleAt<V>(f: Forest<V>, g: Forest<V>, v: V)
    requires Retouched(f, g) && v in Views(f)
    ensures v in Views(g) && SubsOf(g, v) == SubsOf(f, v)
    ensures var w, u := WidgetOf(f, v), WidgetOf(g, v);
        && u.action == w.action && u.id == w.id && (u.kind.Button? <==> w.kind.Button?)
        && (u.kind.PopUp? <==> w.kind.PopUp?) && (u.kind.TabView? <==> w.kind.TabView?)
        && (u.kind.Matrix? <==> w.kind.Matrix?)
        && (w.kind.Matrix? ==> u.kind.columns == w.kind.columns && u.kind.radioMode == w.kind.radioMode)
  {
    AlikeAt(f, g, v, None);
  }

  // ----- one widget -----

  /** The forest with another widget for one view. */
  ghost function Put<V>(f: Forest<V>, v: V, u: Widget): (g: Forest<V>)
    ensures Views(g) == Views(f) && Tops(g) == Tops(f) && Length(g) == Length(f) && Size(g) == Size(f)
  {
    match f
    case Nil => Nil
    case Node(x, w, subs, items, next) =>
      Node(x, if x == v then u else w, Put(subs, v, u), Put(items, v, u), Put(next, v, u))
  }

  lemma {:induction false} PutForeign<V>(f: Forest<V>, v: V, u: Widget)
    requires v !in Views(f)
    ensures Put(f, v, u) == f
  {
    if f.Node? {
      PutForeign(f.subs, v, u);
      PutForeign(f.items, v, u);
      PutForeign(f.next, v, u);
    }
  }

  lemma {:induction false} PutAt<V>(f: Forest<V>, v: V, u: Widget, x: V)
    requires x in Views(f)
    ensures WidgetOf(Put(f, v, u), x) == if x == v then u else WidgetOf(f, x)
  {
    var g := Put(f, v, u);
    if f.view == x {
    } else if x in Views(f.subs) {
      PutAt(f.subs, v, u, x);
      assert WidgetOf(g, x) == WidgetOf(g.subs, x);
    } else if x in Views(f.items) {
      PutAt(f.items, v, u, x);
      assert WidgetOf(g, x) == WidgetOf(g.items, x);
    } else {
      PutAt(f.next, v, u, x);
      assert WidgetOf(g, x) == WidgetOf(g.next, x);
    }
  }

  lemma {:induction false} PutRetouches<V>(f: Forest<V>, v: V, u: Widget)
    requires Distinct(f) && (v in Views(f) ==> Touched(WidgetOf(f, v), u))
    ensures Retouched(f, Put(f, v, u))
  {
    if f.Node? {
      TouchedItself(f.w);
      hide Touched;
      PutRetouches(f.subs, v, u);
      PutRetouches(f.items, v, u);
      PutRetouches(f.next, v, u);
    }
  }

  lemma TouchedItself(w: Widget)
    ensures Touched(w, w)
  {
  }

  lemma {:induction false} PutSame<V>(f: Forest<V>, v: V)
    requires Distinct(f) && v in Views(f)
    ensures Put(f, v, WidgetOf(f, v)) == f
  {
    var w := WidgetOf(f, v);
    if v in Views(f.subs) { PutSame(f.subs, v); } else { PutForeign(f.subs, v, w); }
    if v in Views(f.items) { PutSame(f.items, v); } else { PutForeign(f.items, v, w); }
    if v in Views(f.next) { PutSame(f.next, v); } else { PutForeign(f.next, v, w); }
  }

  // ----- displaying -----

  lemma {:induction false} DerivedRetouches<V>(f: Forest<V>, m: Widget, row: int, column: int)
    requires m.kind.Matrix?
    ensures Retouched(f, Derived(f, m, row, column))
  {
    if f.Node? {
      Same(f.subs);
      Same(f.items);
      if column + 1 >= m.kind.columns {
        DerivedRetouches(f.next, m, row + 1, 0);
      } else {
        DerivedRetouches(f.next, m, row, column + 1);
      }
    }
  }

  lemma ShownWidgetTouches(w: Widget, top: bool)
    ensures Touched(w, ShownWidget(w, top))
  {
  }

  lemma {:induction false} ShownSubsRetouches<V>(w: Widget, subs: Forest<V>)
    ensures Retouched(subs, ShownSubs(w, subs))
    decreases Size(subs), 1
  {
    hide Retouched, Derived, Shown;
    Same(subs);
    ShownRetouches(subs, Every, false);
    if w.kind.Matrix? {
      var derived := Derived(subs, w, 0, 0);
      DerivedRetouches(subs, w, 0, 0);
      ShownRetouches(derived, Every, false);
      Twice(subs, derived, Shown(derived, Every, false));
    }
  }

  lemma {:induction false} ShownRetouches<V>(f: Forest<V>, pick: Pick, top: bool)
    ensures Retouched(f, Shown(f, pick, top))
    decreases Size(f), 0
  {
    hide Touched, ShownSubs, ShownWidget;
    if f.Node? {
      TouchedItself(f.w);
      ShownWidgetTouches(f.w, top);
      Same(f.subs);
      Same(f.items);
      ShownRetouches(f.next, Next(pick), top);
      ShownSubsRetouches(f.w, f.subs);
      ShownRetouches(f.items, Only(Selected(f.w)), true);
    }
  }
}
