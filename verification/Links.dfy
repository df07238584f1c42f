/** What adding and removing a subview does to the links of every single view. */
module Links {
  import opened Php
  import opened Persistence
  import opened Pages
  import opened Surgery
  import opened Hierarchy

  lemma {:induction false} AppendTrees<V>(f: Forest<V>, t: Forest<V>, x: V, parent: Option<V>)
    requires Distinct(f) && Distinct(t) && Views(f) !! Views(t) && x in Views(f) + Views(t)
    ensures x in Views(Append(f, t))
    ensures x in Views(f) ==> SameView(Append(f, t), f, x, parent)
    ensures x in Views(t) ==> SameView(Append(f, t), t, x, parent)
  {
    AppendViews(f, t);
    if f.Node? {
      AppendViews(f.next, t);
      if x in Views(f.next) + Views(t) {
        AppendTrees(f.next, t, x, parent);
      }
    }
  }

  /** Two forests agree on a view: widget, children and superview. */
  ghost predicate SameView<V>(f: Forest<V>, g: Forest<V>, x: V, parent: Option<V>)
  {
    && x in Views(f) && x in Views(g)
    && WidgetOf(f, x) == WidgetOf(g, x) && SubsOf(f, x) == SubsOf(g, x) && ItemsOf(f, x) == ItemsOf(g, x)
    && ParentOf(f, x, parent) == ParentOf(g, x, parent)
  }

  /** A view of the forest after grafting: one more child if it is the new superview. */
  ghost predicate Grafted<V>(g: Forest<V>, f: Forest<V>, p: V, c: V, x: V, parent: Option<V>)
  {
    && x in Views(f) && x in Views(g)
    && WidgetOf(g, x) == WidgetOf(f, x) && ItemsOf(g, x) == ItemsOf(f, x)
    && SubsOf(g, x) == SubsOf(f, x) + (if x == p then [c] else [])
    && ParentOf(g, x, parent) == ParentOf(f, x, parent)
  }

  lemma GraftHere<V>(f: Forest<V>, t: Forest<V>)
    requires f.Node? && Distinct(f)
    ensures Graft(f, f.view, t) == f.(subs := Append(f.subs, t))
  {
    GraftForeign(f.subs, f.view, t);
    GraftForeign(f.items, f.view, t);
    GraftForeign(f.next, f.view, t);
  }

  lemma GraftBelow<V>(f: Forest<V>, p: V, t: Forest<V>)
    requires f.Node? && f.view != p
    ensures Graft(f, p, t) == Node(f.view, f.w, Graft(f.subs, p, t), Graft(f.items, p, t), Graft(f.next, p, t))
  {
  }

  lemma LiftGrafted<V>(g: Forest<V>, f: Forest<V>, p: V, c: V, x: V, parent: Option<V>)
    requires f.Node? && g.Node? && f.view == g.view && x != f.view
    requires
      || (x in Views(f.subs) && Grafted(g.subs, f.subs, p, c, x, Some(f.view)))
      || (x !in Views(f.subs) + Views(g.subs) && x in Views(f.items) && Grafted(g.items, f.items, p, c, x, None))
      || (x !in Views(f.subs) + Views(g.subs) + Views(f.items) + Views(g.items) && Grafted(g.next, f.next, p, c, x, parent))
    ensures Grafted(g, f, p, c, x, parent)
  {
  }

  lemma UntouchedGrafted<V>(f: Forest<V>, p: V, c: V, x: V, parent: Option<V>)
    requires x in Views(f) && x != p
    ensures Grafted(f, f, p, c, x, parent)
  {
  }

  lemma AppendedGrafted<V>(f: Forest<V>, t: Forest<V>, p: V, x: V)
    requires x in Views(f) && x != p && Distinct(f) && Distinct(t) && Views(f) !! Views(t) && t.Node? && t.next.Nil?
    ensures Grafted(Append(f, t), f, p, t.view, x, Some(p))
  {
    hide Distinct, Append, WidgetOf, TreeOf, ItemsOf, SubsOf, ParentOf;
    AppendViews(f, t);
    AppendTrees(f, t, x, Some(p));
  }

  lemma NewParentGrafted<V>(f: Forest<V>, t: Forest<V>, parent: Option<V>)
    requires f.Node? && t.Node? && t.next.Nil?
    ensures Grafted(f.(subs := Append(f.subs, t)), f, f.view, t.view, f.view, parent)
  {
    AppendViews(f.subs, t);
    assert Tops(t) == [t.view];
  }

  lemma GraftOldHere<V>(f: Forest<V>, t: Forest<V>, x: V, parent: Option<V>)
    requires Distinct(f) && Distinct(t) && Views(f) !! Views(t) && t.Node? && t.next.Nil? && x in Views(f)
    ensures Grafted(Graft(f, f.view, t), f, f.view, t.view, x, parent)
  {
    hide Grafted, Append, Graft;
    var p, g := f.view, f.(subs := Append(f.subs, t));
    GraftHere(f, t);
    AppendViews(f.subs, t);
    if x == p {
      NewParentGrafted(f, t, parent);
    } else {
      if x in Views(f.subs) {
        AppendedGrafted(f.subs, t, p, x);
      } else if x in Views(f.items) {
        UntouchedGrafted(f.items, p, t.view, x, None);
      } else {
        UntouchedGrafted(f.next, p, t.view, x, parent);
      }
      LiftGrafted(g, f, p, t.view, x, parent);
    }
  }

  lemma BelowGrafted<V>(g: Forest<V>, f: Forest<V>, p: V, c: V, parent: Option<V>)
    requires f.Node? && f.view != p && g.Node? && g.view == f.view && g.w == f.w
    requires Tops(g.subs) == Tops(f.subs) && Tops(g.items) == Tops(f.items)
    ensures Grafted(g, f, p, c, f.view, parent)
  {
  }

  lemma {:induction false} GraftOld<V>(f: Forest<V>, p: V, t: Forest<V>, x: V, parent: Option<V>)
    requires Distinct(f) && Distinct(t) && Views(f) !! Views(t) && t.Node? && t.next.Nil? && x in Views(f)
    ensures Grafted(Graft(f, p, t), f, p, t.view, x, parent)
  {
    if f.view == p {
      GraftOldHere(f, t, x, parent);
    } else {
      var g := Graft(f, p, t);
      hide Grafted;
      GraftBelow(f, p, t);
      GraftViews(f.subs, p, t);
      GraftViews(f.items, p, t);
      if x == f.view {
        BelowGrafted(g, f, p, t.view, parent);
      } else {
        if x in Views(f.subs) {
          GraftOld(f.subs, p, t, x, Some(f.view));
        } else if x in Views(f.items) {
          GraftOld(f.items, p, t, x, None);
        } else {
          GraftOld(f.next, p, t, x, parent);
        }
        LiftGrafted(g, f, p, t.view, x, parent);
      }
    }
  }

  /** A view of the grafted tree keeps everything; its top gets the new superview. */
  lemma {:induction false} GraftNew<V>(f: Forest<V>, p: V, t: Forest<V>, x: V, parent: Option<V>)
    requires Distinct(f) && Distinct(t) && Views(f) !! Views(t) && t.Node? && t.next.Nil?
    requires p in Views(f) && x in Views(t)
    ensures x in Views(Graft(f, p, t))
    ensures TreeOf(Graft(f, p, t), x) == TreeOf(t, x)
    ensures ParentOf(Graft(f, p, t), x, parent) == ParentOf(t, x, Some(p))
  {
    if f.view == p {
      GraftHere(f, t);
      AppendViews(f.subs, t);
      AppendNew(f.subs, t, x, Some(p));
    } else {
      GraftBelow(f, p, t);
      GraftViews(f.subs, p, t);
      GraftViews(f.items, p, t);
      if p in Views(f.subs) {
        GraftNew(f.subs, p, t, x, Some(f.view));
      } else if p in Views(f.items) {
        GraftForeign(f.subs, p, t);
        GraftNew(f.items, p, t, x, None);
      } else {
        GraftForeign(f.subs, p, t);
        GraftForeign(f.items, p, t);
        GraftNew(f.next, p, t, x, parent);
      }
    }
  }

  lemma {:induction false} AppendNew<V>(f: Forest<V>, t: Forest<V>, x: V, parent: Option<V>)
    requires x !in Views(f) && x in Views(t)
    ensures x in Views(Append(f, t))
    ensures TreeOf(Append(f, t), x) == TreeOf(t, x) && ParentOf(Append(f, t), x, parent) == ParentOf(t, x, parent)
  {
    AppendViews(f, t);
    if f.Node? {
      AppendNew(f.next, t, x, parent);
    }
  }

  /** A view that stays after pruning: `c` is gone from its children. */
  ghost predicate Pruned<V>(g: Forest<V>, f: Forest<V>, c: V, x: V, parent: Option<V>)
  {
    && x in Views(f) && x in Views(g)
    && WidgetOf(g, x) == WidgetOf(f, x)
    && SubsOf(g, x) == Tops(Prune(TreeOf(f, x).subs, c)) && ItemsOf(g, x) == Tops(Prune(TreeOf(f, x).items, c))
    && ParentOf(g, x, parent) == ParentOf(f, x, parent)
  }

  lemma {:induction false} PruneOld<V>(f: Forest<V>, c: V, x: V, parent: Option<V>)
    requires Distinct(f) && c in Views(f) && x in Views(f) && x !in Views(TreeOf(f, c))
    ensures Pruned(Prune(f, c), f, c, x, parent)
  {
    var Node(u, w, subs, items, next) := f;
    PruneShrinks(subs, c);
    PruneShrinks(items, c);
    PruneShrinks(next, c);
    if u == c {
      PruneForeign(next, c);
      if x in Views(next) { ForeignTree(next, c, x); }
    } else if x == u {
    } else if x in Views(subs) {
      if c in Views(subs) { PruneOld(subs, c, x, Some(u)); } else { PruneForeign(subs, c); ForeignTree(subs, c, x); }
    } else if x in Views(items) {
      if c in Views(items) { PruneOld(items, c, x, None); } else { PruneForeign(items, c); ForeignTree(items, c, x); }
    } else {
      if c in Views(next) { PruneOld(next, c, x, parent); } else { PruneForeign(next, c); ForeignTree(next, c, x); }
    }
  }

  lemma ForeignTree<V>(f: Forest<V>, c: V, x: V)
    requires c !in Views(f) && x in Views(f)
    ensures Prune(TreeOf(f, x).subs, c) == TreeOf(f, x).subs && Prune(TreeOf(f, x).items, c) == TreeOf(f, x).items
  {
    PruneForeign(TreeOf(f, x).subs, c);
    PruneForeign(TreeOf(f, x).items, c);
  }

  lemma {:induction false} ParentInTree<V>(f: Forest<V>, c: V, x: V, parent: Option<V>, top: Option<V>)
    requires Distinct(f) && c in Views(f) && x in Views(TreeOf(f, c)) && x != c
    ensures x in Views(f) && ParentOf(f, x, parent) == ParentOf(TreeOf(f, c), x, top)
  {
    if f.view == c {
    } else if c in Views(f.subs) {
      ParentInTree(f.subs, c, x, Some(f.view), top);
    } else if c in Views(f.items) {
      ParentInTree(f.items, c, x, None, top);
    } else {
      ParentInTree(f.next, c, x, parent, top);
    }
  }

  /** The top of a tree is nobody's child. */
  lemma {:induction false} TopIsNoChild<V>(f: Forest<V>, v: V, x: V)
    requires Distinct(f) && v in Tops(f) && x in Views(f)
    ensures v in Views(f) && v !in SubsOf(f, x) && v !in ItemsOf(f, x)
    ensures ParentOf(f, v, None) == None
  {
    TopsAreViews(f);
    var t := TreeOf(f, x);
    TopsAreViews(t.subs);
    TopsAreViews(t.items);
    TopIsOutside(f, v, x);
  }

  lemma {:induction false} TopIsOutside<V>(f: Forest<V>, v: V, x: V)
    requires Distinct(f) && v in Tops(f) && x in Views(f)
    ensures v in Views(f) && v !in Views(TreeOf(f, x).subs) && v !in Views(TreeOf(f, x).items)
    ensures ParentOf(f, v, None) == None
  {
    TopsAreViews(f);
    if v != f.view {
      TopsAreViews(f.next);
      assert v in Tops(f.next);
      if x in Views(f.next) {
        TopIsOutside(f.next, v, x);
      } else {
        TopIsOutside(f.next, v, v);
        BelowHead(f, x);
      }
    } else {
      if x in Views(f.next) { BelowNext(f, x); } else { BelowHead(f, x); }
    }
  }

  lemma BelowHead<V>(f: Forest<V>, x: V)
    requires f.Node? && Distinct(f) && x in Views(f) && x !in Views(f.next)
    ensures Views(TreeOf(f, x).subs) <= Views(f.subs) + Views(f.items)
    ensures Views(TreeOf(f, x).items) <= Views(f.subs) + Views(f.items)
  {
    if x in Views(f.subs) {
      assert Views(TreeOf(f.subs, x)) <= Views(f.subs);
    } else if x in Views(f.items) {
      assert Views(TreeOf(f.items, x)) <= Views(f.items);
    }
  }

  lemma BelowNext<V>(f: Forest<V>, x: V)
    requires f.Node? && Distinct(f) && x in Views(f.next)
    ensures Views(TreeOf(f, x)) <= Views(f.next)
  {
    assert Views(TreeOf(f.next, x)) <= Views(f.next);
  }

  /** A subview has one superview, and is nobody else's child. */
  lemma {:induction false} ChildHasOneParent<V>(f: Forest<V>, p: V, c: V, x: V, parent: Option<V>)
    requires Distinct(f) && p in Views(f) && c in SubsOf(f, p) && x in Views(f)
    ensures c in Views(f) && ParentOf(f, c, parent) == Some(p)
    ensures c !in ItemsOf(f, x) && (x != p ==> c !in SubsOf(f, x))
  {
    ChildrenAreBelow(f, p);
    ChildsParent(f, p, c, parent);
    ChildrenParents(f, x, parent);
  }

  lemma {:induction false} ChildsParent<V>(f: Forest<V>, p: V, c: V, parent: Option<V>)
    requires Distinct(f) && p in Views(f) && c in SubsOf(f, p)
    ensures c in Views(f) && ParentOf(f, c, parent) == Some(p)
  {
    ChildrenParents(f, p, parent);
  }

  lemma {:induction false} TopsParents<V>(f: Forest<V>, parent: Option<V>)
    requires Distinct(f)
    ensures forall c :: c in Tops(f) ==> c in Views(f) && ParentOf(f, c, parent) == parent
  {
    if f.Node? {
      TopsParents(f.next, parent);
    }
  }

  lemma {:induction false} ChildrenParents<V>(f: Forest<V>, x: V, parent: Option<V>)
    requires Distinct(f) && x in Views(f)
    ensures forall c :: c in SubsOf(f, x) ==> c in Views(f) && ParentOf(f, c, parent) == Some(x)
    ensures forall c :: c in ItemsOf(f, x) ==> c in Views(f) && ParentOf(f, c, parent) == None
  {
    if f.view == x {
      TopsParents(f.subs, Some(x));
      TopsParents(f.items, None);
    } else if x in Views(f.subs) {
      ChildrenParents(f.subs, x, Some(f.view));
    } else if x in Views(f.items) {
      ChildrenParents(f.items, x, None);
    } else {
      ChildrenParents(f.next, x, parent);
    }
  }

  // ----- the two changes -----

  /** Every view after `addSubview` of a tree's top. */
  lemma AddLinks<V>(f: Forest<V>, p: V, v: V, x: V)
    requires Distinct(f) && p in Views(f) && v in Tops(f) && v in Views(f) && x in Views(f)
    requires v != p && ParentOf(f, v, None).None? && p !in Views(TreeOf(f, v))
    ensures var g := Add(f, p, v);
            && x in Views(g) && WidgetOf(g, x) == WidgetOf(f, x) && ItemsOf(g, x) == ItemsOf(f, x)
            && SubsOf(g, x) == SubsOf(f, x) + (if x == p then [v] else [])
            && ParentOf(g, x, None) == if x == v then Some(p) else ParentOf(f, x, None)
  {
    var t, rest := TreeOf(f, v), Prune(f, v);
    PruneViews(f, v);
    PruneShrinks(f, v);
    if x in Views(t) {
      GraftNew(rest, p, t, x, None);
      TreeOfTree(f, v, x);
      if x != v { ParentInTree(f, v, x, None, Some(p)); }
    } else {
      GraftOld(rest, p, t, x, None);
      PruneOld(f, v, x, None);
      TopIsNoChild(f, v, x);
      PruneKeepsTops(TreeOf(f, x).subs, v);
      PruneKeepsTops(TreeOf(f, x).items, v);
    }
  }

  /** Every view after `_removeSubView` of a child. */
  lemma DetachLinks<V>(f: Forest<V>, p: V, c: V, i: nat, x: V)
    requires Distinct(f) && p in Views(f) && i < |SubsOf(f, p)| && c == SubsOf(f, p)[i] && c in Views(f) && x in Views(f)
    ensures var g := Detach(f, c);
            && x in Views(g) && WidgetOf(g, x) == WidgetOf(f, x) && ItemsOf(g, x) == ItemsOf(f, x)
            && SubsOf(g, x) == (if x == p then SubsOf(f, p)[..i] + SubsOf(f, p)[i + 1..] else SubsOf(f, x))
            && ParentOf(g, x, None) == if x == c then None else ParentOf(f, x, None)
  {
    var t, rest := TreeOf(f, c), Prune(f, c);
    var g := Detach(f, c);
    PruneViews(f, c);
    PruneShrinks(f, c);
    ChildrenAreBelow(f, p);
    if x in Views(t) {
      TreeOfTree(f, c, x);
      HeadTree(g, t, x);
      if x != c { ParentInTree(f, c, x, None, None); }
      if x == p {
        TreeOfTree(f, p, c);
        TreeSizes(t, p);
      }
    } else {
      TailTree(g, x);
      PruneOld(f, c, x, None);
      ChildHasOneParent(f, p, c, x, None);
      PruneKeepsTops(TreeOf(f, x).items, c);
      if x == p {
        PruneTops(TreeOf(f, x).subs, c, i);
      } else {
        PruneKeepsTops(TreeOf(f, x).subs, c);
      }
    }
  }

  lemma HeadTree<V>(g: Forest<V>, t: Forest<V>, x: V)
    requires g.Node? && t == g.(next := Nil) && x in Views(t)
    ensures x in Views(g) && TreeOf(g, x) == TreeOf(t, x) && ParentOf(g, x, None) == ParentOf(t, x, None)
  {
  }

  lemma TailTree<V>(g: Forest<V>, x: V)
    requires g.Node? && Distinct(g) && x in Views(g.next)
    ensures TreeOf(g, x) == TreeOf(g.next, x) && ParentOf(g, x, None) == ParentOf(g.next, x, None)
    ensures WidgetOf(g, x) == WidgetOf(g.next, x)
  {
  }

  // ----- trees and widgets that a change keeps -----

  lemma AddRefuses<V>(f: Forest<V>, p: V, v: V)
    requires p in Views(f) && v in Views(f)
    ensures v == p || ParentOf(f, v, None).Some? ==> Add(f, p, v) == f
  {
  }

  lemma AddedTree<V>(f: Forest<V>, p: V, v: V)
    requires Distinct(f) && p in Views(f) && v in Views(f) && Addable(f, p, v)
    ensures v in Views(Add(f, p, v)) && p in Views(Add(f, p, v))
    ensures TreeOf(Add(f, p, v), v) == TreeOf(f, v)
    ensures Proper(f) ==> Proper(Add(f, p, v))
  {
    AddKeepsForest(f, p, v);
    if v != p && ParentOf(f, v, None).None? {
      PruneViews(f, v);
      PruneShrinks(f, v);
      GraftNew(Prune(f, v), p, TreeOf(f, v), v, None);
      if Proper(f) {
        PruneTopProper(f, v);
        GraftProper(Prune(f, v), p, TreeOf(f, v));
      }
    }
  }

  /** A top is no item of a tab view, so taking it out leaves every tab view its items. */
  lemma {:induction false} PruneTopProper<V>(f: Forest<V>, v: V)
    requires Distinct(f) && Proper(f) && v in Tops(f)
    ensures Proper(Prune(f, v))
  {
    TopsAreViews(f);
    if f.view == v {
      PruneForeign(f.next, v);
    } else {
      TopsAreViews(f.next);
      PruneForeign(f.subs, v);
      PruneForeign(f.items, v);
      PruneTopProper(f.next, v);
    }
  }

  lemma {:induction false} GraftProper<V>(f: Forest<V>, p: V, t: Forest<V>)
    requires Proper(f) && Proper(t)
    ensures Proper(Graft(f, p, t)) && Length(Graft(f, p, t)) == Length(f)
  {
    if f.Node? {
      GraftProper(f.subs, p, t);
      GraftProper(f.items, p, t);
      GraftProper(f.next, p, t);
      AppendProper(Graft(f.subs, p, t), t);
    }
  }

  lemma {:induction false} AppendProper<V>(f: Forest<V>, t: Forest<V>)
    requires Proper(f) && Proper(t)
    ensures Proper(Append(f, t))
  {
    if f.Node? {
      AppendProper(f.next, t);
    }
  }

  lemma {:induction false} PruneChildProper<V>(f: Forest<V>, c: V)
    requires Distinct(f) && Proper(f) && forall x :: x in Views(f) ==> c !in ItemsOf(f, x)
    ensures Proper(Prune(f, c))
  {
    if f.Node? {
      assert ItemsOf(f, f.view) == Tops(f.items);
      forall x | x in Views(f.subs) ensures c !in ItemsOf(f.subs, x) { assert ItemsOf(f, x) == ItemsOf(f.subs, x); }
      forall x | x in Views(f.items) ensures c !in ItemsOf(f.items, x) { assert ItemsOf(f, x) == ItemsOf(f.items, x); }
      forall x | x in Views(f.next) ensures c !in ItemsOf(f.next, x) { assert ItemsOf(f, x) == ItemsOf(f.next, x); }
      PruneChildProper(f.subs, c);
      PruneChildProper(f.items, c);
      PruneChildProper(f.next, c);
      PruneKeepsTops(f.items, c);
      TopsAreViews(f.items);
      TopsAreViews(Prune(f.items, c));
    }
  }

  lemma DetachedTree<V>(f: Forest<V>, p: V, c: V)
    requires Distinct(f) && p in Views(f) && c in SubsOf(f, p) && c in Views(f)
    ensures c in Views(Detach(f, c)) && p in Views(Detach(f, c)) && TreeOf(Detach(f, c), c) == TreeOf(f, c)
    ensures Proper(f) ==> Proper(Detach(f, c))
  {
    DetachKeepsForest(f, c);
    if Proper(f) {
      forall x | x in Views(f) ensures c !in ItemsOf(f, x) { ChildHasOneParent(f, p, c, x, None); }
      PruneChildProper(f, c);
      assert Proper(TreeOf(f, c));
    }
  }

  /** A view with a superview is among its children. */
  lemma {:induction false} ParentHasChild<V>(f: Forest<V>, v: V, p: V, parent: Option<V>)
    requires Distinct(f) && v in Views(f) && ParentOf(f, v, parent) == Some(p)
    requires v in Tops(f) ==> parent.None?
    ensures p in Views(f) && v in SubsOf(f, p)
  {
    if f.view == v {
    } else if v in Views(f.subs) {
      if v in Tops(f.subs) {
        TopsParents(f.subs, Some(f.view));
      } else {
        ParentHasChild(f.subs, v, p, Some(f.view));
      }
    } else if v in Views(f.items) {
      ParentHasChild(f.items, v, p, None);
    } else {
      ParentHasChild(f.next, v, p, parent);
    }
  }

  // ----- views linked by subviews alone -----

  /** Going down subviews and climbing superviews meet: a view and its superview are both
      reached from a list through subviews, or neither is. */
  lemma {:induction false} DownLinks<V>(s: Forest<V>, x: V, q: V, parent: Option<V>)
    requires Distinct(s) && x in Views(s) && q in Views(s) && ParentOf(s, x, parent) == Some(q)
    requires parent.Some? ==> parent.value !in Views(s)
    ensures x in Down(s) <==> q in Down(s)
  {
    DownInside(s.subs);
    DownInside(s.next);
    if s.view == x {
    } else if x in Views(s.subs) {
      DownParent(s.subs, s.view, x, q);
    } else if x in Views(s.items) {
      ParentInside(s.items, x, q, None);
    } else {
      ParentInside(s.next, x, q, parent);
      DownLinks(s.next, x, q, parent);
    }
  }

  lemma {:induction false} DownParent<V>(s: Forest<V>, top: V, x: V, q: V)
    requires Distinct(s) && top !in Views(s) && x in Views(s) && ParentOf(s, x, Some(top)) == Some(q)
    ensures q == top || q in Views(s)
    ensures x in Down(s) <==> q == top || q in Down(s)
  {
    DownInside(s.subs);
    DownInside(s.next);
    if s.view == x {
    } else if x in Views(s.subs) {
      DownParent(s.subs, s.view, x, q);
    } else if x in Views(s.items) {
      ParentInside(s.items, x, q, None);
    } else {
      DownParent(s.next, top, x, q);
    }
  }

  lemma {:induction false} ParentInside<V>(s: Forest<V>, x: V, q: V, parent: Option<V>)
    requires Distinct(s) && x in Views(s) && ParentOf(s, x, parent) == Some(q)
    ensures parent == Some(q) || q in Views(s)
  {
    if s.view == x {
    } else if x in Views(s.subs) {
      ParentInside(s.subs, x, q, Some(s.view));
    } else if x in Views(s.items) {
      ParentInside(s.items, x, q, None);
    } else {
      ParentInside(s.next, x, q, parent);
    }
  }

  /** In the whole forest: a superview link leads into the views under `v`, or out of them,
      only at `v` itself. */
  lemma DownOf<V>(f: Forest<V>, v: V, x: V, q: V)
    requires Distinct(f) && v in Views(f) && x in Views(f) && x != v && ParentOf(f, x, None) == Some(q)
    ensures q in Views(f) && (x in Down(TreeOf(f, v)) <==> q in Down(TreeOf(f, v)))
  {
    var t := TreeOf(f, v);
    DownInside(t);
    ParentInside(f, x, q, None);
    if x in Views(t) {
      ParentInTree(f, v, x, None, None);
      ParentInside(t, x, q, None);
      DownLinks(t, x, q, None);
    } else if q in Down(t) {
      TreeOfTree(f, v, q);
      if x in Tops(f) {
        TopsParents(f, None);
      } else {
        ParentHasChild(f, x, q, None);
        ChildrenBelow(f, v, q, x);
      }
    }
  }

  /** A view without a superview tops a tree or is the view of a tab item. */
  lemma {:induction false} ParentlessIsItem<V>(f: Forest<V>, v: V, parent: Option<V>) returns (x: V)
    requires Distinct(f) && v in Views(f) && ParentOf(f, v, parent).None? && v !in Tops(f)
    ensures x in Views(f) && v in ItemsOf(f, x)
  {
    if v in Views(f.subs) {
      TopsParents(f.subs, Some(f.view));
      x := ParentlessIsItem(f.subs, v, Some(f.view));
    } else if v in Views(f.items) {
      if v in Tops(f.items) {
        x := f.view;
      } else {
        x := ParentlessIsItem(f.items, v, None);
      }
    } else {
      x := ParentlessIsItem(f.next, v, parent);
    }
  }

  /** The links that the accepted addition of `v` below `p` makes are those of the forest `g`. */
  ghost predicate LinksAfterAdd<V>(f: Forest<V>, g: Forest<V>, p: V, v: V)
  {
    && Distinct(g) && Views(g) == Views(f)
    && (forall x :: x in Views(f) ==>
          && SubsOf(g, x) == SubsOf(f, x) + (if x == p then [v] else [])
          && ItemsOf(g, x) == ItemsOf(f, x))
  }

  /** No forest has these links when `v` is the view of a tab item: it would be an item and a subview. */
  lemma OnlyTopKeepsForest<V>(f: Forest<V>, g: Forest<V>, p: V, v: V)
    requires Distinct(f) && p in Views(f) && v in Views(f) && ParentOf(f, v, None).None?
    requires LinksAfterAdd(f, g, p, v)
    ensures v in Tops(f)
  {
    hide Distinct, TreeOf, ParentOf;
    if v !in Tops(f) {
      var x := ParentlessIsItem(f, v, None);
      ChildHasOneParent(g, p, v, x, None);
    }
  }

  lemma TreeEmbeds<V>(f: Forest<V>, g: Forest<V>, p: V, v: V)
    requires Distinct(f) && v in Views(f) && LinksAfterAdd(f, g, p, v)
    ensures Embeds(TreeOf(f, v), g)
  {
    hide Distinct, TreeOf;
    forall x | x in Views(TreeOf(f, v))
      ensures SubsOf(TreeOf(f, v), x) <= SubsOf(g, x) && ItemsOf(TreeOf(f, v), x) <= ItemsOf(g, x)
    {
      TreeOfTree(f, v, x);
      assert SubsOf(TreeOf(f, v), x) == SubsOf(f, x) && ItemsOf(TreeOf(f, v), x) == ItemsOf(f, x);
    }
  }

  /** No forest has these links when `p` is in the tree of `v`: the view would be below itself. */
  lemma OnlyOutsideKeepsForest<V>(f: Forest<V>, g: Forest<V>, p: V, v: V)
    requires Distinct(f) && p in Views(f) && v in Views(f) && LinksAfterAdd(f, g, p, v)
    ensures p !in Views(TreeOf(f, v))
  {
    hide Distinct, TreeOf, SubsOf, ItemsOf, Embeds;
    TreeEmbeds(f, g, p, v);
    if p in Views(TreeOf(f, v)) {
      NoForestWithCycle(g, TreeOf(f, v), p);
    }
  }

  /** The guard of `addSubview` accepts every other view without a superview. The hierarchy stays a
      forest exactly if that view tops a tree that the new superview is not part of. */
  lemma AdditionKeepsForest<V>(f: Forest<V>, p: V, v: V)
    requires Distinct(f) && p in Views(f) && v in Views(f) && v != p && ParentOf(f, v, None).None?
    ensures (exists g :: LinksAfterAdd(f, g, p, v)) <==> v in Tops(f) && p !in Views(TreeOf(f, v))
  {
    if g :| LinksAfterAdd(f, g, p, v) {
      OnlyTopKeepsForest(f, g, p, v);
      OnlyOutsideKeepsForest(f, g, p, v);
    }
    if v in Tops(f) && p !in Views(TreeOf(f, v)) {
      var g := Add(f, p, v);
      AddKeepsForest(f, p, v);
      forall x | x in Views(f)
        ensures SubsOf(g, x) == SubsOf(f, x) + (if x == p then [v] else []) && ItemsOf(g, x) == ItemsOf(f, x)
      {
        AddLinks(f, p, v, x);
      }
      assert LinksAfterAdd(f, g, p, v);
    }
  }

  /** A tab view 1 with the item view 2, and a box 3. */
  function TabAndBox(): Forest<nat>
  {
    var tabs := map["selectedIndex" := Int(0)];
    Node(1, Widget(TabView([false], -1), "1", false, "", tabs, [Persistor("selectedIndex", None, Int(0))]),
         Nil, Node(2, Widget(PlainView, "2", false, "", map[], []), Nil, Nil, Nil),
         Node(3, Widget(PlainView, "3", false, "", map[], []), Nil, Nil, Nil))
  }

  lemma TabAndBoxIs()
    ensures var f := TabAndBox();
        && Proper(f) && Distinct(f) && 2 in Views(f) && 3 in Views(f) && ParentOf(f, 2, None).None?
        && 2 !in Tops(f)
  {
    var f := TabAndBox();
    assert Views(f.items) == {2} && Views(f.next) == {3} && Views(f) == {1, 2, 3};
    assert Length(f.items) == 1;
    assert ParentOf(f.items, 2, None).None?;
    assert Tops(f) == [1, 3];
  }

  /** The box takes the view of the tab item, which has no superview, and then no forest has the
      links: the view is a subview and still an item. */
  lemma ItemViewIsAccepted()
    ensures var f := TabAndBox();
        && Proper(f) && Distinct(f) && 2 in Views(f) && 3 in Views(f) && ParentOf(f, 2, None).None?
        && forall g :: !LinksAfterAdd(f, g, 3, 2)
  {
    hide *;
    TabAndBoxIs();
    if g :| LinksAfterAdd(TabAndBox(), g, 3, 2) {
      OnlyTopKeepsForest(TabAndBox(), g, 3, 2);
    }
  }

  // ----- replacing all subviews -----

  /** The views of a list that are taken: each one that is free, the first time it comes. */
  function Taken<V(==)>(free: set<V>, vs: seq<V>): seq<V>
  {
    if vs == [] then []
    else if vs[0] in free then [vs[0]] + Taken(free - {vs[0]}, vs[1..])
    else Taken(free, vs[1..])
  }

  /** The views that `addSubview` of `p` accepts. */
  ghost function Free<V>(f: Forest<V>, p: V): set<V>
  {
    set x | x in Views(f) && x != p && ParentOf(f, x, None).None?
  }

  /** The views that have no other superview than `p`. */
  ghost function FreeOrOwn<V>(f: Forest<V>, p: V): set<V>
  {
    set x | x in Views(f) && x != p && (ParentOf(f, x, None).None? || ParentOf(f, x, None) == Some(p))
  }

  lemma AddTakes<V>(f: Forest<V>, p: V, v: V)
    requires Distinct(f) && p in Views(f) && v in Views(f) && Addable(f, p, v)
    ensures var g := Add(f, p, v);
        && Distinct(g) && Views(g) == Views(f)
        && SubsOf(g, p) == SubsOf(f, p) + (if v in Free(f, p) then [v] else [])
        && Free(g, p) == Free(f, p) - {v}
  {
    hide SubsOf, ParentOf, TreeOf, Distinct;
    AddKeepsForest(f, p, v);
    var g := Add(f, p, v);
    if v in Free(f, p) {
      forall x | x in Views(f)
        ensures ParentOf(g, x, None) == if x == v then Some(p) else ParentOf(f, x, None)
        ensures SubsOf(g, x) == SubsOf(f, x) + (if x == p then [v] else [])
      {
        AddLinks(f, p, v, x);
      }
    }
  }

  lemma {:induction false} AdditionsTake<V>(f: Forest<V>, p: V, vs: seq<V>)
    requires Distinct(f) && p in Views(f) && LegalRun(f, Additions(p, vs))
    ensures p in Views(Run(f, Additions(p, vs)))
    ensures SubsOf(Run(f, Additions(p, vs)), p) == SubsOf(f, p) + Taken(Free(f, p), vs)
    decreases |vs|
  {
    hide SubsOf, Distinct, Addable, Add, Free;
    if vs != [] {
      var changes := Additions(p, vs);
      assert changes[0] == AddSubview(p, vs[0]) && changes[1..] == Additions(p, vs[1..]);
      AddTakes(f, p, vs[0]);
      AdditionsTake(Add(f, p, vs[0]), p, vs[1..]);
      if vs[0] !in Free(f, p) {
        assert Free(f, p) - {vs[0]} == Free(f, p);
      }
    }
  }

  lemma {:induction false} RemovalsClear<V>(f: Forest<V>, p: V, cs: seq<V>)
    requires Distinct(f) && p in Views(f) && cs == SubsOf(f, p) && LegalRun(f, Removals(cs))
    ensures var g := Run(f, Removals(cs));
        && Distinct(g) && Views(g) == Views(f) && SubsOf(g, p) == []
        && forall x :: x in Views(f) ==> ParentOf(g, x, None) == if x in cs then None else ParentOf(f, x, None)
    decreases |cs|
  {
    hide SubsOf, ParentOf, Distinct, Detach;
    if cs != [] {
      var changes, c := Removals(cs), cs[0];
      assert changes[0] == RemoveSubview(c) && changes[1..] == Removals(cs[1..]);
      DetachKeepsForest(f, c);
      var g := Detach(f, c);
      forall x | x in Views(f)
        ensures ParentOf(g, x, None) == if x == c then None else ParentOf(f, x, None)
        ensures x == p ==> SubsOf(g, x) == cs[1..]
      {
        DetachLinks(f, p, c, 0, x);
        assert cs[..0] + cs[0 + 1..] == cs[1..];
      }
      RemovalsClear(g, p, cs[1..]);
    }
  }

  lemma {:induction false} RunConcat<V>(f: Forest<V>, a: seq<Change<V>>, b: seq<Change<V>>)
    requires LegalRun(f, a + b)
    ensures LegalRun(f, a) && LegalRun(Run(f, a), b) && Run(f, a + b) == Run(Run(f, a), b)
    decreases |a|
  {
    hide Legal, Apply;
    if a == [] {
      assert a + b == b;
    } else {
      assert (a + b)[0] == a[0] && (a + b)[1..] == a[1..] + b;
      RunConcat(Apply(f, a[0]), a[1..], b);
    }
  }

  /** After the subviews of `p` were replaced, its list holds exactly those of the new views, in their
      order and each once, that are not `p` and had no other superview. */
  lemma ReplacementTakes<V>(f: Forest<V>, p: V, vs: seq<V>)
    requires Distinct(f) && p in Views(f) && LegalRun(f, Replacement(p, SubsOf(f, p), vs))
    ensures var g := Run(f, Replacement(p, SubsOf(f, p), vs));
        && p in Views(g)
        && SubsOf(g, p) ==
           Taken(FreeOrOwn(f, p), vs)
  {
    hide SubsOf, ParentOf, Distinct, Run, LegalRun;
    var cs := SubsOf(f, p);
    RunConcat(f, Removals(cs), Additions(p, vs));
    RemovalsClear(f, p, cs);
    var g := Run(f, Removals(cs));
    AdditionsTake(g, p, vs);
    forall x | x in Views(f) ensures x in cs <==> ParentOf(f, x, None) == Some(p) {
      ChildIffParent(f, p, x);
    }
    assert Free(g, p) == FreeOrOwn(f, p);
  }

  lemma ChildIffParent<V>(f: Forest<V>, p: V, x: V)
    requires Distinct(f) && p in Views(f) && x in Views(f)
    ensures x in SubsOf(f, p) <==> ParentOf(f, x, None) == Some(p)
  {
    hide SubsOf, ParentOf, Distinct;
    if x in SubsOf(f, p) {
      ChildHasOneParent(f, p, x, p, None);
    }
    if ParentOf(f, x, None) == Some(p) {
      ParentHasChild(f, x, p, None);
    }
  }

  /** New views that are all free are all taken. */
  lemma {:induction false} TakesAll<V>(free: set<V>, vs: seq<V>)
    requires (forall v :: v in vs ==> v in free) && forall i, j :: 0 <= i < j < |vs| ==> vs[i] != vs[j]
    ensures Taken(free, vs) == vs
  {
    if vs != [] {
      TakesAll(free - {vs[0]}, vs[1..]);
    }
  }
}
