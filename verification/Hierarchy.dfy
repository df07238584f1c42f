/** Adding and removing subviews, as changes of the forest of all view trees: which additions
    keep it a forest, and what every run of them conserves. */
module Hierarchy {
  import opened Php
  import opened Pages
  import opened Surgery

  // ----- trees inside trees -----

  lemma {:induction false} TreeSizes<V>(f: Forest<V>, v: V)
    requires v in Views(f)
    ensures Size(TreeOf(f, v)) <= Size(f)
  {
    if f.view == v {
    } else if v in Views(f.subs) {
      TreeSizes(f.subs, v);
    } else if v in Views(f.items) {
      TreeSizes(f.items, v);
    } else {
      TreeSizes(f.next, v);
    }
  }

  /** The tree of a view inside the tree of another is its tree in the whole forest. */
  lemma {:induction false} TreeOfTree<V>(f: Forest<V>, u: V, v: V)
    requires Distinct(f) && u in Views(f) && v in Views(TreeOf(f, u))
    ensures v in Views(f) && TreeOf(f, v) == TreeOf(TreeOf(f, u), v)
  {
    if f.view == u {
    } else if u in Views(f.subs) {
      TreeOfTree(f.subs, u, v);
    } else if u in Views(f.items) {
      TreeOfTree(f.items, u, v);
    } else {
      TreeOfTree(f.next, u, v);
    }
  }

  lemma ChildrenAreBelow<V>(f: Forest<V>, u: V)
    requires Distinct(f) && u in Views(f)
    ensures forall v :: v in SubsOf(f, u) || v in ItemsOf(f, u) ==>
              v in Views(TreeOf(f, u)) && v in Views(f) && v != u && Size(TreeOf(f, v)) < Size(TreeOf(f, u))
    ensures u !in Views(TreeOf(f, u).subs) && u !in Views(TreeOf(f, u).items)
  {
    var t := TreeOf(f, u);
    TopsAreViews(t.subs);
    TopsAreViews(t.items);
    forall v | v in SubsOf(f, u) || v in ItemsOf(f, u)
      ensures v in Views(t) && v in Views(f) && v != u && Size(TreeOf(f, v)) < Size(t)
    {
      TreeOfTree(f, u, v);
      if v in Views(t.subs) { TreeSizes(t.subs, v); } else { TreeSizes(t.items, v); }
    }
  }

  // ----- changes -----

  /** `addSubview`: refused for the view itself and for a view that has a superview. */
  ghost function Add<V>(f: Forest<V>, p: V, v: V): Forest<V>
    requires p in Views(f) && v in Views(f)
  {
    if v == p || ParentOf(f, v, None).Some? then f
    else Graft(Prune(f, v), p, TreeOf(f, v))
  }

  /** `_removeSubView` of a child: its tree becomes a tree of its own. */
  ghost function Detach<V>(f: Forest<V>, c: V): Forest<V>
    requires c in Views(f)
  {
    var t := TreeOf(f, c);
    Node(c, t.w, t.subs, t.items, Prune(f, c))
  }

  /** The view is refused, or it tops a tree that the new superview is not part of. */
  ghost predicate Addable<V>(f: Forest<V>, p: V, v: V)
    requires p in Views(f) && v in Views(f)
  {
    v == p || ParentOf(f, v, None).Some? || (v in Tops(f) && p !in Views(TreeOf(f, v)))
  }

  lemma AddKeepsForest<V>(f: Forest<V>, p: V, v: V)
    requires Distinct(f) && p in Views(f) && v in Views(f) && Addable(f, p, v)
    ensures Distinct(Add(f, p, v)) && Views(Add(f, p, v)) == Views(f)
  {
    if v != p && ParentOf(f, v, None).None? {
      var t, rest := TreeOf(f, v), Prune(f, v);
      PruneViews(f, v);
      PruneShrinks(f, v);
      GraftDistinct(rest, p, t);
      GraftViews(rest, p, t);
    }
  }

  lemma DetachKeepsForest<V>(f: Forest<V>, c: V)
    requires Distinct(f) && c in Views(f)
    ensures Distinct(Detach(f, c)) && Views(Detach(f, c)) == Views(f)
  {
    PruneViews(f, c);
    PruneShrinks(f, c);
  }

  /** Removing the view that was just added gives back the trees there were. */
  lemma DetachUndoesAdd<V>(f: Forest<V>, p: V, v: V)
    requires Distinct(f) && p in Views(f) && v in Tops(f) && v in Views(f)
    requires v != p && ParentOf(f, v, None).None? && Addable(f, p, v)
    ensures v in Views(Add(f, p, v))
    ensures Prune(Detach(Add(f, p, v), v), v) == Prune(f, v)
    ensures TreeOf(Detach(Add(f, p, v), v), v) == TreeOf(Add(f, p, v), v)
  {
    AddKeepsForest(f, p, v);
    PruneViews(f, v);
    PruneShrinks(f, v);
    PruneUndoesGraft(Prune(f, v), p, TreeOf(f, v));
    PruneForeign(Prune(f, v), v);
  }

  // ----- runs -----

  datatype Change<V> = AddSubview(p: V, v: V) | RemoveSubview(c: V)

  ghost predicate Legal<V>(f: Forest<V>, ch: Change<V>)
  {
    match ch
    case AddSubview(p, v) => p in Views(f) && v in Views(f) && Addable(f, p, v)
    case RemoveSubview(c) => c in Views(f)
  }

  ghost function Apply<V>(f: Forest<V>, ch: Change<V>): Forest<V>
    requires Legal(f, ch)
  {
    match ch
    case AddSubview(p, v) => Add(f, p, v)
    case RemoveSubview(c) => Detach(f, c)
  }

  ghost predicate LegalRun<V>(f: Forest<V>, changes: seq<Change<V>>)
    decreases |changes|
  {
    changes == [] || (Legal(f, changes[0]) && LegalRun(Apply(f, changes[0]), changes[1..]))
  }

  ghost function Run<V>(f: Forest<V>, changes: seq<Change<V>>): Forest<V>
    requires LegalRun(f, changes)
    decreases |changes|
  {
    if changes == [] then f else Run(Apply(f, changes[0]), changes[1..])
  }

  function Removals<V>(cs: seq<V>): seq<Change<V>>
  {
    if cs == [] then [] else [RemoveSubview(cs[0])] + Removals(cs[1..])
  }

  function Additions<V>(p: V, vs: seq<V>): seq<Change<V>>
  {
    if vs == [] then [] else [AddSubview(p, vs[0])] + Additions(p, vs[1..])
  }

  /** The changes that replace the children of `p`. */
  function Replacement<V>(p: V, cs: seq<V>, vs: seq<V>): seq<Change<V>>
  {
    Removals(cs) + Additions(p, vs)
  }

  /** Every legal run keeps the hierarchy a forest and neither loses nor duplicates a view. */
  lemma {:induction false} RunKeepsForest<V>(f: Forest<V>, changes: seq<Change<V>>)
    requires Distinct(f) && LegalRun(f, changes)
    ensures Distinct(Run(f, changes)) && Views(Run(f, changes)) == Views(f)
    decreases |changes|
  {
    if changes != [] {
      match changes[0] {
        case AddSubview(p, v) => AddKeepsForest(f, p, v);
        case RemoveSubview(c) => DetachKeepsForest(f, c);
      }
      RunKeepsForest(Apply(f, changes[0]), changes[1..]);
    }
  }

  // ----- the addition that must not happen -----

  /** Every view of `s` that is in `g` has there the children it has in `s`, and maybe more. */
  ghost predicate Embeds<V>(s: Forest<V>, g: Forest<V>)
  {
    forall x :: x in Views(s) && x in Views(g) ==> SubsOf(s, x) <= SubsOf(g, x) && ItemsOf(s, x) <= ItemsOf(g, x)
  }

  lemma EmbedsParts<V>(s: Forest<V>, g: Forest<V>)
    requires s.Node? && Distinct(s) && Embeds(s, g)
    ensures Embeds(s.subs, g) && Embeds(s.items, g) && Embeds(s.next, g)
  {
    forall x | x in Views(s.subs) && x in Views(g)
      ensures SubsOf(s.subs, x) <= SubsOf(g, x) && ItemsOf(s.subs, x) <= ItemsOf(g, x)
    {
      assert TreeOf(s, x) == TreeOf(s.subs, x) && x in Views(s);
    }
    forall x | x in Views(s.items) && x in Views(g)
      ensures SubsOf(s.items, x) <= SubsOf(g, x) && ItemsOf(s.items, x) <= ItemsOf(g, x)
    {
      assert TreeOf(s, x) == TreeOf(s.items, x) && x in Views(s);
    }
    forall x | x in Views(s.next) && x in Views(g)
      ensures SubsOf(s.next, x) <= SubsOf(g, x) && ItemsOf(s.next, x) <= ItemsOf(g, x)
    {
      assert TreeOf(s, x) == TreeOf(s.next, x) && x in Views(s);
    }
  }

  /** The children of a view below `top` are below `top`. */
  lemma ChildrenBelow<V>(g: Forest<V>, top: V, u: V, x: V)
    requires Distinct(g) && top in Views(g) && u in Views(TreeOf(g, top))
    ensures u in Views(g) && (x in SubsOf(g, u) || x in ItemsOf(g, u) ==> x in Views(TreeOf(g, top)))
  {
    TreeOfTree(g, top, u);
    ChildrenAreBelow(g, u);
    assert Views(TreeOf(TreeOf(g, top), u)) <= Views(TreeOf(g, top));
  }

  lemma Parts<V>(s: Forest<V>)
    requires Distinct(s)
    ensures s.Nil? ==> Views(s) == {}
    ensures s.Node? ==>
              && Views(s) == {s.view} + Views(s.subs) + Views(s.items) + Views(s.next)
              && Distinct(s.subs) && Distinct(s.items) && Distinct(s.next)
              && s.view in Tops(s) && (forall x :: x in Tops(s.next) ==> x in Tops(s))
              && SubsOf(s, s.view) == Tops(s.subs) && ItemsOf(s, s.view) == Tops(s.items)
  {
    if s.Node? {
      assert Tops(s) == [s.view] + Tops(s.next);
    }
  }

  /** The children of the first view of `s` are below `top` in `g`. */
  lemma TopChildrenBelow<V>(g: Forest<V>, s: Forest<V>, top: V)
    requires Distinct(g) && Distinct(s) && s.Node? && top in Views(g) && Embeds(s, g)
    requires s.view in Views(TreeOf(g, top))
    ensures forall x :: x in Tops(s.subs) ==> x in Views(TreeOf(g, top))
    ensures forall x :: x in Tops(s.items) ==> x in Views(TreeOf(g, top))
  {
    hide *;
    Parts(s);
    ChildrenBelow(g, top, s.view, s.view);
    EmbedsAt(s, g);
    forall x | x in Tops(s.subs)
      ensures x in Views(TreeOf(g, top))
    {
      ChildrenBelow(g, top, s.view, x);
    }
    forall x | x in Tops(s.items)
      ensures x in Views(TreeOf(g, top))
    {
      ChildrenBelow(g, top, s.view, x);
    }
  }

  lemma EmbedsAt<V>(s: Forest<V>, g: Forest<V>)
    requires s.Node? && Embeds(s, g) && s.view in Views(g)
    ensures forall x :: x in SubsOf(s, s.view) ==> x in SubsOf(g, s.view)
    ensures forall x :: x in ItemsOf(s, s.view) ==> x in ItemsOf(g, s.view)
  {
    assert s.view in Views(s);
  }

  lemma TreeTop<V>(g: Forest<V>, v: V)
    requires v in Views(g)
    ensures v in Views(TreeOf(g, v))
  {
  }

  lemma {:induction false} BelowTop<V>(g: Forest<V>, s: Forest<V>, top: V)
    requires Distinct(g) && Distinct(s) && top in Views(g) && Embeds(s, g)
    requires forall x :: x in Tops(s) ==> x in Views(TreeOf(g, top))
    ensures Views(s) <= Views(TreeOf(g, top))
  {
    hide *;
    Parts(s);
    if s.Node? {
      TopChildrenBelow(g, s, top);
      EmbedsParts(s, g);
      BelowTop(g, s.subs, top);
      BelowTop(g, s.items, top);
      BelowTop(g, s.next, top);
    }
  }

  /** Adding the top of a tree below a view of its own tree would leave links that no forest
      has: if a forest has the links of a tree and its top as one more child of `p`, then `p`
      is not part of the tree. */
  lemma NoForestWithCycle<V>(g: Forest<V>, t: Forest<V>, p: V)
    requires Distinct(g) && t.Node? && t.next.Nil? && Distinct(t) && Views(t) <= Views(g) && p in Views(g)
    requires Embeds(t, g) && t.view in SubsOf(g, p)
    ensures p !in Views(t)
  {
    hide *;
    var v := t.view;
    if p in Views(t) {
      TopsOfTree(t);
      TreeTop(g, v);
      BelowTop(g, t, v);
      TreeOfTree(g, v, p);
      TreeSizes(TreeOf(g, v), p);
      ChildrenAreBelow(g, p);
    }
  }

  lemma TopsOfTree<V>(t: Forest<V>)
    requires t.Node? && t.next.Nil?
    ensures Tops(t) == [t.view] && t.view in Views(t)
  {
  }
}
