/** How adding and removing subviews changes the forest of all view trees. */
module Surgery {
  import opened Php
  import opened Persistence
  import opened Pages
  import opened PageLaws
  import opened Dispatch
  import opened Retouch

  function Append<V>(f: Forest<V>, g: Forest<V>): (r: Forest<V>)
    ensures Tops(r) == Tops(f) + Tops(g) && Size(r) == Size(f) + Size(g) && Length(r) == Length(f) + Length(g)
  {
    if f.Nil? then g else f.(next := Append(f.next, g))
  }

  lemma {:induction false} AppendViews<V>(f: Forest<V>, g: Forest<V>)
    ensures Views(Append(f, g)) == Views(f) + Views(g)
    ensures Distinct(f) && Distinct(g) && Views(f) !! Views(g) <==> Distinct(Append(f, g))
    ensures Append(f, Nil) == f
  {
    if f.Node? {
      AppendViews(f.next, g);
    }
  }

  lemma {:induction false} AppendAssociates<V>(f: Forest<V>, g: Forest<V>, h: Forest<V>)
    ensures Append(Append(f, g), h) == Append(f, Append(g, h))
  {
    if f.Node? {
      AppendAssociates(f.next, g, h);
    }
  }

  /** The forest with tree `t` added at the end of the subviews of `p`. */
  ghost function Graft<V>(f: Forest<V>, p: V, t: Forest<V>): (g: Forest<V>)
    ensures Tops(g) == Tops(f)
  {
    match f
    case Nil => Nil
    case Node(v, w, subs, items, next) =>
      Node(v, w, if v == p then Append(Graft(subs, p, t), t) else Graft(subs, p, t),
           Graft(items, p, t), Graft(next, p, t))
  }

  /** The forest without the tree of `c`. */
  ghost function Prune<V>(f: Forest<V>, c: V): Forest<V>
  {
    match f
    case Nil => Nil
    case Node(v, w, subs, items, next) =>
      if v == c then Prune(next, c) else Node(v, w, Prune(subs, c), Prune(items, c), Prune(next, c))
  }

  lemma {:induction false} GraftForeign<V>(f: Forest<V>, p: V, t: Forest<V>)
    requires p !in Views(f)
    ensures Graft(f, p, t) == f
  {
    match f
    case Nil =>
    case Node(_, _, subs, items, next) =>
      GraftForeign(subs, p, t);
      GraftForeign(items, p, t);
      GraftForeign(next, p, t);
  }

  lemma {:induction false} GraftViews<V>(f: Forest<V>, p: V, t: Forest<V>)
    ensures Views(Graft(f, p, t)) == if p in Views(f) then Views(f) + Views(t) else Views(f)
  {
    match f
    case Nil =>
    case Node(v, _, subs, items, next) =>
      GraftViews(subs, p, t);
      GraftViews(items, p, t);
      GraftViews(next, p, t);
      AppendViews(Graft(subs, p, t), t);
  }

  lemma {:induction false} GraftDistinct<V>(f: Forest<V>, p: V, t: Forest<V>)
    requires Distinct(f) && Distinct(t) && Views(f) !! Views(t) && p in Views(f)
    ensures Distinct(Graft(f, p, t))
  {
    var Node(v, _, subs, items, next) := f;
    if v == p {
      GraftForeign(subs, p, t);
      GraftForeign(items, p, t);
      GraftForeign(next, p, t);
      AppendViews(subs, t);
    } else if p in Views(subs) {
      GraftDistinct(subs, p, t);
      GraftViews(subs, p, t);
      GraftForeign(items, p, t);
      GraftForeign(next, p, t);
    } else if p in Views(items) {
      GraftForeign(subs, p, t);
      GraftDistinct(items, p, t);
      GraftViews(items, p, t);
      GraftForeign(next, p, t);
    } else {
      GraftForeign(subs, p, t);
      GraftForeign(items, p, t);
      GraftDistinct(next, p, t);
      GraftViews(next, p, t);
    }
  }

  lemma {:induction false} PruneForeign<V>(f: Forest<V>, c: V)
    requires c !in Views(f)
    ensures Prune(f, c) == f
  {
    match f
    case Nil =>
    case Node(_, _, subs, items, next) =>
      PruneForeign(subs, c);
      PruneForeign(items, c);
      PruneForeign(next, c);
  }

  lemma {:induction false} PruneViews<V>(f: Forest<V>, c: V)
    requires Distinct(f) && c in Views(f)
    ensures Views(Prune(f, c)) == Views(f) - Views(TreeOf(f, c))
  {
    var Node(v, _, subs, items, next) := f;
    var gone := Views(TreeOf(f, c));
    if v == c {
      PruneForeign(next, c);
    } else if c in Views(subs) {
      PruneViews(subs, c);
      PruneForeign(items, c);
      PruneForeign(next, c);
      Without({v} + Views(items) + Views(next), Views(subs), gone);
    } else if c in Views(items) {
      PruneForeign(subs, c);
      PruneViews(items, c);
      PruneForeign(next, c);
      Without({v} + Views(subs) + Views(next), Views(items), gone);
    } else {
      PruneForeign(subs, c);
      PruneForeign(items, c);
      PruneViews(next, c);
      Without({v} + Views(subs) + Views(items), Views(next), gone);
    }
  }

  lemma Without<V>(a: set<V>, b: set<V>, gone: set<V>)
    requires a !! b && gone <= b
    ensures a + (b - gone) == (a + b) - gone
  {
  }

  lemma {:induction false} PruneShrinks<V>(f: Forest<V>, c: V)
    ensures Views(Prune(f, c)) <= Views(f)
    ensures Distinct(f) ==> Distinct(Prune(f, c))
  {
    match f
    case Nil =>
    case Node(_, _, subs, items, next) =>
      PruneShrinks(subs, c);
      PruneShrinks(items, c);
      PruneShrinks(next, c);
  }

  lemma {:induction false} PruneKeepsTops<V>(f: Forest<V>, c: V)
    requires c !in Tops(f)
    ensures Tops(Prune(f, c)) == Tops(f)
  {
    if f.Node? {
      assert f.view == Tops(f)[0] && Tops(f)[1..] == Tops(f.next);
      PruneKeepsTops(f.next, c);
    }
  }

  /** Pruning takes exactly one view out of the list that holds it. */
  lemma {:induction false} PruneTops<V>(f: Forest<V>, c: V, i: nat)
    requires Distinct(f) && i < |Tops(f)| && Tops(f)[i] == c
    ensures Tops(Prune(f, c)) == Tops(f)[..i] + Tops(f)[i + 1..]
  {
    TopsAreViews(f.next);
    if i == 0 {
      PruneForeign(f.next, c);
      assert Tops(f)[1..] == Tops(f.next);
    } else {
      assert Tops(f.next)[i - 1] == c;
      PruneTops(f.next, c, i - 1);
      assert Tops(f)[..i] == [f.view] + Tops(f.next)[..i - 1];
      assert Tops(f)[i + 1..] == Tops(f.next)[i..];
    }
  }

  lemma {:induction false} TopsAreViews<V>(f: Forest<V>)
    ensures forall v :: v in Tops(f) ==> v in Views(f)
    ensures |Tops(f)| == Length(f)
  {
    if f.Node? {
      TopsAreViews(f.next);
    }
  }

  lemma {:induction false} TopsDistinct<V>(f: Forest<V>)
    requires Distinct(f)
    ensures forall i, j :: 0 <= i < j < |Tops(f)| ==> Tops(f)[i] != Tops(f)[j]
  {
    if f.Node? {
      TopsDistinct(f.next);
      TopsAreViews(f.next);
    }
  }

  /** Grafting back what was pruned from the end of a list changes nothing. */
  lemma {:induction false} PruneUndoesGraft<V>(f: Forest<V>, p: V, t: Forest<V>)
    requires Distinct(f) && Distinct(t) && Views(f) !! Views(t) && t.Node? && t.next.Nil?
    ensures Prune(Graft(f, p, t), t.view) == f
  {
    match f
    case Nil =>
    case Node(v, _, subs, items, next) =>
      PruneUndoesGraft(subs, p, t);
      PruneUndoesGraft(items, p, t);
      PruneUndoesGraft(next, p, t);
      PruneAppend(Graft(subs, p, t), t, t.view);
      AppendViews(subs, Nil);
  }

  lemma {:induction false} PruneAppend<V>(f: Forest<V>, g: Forest<V>, c: V)
    ensures Prune(Append(f, g), c) == Append(Prune(f, c), Prune(g, c))
  {
    if f.Node? {
      PruneAppend(f.next, g, c);
    }
  }

  /** The tree at an index of a list, alone. */
  function Nth<V>(f: Forest<V>, i: nat): (t: Forest<V>)
    requires i < Length(f)
    ensures t.Node? && t.next.Nil? && Size(t) <= Size(f)
    ensures Proper(f) ==> Proper(t)
  {
    if i == 0 then Tree(f) else Nth(f.next, i - 1)
  }

  /** Displaying only the picked tree of a list is displaying that tree, if there is one. */
  lemma {:induction false} DisplayOnly<V>(f: Forest<V>, at: Option<int>)
    requires Proper(f)
    ensures Display(f, Only(at)) ==
            if at.Some? && 0 <= at.value < Length(f) then Display(Nth(f, at.value), Every) else []
  {
    if f.Node? {
      DisplayOnly(f.next, if at.Some? then Some(at.value - 1) else None);
    }
  }

  lemma DisplayCons<V>(before: seq<Output<V>>, f: Forest<V>)
    requires Proper(f) && f.Node?
    ensures (before + Display(Tree(f), Every)) + Display(f.next, Every) == before + Display(f, Every)
  {
    ShowTree(f);
    hide Show, Proper;
    assert Display(Tree(f), Every) == Show(f) + Display(Nil, Every) == Show(f);
    assert Display(f, Every) == Show(f) + Display(f.next, Every);
  }

  lemma ShowTree<V>(f: Forest<V>)
    requires Proper(f) && f.Node?
    ensures Proper(Tree(f)) && Proper(f.next) && Show(Tree(f)) == Show(f)
  {
    hide Display, Draw, TabButtons, ProperWidget;
  }

  lemma DisplayTree<V>(before: seq<Output<V>>, t: Forest<V>)
    requires Proper(t) && t.Node? && t.next.Nil?
    ensures Proper(t.subs) && Proper(t.items)
    ensures t.w.kind.TabView? ==>
              before + Display(t, Every) ==
              (before + TabButtons(t.w.id, t.w.kind.hideTab, 0)) + Display(t.items, Only(Selected(t.w)))
    ensures !t.w.kind.TabView? && !t.w.hidden ==>
              before + Display(t, Every) == (before + Display(t.subs, Every)) + Draw(t.view, t.w)
    ensures !t.w.kind.TabView? && t.w.hidden ==> before + Display(t, Every) == before
  {
    assert Display(t, Every) == Show(t) + Display(Nil, Every) == Show(t);
  }

  lemma DoneCons<V>(f: Forest<V>, above: bool, pick: Pick)
    requires Proper(f) && f.Node?
    ensures Done(f, above, pick) == Append(Done(Tree(f), above, pick), Done(f.next, above, Next(pick)))
    ensures Views(Done(Tree(f), above, pick)) == Views(Tree(f))
  {
  }

  /** Marking a view hidden or not before it finishes is what its tab view's pick stands for. */
  lemma DoneMarked<V>(t: Forest<V>, pick: Pick)
    requires Proper(t) && t.Node? && t.next.Nil?
    ensures var marked := t.(w := t.w.(hidden := Flag(t.w, pick)));
            Proper(marked) && Done(marked, false, Every) == Done(t, false, pick)
  {
  }

  lemma {:induction false} ElementsConcat<V>(a: seq<Input>, b: seq<Input>)
    ensures Elements<V>(a + b) == Elements<V>(a) + Elements<V>(b)
  {
    if a == [] {
      assert a + b == b;
    } else {
      ElementsConcat<V>(a[1..], b);
      assert (a + b)[1..] == a[1..] + b && (a + b)[0] == a[0];
    }
  }

  /** Writing one more persistor of a list. */
  lemma WriteCons<V>(before: seq<Output<V>>, id: string, ps: seq<Persistor>, i: nat, props: Properties)
    requires i < |ps| && Registered(ps, props)
    ensures var p := ps[i];
            before + Elements(WriteAll(id, ps[i..], props)) ==
              (if props[p.property] == p.default then before
               else before + [Element(Hidden(NameOf(id, p), Text(props[p.property])))]) +
              Elements(WriteAll(id, ps[i + 1..], props))
  {
    var one := WriteOne(id, ps[i], props);
    ElementsConcat<V>(one, WriteAll(id, ps[i + 1..], props));
    assert ps[i..][1..] == ps[i + 1..];
    assert one != [] ==> one[1..] == [] && Elements<V>(one) == [Element(one[0])] + Elements<V>([]);
  }

  /** What one view and the trees below it write. */
  function WriteTrees<V>(w: Widget, subs: Forest<V>, items: Forest<V>): seq<Output<V>>
    requires ProperWidget(w) && Proper(subs) && Proper(items)
  {
    WritePersist(items) + WritePersist(subs) + Elements(WriteAll(w.id, w.persists, w.props))
  }

  lemma WriteIsTrees<V>(f: Forest<V>)
    requires Proper(f) && f.Node?
    ensures WritePersist(f) == WriteTrees(f.w, f.subs, f.items) + WritePersist(f.next)
    ensures WritePersist<V>(Nil) == []
  {
  }

  lemma WriteHead<V>(before: seq<Output<V>>, f: Forest<V>)
    requires Proper(f) && f.Node?
    ensures (before + WritePersist(Tree(f))) + WritePersist(f.next) == before + WritePersist(f)
  {
    hide WriteTrees, WritePersist;
    WriteIsTrees(f);
    WriteIsTrees(Tree(f));
  }

  lemma WriteTree<V>(before: seq<Output<V>>, t: Forest<V>)
    requires Proper(t) && t.Node? && t.next.Nil?
    ensures before + WritePersist(t) ==
            ((before + (if t.w.kind.TabView? then WritePersist(t.items) else [])) + WritePersist(t.subs)) +
            Elements(WriteAll(t.w.id, t.w.persists, t.w.props))
  {
    WriteIsTrees(t);
    Regroup3(before, WritePersist(t.items), WritePersist(t.subs), Elements(WriteAll(t.w.id, t.w.persists, t.w.props)));
    if !t.w.kind.TabView? {
      assert WritePersist(t.items) == [];
      assert before + WritePersist(t.items) == before + [];
    }
  }

  lemma Regroup3<T>(before: seq<T>, a: seq<T>, b: seq<T>, c: seq<T>)
    ensures before + (a + b + c + []) == ((before + a) + b) + c
  {
  }

  lemma ShownCons<V>(f: Forest<V>, pick: Pick, top: bool)
    requires f.Node?
    ensures Shown(f, pick, top) == Append(Shown(Tree(f), pick, top), Shown(f.next, Next(pick), top))
    ensures Views(Shown(Tree(f), pick, top)) == Views(Tree(f))
  {
  }

  lemma ShownOne<V>(t: Forest<V>, top: bool)
    requires t.Node? && t.next.Nil?
    ensures Shown(t, Every, top)
        == Node(t.view, ShownWidget(t.w, top), ShownSubs(t.w, t.subs), ShownItems(t.w, t.items), Nil)
  {
  }

  function Before<V>(f: Forest<V>, i: nat): (g: Forest<V>)
    requires i <= Length(f)
    ensures Views(g) <= Views(f)
  {
    if i == 0 then Nil else f.(next := Before(f.next, i - 1))
  }

  function After<V>(f: Forest<V>, i: nat): (g: Forest<V>)
    requires i < Length(f)
    ensures Views(g) <= Views(f)
  {
    if i == 0 then f.next else After(f.next, i - 1)
  }

  lemma {:induction false} SplitApart<V>(f: Forest<V>, i: nat)
    requires Distinct(f) && i < Length(f)
    ensures Views(Nth(f, i)) <= Views(f) && Distinct(Nth(f, i))
    ensures Views(Before(f, i)) !! Views(Nth(f, i)) && Views(After(f, i)) !! Views(Nth(f, i))
  {
    if i > 0 {
      SplitApart(f.next, i - 1);
    }
  }

  /** Displaying only the picked tree of a list changes that tree, if there is one. */
  lemma {:induction false} ShownOnly<V>(f: Forest<V>, at: Option<int>)
    ensures if at.Some? && 0 <= at.value < Length(f)
        then Shown(f, Only(at), true)
             == Append(Before(f, at.value), Append(Shown(Nth(f, at.value), Every, true), After(f, at.value)))
        else Shown(f, Only(at), true) == f
  {
    hide *;
    if at.Some? && 0 <= at.value < Length(f) {
      ShownHit(f, at.value);
    } else {
      ShownMiss(f, at);
    }
  }

  lemma {:induction false} ShownHit<V>(f: Forest<V>, i: nat)
    requires i < Length(f)
    ensures Shown(f, Only(Some(i)), true) == Append(Before(f, i), Append(Shown(Nth(f, i), Every, true), After(f, i)))
  {
    hide Shown, Append, Nth, Before, After;
    if i == 0 {
      ShownFirst(f);
    } else {
      ShownHit(f.next, i - 1);
      ShownLater(f, Some(i));
      SplitLater(f, i, Append(Shown(Nth(f, i), Every, true), After(f, i)));
    }
  }

  lemma SplitLater<V>(f: Forest<V>, i: nat, rest: Forest<V>)
    requires 0 < i < Length(f)
    ensures Nth(f, i) == Nth(f.next, i - 1) && After(f, i) == After(f.next, i - 1)
    ensures Append(Before(f, i), rest) == f.(next := Append(Before(f.next, i - 1), rest))
  {
  }

  lemma {:induction false} ShownMiss<V>(f: Forest<V>, at: Option<int>)
    requires !(at.Some? && 0 <= at.value < Length(f))
    ensures Shown(f, Only(at), true) == f
  {
    if f.Node? {
      hide Shown;
      ShownMiss(f.next, if at.Some? then Some(at.value - 1) else None);
      ShownLater(f, at);
    }
  }

  lemma ShownFirst<V>(f: Forest<V>)
    requires f.Node?
    ensures Shown(f, Only(Some(0)), true) == Append(Before(f, 0), Append(Shown(Nth(f, 0), Every, true), After(f, 0)))
  {
    hide *;
    SplitFirst(f, Append(Shown(Tree(f), Every, true), f.next));
    ShownCons(f, Only(Some(0)), true);
    ShownPicked(f);
    ShownMiss(f.next, Some(-1));
  }

  lemma SplitFirst<V>(f: Forest<V>, rest: Forest<V>)
    requires f.Node?
    ensures Length(f) > 0 && Nth(f, 0) == Tree(f) && After(f, 0) == f.next && Append(Before(f, 0), rest) == rest
  {
  }

  lemma ShownPicked<V>(f: Forest<V>)
    requires f.Node?
    ensures Shown(Tree(f), Only(Some(0)), true) == Shown(Tree(f), Every, true)
    ensures Next(Only(Some(0))) == Only(Some(-1))
  {
    hide ShownSubs, ShownItems, ShownWidget;
  }

  lemma ShownLater<V>(f: Forest<V>, at: Option<int>)
    requires f.Node? && at != Some(0)
    ensures Shown(f, Only(at), true)
        == f.(next := Shown(f.next, Only(if at.Some? then Some(at.value - 1) else None), true))
  {
    hide ShownSubs, ShownItems, ShownWidget;
  }

  /** The cells that a matrix displays from the given counters on. */
  function Cells<V>(m: Widget, f: Forest<V>, row: int, column: int): (g: Forest<V>)
    requires m.kind.Matrix?
    ensures Views(g) == Views(f) && Tops(g) == Tops(f) && Length(g) == Length(f) && Size(g) == Size(f)
  {
    if m.kind.radioMode then Derived(f, m, row, column) else f
  }

  /** What the display loop makes of one cell before it displays it. */
  function Cell(m: Widget, w: Widget, row: int, column: int): Widget
    requires m.kind.Matrix?
  {
    if m.kind.radioMode then WithSelected(w, row == Number(m, "selectedRow") && column == Number(m, "selectedColumn")) else w
  }

  /** The cells after the first one. */
  function OtherCells<V>(m: Widget, f: Forest<V>, row: int, column: int): Forest<V>
    requires m.kind.Matrix? && f.Node?
  {
    if column + 1 >= m.kind.columns then Cells(m, f.next, row + 1, 0) else Cells(m, f.next, row, column + 1)
  }

  lemma CellsNode<V>(m: Widget, f: Forest<V>, row: int, column: int)
    requires m.kind.Matrix? && f.Node?
    ensures Cells(m, f, row, column)
        == Node(f.view, Cell(m, f.w, row, column), f.subs, f.items, OtherCells(m, f, row, column))
  {
  }

  lemma CellKeeps<V>(m: Widget, t: Forest<V>, row: int, column: int)
    requires m.kind.Matrix? && t.Node? && t.next.Nil? && Proper(t)
    ensures var u := t.(w := Cell(m, t.w, row, column));
        Proper(u) && Display(u, Every) == Display(t, Every) && Views(u) == Views(t) && Size(u) == Size(t)
  {
    hide Draw, TabButtons;
    ShowIgnoresState(t, row == Number(m, "selectedRow") && column == Number(m, "selectedColumn"));
    assert Show(t.(w := Cell(m, t.w, row, column))) == Show(t);
  }

  /** Displaying one cell more. */
  lemma CellsCons<V>(m: Widget, f: Forest<V>, row: int, column: int)
    requires m.kind.Matrix? && f.Node?
    ensures var t := Tree(f);
        t.Node? && t.w == f.w
        && Shown(Cells(m, f, row, column), Every, false)
           == Append(Shown(t.(w := Cell(m, f.w, row, column)), Every, false),
                     Shown(OtherCells(m, f, row, column), Every, false))
  {
    hide Cells, Cell, OtherCells, Shown;
    CellsNode(m, f, row, column);
    ShownCons(Cells(m, f, row, column), Every, false);
  }

  lemma CollectCons<V>(f: Forest<V>, form: Form)
    requires Proper(f) && f.Node?
    ensures Collect(f, form) == Append(Collect(Tree(f), form), Collect(f.next, form))
    ensures Views(Collect(Tree(f), form)) == Views(Tree(f))
  {
  }

  // ----- one view at a time -----

  /** The views reached through subviews alone. */
  ghost function Down<V>(f: Forest<V>): set<V>
  {
    if f.Nil? then {} else {f.view} + Down(f.subs) + Down(f.next)
  }

  lemma {:induction false} DownInside<V>(f: Forest<V>)
    ensures Down(f) <= Views(f)
  {
    if f.Node? {
      DownInside(f.subs);
      DownInside(f.next);
    }
  }
}
