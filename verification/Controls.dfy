/** The controls of a page that the user answers: the select of a pop-up button and the submit
    buttons of the tabs of a tab view. Which of them are on the page, and what they hold. */
module Controls {
  import opened Php
  import opened Persistence
  import opened Pages
  import opened PageLaws

  datatype Control = SelectOf(name: string) | SubmitOf(name: string)

  function Showing<V>(o: Output<V>, c: Control): (inputs: seq<Input>)
    ensures forall i :: 0 <= i < |inputs| ==> (c.SelectOf? ==> inputs[i].Choice?) && (c.SubmitOf? ==> inputs[i].Submit?)
  {
    match o
    case Element(Choice(n, _, _)) => if c == SelectOf(n) then [o.input] else []
    case Element(Submit(n)) => if c == SubmitOf(n) then [o.input] else []
    case _ => []
  }

  /** The controls of one kind and name, in page order. */
  function On<V>(out: seq<Output<V>>, c: Control): (inputs: seq<Input>)
    ensures forall i :: 0 <= i < |inputs| ==> (c.SelectOf? ==> inputs[i].Choice?) && (c.SubmitOf? ==> inputs[i].Submit?)
  {
    if out == [] then [] else Showing(out[0], c) + On(out[1..], c)
  }

  lemma {:induction false} OnConcat<V>(a: seq<Output<V>>, b: seq<Output<V>>, c: Control)
    ensures On(a + b, c) == On(a, c) + On(b, c)
  {
    hide Showing;
    if a == [] {
      assert a + b == b;
    } else {
      OnConcat(a[1..], b, c);
      assert (a + b)[1..] == a[1..] + b && (a + b)[0] == a[0];
    }
  }

  // ----- the controls of one view -----

  /** What a view that is reached puts on the page: a pop-up button that neither is hidden nor pulls
      down its select, with one option for each item and its selection; a tab view a submit button
      for each tab that is not withheld. */
  ghost function Offers(w: Widget, c: Control): seq<Input>
    requires ProperWidget(w)
  {
    match w.kind
    case PopUp(pullsDown, count) =>
      if c == SelectOf(w.id) && !pullsDown && !w.hidden then [Choice(w.id, count, Num(w.props["selectedIndex"]))] else []
    case TabView(hideTab, _) =>
      if exists i: nat :: i < |hideTab| && !hideTab[i] && c == SubmitOf(w.id + "-" + Dec(i)) then [Submit(c.name)] else []
    case _ => []
  }

  lemma DrawControls<V>(v: V, w: Widget, c: Control)
    requires ProperWidget(w) && !w.hidden && !w.kind.TabView?
    ensures On(Draw(v, w), c) == Offers(w, c)
  {
    if Draws(w.kind) {
      var d := Draw(v, w);
      var rest := d[1..];
      assert rest != [] ==> rest[1..] == [];
      assert On(rest, c) == On(d, c);
    }
  }

  lemma {:induction false} TabControls<V>(id: string, hideTab: seq<bool>, from: nat, c: Control)
    requires from <= |hideTab|
    ensures On<V>(TabButtons(id, hideTab, from), c) ==
        if exists i: nat :: from <= i < |hideTab| && !hideTab[i] && c == SubmitOf(id + "-" + Dec(i))
        then [Submit(c.name)] else []
    decreases |hideTab| - from
  {
    if from < |hideTab| {
      var head: seq<Output<V>> := if hideTab[from] then [] else [Element(Submit(TabName(id, from)))];
      var rest: seq<Output<V>> := TabButtons(id, hideTab, from + 1);
      assert TabButtons<V>(id, hideTab, from) == head + rest;
      OnConcat(head, rest, c);
      TabControls<V>(id, hideTab, from + 1, c);
      assert head != [] ==> head[1..] == [];
      if i: nat :| from < i < |hideTab| && !hideTab[i] && c == SubmitOf(id + "-" + Dec(i)) {
        TabNamesDiffer(id, from, i);
      }
    }
  }

  lemma TabNamesDiffer(id: string, i: nat, j: nat)
    requires i != j
    ensures id + "-" + Dec(i) != id + "-" + Dec(j)
  {
    if id + "-" + Dec(i) == id + "-" + Dec(j) {
      assert Dec(i) == (id + "-" + Dec(i))[|id| + 1..];
      assert Dec(j) == (id + "-" + Dec(j))[|id| + 1..];
      DecInjective(i, j);
    }
  }

  // ----- the controls of a tree -----

  lemma ShowControls<V>(f: Forest<V>, c: Control)
    requires Proper(f) && f.Node?
    ensures On(Show(f), c) ==
        if f.w.kind.TabView? then Offers(f.w, c) + On(Display(f.items, Only(Selected(f.w))), c)
        else if f.w.hidden then []
        else On(Display(f.subs, Every), c) + Offers(f.w, c)
  {
    hide Display, TabButtons, Draw, Offers, On;
    var w := f.w;
    if w.kind.TabView? {
      OnConcat(TabButtons(w.id, w.kind.hideTab, 0), Display(f.items, Only(Selected(w))), c);
      TabOffers<V>(w, c);
    } else if !w.hidden {
      OnConcat(Display(f.subs, Every), Draw(f.view, w), c);
      DrawControls(f.view, w, c);
    } else {
      NoControls<V>(c);
    }
  }

  lemma TabOffers<V>(w: Widget, c: Control)
    requires ProperWidget(w) && w.kind.TabView?
    ensures On<V>(TabButtons(w.id, w.kind.hideTab, 0), c) == Offers(w, c)
  {
    hide TabButtons, On;
    TabControls<V>(w.id, w.kind.hideTab, 0, c);
  }

  lemma NoControls<V>(c: Control)
    ensures On<V>([], c) == []
  {
  }

  lemma DisplayControls<V>(f: Forest<V>, pick: Pick, c: Control)
    requires Proper(f) && f.Node?
    ensures On(Display(f, pick), c)
        == (if Chosen(pick) then On(Show(f), c) else []) + On(Display(f.next, Next(pick)), c)
  {
    hide Show, On;
    NoControls<V>(c);
    OnConcat(if Chosen(pick) then Show(f) else [], Display(f.next, Next(pick)), c);
  }

  /** Displaying comes to the view, whether or not it then shows anything. */
  ghost predicate Visited<V>(f: Forest<V>, v: V, pick: Pick)
    requires v in Views(f)
  {
    var Node(u, w, subs, items, next) := f;
    if v == u then Chosen(pick)
    else if v in Views(subs) then Chosen(pick) && !w.hidden && !w.kind.TabView? && Visited(subs, v, Every)
    else if v in Views(items) then Chosen(pick) && w.kind.TabView? && Visited(items, v, Only(Selected(w)))
    else Visited(next, v, Next(pick))
  }

  lemma {:induction false} VisitedIsOnDisplay<V>(f: Forest<V>, v: V, pick: Pick)
    requires v in Views(f)
    ensures OnDisplay(f, v, pick) <==> Visited(f, v, pick) && !WidgetOf(f, v).hidden && !WidgetOf(f, v).kind.TabView?
  {
    if f.view == v {
    } else if v in Views(f.subs) {
      VisitedIsOnDisplay(f.subs, v, Every);
    } else if v in Views(f.items) {
      VisitedIsOnDisplay(f.items, v, Only(Selected(f.w)));
    } else {
      VisitedIsOnDisplay(f.next, v, Next(pick));
    }
  }

  /** No other view offers this control. */
  ghost predicate Alone<V>(f: Forest<V>, v: V, c: Control)
    requires Proper(f)
  {
    forall u :: u in Views(f) && u != v ==> ProperWidget(WidgetOf(f, u)) && Offers(WidgetOf(f, u), c) == []
  }

  lemma AloneBelow<V>(f: Forest<V>, v: V, c: Control)
    requires f.Node? && Proper(f) && Distinct(f) && Alone(f, v, c)
    ensures Alone(f.subs, v, c) && Alone(f.items, v, c) && Alone(f.next, v, c)
    ensures f.view != v ==> Offers(f.w, c) == []
  {
    hide ProperWidget, Offers, Length;
    forall u | u in Views(f.subs) ensures WidgetOf(f.subs, u) == WidgetOf(f, u) {}
    forall u | u in Views(f.items) ensures WidgetOf(f.items, u) == WidgetOf(f, u) {}
    forall u | u in Views(f.next) ensures WidgetOf(f.next, u) == WidgetOf(f, u) {}
    assert f.view in Views(f) && WidgetOf(f, f.view) == f.w;
  }

  lemma {:induction false} ControlAt<V>(f: Forest<V>, v: V, pick: Pick, c: Control)
    requires Proper(f) && Distinct(f) && Alone(f, v, c)
    ensures v !in Views(f) ==> On(Display(f, pick), c) == []
    ensures v in Views(f) ==>
        (&& ProperWidget(WidgetOf(f, v))
         && On(Display(f, pick), c) == if Visited(f, v, pick) then Offers(WidgetOf(f, v), c) else [])
  {
    hide Display, Show, On, Offers, ProperWidget, Alone, Length, Pages.Selected;
    if f.Nil? {
      NothingDisplayed<V>(pick, c);
    } else {
      AloneBelow(f, v, c);
      DisplayControls(f, pick, c);
      ShowControls(f, c);
      HiddenOffersNothing(f.w, c);
      ControlAt(f.subs, v, Every, c);
      ControlAt(f.items, v, Only(Selected(f.w)), c);
      ControlAt(f.next, v, Next(pick), c);
    }
  }

  lemma HiddenOffersNothing(w: Widget, c: Control)
    requires ProperWidget(w)
    ensures w.hidden && !w.kind.TabView? ==> Offers(w, c) == []
  {
  }

  lemma NothingDisplayed<V>(pick: Pick, c: Control)
    ensures On(Display<V>(Nil, pick), c) == []
  {
  }

  /** A tab view that is reached shows its tab buttons right before the item. */
  lemma {:induction false} TabsBeforeItem<V>(f: Forest<V>, v: V, pick: Pick)
    requires Proper(f) && Distinct(f) && v in Views(f) && WidgetOf(f, v).kind.TabView? && Visited(f, v, pick)
    ensures var t := TreeOf(f, v);
        && Proper(t) && t.w.kind.TabView?
        && Within(TabButtons(t.w.id, t.w.kind.hideTab, 0) + Display(t.items, Only(Selected(t.w))), Display(f, pick))
  {
    hide TabButtons, Within, Show, Display, Draw, Length, ProperWidget, Pages.Selected;
    var t := TreeOf(f, v);
    var part := TabButtons<V>(t.w.id, t.w.kind.hideTab, 0) + Display(t.items, Only(Selected(t.w)));
    var rest := Display(f.next, Next(pick));
    DisplayIs(f, pick);
    if f.view == v {
      ShowIs(f);
      WithinFrom([], part, rest);
      assert [] + part + rest == part + rest;
    } else if v in Views(f.subs) {
      TabsBeforeItem(f.subs, v, Every);
      ShowIs(f);
      WithinWider(part, [], Display(f.subs, Every), Draw(f.view, f.w) + rest);
      Joined(Display(f.subs, Every), Draw(f.view, f.w), rest);
    } else if v in Views(f.items) {
      TabsBeforeItem(f.items, v, Only(Selected(f.w)));
      ShowIs(f);
      WithinWider(part, TabButtons<V>(f.w.id, f.w.kind.hideTab, 0), Display(f.items, Only(Selected(f.w))), rest);
    } else {
      TabsBeforeItem(f.next, v, Next(pick));
      var head := if Chosen(pick) then Show(f) else [];
      WithinWider(part, head, rest, []);
      assert head + rest + [] == head + rest;
    }
  }

  lemma Joined<T>(a: seq<T>, b: seq<T>, rest: seq<T>)
    ensures [] + a + (b + rest) == (a + b) + rest
  {
  }

  lemma DisplayIs<V>(f: Forest<V>, pick: Pick)
    requires Proper(f) && f.Node?
    ensures Display(f, pick) == (if Chosen(pick) then Show(f) else []) + Display(f.next, Next(pick))
  {
    hide Show;
  }

  lemma ShowIs<V>(f: Forest<V>)
    requires Proper(f) && f.Node?
    ensures f.w.kind.TabView? ==>
        Show(f) == TabButtons(f.w.id, f.w.kind.hideTab, 0) + Display(f.items, Only(Selected(f.w)))
    ensures !f.w.kind.TabView? && !f.w.hidden ==> Show(f) == Display(f.subs, Every) + Draw(f.view, f.w)
  {
  }

  // ----- the page -----

  lemma {:induction false} WriteHasNone<V>(inputs: seq<Input>, c: Control)
    requires forall i :: 0 <= i < |inputs| ==> inputs[i].Hidden?
    ensures On(Elements<V>(inputs), c) == []
  {
    if inputs != [] {
      WriteHasNone<V>(inputs[1..], c);
      assert Elements<V>(inputs)[1..] == Elements<V>(inputs[1..]);
    }
  }

  lemma {:induction false} AllHidden(id: string, ps: seq<Persistor>, props: Properties)
    requires Registered(ps, props)
    ensures forall i :: 0 <= i < |WriteAll(id, ps, props)| ==> WriteAll(id, ps, props)[i].Hidden?
  {
    if ps != [] {
      RegisteredRest(ps, props);
      AllHidden(id, ps[1..], props);
    }
  }

  lemma RegisteredRest(ps: seq<Persistor>, props: Properties)
    requires ps != [] && Registered(ps, props)
    ensures Registered(ps[1..], props)
  {
  }

  lemma {:induction false} WriteShowsNone<V>(f: Forest<V>, c: Control)
    requires Proper(f)
    ensures On(WritePersist(f), c) == []
  {
    hide Elements, WriteAll, On;
    if f.Nil? {
      NoControls<V>(c);
    } else {
      var own := Elements<V>(WriteAll(f.w.id, f.w.persists, f.w.props));
      WriteShowsNone(f.items, c);
      WriteShowsNone(f.subs, c);
      WriteShowsNone(f.next, c);
      AllHidden(f.w.id, f.w.persists, f.w.props);
      WriteHasNone<V>(WriteAll(f.w.id, f.w.persists, f.w.props), c);
      OnConcat(WritePersist(f.items), WritePersist(f.subs), c);
      OnConcat(WritePersist(f.items) + WritePersist(f.subs), own, c);
      OnConcat(WritePersist(f.items) + WritePersist(f.subs) + own, WritePersist(f.next), c);
    }
  }

  lemma PageControls<V>(f: Forest<V>, c: Control)
    requires Proper(f)
    ensures On(Page(f), c) == On(Display(f, Every), c)
  {
    hide Display, WritePersist, On;
    ShownProper(f, Every, true);
    DoneProper(Shown(f, Every, true), false, Every);
    var d := Done(Shown(f, Every, true), false, Every);
    OnConcat(Display(f, Every), WritePersist(d), c);
    WriteShowsNone(d, c);
  }

  /** No two views of a window look under a common name. */
  lemma {:induction false} NamesOfOne<V>(f: Forest<V>, u: V, v: V, n: string)
    requires Distinct(f) && Unique(f) && u in Views(f) && v in Views(f)
    requires n in OwnNames(WidgetOf(f, u)) && n in OwnNames(WidgetOf(f, v))
    ensures u == v
  {
    hide OwnNames, UniqueWidget;
    NamesInside(f, u, n);
    NamesInside(f, v, n);
    if u in Views(f.subs) && v in Views(f.subs) {
      NamesOfOne(f.subs, u, v, n);
    } else if u in Views(f.items) && v in Views(f.items) {
      NamesOfOne(f.items, u, v, n);
    } else if u in Views(f.next) && v in Views(f.next) {
      NamesOfOne(f.next, u, v, n);
    }
  }

  lemma NamesInside<V>(f: Forest<V>, u: V, n: string)
    requires Distinct(f) && u in Views(f) && n in OwnNames(WidgetOf(f, u))
    ensures u != f.view ==>
        (&& (u in Views(f.subs) ==> n in Names(f.subs)) && (u in Views(f.items) ==> n in Names(f.items))
         && (u in Views(f.next) ==> n in Names(f.next)))
    ensures u == f.view ==> n in OwnNames(f.w)
  {
    hide OwnNames;
    if u == f.view {
    } else if u in Views(f.subs) {
      OwnNamesAreNames(f.subs, u);
    } else if u in Views(f.items) {
      OwnNamesAreNames(f.items, u);
    } else {
      OwnNamesAreNames(f.next, u);
    }
  }

  /** A view that offers a control has an id from which the name of the control is made, and looks
      for its selected index under a name made of the same id. */
  lemma OffersNames(w: Widget, c: Control, id: string)
    requires ProperWidget(w) && Offers(w, c) != []
    requires c == SelectOf(id) || exists i: nat :: c == SubmitOf(id + "-" + Dec(i))
    ensures w.id == id && AutoName(id, "selectedIndex") in OwnNames(w)
  {
    if c.SubmitOf? {
      var i: nat :| c == SubmitOf(id + "-" + Dec(i));
      var j: nat :| c == SubmitOf(w.id + "-" + Dec(j));
      assert '-' !in Dec(i) && '-' !in Dec(j);
      AutoNameInjective(id, Dec(i), w.id, Dec(j));
    }
    IndexIsOwn(w);
  }

  lemma IndexIsOwn(w: Widget)
    requires ProperWidget(w) && (w.kind.PopUp? || w.kind.TabView?)
    ensures AutoName(w.id, "selectedIndex") in OwnNames(w)
  {
    var i := if w.kind.PopUp? then 1 else 0;
    assert AutoName(w.id, "selectedIndex") in Claims(w.id, w.persists[i]);
    ClaimsAreOwn(w, i);
  }

  lemma OffersAlone<V>(f: Forest<V>, v: V, c: Control)
    requires Proper(f) && Distinct(f) && Unique(f) && v in Views(f)
    requires WidgetOf(f, v).kind.PopUp? || WidgetOf(f, v).kind.TabView?
    requires var id := WidgetOf(f, v).id; c == SelectOf(id) || exists i: nat :: c == SubmitOf(id + "-" + Dec(i))
    ensures Alone(f, v, c)
  {
    hide Offers, OwnNames, ProperWidget;
    var id := WidgetOf(f, v).id;
    WidgetsAreProper(f, v);
    IndexIsOwn(WidgetOf(f, v));
    forall u | u in Views(f) && u != v ensures ProperWidget(WidgetOf(f, u)) && Offers(WidgetOf(f, u), c) == [] {
      WidgetsAreProper(f, u);
      if Offers(WidgetOf(f, u), c) != [] {
        OffersNames(WidgetOf(f, u), c, id);
        NamesOfOne(f, u, v, AutoName(id, "selectedIndex"));
      }
    }
  }

  lemma OffersOnPage<V>(f: Forest<V>, v: V, c: Control)
    requires Proper(f) && Distinct(f) && Unique(f) && v in Views(f)
    requires WidgetOf(f, v).kind.PopUp? || WidgetOf(f, v).kind.TabView?
    requires var id := WidgetOf(f, v).id; c == SelectOf(id) || exists i: nat :: c == SubmitOf(id + "-" + Dec(i))
    ensures ProperWidget(WidgetOf(f, v))
    ensures On(Page(f), c) == if Visited(f, v, Every) then Offers(WidgetOf(f, v), c) else []
  {
    hide Offers, Page, Alone, Proper, Unique, ProperWidget;
    OffersAlone(f, v, c);
    ControlAt(f, v, Every, c);
    PageControls(f, c);
  }

  /** The page has exactly one select for a pop-up button that is on display and does not pull down,
      with as many options as it has items and its selection preselected, and none for any other. */
  lemma SelectOnPage<V>(f: Forest<V>, v: V)
    requires Proper(f) && Distinct(f) && Unique(f) && v in Views(f) && WidgetOf(f, v).kind.PopUp?
    ensures var w := WidgetOf(f, v);
        && ProperWidget(w)
        && On(Page(f), SelectOf(w.id)) ==
           if OnDisplay(f, v, Every) && !w.kind.pullsDown
           then [Choice(w.id, w.kind.count, Num(w.props["selectedIndex"]))] else []
  {
    hide Page, Proper, Unique, Distinct;
    OffersOnPage(f, v, SelectOf(WidgetOf(f, v).id));
    VisitedIsOnDisplay(f, v, Every);
  }

  /** The page has exactly one submit button for each tab of a tab view that is reached, except those
      that are withheld, and none for any other. */
  lemma TabOnPage<V>(f: Forest<V>, v: V, i: nat)
    requires Proper(f) && Distinct(f) && Unique(f) && v in Views(f) && WidgetOf(f, v).kind.TabView?
    ensures var w, n := WidgetOf(f, v), WidgetOf(f, v).id + "-" + Dec(i);
        On(Page(f), SubmitOf(n)) ==
        if Visited(f, v, Every) && i < |w.kind.hideTab| && !w.kind.hideTab[i] then [Submit(n)] else []
  {
    hide Page, Proper, Unique, Distinct, ProperWidget;
    var w, n := WidgetOf(f, v), WidgetOf(f, v).id + "-" + Dec(i);
    OffersOnPage(f, v, SubmitOf(n));
    if j: nat :| j < |w.kind.hideTab| && !w.kind.hideTab[j] && SubmitOf(n) == SubmitOf(w.id + "-" + Dec(j)) {
      if i != j {
        TabNamesDiffer(w.id, i, j);
      }
    }
  }
}
