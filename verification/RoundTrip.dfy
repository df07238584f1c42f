/** From one request to the next: what a page carries, exactly when a property survives,
    and why a second round trip changes nothing. */
module RoundTrip {
  import opened Php
  import opened Persistence
  import opened Pages
  import opened PageLaws
  import opened Retouch
  import opened Showing
  import opened Surgery

  // ----- the writing pass -----

  function WrittenOne(id: string, p: Persistor, props: Properties, n: string): seq<string>
    requires p.property in props
  {
    if n == NameOf(id, p) && props[p.property] != p.default then [Text(props[p.property])] else []
  }

  lemma WriteOneValues<V>(id: string, p: Persistor, props: Properties, n: string)
    requires p.property in props
    ensures Values<V>(Elements(WriteOne(id, p, props)), n) == WrittenOne(id, p, props, n)
  {
    var one := WriteOne(id, p, props);
    if one != [] {
      assert one[1..] == [];
      var e := Elements<V>(one);
      assert e == [Element(one[0])] + Elements<V>(one[1..]);
      assert e == [Element(one[0])] && e[1..] == [];
      assert Values(e, n) == ValueUnder(e[0], n) + [];
    }
  }

  lemma {:induction false} WriteAllValues<V>(id: string, ps: seq<Persistor>, props: Properties, i: int, n: string)
    requires Registered(ps, props)
    requires forall j :: 0 <= j < |ps| && j != i ==> n !in Claims(id, ps[j])
    ensures Values<V>(Elements(WriteAll(id, ps, props)), n) ==
            if 0 <= i < |ps| then WrittenOne(id, ps[i], props, n) else []
  {
    if ps != [] {
      var one, rest := WriteOne(id, ps[0], props), WriteAll(id, ps[1..], props);
      ElementsConcat<V>(one, rest);
      ValuesConcat<V>(Elements(one), Elements(rest), n);
      WriteAllValues<V>(id, ps[1..], props, i - 1, n);
      WriteOneValues<V>(id, ps[0], props, n);
      assert 0 != i ==> n !in Claims(id, ps[0]);
    }
  }

  lemma WritePersistSplits<V>(f: Forest<V>, n: string)
    requires Proper(f) && f.Node?
    ensures Values(WritePersist(f), n) ==
            Values(WritePersist(f.items), n) + Values(WritePersist(f.subs), n) +
            Values<V>(Elements(WriteAll(f.w.id, f.w.persists, f.w.props)), n) + Values(WritePersist(f.next), n)
  {
    var a, b := WritePersist(f.items), WritePersist(f.subs);
    var c: seq<Output<V>> := Elements(WriteAll(f.w.id, f.w.persists, f.w.props));
    ValuesConcat(a, b, n);
    ValuesConcat(a + b, c, n);
    ValuesConcat(a + b + c, WritePersist(f.next), n);
  }

  lemma {:induction false} WriteForeign<V>(f: Forest<V>, n: string)
    requires Proper(f) && n !in Names(f)
    ensures Values(WritePersist(f), n) == []
  {
    match f
    case Nil =>
    case Node(v, w, subs, items, next) =>
      WritePersistSplits(f, n);
      forall j | 0 <= j < |w.persists| ensures n !in Claims(w.id, w.persists[j]) { ClaimsAreOwn(w, j); }
      WriteAllValues<V>(w.id, w.persists, w.props, -1, n);
      WriteForeign(items, n);
      WriteForeign(subs, n);
      WriteForeign(next, n);
  }

  /** A persistor writes its own name once, and nobody else writes any of its names. */
  lemma {:induction false} WriteValues<V>(f: Forest<V>, v: V, i: nat, n: string)
    requires Proper(f) && Distinct(f) && Unique(f) && v in Views(f)
    requires i < |WidgetOf(f, v).persists| && n in Claims(WidgetOf(f, v).id, WidgetOf(f, v).persists[i])
    ensures ProperWidget(WidgetOf(f, v))
    ensures var w := WidgetOf(f, v);
            Values(WritePersist(f), n) == WrittenOne(w.id, w.persists[i], w.props, n)
  {
    assert f.Node? && (f.view == v ==> WidgetOf(f, v) == f.w);
    hide *;
    WidgetsAreProper(f, v);
    if f.view == v {
      WriteHere(f, i, n);
    } else {
      ClaimsAreOwn(WidgetOf(f, v), i);
      WriteBelow(f, v, n);
      OwnForeign(f.view, f.w, n);
      if v in Views(f.subs) {
        WriteForeign(f.items, n);
        WriteValues(f.subs, v, i, n);
        WriteForeign(f.next, n);
      } else if v in Views(f.items) {
        WriteForeign(f.subs, n);
        WriteValues(f.items, v, i, n);
        WriteForeign(f.next, n);
      } else {
        WriteForeign(f.items, n);
        WriteForeign(f.subs, n);
        WriteValues(f.next, v, i, n);
      }
      WritePersistSplits(f, n);
      Neutral(Values(WritePersist(f.items), n), Values(WritePersist(f.subs), n), Values(WritePersist(f.next), n));
    }
  }

  lemma Neutral<T>(a: seq<T>, b: seq<T>, c: seq<T>)
    ensures b == [] && c == [] ==> a + b + [] + c == a
    ensures a == [] && c == [] ==> a + b + [] + c == b
    ensures a == [] && b == [] ==> a + b + [] + c == c
  {
  }

  lemma WriteHere<V>(f: Forest<V>, i: nat, n: string)
    requires f.Node? && Proper(f) && Unique(f) && i < |f.w.persists| && n in Claims(f.w.id, f.w.persists[i])
    ensures WidgetOf(f, f.view) == f.w && ProperWidget(f.w)
    ensures Values(WritePersist(f), n) == WrittenOne(f.w.id, f.w.persists[i], f.w.props, n)
  {
    ClaimsAreOwn(f.w, i);
    WritePersistSplits(f, n);
    WriteAllValues<V>(f.w.id, f.w.persists, f.w.props, i, n);
    WriteForeign(f.items, n);
    WriteForeign(f.subs, n);
    WriteForeign(f.next, n);
  }

  /** A name of a view that is not the first belongs to one of the three parts below it. */
  lemma WriteBelow<V>(f: Forest<V>, v: V, n: string)
    requires Proper(f) && Distinct(f) && Unique(f) && v in Views(f) && f.view != v && n in OwnNames(WidgetOf(f, v))
    ensures ProperWidget(f.w) && Proper(f.subs) && Proper(f.items) && Proper(f.next)
    ensures Distinct(f.subs) && Distinct(f.items) && Distinct(f.next)
    ensures Unique(f.subs) && Unique(f.items) && Unique(f.next) && n !in OwnNames(f.w)
    ensures v in Views(f.subs) ==> n !in Names(f.items) && n !in Names(f.next) && WidgetOf(f.subs, v) == WidgetOf(f, v)
    ensures v !in Views(f.subs) ==> n !in Names(f.subs)
    ensures v !in Views(f.subs) && v in Views(f.items) ==> n !in Names(f.next) && WidgetOf(f.items, v) == WidgetOf(f, v)
    ensures v !in Views(f.subs) && v !in Views(f.items) ==>
              v in Views(f.next) && n !in Names(f.items) && WidgetOf(f.next, v) == WidgetOf(f, v)
  {
    if v in Views(f.subs) {
      OwnNamesAreNames(f.subs, v);
    } else if v in Views(f.items) {
      OwnNamesAreNames(f.items, v);
    } else {
      OwnNamesAreNames(f.next, v);
    }
  }

  lemma OwnForeign<V>(v: V, w: Widget, n: string)
    requires ProperWidget(w) && n !in OwnNames(w)
    ensures Values<V>(Elements(WriteAll(w.id, w.persists, w.props)), n) == []
  {
    forall j | 0 <= j < |w.persists| ensures n !in Claims(w.id, w.persists[j]) { ClaimsAreOwn(w, j); }
    WriteAllValues<V>(w.id, w.persists, w.props, -1, n);
  }

  // ----- the finishing pass -----

  lemma DoneWidgetNames(w: Widget, hidden: bool, flag: bool)
    requires ProperWidget(w)
    ensures var d := DoneWidget(w, hidden).(hidden := flag);
            OwnNames(d) == OwnNames(w) && (UniqueWidget(w) ==> UniqueWidget(d))
  {
    var d := DoneWidget(w, hidden).(hidden := flag);
    assert forall i :: 0 <= i < |w.persists| ==> Claims(d.id, d.persists[i]) == Claims(w.id, w.persists[i]);
  }

  lemma {:induction false} DoneNames<V>(f: Forest<V>, above: bool, pick: Pick)
    requires Proper(f)
    ensures Names(Done(f, above, pick)) == Names(f)
  {
    match f
    case Nil =>
    case Node(_, w, subs, items, next) =>
      var h := above || Flag(w, pick);
      DoneWidgetNames(w, h, Flag(w, pick));
      DoneNames(subs, h, Every);
      DoneNames(items, false, Only(Selected(w)));
      DoneNames(next, above, Next(pick));
  }

  lemma {:induction false} DoneUnique<V>(f: Forest<V>, above: bool, pick: Pick)
    requires Proper(f) && Unique(f)
    ensures Unique(Done(f, above, pick))
  {
    match f
    case Nil =>
    case Node(_, w, subs, items, next) =>
      var h := above || Flag(w, pick);
      DoneWidgetNames(w, h, Flag(w, pick));
      DoneUnique(subs, h, Every);
      DoneUnique(items, false, Only(Selected(w)));
      DoneUnique(next, above, Next(pick));
      DoneNames(subs, h, Every);
      DoneNames(items, false, Only(Selected(w)));
      DoneNames(next, above, Next(pick));
  }

  ghost predicate SameButFlag(a: Widget, b: Widget) {
    a == b.(hidden := a.hidden)
  }

  /** The finishing pass decides about every view by its hidden state after marking. */
  lemma {:induction false} DoneDecides<V>(f: Forest<V>, v: V, above: bool, pick: Pick)
    requires Proper(f) && v in Views(f)
    ensures ProperWidget(WidgetOf(f, v))
    ensures SameButFlag(WidgetOf(Done(f, above, pick), v), DoneWidget(WidgetOf(f, v), HiddenAfter(f, v, above, pick)))
  {
    hide DoneWidget, ProperWidget;
    WidgetsAreProper(f, v);
    var Node(u, w, subs, items, next) := f;
    var h := above || Flag(w, pick);
    var g := Done(f, above, pick);
    if u == v {
      assert WidgetOf(g, v) == g.w;
    } else if v in Views(subs) {
      DoneDecides(subs, v, h, Every);
      assert WidgetOf(g, v) == WidgetOf(g.subs, v);
    } else if v in Views(items) {
      DoneDecides(items, v, false, Only(Selected(w)));
      assert WidgetOf(g, v) == WidgetOf(g.items, v);
    } else {
      DoneDecides(next, v, above, Next(pick));
      assert WidgetOf(g, v) == WidgetOf(g.next, v);
    }
  }

  // ----- the whole page -----

  /** Displaying finds nothing to change any more. */
  ghost predicate IsDisplayed<V>(g: Forest<V>) {
    Shown(g, Every, true) == g
  }

  /** What of a window is on its page: everything that displaying leaves. */
  lemma Displayed<V>(f: Forest<V>) returns (g: Forest<V>)
    requires Proper(f) && Distinct(f) && Unique(f)
    ensures g == Shown(f, Every, true) && Proper(g) && Distinct(g) && Unique(g) && IsDisplayed(g)
    ensures Views(g) == Views(f) && Page(g) == Page(f) && Retouched(f, g)
  {
    g := Shown(f, Every, true);
    ShownRetouches(f, Every, true);
    Distinctness(f, g);
    Uniqueness(f, g);
    PageOfShown(f);
    ShownTwice(f, Every, true);
  }

  /** Displaying changes neither the names of a view nor whether it is drawn or hidden, nor
      anything of a view that is no button, pop-up button or scroll view. */
  lemma DisplayedAt<V>(f: Forest<V>, v: V)
    requires v in Views(f)
    ensures var g := Shown(f, Every, true);
        && v in Views(g) && Touched(WidgetOf(f, v), WidgetOf(g, v)) && StateOnly(WidgetOf(f, v), WidgetOf(g, v))
        && Drawn(g, v, Every) == Drawn(f, v, Every)
        && HiddenAfter(g, v, false, Every) == HiddenAfter(f, v, false, Every)
  {
    hide StateOnly, Retouched;
    ShownRetouches(f, Every, true);
    AlikeAt(f, Shown(f, Every, true), v, None);
    ShownAt(f, Every, true, v);
    ShownFate(f, Every, true);
    FateAt(f, Shown(f, Every, true), v, false, Every);
  }

  lemma DisplayedValues<V>(g: Forest<V>, v: V, i: nat, n: string)
    requires Proper(g) && Distinct(g) && Unique(g) && IsDisplayed(g) && v in Views(g)
    requires i < |WidgetOf(g, v).persists| && n in Claims(WidgetOf(g, v).id, WidgetOf(g, v).persists[i])
    ensures ProperWidget(WidgetOf(g, v))
    ensures var w := WidgetOf(g, v);
            var d := DoneWidget(w, HiddenAfter(g, v, false, Every));
            Values(Page(g), n) == DrawnValues(g, v, Every, n) + WrittenOne(w.id, d.persists[i], w.props, n)
  {
    hide ProperWidget, UniqueWidget, OwnNames, DrawnValues, WrittenOne;
    WidgetsAreProper(g, v);
    var w := WidgetOf(g, v);
    var d := Done(g, false, Every);
    DoneProper(g, false, Every);
    ValuesConcat(Display(g, Every), WritePersist(d), n);
    ClaimsAreOwn(w, i);
    DisplayValues(g, v, Every, n);
    DoneUnique(g, false, Every);
    DoneDistinct(g, false, Every);
    DoneDecides(g, v, false, Every);
    WriteValues(d, v, i, n);
  }

  /** Everything the page holds under one of the names a persistor may look under: the input
      the view drew, then the hidden input of the persistor if it still writes one, both of the
      view as displaying leaves it. */
  lemma PageValues<V>(f: Forest<V>, v: V, i: nat, n: string)
    requires Proper(f) && Distinct(f) && Unique(f) && v in Views(f)
    requires i < |WidgetOf(f, v).persists| && n in Claims(WidgetOf(f, v).id, WidgetOf(f, v).persists[i])
    ensures var g := Shown(f, Every, true);
        && Proper(g) && v in Views(g) && ProperWidget(WidgetOf(g, v))
        && var w := WidgetOf(g, v);
           var d := DoneWidget(w, HiddenAfter(f, v, false, Every));
           && w.persists == WidgetOf(f, v).persists
           && Values(Page(f), n) == DrawnValues(g, v, Every, n) + WrittenOne(w.id, d.persists[i], w.props, n)
  {
    hide Drawn, HiddenAfter, Page, Values, Distinct, Unique, Proper, Draw, Shown, DoneWidget, Retouched, StateOnly;
    var g := Displayed(f);
    DisplayedAt(f, v);
    DisplayedValues(g, v, i, n);
  }

  /** Draw and persist agree on an editable text field: its string is in the page once for
      being drawn and once for being written, it is written only if it was hidden and differs
      from its default, and it is never both drawn and written. */
  lemma TextFieldInputs<V>(f: Forest<V>, v: V)
    requires Proper(f) && Distinct(f) && Unique(f) && v in Views(f)
    requires WidgetOf(f, v).kind == TextField(true, false)
    ensures ProperWidget(WidgetOf(f, v))
    ensures var w := WidgetOf(f, v);
            var p := w.persists[0];
            var s := w.props["string"];
            Values(Page(f), NameOf(w.id, p)) ==
              if Drawn(f, v, Every) then [Text(s)]
              else if HiddenAfter(f, v, false, Every) && s != p.default then [Text(s)]
              else []
  {
    hide Page, Values, Shown, Retouched;
    WidgetsAreProper(f, v);
    var w := WidgetOf(f, v);
    var n := NameOf(w.id, w.persists[0]);
    PageValues(f, v, 0, n);
    DisplayedAt(f, v);
    DrawValues(v, w, n);
    if Drawn(f, v, Every) {
      DrawnIsNotHidden(f, v, Every);
    }
  }

  /** Every text field: it is drawn as an input if it is editable, one for passwords without its
      text, and its string is written if it is not the default and no input of its own carries it. A
      label is never written. Without a name of its own it goes under its id and the property. */
  lemma FieldInputs<V>(f: Forest<V>, v: V)
    requires Proper(f) && Distinct(f) && Unique(f) && v in Views(f) && WidgetOf(f, v).kind.TextField?
    ensures ProperWidget(WidgetOf(f, v))
    ensures var w := WidgetOf(f, v);
            var p, s, password := w.persists[0], w.props["string"], w.kind.password;
            && (p.name.None? ==> NameOf(w.id, p) == w.id + "-string")
            && Values(Page(f), NameOf(w.id, p)) ==
               (if w.kind.editable && OnDisplay(f, v, Every) then [if password then "" else Text(s)] else []) +
               (if s != p.default && (password || (w.kind.editable && HiddenAfter(f, v, false, Every))) then [Text(s)] else [])
  {
    hide Page, Values, Shown, Retouched;
    WidgetsAreProper(f, v);
    var w := WidgetOf(f, v);
    var n := NameOf(w.id, w.persists[0]);
    assert "-string" == "-" + "string" && w.id + "-" + "string" == w.id + "-string";
    PageValues(f, v, 0, n);
    DisplayedAt(f, v);
    DrawValues(v, w, n);
  }

  lemma {:induction false} DrawnIsNotHidden<V>(f: Forest<V>, v: V, pick: Pick)
    requires v in Views(f) && OnDisplay(f, v, pick)
    ensures !HiddenAfter(f, v, false, pick)
  {
    var Node(u, w, subs, items, next) := f;
    if u == v {
    } else if v in Views(subs) {
      DrawnIsNotHidden(subs, v, Every);
    } else if v in Views(items) {
      DrawnIsNotHidden(items, v, Only(Selected(w)));
    } else {
      DrawnIsNotHidden(next, v, Next(pick));
    }
  }

  // ----- the next request -----

  /** Rebuilding a responder: every persistor sets up its property again. */
  function Construct(id: string, ps: seq<Persistor>, props: Properties, post: Form): Properties
  {
    map k | k in props :: ConstructedAt(id, ps, k, props[k], post)
  }

  function ConstructedAt(id: string, ps: seq<Persistor>, k: string, x: Value, post: Form): Value
  {
    if ps == [] then x
    else if ps[0].property == k then Constructed(id, ps[0], post)
    else ConstructedAt(id, ps[1..], k, x, post)
  }

  lemma {:induction false} ConstructAt(id: string, ps: seq<Persistor>, props: Properties, x: Value, post: Form, i: nat)
    requires Registered(ps, props) && i < |ps|
    ensures ConstructedAt(id, ps, ps[i].property, x, post) == Constructed(id, ps[i], post)
  {
    if i > 0 {
      assert ps[i].property != ps[0].property;
      ConstructAt(id, ps[1..], props, x, post, i - 1);
    }
  }

  /** A view is constructed without a recorded click. */
  function Fresh(kind: Kind): Kind
  {
    match kind
    case TabView(_, _) => kind.(clickedItem := -1)
    case Matrix(_, _, _, _) => kind.(clickedRow := -1, clickedColumn := -1)
    case _ => kind
  }

  function RebuiltWidget(w: Widget, post: Form): (u: Widget)
    ensures Touched(w, u)
  {
    w.(kind := Fresh(w.kind), props := Construct(w.id, w.persists, w.props, post))
  }

  /** The same views, constructed again by the next request. */
  function Rebuild<V>(f: Forest<V>, post: Form): (g: Forest<V>)
    ensures Retouched(f, g)
  {
    match f
    case Nil => Nil
    case Node(v, w, subs, items, next) =>
      Node(v, RebuiltWidget(w, post), Rebuild(subs, post), Rebuild(items, post), Rebuild(next, post))
  }

  lemma {:induction false} RebuiltAt<V>(f: Forest<V>, post: Form, v: V)
    requires v in Views(f)
    ensures v in Views(Rebuild(f, post)) && WidgetOf(Rebuild(f, post), v) == RebuiltWidget(WidgetOf(f, v), post)
  {
    hide RebuiltWidget, Retouched;
    var g := Rebuild(f, post);
    Shape(f, g);
    Shape(f.subs, Rebuild(f.subs, post));
    Shape(f.items, Rebuild(f.items, post));
    if f.view == v {
    } else if v in Views(f.subs) {
      RebuiltAt(f.subs, post, v);
    } else if v in Views(f.items) {
      RebuiltAt(f.items, post, v);
    } else {
      RebuiltAt(f.next, post, v);
    }
  }

  /** One request and the next: the page is drawn, the browser posts it, the same views are
      built again with the same defaults. */
  function RoundTrip<V>(f: Forest<V>): Forest<V>
    requires Proper(f)
  {
    Rebuild(f, Echo(Page(f)))
  }

  lemma RebuiltWidgetShown(w: Widget, flag: bool, top: bool, post: Form)
    requires ProperWidget(w)
    ensures RebuiltWidget(WithSelected(w, flag), post) == RebuiltWidget(w, post)
    ensures RebuiltWidget(ShownWidget(w, top), post) == RebuiltWidget(w, post)
  {
    var ps := w.persists;
    if w.kind.Button? || w.kind.PopUp? {
      ForgetsProperty(w, WithSelected(w, flag), post, 0);
    }
    if w.kind.ScrollView? {
      var half := w.(props := w.props[SCROLL_X := Str("")]);
      ForgetsProperty(w, half, post, 2);
      ForgetsProperty(half, half.(props := half.props[SCROLL_Y := Str("")]), post, 3);
    }
  }

  /** What a view is constructed with does not depend on what a persistent property held. */
  lemma ForgetsProperty(w: Widget, u: Widget, post: Form, i: nat)
    requires Registered(w.persists, w.props) && i < |w.persists|
    requires u == w.(props := u.props) && u.props.Keys == w.props.Keys
    requires forall k :: k in w.props && k != w.persists[i].property ==> u.props[k] == w.props[k]
    ensures RebuiltWidget(u, post) == RebuiltWidget(w, post)
  {
    forall k | k in w.props
      ensures ConstructedAt(w.id, w.persists, k, u.props[k], post) == ConstructedAt(w.id, w.persists, k, w.props[k], post)
    {
      if k == w.persists[i].property {
        ConstructAt(w.id, w.persists, w.props, w.props[k], post, i);
        ConstructAt(w.id, w.persists, w.props, u.props[k], post, i);
      }
    }
    assert Construct(u.id, u.persists, u.props, post) == Construct(w.id, w.persists, w.props, post);
  }

  lemma {:induction false} RebuildDerived<V>(f: Forest<V>, m: Widget, row: int, column: int, post: Form)
    requires Proper(f) && m.kind.Matrix?
    ensures Rebuild(Derived(f, m, row, column), post) == Rebuild(f, post)
  {
    hide ProperWidget, RebuiltWidget, WithSelected, Retouched;
    if f.Node? {
      RebuiltWidgetShown(f.w, row == Number(m, "selectedRow") && column == Number(m, "selectedColumn"), true, post);
      if column + 1 >= m.kind.columns {
        RebuildDerived(f.next, m, row + 1, 0, post);
      } else {
        RebuildDerived(f.next, m, row, column + 1, post);
      }
    }
  }

  /** The next request constructs the same window, whatever displaying changed: that all went
      into the form. */
  lemma {:induction false} RebuildShown<V>(f: Forest<V>, pick: Pick, top: bool, post: Form)
    requires Proper(f)
    ensures Rebuild(Shown(f, pick, top), post) == Rebuild(f, post)
    decreases Size(f)
  {
    hide ProperWidget, RebuiltWidget, ShownWidget, Derived, Retouched;
    if f.Node? {
      RebuiltWidgetShown(f.w, true, top, post);
      RebuildShown(f.next, Next(pick), top, post);
      RebuildShown(f.subs, Every, false, post);
      RebuildShown(f.items, Only(Selected(f.w)), true, post);
      if f.w.kind.Matrix? {
        DerivedProper(f.subs, f.w, 0, 0);
        RebuildDerived(f.subs, f.w, 0, 0, post);
        RebuildShown(Derived(f.subs, f.w, 0, 0), Every, false, post);
      }
    }
  }

  /** The constructor of a text field leaves the empty string as the default of its persistor. */
  ghost predicate FieldDefaults<V>(f: Forest<V>)
  {
    match f
    case Nil => true
    case Node(_, w, subs, items, next) =>
      && (w.kind.TextField? ==> |w.persists| == 1 && w.persists[0].default == Str(""))
      && FieldDefaults(subs) && FieldDefaults(items) && FieldDefaults(next)
  }

  lemma {:induction false} FieldDefault<V>(f: Forest<V>, v: V)
    requires FieldDefaults(f) && v in Views(f)
    ensures var w := WidgetOf(f, v);
            w.kind.TextField? ==> |w.persists| == 1 && w.persists[0].default == Str("")
  {
    if f.view == v {
    } else if v in Views(f.subs) {
      FieldDefault(f.subs, v);
    } else if v in Views(f.items) {
      FieldDefault(f.items, v);
    } else {
      FieldDefault(f.next, v);
    }
  }

  /** When the properties of a view reach the next request. */
  predicate Carries(w: Widget, drawn: bool, hidden: bool)
  {
    match w.kind
    case TextField(editable, false) =>
      || (editable && (drawn || hidden))
      || ("string" in w.props && Text(w.props["string"]) == "")
    case _ => true
  }

  ghost predicate Survives<V>(f: Forest<V>, v: V)
    requires v in Views(f)
  {
    Carries(WidgetOf(f, v), Drawn(f, v, Every), HiddenAfter(f, v, false, Every))
  }

  /** A property as the next request sees it if it survives. */
  function Converted(p: Persistor, value: Value): Value
  {
    if value == p.default then p.default else Str(Text(value))
  }

  /** What the page sends under the name of a persistor. */
  function Sent(w: Widget, p: Persistor, drawn: bool, hidden: bool): seq<string>
    requires p.property in w.props
  {
    var x := w.props[p.property];
    match w.kind
    case TextField(editable, true) =>
      (if drawn && editable then [""] else []) + (if x != p.default then [Text(x)] else [])
    case TextField(editable, false) =>
      (if drawn && editable then [Text(x)] else []) +
      (if editable && hidden && x != p.default then [Text(x)] else [])
    case _ => if x != p.default then [Text(x)] else []
  }

  lemma SentValues<V>(g: Forest<V>, v: V, i: nat)
    requires Proper(g) && Distinct(g) && Unique(g) && IsDisplayed(g) && v in Views(g)
    requires i < |WidgetOf(g, v).persists|
    ensures ProperWidget(WidgetOf(g, v))
    ensures var w := WidgetOf(g, v);
            var p := w.persists[i];
            && Values(Page(g), NameOf(w.id, p)) == Sent(w, p, Drawn(g, v, Every), HiddenAfter(g, v, false, Every))
            && (AutoName(w.id, p.property) != NameOf(w.id, p) ==> Values(Page(g), AutoName(w.id, p.property)) == [])
  {
    hide Drawn, HiddenAfter, Page, Values, Distinct, Unique, Proper, WidgetOf, Views, Draw, IsDisplayed;
    WidgetsAreProper(g, v);
    var w := WidgetOf(g, v);
    var n, m := NameOf(w.id, w.persists[i]), AutoName(w.id, w.persists[i].property);
    DisplayedValues(g, v, i, n);
    DisplayedValues(g, v, i, m);
    DrawValues(v, w, n);
    DrawValues(v, w, m);
  }

  function Restored(w: Widget, p: Persistor, drawn: bool, hidden: bool): Value
    requires p.property in w.props
  {
    var sent := Sent(w, p, drawn, hidden);
    if sent == [] then p.default else Str(sent[|sent| - 1])
  }

  /** The constructor of the next request sees the last value sent, or the default. */
  lemma ConstructedFromPage<V>(g: Forest<V>, v: V, i: nat)
    requires Proper(g) && Distinct(g) && Unique(g) && IsDisplayed(g) && v in Views(g)
    requires i < |WidgetOf(g, v).persists|
    ensures ProperWidget(WidgetOf(g, v))
    ensures var w := WidgetOf(g, v);
            var p := w.persists[i];
            Constructed(w.id, p, Echo(Page(g))) == Restored(w, p, Drawn(g, v, Every), HiddenAfter(g, v, false, Every))
  {
    hide Page, IsDisplayed;
    SentValues(g, v, i);
    var w := WidgetOf(g, v);
    EchoIsLast(Page(g), NameOf(w.id, w.persists[i]));
    EchoIsLast(Page(g), AutoName(w.id, w.persists[i].property));
  }

  lemma CarriesDecides(w: Widget, p: Persistor, drawn: bool, hidden: bool)
    requires p.property in w.props
    requires w.kind.TextField? ==> p.property == "string" && p.default == Str("")
    requires drawn ==> !hidden
    ensures var x := w.props[p.property];
            var r := Restored(w, p, drawn, hidden);
            && (Text(r) == Text(x) <==> Carries(w, drawn, hidden))
            && (Carries(w, drawn, hidden) ==> r == Converted(p, x))
  {
  }

  /** A property as displaying leaves it reaches the next request, up to string conversion, if and
      only if its view is one of those that survive. */
  lemma PropertyCarried<V>(f: Forest<V>, v: V, i: nat)
    requires Proper(f) && Distinct(f) && Unique(f) && FieldDefaults(f) && v in Views(f)
    requires i < |WidgetOf(f, v).persists|
    ensures var g := Shown(f, Every, true);
        && v in Views(g) && ProperWidget(WidgetOf(g, v))
        && var w := WidgetOf(g, v);
           && w.id == WidgetOf(f, v).id && w.persists == WidgetOf(f, v).persists
           && var p := w.persists[i];
              var restored := Constructed(w.id, p, Echo(Page(f)));
              && (Text(restored) == Text(w.props[p.property]) <==> Survives(f, v))
              && (Survives(f, v) ==> restored == Converted(p, w.props[p.property]))
  {
    hide Page, Shown, Drawn, HiddenAfter, Retouched, Distinct, Unique, Proper;
    var g := Displayed(f);
    DisplayedAt(f, v);
    ConstructedFromPage(g, v, i);
    FieldDefault(f, v);
    if Drawn(f, v, Every) {
      DrawnHere(f, v);
    }
    CarriesDecides(WidgetOf(g, v), WidgetOf(g, v).persists[i], Drawn(f, v, Every), HiddenAfter(f, v, false, Every));
  }

  lemma DrawnHere<V>(f: Forest<V>, v: V)
    requires v in Views(f) && Drawn(f, v, Every)
    ensures !HiddenAfter(f, v, false, Every)
  {
    DrawnIsNotHidden(f, v, Every);
  }

  // ----- two requests -----

  /** A text field that is not editable: it forgets its text, the application sets it anew. */
  predicate IsLabel(w: Widget)
  {
    w.kind == TextField(false, false)
  }

  function ConvertedAt(fixed: bool, ps: seq<Persistor>, k: string, x: Value): Value
  {
    if ps == [] then x
    else if ps[0].property == k then (if fixed then ps[0].default else Converted(ps[0], x))
    else ConvertedAt(fixed, ps[1..], k, x)
  }

  function ConvertProps(w: Widget): Properties
  {
    map k | k in w.props :: ConvertedAt(IsLabel(w), w.persists, k, w.props[k])
  }

  function ConvertedWidget(w: Widget): (u: Widget)
    ensures Touched(w, u)
  {
    w.(kind := Fresh(w.kind), props := ConvertProps(w))
  }

  /** The forest with every persistent property converted to what a form can carry,
      and labels back at their default. */
  function Convert<V>(f: Forest<V>): Forest<V>
  {
    match f
    case Nil => Nil
    case Node(v, w, subs, items, next) =>
      Node(v, ConvertedWidget(w), Convert(subs), Convert(items), Convert(next))
  }

  lemma {:induction false} ConvertedTwice(fixed: bool, ps: seq<Persistor>, k: string, x: Value)
    ensures ConvertedAt(fixed, ps, k, ConvertedAt(fixed, ps, k, x)) == ConvertedAt(fixed, ps, k, x)
    ensures !fixed || (forall i :: 0 <= i < |ps| ==> ps[i].property != k) ==>
              var y := ConvertedAt(fixed, ps, k, x); Text(y) == Text(x) && KeyOf(y) == KeyOf(x)
  {
    if ps != [] {
      if ps[0].property == k {
        KeySurvivesText(x);
      } else {
        ConvertedTwice(fixed, ps[1..], k, x);
      }
    }
  }

  lemma {:induction false} ConstructIsConvert(
    id: string, fixed: bool, ps: seq<Persistor>, k: string, props: Properties, post: Form)
    requires Registered(ps, props) && k in props
    requires forall i :: 0 <= i < |ps| ==>
               Constructed(id, ps[i], post) == if fixed then ps[i].default else Converted(ps[i], props[ps[i].property])
    ensures ConstructedAt(id, ps, k, props[k], post) == ConvertedAt(fixed, ps, k, props[k])
  {
    if ps != [] {
      ConstructIsConvert(id, fixed, ps[1..], k, props, post);
    }
  }

  ghost predicate CarriedOver(w: Widget, post: Form)
  {
    forall i :: 0 <= i < |w.persists| ==>
      && w.persists[i].property in w.props
      && Constructed(w.id, w.persists[i], post) ==
           if IsLabel(w) then w.persists[i].default else Converted(w.persists[i], w.props[w.persists[i].property])
  }

  lemma RebuiltIsConverted(w: Widget, post: Form)
    requires ProperWidget(w) && CarriedOver(w, post)
    ensures RebuiltWidget(w, post) == ConvertedWidget(w)
  {
    forall k | k in w.props
      ensures ConstructedAt(w.id, w.persists, k, w.props[k], post) == ConvertedAt(IsLabel(w), w.persists, k, w.props[k])
    {
      ConstructIsConvert(w.id, IsLabel(w), w.persists, k, w.props, post);
    }
    assert Construct(w.id, w.persists, w.props, post) == ConvertProps(w);
  }

  lemma {:induction false} RebuildIsConvert<V>(f: Forest<V>, post: Form)
    requires Proper(f) && Distinct(f)
    requires forall v :: v in Views(f) ==> CarriedOver(WidgetOf(f, v), post)
    ensures Rebuild(f, post) == Convert(f)
  {
    hide CarriedOver, RebuiltWidget, ConvertedWidget, ProperWidget;
    match f
    case Nil =>
    case Node(v, w, subs, items, next) =>
      assert v in Views(f) && WidgetOf(f, v) == w;
      RebuiltIsConverted(w, post);
      forall u | u in Views(subs) ensures CarriedOver(WidgetOf(subs, u), post) { assert WidgetOf(f, u) == WidgetOf(subs, u); }
      forall u | u in Views(items) ensures CarriedOver(WidgetOf(items, u), post) { assert WidgetOf(f, u) == WidgetOf(items, u); }
      forall u | u in Views(next) ensures CarriedOver(WidgetOf(next, u), post) { assert WidgetOf(f, u) == WidgetOf(next, u); }
      RebuildIsConvert(subs, post);
      RebuildIsConvert(items, post);
      RebuildIsConvert(next, post);
  }

  /** Every view but the labels is one of those that survive. */
  ghost predicate AllSurvive<V>(f: Forest<V>)
  {
    forall v :: v in Views(f) && !IsLabel(WidgetOf(f, v)) ==> Survives(f, v)
  }

  /** The whole window: if every view but the labels is one of those that survive, the next
      request has the displayed forest with every property converted, and nothing else is
      different. */
  lemma WindowRoundTrip<V>(f: Forest<V>)
    requires Proper(f) && Distinct(f) && Unique(f) && FieldDefaults(f) && AllSurvive(f)
    ensures RoundTrip(f) == Convert(Shown(f, Every, true))
  {
    hide Shown, Retouched, Survives, Page, Converted;
    var g := Displayed(f);
    forall v | v in Views(g)
      ensures CarriedOver(WidgetOf(g, v), Echo(Page(f)))
    {
      ViewCarried(f, v);
    }
    RebuildIsConvert(g, Echo(Page(f)));
    RebuildShown(f, Every, true, Echo(Page(f)));
  }

  lemma ViewCarried<V>(f: Forest<V>, v: V)
    requires Proper(f) && Distinct(f) && Unique(f) && FieldDefaults(f) && v in Views(f)
    requires IsLabel(WidgetOf(f, v)) || Survives(f, v)
    ensures v in Views(Shown(f, Every, true)) && CarriedOver(WidgetOf(Shown(f, Every, true), v), Echo(Page(f)))
  {
    hide Shown, Retouched, Survives, Page, Converted, Distinct, Unique, Proper, Drawn, HiddenAfter, Views, WidgetOf, StateOnly,
      IsDisplayed;
    var g := Displayed(f);
    DisplayedAt(f, v);
    WidgetsAreProper(g, v);
    var w := WidgetOf(g, v);
    forall i | 0 <= i < |w.persists|
      ensures Constructed(w.id, w.persists[i], Echo(Page(f))) ==
                if IsLabel(w) then w.persists[i].default else Converted(w.persists[i], w.props[w.persists[i].property])
    {
      PropertyCarried(f, v, i);
      ConstructedFromPage(g, v, i);
    }
  }

  lemma ConvertWidget(w: Widget)
    requires ProperWidget(w)
    ensures var c := ConvertedWidget(w);
            && ProperWidget(c) && Selected(c) == Selected(w) && OwnNames(c) == OwnNames(w)
            && (UniqueWidget(w) ==> UniqueWidget(c))
            && ConvertedWidget(c) == c
            && (!IsLabel(w) ==> forall k :: k in w.props ==> Text(c.props[k]) == Text(w.props[k]))
  {
    var c := ConvertedWidget(w);
    forall k | k in w.props
      ensures ConvertedAt(IsLabel(w), w.persists, k, c.props[k]) == c.props[k]
      ensures !IsLabel(w) ==> Text(c.props[k]) == Text(w.props[k])
      ensures k == "selectedIndex" ==> KeyOf(c.props[k]) == KeyOf(w.props[k])
    {
      ConvertedTwice(IsLabel(w), w.persists, k, w.props[k]);
    }
    assert ConvertProps(c) == c.props;
  }

  lemma {:induction false} ConvertRetouches<V>(f: Forest<V>)
    requires Proper(f)
    ensures Retouched(f, Convert(f)) && Convert(Convert(f)) == Convert(f)
  {
    hide ConvertedWidget, ProperWidget;
    if f.Node? {
      ConvertWidget(f.w);
      ConvertRetouches(f.subs);
      ConvertRetouches(f.items);
      ConvertRetouches(f.next);
    }
  }

  lemma {:induction false} FieldDefaultsStay<V>(f: Forest<V>, g: Forest<V>)
    requires Retouched(f, g) && FieldDefaults(f)
    ensures FieldDefaults(g)
  {
    if f.Node? {
      FieldDefaultsStay(f.subs, g.subs);
      FieldDefaultsStay(f.items, g.items);
      FieldDefaultsStay(f.next, g.next);
    }
  }

  lemma {:induction false} ConvertFate<V>(f: Forest<V>)
    requires Proper(f)
    ensures SameFate(f, Convert(f))
  {
    hide ConvertedWidget, ProperWidget, SameRole, Retouched;
    if f.Node? {
      ConvertedRole(f.w);
      ConvertFate(f.subs);
      ConvertFate(f.items);
      ConvertFate(f.next);
    }
  }

  lemma ConvertedRole(w: Widget)
    requires ProperWidget(w)
    ensures SameRole(w, ConvertedWidget(w))
  {
    ConvertWidget(w);
  }

  lemma {:induction false} ConvertAt<V>(f: Forest<V>, v: V)
    requires Proper(f) && v in Views(f)
    ensures v in Views(Convert(f)) && WidgetOf(Convert(f), v) == ConvertedWidget(WidgetOf(f, v))
  {
    hide ConvertedWidget, ProperWidget, Retouched, Length;
    ConvertFate(f.subs);
    FateViews(f.subs, Convert(f.subs));
    ConvertFate(f.items);
    FateViews(f.items, Convert(f.items));
    if f.view == v {
    } else if v in Views(f.subs) {
      ConvertAt(f.subs, v);
    } else if v in Views(f.items) {
      ConvertAt(f.items, v);
    } else {
      ConvertAt(f.next, v);
    }
  }

  lemma ConvertedNumber(w: Widget, k: string)
    requires ProperWidget(w) && !IsLabel(w)
    ensures Number(ConvertedWidget(w), k) == Number(w, k)
    ensures Selected(ConvertedWidget(w)) == Selected(w)
  {
    ConvertWidget(w);
    if k in w.props {
      NumSurvivesText(w.props[k]);
      NumSurvivesText(ConvertedWidget(w).props[k]);
    }
  }

  lemma {:induction false} EmptyConverts(ps: seq<Persistor>, k: string)
    ensures ConvertedAt(false, ps, k, Str("")) == Str("")
  {
    if ps != [] {
      EmptyConverts(ps[1..], k);
    }
  }

  lemma ConvertedIsSettled(w: Widget, flag: bool, top: bool)
    requires ProperWidget(w)
    ensures WithSelected(w, flag) == w ==> WithSelected(ConvertedWidget(w), flag) == ConvertedWidget(w)
    ensures ShownWidget(w, top) == w ==> ShownWidget(ConvertedWidget(w), top) == ConvertedWidget(w)
  {
    var c := ConvertedWidget(w);
    if w.kind.Button? || w.kind.PopUp? {
      ConvertedNumber(w, "state");
    }
    if top && w.kind.ScrollView? && !w.hidden && ShownWidget(w, top) == w {
      EmptyConverts(w.persists, SCROLL_X);
      EmptyConverts(w.persists, SCROLL_Y);
      assert w.props[SCROLL_Y] == Str("");
      assert SCROLL_X != SCROLL_Y by { assert SCROLL_X[6] != SCROLL_Y[6]; }
      assert w.props[SCROLL_X] == Str("");
      assert c.props[SCROLL_X := Str("")][SCROLL_Y := Str("")] == c.props;
    }
  }

  lemma {:induction false} ConvertedCells<V>(f: Forest<V>, m: Widget, row: int, column: int)
    requires Proper(f) && ProperWidget(m) && m.kind.Matrix? && CellsSettled(f, m, row, column)
    ensures ConvertedWidget(m).kind.Matrix? && CellsSettled(Convert(f), ConvertedWidget(m), row, column)
  {
    ConvertedNumber(m, "selectedRow");
    ConvertedNumber(m, "selectedColumn");
    if f.Node? {
      ConvertedIsSettled(f.w, row == Number(m, "selectedRow") && column == Number(m, "selectedColumn"), true);
      hide WithSelected, ProperWidget, Number, ConvertProps, Retouched;
      if column + 1 >= m.kind.columns {
        ConvertedCells(f.next, m, row + 1, 0);
      } else {
        ConvertedCells(f.next, m, row, column + 1);
      }
    }
  }

  /** Converted properties still say the same to displaying. */
  lemma {:induction false} ConvertSettled<V>(f: Forest<V>, pick: Pick, top: bool)
    requires Proper(f) && Settled(f, pick, top)
    ensures Settled(Convert(f), pick, top)
  {
    hide ConvertedWidget, ProperWidget, ShownWidget, CellsSettled, Retouched, Length, Selected;
    if f.Node? {
      ConvertedKind(f.w);
      ConvertedIsSettled(f.w, true, top);
      ConvertSettled(f.next, Next(pick), top);
      if Chosen(pick) {
        if !f.w.kind.TabView? && !f.w.hidden {
          ConvertSettled(f.subs, Every, false);
          if f.w.kind.Matrix? && f.w.kind.radioMode {
            ConvertedCells(f.subs, f.w, 0, 0);
          }
        }
        if f.w.kind.TabView? {
          ConvertSettled(f.items, Only(Selected(f.w)), true);
        }
      }
    }
  }

  lemma ConvertedKind(w: Widget)
    requires ProperWidget(w)
    ensures var c := ConvertedWidget(w);
        && c.kind.TabView? == w.kind.TabView? && c.hidden == w.hidden && c.kind.Matrix? == w.kind.Matrix?
        && (w.kind.Matrix? ==> c.kind.radioMode == w.kind.radioMode && c.kind.columns == w.kind.columns)
        && Selected(c) == Selected(w)
  {
    ConvertWidget(w);
  }

  /** A second round trip changes nothing: the displayed and converted window is displayed as it is. */
  lemma SecondRoundTrip<V>(f: Forest<V>)
    requires Proper(f) && Distinct(f) && Unique(f) && FieldDefaults(f) && AllSurvive(f)
    ensures Proper(RoundTrip(f)) && RoundTrip(RoundTrip(f)) == RoundTrip(f)
  {
    hide ConvertProps, Retouched, Touched, OnDisplay, HiddenAfter, RoundTrip, Shown, Settled, SameFate;
    var g := Displayed(f);
    var r := Convert(g);
    WindowRoundTrip(f);
    ConvertRetouches(g);
    Shape(g, r);
    Distinctness(g, r);
    Properness(g, r);
    Uniqueness(g, r);
    FieldDefaultsStay(f, g);
    FieldDefaultsStay(g, r);
    forall v | v in Views(r) && !IsLabel(WidgetOf(r, v))
      ensures Survives(r, v)
    {
      StillSurvives(f, v);
    }
    WindowRoundTrip(r);
    ShownIsSettled(f, Every, true);
    ConvertSettled(g, Every, true);
    SettledStays(r, Every, true);
  }

  lemma StillSurvives<V>(f: Forest<V>, v: V)
    requires Proper(f) && Distinct(f) && Unique(f) && AllSurvive(f) && v in Views(f)
    ensures var r := Convert(Shown(f, Every, true));
        v in Views(r) && (IsLabel(WidgetOf(r, v)) || Survives(r, v))
  {
    hide ConvertProps, Retouched, Touched, OnDisplay, HiddenAfter, Shown, SameFate;
    var g := Displayed(f);
    DisplayedAt(f, v);
    ConvertAt(g, v);
    ConvertFate(g);
    FateAt(g, Convert(g), v, false, Every);
    WidgetsAreProper(g, v);
    ConvertWidget(WidgetOf(g, v));
    ConvertedRole(WidgetOf(g, v));
  }

  // ----- which windows lose nothing -----

  /** Every tab view is itself on display, has no subviews besides its items, and the item it
      selects was not hidden by the application. `shown` says that the list is on display,
      `above` that a superview is hidden. */
  ghost predicate Tame<V>(f: Forest<V>, shown: bool, above: bool, pick: Pick)
  {
    match f
    case Nil => true
    case Node(_, w, subs, items, next) =>
      && (pick.Only? && Chosen(pick) ==> !w.hidden)
      && (if w.kind.TabView?
          then shown && Chosen(pick) && subs.Nil? && Tame(items, true, false, Only(Selected(w)))
          else Tame(subs, shown && Chosen(pick) && !w.hidden, above || Flag(w, pick), Every))
      && Tame(next, shown, above, Next(pick))
  }

  /** In such a window every text field is either drawn or still hidden when it decides. */
  lemma {:induction false} TameFieldsAgree<V>(f: Forest<V>, v: V, shown: bool, above: bool, pick: Pick)
    requires Proper(f) && v in Views(f) && Tame(f, shown, above, pick) && (shown || above)
    requires !WidgetOf(f, v).kind.TabView?
    ensures (shown && OnDisplay(f, v, pick)) || HiddenAfter(f, v, above, pick)
  {
    var Node(u, w, subs, items, next) := f;
    if u == v {
    } else if v in Views(subs) {
      TameFieldsAgree(subs, v, shown && Chosen(pick) && !w.hidden, above || Flag(w, pick), Every);
    } else if v in Views(items) {
      TameFieldsAgree(items, v, true, false, Only(Selected(w)));
    } else {
      TameFieldsAgree(next, v, shown, above, Next(pick));
    }
  }

  lemma TameWindowSurvives<V>(f: Forest<V>)
    requires Proper(f) && Tame(f, true, false, Every)
    ensures AllSurvive(f)
  {
    forall v | v in Views(f) && !IsLabel(WidgetOf(f, v))
      ensures Survives(f, v)
    {
      if WidgetOf(f, v).kind.TextField? {
        TameFieldsAgree(f, v, true, false, Every);
      }
    }
  }

  /** A tab view with two items, the second of them a tab view that holds a text field. */
  function NestedTabs(outer: Value, inner: Value, text: string): Forest<nat>
  {
    Node(1, Widget(TabView([false, false], -1), "1", false, "", map["selectedIndex" := outer],
                   [Persistor("selectedIndex", None, Int(0))]),
         Nil,
         Node(2, Widget(PlainView, "2", false, "", map[], []), Nil, Nil,
              Node(3, Widget(TabView([false], -1), "3", false, "", map["selectedIndex" := inner],
                             [Persistor("selectedIndex", None, Int(0))]),
                   Nil, FieldFour(text), Nil)),
         Nil)
  }

  function FieldFour(text: string): Forest<nat>
  {
    Node(4, Widget(TextField(true, false), "4", false, "", map["string" := Str(text)],
                   [Persistor("string", None, Str(""))]), Nil, Nil, Nil)
  }

  lemma NestedTabsShape(text: string)
    ensures var f := NestedTabs(Int(0), Int(0), text);
            && Proper(f) && Distinct(f) && Views(f) == {1, 2, 3, 4} && Views(f.items) == {2, 3, 4} && Views(f.items.next) == {3, 4}
            && WidgetOf(f, 4) == FieldFour(text).w
  {
    var f := NestedTabs(Int(0), Int(0), text);
    var inner := f.items.next;
    var field := FieldFour(text);
    assert Views(field) == {4} && Proper(field) && Distinct(field);
    assert Proper(inner) && Distinct(inner) && Views(inner) == {3, 4};
    assert Length(f.items) == 1 + Length(inner) && Length(inner) == 1 + Length(inner.next);
    assert Proper(f.items) && Distinct(f.items) && Views(f.items) == {2, 3, 4};
    assert WidgetOf(f, 4) == WidgetOf(inner, 4) == WidgetOf(field, 4);
  }

  lemma NestedTabsNames(text: string)
    ensures var f := NestedTabs(Int(0), Int(0), text); Unique(f) && FieldDefaults(f)
  {
    var f := NestedTabs(Int(0), Int(0), text);
    var inner := f.items.next;
    var field := inner.items;
    OneName(f.w, '1');
    OneName(inner.w, '3');
    OneName(field.w, '4');
    assert Names(field) == OwnNames(field.w);
    assert Names(inner) == OwnNames(inner.w) + OwnNames(field.w);
    assert OwnNames(f.items.w) == {};
    assert Names(f.items) == Names(inner);
    assert Unique(field) && FieldDefaults(field);
    assert Unique(inner) && FieldDefaults(inner);
    assert Unique(f.items) && FieldDefaults(f.items);
  }

  lemma OneName(w: Widget, c: char)
    requires |w.persists| == 1 && w.persists[0].name.None? && w.id == [c]
    ensures UniqueWidget(w) && forall n :: n in OwnNames(w) ==> |n| > 0 && n[0] == c
  {
  }

  /** While the outer tab view shows its first item, the text in the inner one is lost. */
  lemma NestedTabsLoseText(text: string)
    requires text != ""
    ensures var f := NestedTabs(Int(0), Int(0), text);
            Proper(f) && Distinct(f) && 4 in Views(f) && !Survives(f, 4)
            && Constructed("4", FieldFour(text).w.persists[0], Echo(Page(f))) != Str(text)
  {
    NestedTabsShape(text);
    NestedTabsNames(text);
    NestedFieldLost(text);
    NestedFieldSent(text);
  }

  lemma NestedFieldLost(text: string)
    requires text != ""
    ensures var f := NestedTabs(Int(0), Int(0), text); 4 in Views(f) && !Survives(f, 4)
  {
    var f := NestedTabs(Int(0), Int(0), text);
    var inner := f.items.next;
    NestedTabsShape(text);
    assert !OnDisplay(inner, 4, Only(Some(-1)));
    assert Selected(f.w) == Some(0) && Selected(inner.w) == Some(0) && Next(Only(Some(0))) == Only(Some(-1));
    assert !HiddenAfter(FieldFour(text), 4, false, Only(Some(0)));
    assert !HiddenAfter(inner, 4, false, Only(Some(-1)));
    assert !HiddenAfter(f.items, 4, false, Only(Some(0)));
    assert !OnDisplay(f.items, 4, Only(Some(0)));
    assert !OnDisplay(f, 4, Every) && !HiddenAfter(f, 4, false, Every);
  }

  lemma NestedFieldSent(text: string)
    requires var f := NestedTabs(Int(0), Int(0), text);
        Proper(f) && Distinct(f) && Unique(f) && FieldDefaults(f) && 4 in Views(f) && WidgetOf(f, 4) == FieldFour(text).w
        && !Survives(f, 4)
    ensures Constructed("4", FieldFour(text).w.persists[0], Echo(Page(NestedTabs(Int(0), Int(0), text)))) != Str(text)
  {
    hide NestedTabs, Page, Echo, Constructed, Shown, Survives, Proper, Distinct, Unique, FieldDefaults, Views, WidgetOf;
    var f := NestedTabs(Int(0), Int(0), text);
    DisplayedAt(f, 4);
    PropertyCarried(f, 4, 0);
  }
}
