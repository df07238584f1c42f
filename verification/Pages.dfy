/** The value of a whole window: a forest of views, what each pass over it emits or changes,
    and what a page therefore carries into the next request. The classes in Views.dfy are
    proved to compute exactly these functions. */
module Pages {
  import opened Php
  import opened Persistence
  import Grids

  const SCROLL_X := "scrollX"
  const SCROLL_Y := "scrollY"

  type Columns = n: int | n > 0 witness 1

  datatype ButtonType = PushButton | CheckBox | Radio

  /** The PHP class of a view, with the parts of its own that a pass looks at. */
  datatype Kind =
    | PlainView
    | ScrollView
    | TextField(editable: bool, password: bool)
    | TabView(hideTab: seq<bool>, clickedItem: int)
    | Button(buttonType: ButtonType, allowsMixedState: bool)
    | PopUp(pullsDown: bool, count: nat)
    | Matrix(columns: Columns, radioMode: bool, clickedRow: int, clickedColumn: int)
    | Collection(perRow: int)

  /** A view's own part. An empty action means that it has none of its own. */
  datatype Widget = Widget(
    kind: Kind, id: string, hidden: bool, action: string, props: Properties, persists: seq<Persistor>)

  /** A list of view trees. `next` holds the later trees of the same list, `subs` the subviews
      and `items` the views of the tab items, which are not subviews of the tab view. */
  datatype Forest<V> =
    | Nil
    | Node(view: V, w: Widget, subs: Forest<V>, items: Forest<V>, next: Forest<V>)

  datatype Output<V> = DrawCall(view: V) | Element(input: Input)

  /** Which trees of a list are looked at: all of them, or only the one at an index. */
  datatype Pick = Every | Only(at: Option<int>)

  predicate Chosen(pick: Pick) {
    pick.Every? || pick.at == Some(0)
  }

  function Next(pick: Pick): Pick {
    match pick
    case Only(Some(k)) => Only(Some(k - 1))
    case _ => pick
  }

  /** The pick that is left after `i` trees of a list. */
  function PickFrom(selected: Option<int>, i: nat): Pick
  {
    Only(if selected.Some? then Some(selected.value - i) else None)
  }

  lemma PickStep(selected: Option<int>, i: nat)
    ensures PickFrom(selected, i).Only? && (Chosen(PickFrom(selected, i)) <==> selected == Some(i))
    ensures Next(PickFrom(selected, i)) == PickFrom(selected, i + 1)
    ensures PickFrom(selected, 0) == Only(selected)
  {
  }

  // ----- shape -----

  ghost function Views<V>(f: Forest<V>): set<V> {
    match f
    case Nil => {}
    case Node(v, _, subs, items, next) => {v} + Views(subs) + Views(items) + Views(next)
  }

  /** No view occurs twice. */
  ghost predicate Distinct<V>(f: Forest<V>) {
    match f
    case Nil => true
    case Node(v, _, subs, items, next) =>
      && v !in Views(subs) && v !in Views(items) && v !in Views(next)
      && Views(subs) !! Views(items) && Views(subs) !! Views(next) && Views(items) !! Views(next)
      && Distinct(subs) && Distinct(items) && Distinct(next)
  }

  function Size<V>(f: Forest<V>): nat {
    match f
    case Nil => 0
    case Node(_, _, subs, items, next) => 1 + Size(subs) + Size(items) + Size(next)
  }

  function Length<V>(f: Forest<V>): nat {
    if f.Nil? then 0 else 1 + Length(f.next)
  }

  function Tops<V>(f: Forest<V>): seq<V> {
    if f.Nil? then [] else [f.view] + Tops(f.next)
  }

  /** The tree at the head of a list, alone. */
  function Tree<V>(f: Forest<V>): Forest<V>
    requires f.Node?
  {
    f.(next := Nil)
  }

  /** What every view satisfies after construction: its persistors are registered; a text field
      has exactly the persistor of its string, whose default is the empty string; a tab view
      has exactly the persistor of its selected index, and only tab views have items; a button
      has that of its state, a pop-up button that of its inherited state and then that of its
      selected index, a matrix those of its selected row and column; a scroll view has those of
      its two scrollers and then those of its position. */
  ghost predicate ProperWidget(w: Widget) {
    && Registered(w.persists, w.props)
    && (w.kind.TextField? ==>
          |w.persists| == 1 && w.persists[0].property == "string")
    && (w.kind.TabView? ==>
          |w.persists| == 1 && w.persists[0].property == "selectedIndex")
    && (w.kind.Button? ==>
          |w.persists| == 1 && w.persists[0].property == "state")
    && (w.kind.PopUp? ==>
          |w.persists| == 2 && w.persists[0].property == "state" && w.persists[1].property == "selectedIndex")
    && (w.kind.Matrix? ==>
          |w.persists| == 2 && w.persists[0].property == "selectedRow" && w.persists[1].property == "selectedColumn")
    && (w.kind.ScrollView? ==>
          |w.persists| == 4 && w.persists[2].property == SCROLL_X && w.persists[3].property == SCROLL_Y)
  }

  ghost predicate Proper<V>(f: Forest<V>) {
    match f
    case Nil => true
    case Node(_, w, subs, items, next) =>
      && ProperWidget(w)
      && (if w.kind.TabView? then Length(items) == |w.kind.hideTab| else items.Nil?)
      && Proper(subs) && Proper(items) && Proper(next)
  }

  /** The widget of a view of the forest. */
  ghost function WidgetOf<V>(f: Forest<V>, v: V): Widget
    requires v in Views(f)
  {
    if f.view == v then f.w
    else if v in Views(f.subs) then WidgetOf(f.subs, v)
    else if v in Views(f.items) then WidgetOf(f.items, v)
    else WidgetOf(f.next, v)
  }

  /** The tree of a view of the forest. */
  ghost function TreeOf<V>(f: Forest<V>, v: V): (t: Forest<V>)
    requires v in Views(f)
    ensures t.Node? && t.view == v && t.next == Nil && t.w == WidgetOf(f, v)
    ensures Proper(f) ==> Proper(t)
    ensures Distinct(f) ==> Distinct(t)
    ensures Views(t) <= Views(f)
  {
    if f.view == v then Tree(f)
    else if v in Views(f.subs) then TreeOf(f.subs, v)
    else if v in Views(f.items) then TreeOf(f.items, v)
    else TreeOf(f.next, v)
  }

  /** The superview of a view, given that of the topmost ones. */
  ghost function ParentOf<V>(f: Forest<V>, v: V, parent: Option<V>): Option<V>
    requires v in Views(f)
  {
    if f.view == v then parent
    else if v in Views(f.subs) then ParentOf(f.subs, v, Some(f.view))
    else if v in Views(f.items) then ParentOf(f.items, v, None)
    else ParentOf(f.next, v, parent)
  }

  ghost function SubsOf<V>(f: Forest<V>, v: V): seq<V>
    requires v in Views(f)
  {
    Tops(TreeOf(f, v).subs)
  }

  ghost function ItemsOf<V>(f: Forest<V>, v: V): seq<V>
    requires v in Views(f)
  {
    Tops(TreeOf(f, v).items)
  }

  // ----- names -----

  ghost function OwnNames(w: Widget): set<string> {
    set i, n | 0 <= i < |w.persists| && n in Claims(w.id, w.persists[i]) :: n
  }

  ghost function Names<V>(f: Forest<V>): set<string> {
    match f
    case Nil => {}
    case Node(_, w, subs, items, next) => OwnNames(w) + Names(subs) + Names(items) + Names(next)
  }

  ghost predicate UniqueWidget(w: Widget) {
    forall i, j :: 0 <= i < j < |w.persists| ==> Claims(w.id, w.persists[i]) !! Claims(w.id, w.persists[j])
  }

  /** No two persistors of the forest look under a common name. */
  ghost predicate Unique<V>(f: Forest<V>) {
    match f
    case Nil => true
    case Node(_, w, subs, items, next) =>
      && UniqueWidget(w)
      && OwnNames(w) !! Names(subs) && OwnNames(w) !! Names(items) && OwnNames(w) !! Names(next)
      && Names(subs) !! Names(items) && Names(subs) !! Names(next) && Names(items) !! Names(next)
      && Unique(subs) && Unique(items) && Unique(next)
  }

  // ----- the passes -----

  /** The index of the tab item on display, if its property selects one. */
  function Selected(w: Widget): Option<int> {
    if "selectedIndex" in w.props then KeyOf(w.props["selectedIndex"]) else None
  }

  function TabName(id: string, i: nat): string {
    id + "-" + Dec(i)
  }

  function TabButtons<V>(id: string, hideTab: seq<bool>, i: nat): seq<Output<V>>
    requires i <= |hideTab|
    decreases |hideTab| - i
  {
    if i == |hideTab| then []
    else (if hideTab[i] then [] else [Element(Submit(TabName(id, i)))]) + TabButtons(id, hideTab, i + 1)
  }

  /** A matrix and a collection view show their subviews and draw nothing themselves, and a tab
      view shows its items. */
  predicate Draws(kind: Kind) {
    !kind.TabView? && !kind.Matrix? && !kind.Collection?
  }

  /** `draw` of one view that draws. */
  function Draw<V>(v: V, w: Widget): seq<Output<V>>
    requires ProperWidget(w)
  {
    if !Draws(w.kind) then []
    else
      [DrawCall(v)] +
      match w.kind
      case TextField(true, password) =>
        [Element(Typed(NameOf(w.id, w.persists[0]), if password then "" else Text(w.props["string"])))]
      case PopUp(false, count) => [Element(Choice(w.id, count, Num(w.props["selectedIndex"])))]
      case _ => []
  }

  /** `display` of the first tree of a list. A view draws after its subviews unless it is
      hidden; a tab view shows its buttons and the selected item. */
  function Show<V>(f: Forest<V>): seq<Output<V>>
    requires Proper(f) && f.Node?
    decreases f, 0
  {
    var Node(v, w, subs, items, _) := f;
    if w.kind.TabView? then TabButtons(w.id, w.kind.hideTab, 0) + Display(items, Only(Selected(w)))
    else if w.hidden then []
    else Display(subs, Every) + Draw(v, w)
  }

  /** `display` of the picked trees, in order. */
  function Display<V>(f: Forest<V>, pick: Pick): seq<Output<V>>
    requires Proper(f)
    decreases f, 1
  {
    if f.Nil? then []
    else (if Chosen(pick) then Show(f) else []) + Display(f.next, Next(pick))
  }

  /** A property that counts as a number. */
  function Number(w: Widget, property: string): int
  {
    if property in w.props then Num(w.props[property]) else 0
  }

  function State(w: Widget): int
  {
    Number(w, "state")
  }

  /** `setState` */
  function WithState(w: Widget, value: int): Widget
  {
    if State(w) == value then w else w.(props := w.props["state" := Int(value)])
  }

  /** `setSelected`, which buttons and pop-up buttons understand. */
  function WithSelected(w: Widget, flag: bool): Widget
  {
    if w.kind.Button? || w.kind.PopUp? then WithState(w, if flag then Grids.ON else Grids.OFF) else w
  }

  /** The cells of a matrix in radio mode as `display` leaves them: it derives their states from
      the selection again, with the counters of its row and column. */
  function Derived<V>(f: Forest<V>, m: Widget, row: int, column: int): (g: Forest<V>)
    requires m.kind.Matrix?
    ensures Views(g) == Views(f) && Tops(g) == Tops(f) && Length(g) == Length(f) && Size(g) == Size(f)
  {
    match f
    case Nil => Nil
    case Node(v, w, subs, items, next) =>
      Node(v, WithSelected(w, row == Number(m, "selectedRow") && column == Number(m, "selectedColumn")), subs, items,
           if column + 1 >= m.kind.columns then Derived(next, m, row + 1, 0) else Derived(next, m, row, column + 1))
  }

  /** What displaying leaves of a view: the same, but a scroll view without a superview forgets
      its position. */
  function ShownWidget(w: Widget, top: bool): Widget
  {
    if top && w.kind.ScrollView? && !w.hidden
    then w.(props := w.props[SCROLL_X := Str("")][SCROLL_Y := Str("")]) else w
  }

  /** What displaying leaves below a view: the same, but for the cells of matrices in radio mode
      that are on display. */
  function ShownSubs<V>(w: Widget, subs: Forest<V>): (g: Forest<V>)
    ensures Views(g) == Views(subs) && Tops(g) == Tops(subs) && Length(g) == Length(subs) && Size(g) == Size(subs)
    decreases Size(subs), 1
  {
    if w.kind.TabView? || w.hidden then subs
    else if w.kind.Matrix? && w.kind.radioMode then Shown(Derived(subs, w, 0, 0), Every, false)
    else Shown(subs, Every, false)
  }

  function ShownItems<V>(w: Widget, items: Forest<V>): (g: Forest<V>)
    ensures Views(g) == Views(items) && Tops(g) == Tops(items) && Length(g) == Length(items) && Size(g) == Size(items)
    decreases Size(items), 1
  {
    if w.kind.TabView? then Shown(items, Only(Selected(w)), true) else items
  }

  /** What displaying the picked trees leaves of a list; `top` says that they have no superview. */
  function Shown<V>(f: Forest<V>, pick: Pick, top: bool): (g: Forest<V>)
    ensures Views(g) == Views(f) && Tops(g) == Tops(f) && Length(g) == Length(f) && Size(g) == Size(f)
    decreases Size(f), 0
  {
    match f
    case Nil => Nil
    case Node(v, w, subs, items, next) =>
      if Chosen(pick)
      then Node(v, ShownWidget(w, top), ShownSubs(w, subs), ShownItems(w, items), Shown(next, Next(pick), top))
      else Node(v, w, subs, items, Shown(next, Next(pick), top))
  }

  lemma {:induction false} DerivedProper<V>(f: Forest<V>, m: Widget, row: int, column: int)
    requires Proper(f) && m.kind.Matrix?
    ensures Proper(Derived(f, m, row, column))
  {
    if f.Node? {
      SelectedProper(f.w, row == Number(m, "selectedRow") && column == Number(m, "selectedColumn"));
      hide ProperWidget, WithSelected;
      if column + 1 >= m.kind.columns {
        DerivedProper(f.next, m, row + 1, 0);
      } else {
        DerivedProper(f.next, m, row, column + 1);
      }
    }
  }

  lemma SelectedProper(w: Widget, flag: bool)
    requires ProperWidget(w)
    ensures ProperWidget(WithSelected(w, flag)) && WithSelected(w, flag).kind == w.kind
  {
  }

  lemma ShownWidgetProper(w: Widget, top: bool)
    requires ProperWidget(w)
    ensures ProperWidget(ShownWidget(w, top)) && ShownWidget(w, top).kind == w.kind
  {
  }

  lemma {:induction false} ShownProper<V>(f: Forest<V>, pick: Pick, top: bool)
    requires Proper(f)
    ensures Proper(Shown(f, pick, top))
    decreases Size(f)
  {
    hide ProperWidget, ShownWidget;
    if f.Node? {
      ShownWidgetProper(f.w, top);
      ShownProper(f.next, Next(pick), top);
      ShownProper(f.subs, Every, false);
      ShownProper(f.items, Only(Selected(f.w)), true);
      if f.w.kind.Matrix? {
        DerivedProper(f.subs, f.w, 0, 0);
        ShownProper(Derived(f.subs, f.w, 0, 0), Every, false);
      }
    }
  }

  /** The hidden flag of a view at the head of a list, once its tab view has marked the list. */
  predicate Flag(w: Widget, pick: Pick) {
    if pick.Every? then w.hidden else !Chosen(pick)
  }

  /** A text field forgets to persist what its own input already carries. */
  function DoneWidget(w: Widget, hidden: bool): Widget
    requires ProperWidget(w)
  {
    match w.kind
    case TextField(editable, password) =>
      if (!editable || !hidden) && !password then w.(persists := UnpersistFirst(w.persists, w.props)) else w
    case _ => w
  }

  /** `_displayDone`: `above` says whether a superview is hidden; the trees of a tab view's
      list are marked hidden except the picked one. */
  function Done<V>(f: Forest<V>, above: bool, pick: Pick): (g: Forest<V>)
    requires Proper(f)
    ensures Views(g) == Views(f) && Tops(g) == Tops(f) && Length(g) == Length(f) && Size(g) == Size(f)
  {
    match f
    case Nil => Nil
    case Node(v, w, subs, items, next) =>
      var h := above || Flag(w, pick);
      Node(v, DoneWidget(w, h).(hidden := Flag(w, pick)),
           Done(subs, h, Every), Done(items, false, Only(Selected(w))),
           Done(next, above, Next(pick)))
  }

  function Elements<V>(inputs: seq<Input>): seq<Output<V>> {
    if inputs == [] then [] else [Element(inputs[0])] + Elements(inputs[1..])
  }

  /** `_write_persist`: items first, then subviews, then the view itself. */
  function WritePersist<V>(f: Forest<V>): seq<Output<V>>
    requires Proper(f)
  {
    match f
    case Nil => []
    case Node(_, w, subs, items, next) =>
      WritePersist(items) + WritePersist(subs) + Elements(WriteAll(w.id, w.persists, w.props)) + WritePersist(next)
  }

  lemma {:induction false} DoneProper<V>(f: Forest<V>, above: bool, pick: Pick)
    requires Proper(f)
    ensures Proper(Done(f, above, pick))
  {
    match f
    case Nil =>
    case Node(_, w, subs, items, next) =>
      var h := above || Flag(w, pick);
      DoneProper(subs, h, Every);
      DoneProper(items, false, Only(Selected(w)));
      DoneProper(next, above, Next(pick));
  }

  lemma {:induction false} DoneDistinct<V>(f: Forest<V>, above: bool, pick: Pick)
    requires Proper(f) && Distinct(f)
    ensures Distinct(Done(f, above, pick))
  {
    match f
    case Nil =>
    case Node(_, w, subs, items, next) =>
      DoneDistinct(subs, above || Flag(w, pick), Every);
      DoneDistinct(items, false, Only(Selected(w)));
      DoneDistinct(next, above, Next(pick));
  }

  /** The page of a window: display it, let every view finish, write what is still to be persisted. */
  function Page<V>(f: Forest<V>): seq<Output<V>>
    requires Proper(f)
  {
    ShownProper(f, Every, true);
    DoneProper(Shown(f, Every, true), false, Every);
    Display(f, Every) + WritePersist(Done(Shown(f, Every, true), false, Every))
  }

  // ----- what a browser sends back -----

  /** What one output puts under a name. */
  function ValueUnder<V>(o: Output<V>, n: string): seq<string> {
    match o
    case Element(Hidden(m, x)) => if m == n then [x] else []
    case Element(Typed(m, x)) => if m == n then [x] else []
    case _ => []
  }

  /** The values under a name, in page order. */
  function Values<V>(out: seq<Output<V>>, n: string): seq<string> {
    if out == [] then [] else ValueUnder(out[0], n) + Values(out[1..], n)
  }

  function EchoOne<V>(form: Form, o: Output<V>): Form {
    match o
    case Element(Hidden(m, x)) => form[m := x]
    case Element(Typed(m, x)) => form[m := x]
    case _ => form
  }

  /** The form a browser posts: every named control, a later one overriding an earlier one. */
  function Echo<V>(out: seq<Output<V>>): Form {
    if out == [] then map[] else EchoOne(Echo(out[..|out| - 1]), out[|out| - 1])
  }

  lemma {:induction false} ValuesConcat<V>(a: seq<Output<V>>, b: seq<Output<V>>, n: string)
    ensures Values(a + b, n) == Values(a, n) + Values(b, n)
  {
    if a == [] {
      assert a + b == b;
    } else {
      ValuesConcat(a[1..], b, n);
      assert (a + b)[1..] == a[1..] + b && (a + b)[0] == a[0];
    }
  }

  lemma EchoOneValue<V>(form: Form, o: Output<V>, n: string)
    ensures n in EchoOne(form, o) <==> n in form || ValueUnder(o, n) != []
    ensures ValueUnder(o, n) != [] ==> |ValueUnder(o, n)| == 1 && EchoOne(form, o)[n] == ValueUnder(o, n)[0]
    ensures ValueUnder(o, n) == [] && n in form ==> EchoOne(form, o)[n] == form[n]
  {
  }

  lemma {:induction false} EchoIsLast<V>(out: seq<Output<V>>, n: string)
    ensures n in Echo(out) <==> Values(out, n) != []
    ensures n in Echo(out) ==> Echo(out)[n] == Values(out, n)[|Values(out, n)| - 1]
  {
    if out != [] {
      var a, o := out[..|out| - 1], out[|out| - 1];
      EchoIsLast(a, n);
      EchoOneValue(Echo(a), o, n);
      ValuesConcat(a, [o], n);
      assert out == a + [o];
      assert Values([o], n) == ValueUnder(o, n) + Values<V>([], n);
      hide EchoOne;
      hide ValueUnder;
    }
  }
}
