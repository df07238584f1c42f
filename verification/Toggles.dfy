/** Checkboxes, and radio buttons that no matrix in radio mode holds: what a press does to them, in
    one request and over any number of requests. */
module Toggles {
  import opened Php
  import opened Persistence
  import opened Pages
  import opened PageLaws
  import opened Retouch
  import opened Showing
  import opened Dispatch
  import opened Surgery
  import opened Hierarchy
  import opened RoundTrip
  import opened Actions
  import opened Delivery
  import opened Requests

  predicate Toggling(w: Widget) {
    w.kind.Button? && !w.kind.buttonType.PushButton?
  }

  /** The cycle of states: off and on in turn; where mixed is allowed it comes after on. */
  predicate Follows(s: int, t: int, mixed: bool) {
    && (!mixed && (s == 0 || s == 1) ==> t == 1 - s)
    && (mixed && s == 0 ==> t == 1) && (mixed && s == 1 ==> t == -1) && (mixed && s == -1 ==> t == 0)
  }

  // ----- one press -----

  /** A press of a checkbox or radio button that no matrix in radio mode holds takes it one step on
      in the cycle of its states. */
  lemma PostedToggles<V>(f: Forest<V>, keys: Keys<V>, form: Form, content: Option<Forest<V>>, pressed: V)
    requires Posts(f, form, content, pressed) && Toggling(WidgetOf(f, pressed)) && Unheld(f, pressed)
    ensures var w, u := WidgetOf(f, pressed), WidgetOf(Handled(f, keys, form, content), pressed);
        && Follows(State(w), State(u), w.kind.allowsMixedState)
        && u.kind == w.kind
  {
    hide Handled, Unheld, Distinct, Proper, DistinctIds;
    PostedUnheld(f, keys, form, content, pressed, pressed);
    ClickFollows(WidgetOf(f, pressed));
  }

  lemma ClickFollows(w: Widget)
    requires Toggling(w)
    ensures Follows(State(w), State(ClickedWidget(w)), w.kind.allowsMixedState) && ClickedWidget(w).kind == w.kind
  {
  }

  /** Three presses of a button that allows a mixed state visit all three states and come back. */
  lemma ThreePressesComeBack<V>(f: Forest<V>, keys: Keys<V>, form: Form, content: Option<Forest<V>>, pressed: V)
    requires Posts(f, form, content, pressed) && Toggling(WidgetOf(f, pressed)) && Unheld(f, pressed)
    requires WidgetOf(f, pressed).kind.allowsMixedState && State(WidgetOf(f, pressed)) == 0
    ensures var g := Handled(f, keys, form, content);
        && Posts(g, form, content, pressed) && State(WidgetOf(g, pressed)) == 1
        && var h := Handled(g, keys, form, content);
           && Posts(h, form, content, pressed) && State(WidgetOf(h, pressed)) == -1
           && State(WidgetOf(Handled(h, keys, form, content), pressed)) == 0
  {
    hide Handled, Unheld, Posts, Retouched;
    var g := PressAgain(f, keys, form, content, pressed);
    var h := PressAgain(g, keys, form, content, pressed);
    var _ := PressAgain(h, keys, form, content, pressed);
  }

  lemma PressAgain<V>(f: Forest<V>, keys: Keys<V>, form: Form, content: Option<Forest<V>>, pressed: V)
    returns (g: Forest<V>)
    requires Posts(f, form, content, pressed) && Toggling(WidgetOf(f, pressed)) && Unheld(f, pressed)
    ensures g == Handled(f, keys, form, content) && Posts(g, form, content, pressed) && Unheld(g, pressed)
    ensures Toggling(WidgetOf(g, pressed)) && WidgetOf(g, pressed).kind == WidgetOf(f, pressed).kind
    ensures Follows(State(WidgetOf(f, pressed)), State(WidgetOf(g, pressed)), WidgetOf(f, pressed).kind.allowsMixedState)
  {
    hide Handled, Unheld, Retouched, Follows;
    g := Handled(f, keys, form, content);
    PostedToggles(f, keys, form, content, pressed);
    HandledRetouches(f, keys, form, content);
    PostsStays(f, g, form, content, pressed);
    HoldsStays(f, g, pressed);
  }

  /** Without a script no view is named in the form, and every button that is asked goes off. */
  lemma WithoutScriptGoesOff<V>(f: Forest<V>, keys: Keys<V>, form: Form, content: Option<Forest<V>>, b: V)
    requires Proper(f) && Distinct(f) && b in Views(f) && WidgetOf(f, b).kind.Button? && Unheld(f, b)
    requires "NSEvent" !in form
    ensures State(WidgetOf(Handled(f, keys, form, content), b)) == if Asked(f, b) then 0 else State(WidgetOf(f, b))
  {
    hide Clicks, Retouched, ClickedWidget, Unheld, Queue, Collect, Calls;
    var c, calls := Collect(f, form), Calls(content, Queue(f, form));
    HandledIs(f, keys, form, content);
    CollectedAt(f, form, b);
    HoldsStays(f, c, b);
    NoSuchIdNoCall(f, form, content, b);
    UnheldClicks(c, keys, calls, b);
  }

  // ----- displaying -----

  lemma {:induction false} DerivedBelow<V>(f: Forest<V>, m: Widget, row: int, column: int, v: V)
    requires m.kind.Matrix? && Distinct(f) && v in Views(f) && v !in Tops(f)
    ensures WidgetOf(Derived(f, m, row, column), v) == WidgetOf(f, v)
  {
    if v !in Views(f.subs) && v !in Views(f.items) {
      if column + 1 >= m.kind.columns {
        DerivedBelow(f.next, m, row + 1, 0, v);
      } else {
        DerivedBelow(f.next, m, row, column + 1, v);
      }
    }
  }

  lemma UnheldBelow<V>(f: Forest<V>, b: V)
    requires f.Node? && Distinct(f) && Unheld(f, b)
    ensures Unheld(f.subs, b) && Unheld(f.items, b) && Unheld(f.next, b)
    ensures f.w.kind.Matrix? && f.w.kind.radioMode ==> b !in Tops(f.subs)
  {
    forall p | p in Views(f.subs) ensures !Holds(f.subs, p, b) {
      assert WidgetOf(f, p) == WidgetOf(f.subs, p) && SubsOf(f, p) == SubsOf(f.subs, p) && !Holds(f, p, b);
    }
    forall p | p in Views(f.items) ensures !Holds(f.items, p, b) {
      assert WidgetOf(f, p) == WidgetOf(f.items, p) && SubsOf(f, p) == SubsOf(f.items, p) && !Holds(f, p, b);
    }
    forall p | p in Views(f.next) ensures !Holds(f.next, p, b) {
      assert WidgetOf(f, p) == WidgetOf(f.next, p) && SubsOf(f, p) == SubsOf(f.next, p) && !Holds(f, p, b);
    }
    assert f.view in Views(f) && WidgetOf(f, f.view) == f.w && SubsOf(f, f.view) == Tops(f.subs) && !Holds(f, f.view, b);
  }

  /** Displaying leaves a button alone that no matrix in radio mode holds. */
  lemma {:induction false} ShownUnheld<V>(f: Forest<V>, pick: Pick, top: bool, b: V)
    requires Distinct(f) && b in Views(f) && WidgetOf(f, b).kind.Button? && Unheld(f, b)
    ensures WidgetOf(Shown(f, pick, top), b) == WidgetOf(f, b)
    decreases Size(f), 0
  {
    hide ShownSubs, Unheld, Pages.Selected;
    var Node(u, w, subs, items, next) := f;
    var g := Shown(f, pick, top);
    UnheldBelow(f, b);
    if u == b {
      assert WidgetOf(g, b) == g.w;
    } else if b in Views(subs) {
      assert WidgetOf(g, b) == WidgetOf(g.subs, b);
      ShownSubsUnheld(w, subs, b);
    } else if b in Views(items) {
      assert WidgetOf(g, b) == WidgetOf(g.items, b);
      ShownUnheld(items, Only(Selected(w)), true, b);
    } else {
      assert WidgetOf(g, b) == WidgetOf(g.next, b);
      ShownUnheld(next, Next(pick), top, b);
    }
  }

  lemma {:induction false} ShownSubsUnheld<V>(w: Widget, subs: Forest<V>, b: V)
    requires Distinct(subs) && b in Views(subs) && WidgetOf(subs, b).kind.Button? && Unheld(subs, b)
    requires w.kind.Matrix? && w.kind.radioMode ==> b !in Tops(subs)
    ensures WidgetOf(ShownSubs(w, subs), b) == WidgetOf(subs, b)
    decreases Size(subs), 1
  {
    hide Shown, Derived, Unheld, Retouched, WidgetOf, Tops;
    ShownUnheld(subs, Every, false, b);
    if w.kind.Matrix? && w.kind.radioMode {
      var derived := Derived(subs, w, 0, 0);
      DerivedBelow(subs, w, 0, 0, b);
      DerivedRetouches(subs, w, 0, 0);
      Distinctness(subs, derived);
      HoldsStays(subs, derived, b);
      ShownUnheld(derived, Every, false, b);
    }
  }

  // ----- any number of requests -----

  /** The user pressed this button, or anything else. */
  ghost predicate ToggleRequest<V>(f: Forest<V>, content: Option<Forest<V>>, b: V, form: Form, pressed: bool)
    requires Proper(f) && Distinct(f)
  {
    && b in Views(f) && Toggling(WidgetOf(f, b)) && Unheld(f, b) && "NSEvent" in form && Faithful(f, b, form)
    && if pressed then Posts(f, form, content, b) else !EventIsForMe(WidgetOf(f, b), form)
  }

  /** Anything else that was pressed leaves the button alone. */
  lemma UnpostedStays<V>(f: Forest<V>, keys: Keys<V>, form: Form, content: Option<Forest<V>>, b: V)
    requires Proper(f) && Distinct(f) && b in Views(f) && WidgetOf(f, b).kind.Button? && Unheld(f, b)
    requires "NSEvent" in form && !EventIsForMe(WidgetOf(f, b), form)
    ensures WidgetOf(Handled(f, keys, form, content), b) == WidgetOf(f, b)
  {
    hide Clicks, Retouched, ClickedWidget, Unheld, EventIsForMe, Queue, Collect, Calls;
    var c, calls := Collect(f, form), Calls(content, Queue(f, form));
    HandledIs(f, keys, form, content);
    CollectLeaves(f, form, b);
    HoldsStays(f, c, b);
    NoSuchIdNoCall(f, form, content, b);
    UnheldClicks(c, keys, calls, b);
  }

  /** One request: a press takes the button one step on in its cycle, anything else leaves it. */
  lemma NextToggle<V>(
      f: Forest<V>, keys: Keys<V>, content: Option<Forest<V>>, b: V, form: Form, pressed: bool)
    requires Built(f) && ToggleRequest(f, content, b, form, pressed)
    ensures var w, u := WidgetOf(f, b), WidgetOf(NextWindow(f, keys, form, content), b);
        && u.kind == w.kind && Unheld(NextWindow(f, keys, form, content), b)
        && if pressed then Follows(State(w), State(u), w.kind.allowsMixedState) else State(u) == State(w)
  {
    hide Retouched, Handled, Shown, Rebuild, ConvertedWidget, Unheld, Posts, EventIsForMe,
      Follows, Faithful, State, Proper, Distinct, Unique, FieldDefaults;
    var r := Rebuild(f, form);
    RebuiltIsBuilt(f, form);
    HoldsStays(f, r, b);
    RebuiltButton(f, b, form);
    var h := Handled(r, keys, form, content);
    HandledRetouches(r, keys, form, content);
    if pressed {
      PostsStays(f, r, form, content, b);
      PostedToggles(r, keys, form, content, b);
    } else {
      SameEvent(WidgetOf(f, b), WidgetOf(r, b), form);
      UnpostedStays(r, keys, form, content, b);
    }
    HoldsStays(r, h, b);
    ShownUnheld(h, Every, true, b);
    ShownRetouches(h, Every, true);
    HoldsStays(h, Shown(h, Every, true), b);
  }

  lemma SameEvent(w: Widget, u: Widget, form: Form)
    requires u.id == w.id
    ensures EventIsForMe(u, form) == EventIsForMe(w, form)
  {
  }

  lemma RebuiltButton<V>(f: Forest<V>, b: V, form: Form)
    requires Built(f) && b in Views(f) && WidgetOf(f, b).kind.Button? && Unheld(f, b) && Faithful(f, b, form)
    ensures var r := Rebuild(f, form);
        && b in Views(r) && Retouched(f, r) && WidgetOf(r, b).kind == WidgetOf(f, b).kind
        && WidgetOf(r, b).id == WidgetOf(f, b).id && State(WidgetOf(r, b)) == State(WidgetOf(f, b))
  {
    hide Shown, Rebuild, Faithful, Unheld, ConvertedWidget;
    RebuiltFaithfully(f, form, b);
    ShownUnheld(f, Every, true, b);
    WidgetsAreProper(f, b);
    ConvertedNumber(WidgetOf(f, b), "state");
  }

  ghost predicate ToggleRun<V>(
      f: Forest<V>, keys: Keys<V>, content: Option<Forest<V>>, b: V, requests: seq<Request<V>>)
    requires Proper(f) && Distinct(f)
    decreases |requests|
  {
    NextIsProper(f, keys, content, requests);
    requests == [] ||
    (ToggleRequest(f, content, b, requests[0].form, requests[0].choice.Some?) &&
     ToggleRun(NextWindow(f, keys, requests[0].form, content), keys, content, b, requests[1..]))
  }

  /** In how many of the requests the button was pressed. */
  function Presses<V>(requests: seq<Request<V>>): nat
    decreases |requests|
  {
    if requests == [] then 0 else (if requests[0].choice.Some? then 1 else 0) + Presses(requests[1..])
  }

  /** Over any run of requests: a button without mixed state is on if and only if it began on, xor it
      was pressed an odd number of times. With mixed state every press adds one, counted by threes. */
  lemma {:induction false} PressesAddUp<V>(
      f: Forest<V>, keys: Keys<V>, content: Option<Forest<V>>, b: V, requests: seq<Request<V>>)
    requires Built(f) && b in Views(f) && Toggling(WidgetOf(f, b)) && ToggleRun(f, keys, content, b, requests)
    ensures var g := Windows(f, keys, content, requests);
        var w, s, t, n := WidgetOf(f, b), State(WidgetOf(f, b)), State(WidgetOf(g, b)), Presses(requests);
        && (!w.kind.allowsMixedState && (s == 0 || s == 1) ==>
              (t == 0 || t == 1) && (t == 1 <==> ((s == 1) != (n % 2 == 1))))
        && (w.kind.allowsMixedState && -1 <= s <= 1 ==> -1 <= t <= 1 && (t - s - n) % 3 == 0)
    decreases |requests|
  {
    hide Retouched, NextWindow, ToggleRequest, State, Unheld, Proper, Distinct, Unique, FieldDefaults;
    if requests != [] {
      var q := requests[0];
      NextIsProper(f, keys, content, requests);
      ToggleRequestMeans(f, content, b, q.form, q.choice.Some?);
      NextToggle(f, keys, content, b, q.form, q.choice.Some?);
      PressesAddUp(NextWindow(f, keys, q.form, content), keys, content, b, requests[1..]);
    }
  }

  lemma ToggleRequestMeans<V>(f: Forest<V>, content: Option<Forest<V>>, b: V, form: Form, pressed: bool)
    requires Proper(f) && Distinct(f) && ToggleRequest(f, content, b, form, pressed)
    ensures b in Views(f) && Toggling(WidgetOf(f, b))
  {
  }
}
