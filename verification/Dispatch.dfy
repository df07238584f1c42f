/** The beginning of a request: every view collects the events the form holds for it, and the
    application delivers them, in order, to the views that hit testing finds. */
module Dispatch {
  import opened Php
  import opened Persistence
  import opened Pages
  import opened Retouch

  datatype NSEvent<V> = NSEvent(target: V, row: Option<string>, column: Option<string>)

  function Lookup(form: Form, name: string): Option<string>
  {
    if name in form then Some(form[name]) else None
  }

  predicate EventIsForMe(w: Widget, form: Form)
  {
    Lookup(form, "NSEvent") == Some(w.id)
  }

  /** The first tab button that was pressed. */
  function Pressed(id: string, i: nat, count: nat, form: Form): (r: Option<nat>)
    requires i <= count
    ensures r.Some? ==> i <= r.value < count && TabName(id, r.value) in form
    ensures forall j: nat :: i <= j < (if r.Some? then r.value else count) ==> TabName(id, j) !in form
    decreases count - i
  {
    if i == count then None
    else if TabName(id, i) in form then Some(i)
    else Pressed(id, i + 1, count, form)
  }

  /** The index of the selected item of a pop-up button, -1 when it is beyond the menu. */
  function SelectedItem(w: Widget): int
    requires w.kind.PopUp? && "selectedIndex" in w.props
  {
    if Num(w.props["selectedIndex"]) >= w.kind.count then -1 else Num(w.props["selectedIndex"])
  }

  /** A pop-up button was drawn and the user picked another item. */
  predicate Changed(w: Widget, form: Form)
    requires w.kind.PopUp? && "selectedIndex" in w.props
  {
    w.id in form && Num(Str(form[w.id])) != SelectedItem(w)
  }

  function SelectItem(w: Widget, index: int): Widget
    requires w.kind.PopUp? && "selectedIndex" in w.props
  {
    if Num(w.props["selectedIndex"]) == index then w
    else w.(props := w.props["selectedIndex" := Int(index)])
  }

  // ----- collecting -----

  /** What collecting changes in one view. */
  function CollectedWidget(w: Widget, form: Form): Widget
    requires ProperWidget(w)
  {
    match w.kind
    case TabView(hideTab, _) =>
      w.(kind := TabView(hideTab, match Pressed(w.id, 0, |hideTab|, form) case Some(i) => i case None => -1))
    case PopUp(_, _) =>
      if Changed(w, form) then SelectItem(w, Num(Str(form[w.id]))) else w
    case Button(_, _) =>
      if "NSEvent" in form then w else w.(props := w.props["state" := Int(0)])
    case _ => w
  }

  /** The events that only a tab view or a pop-up button queues. */
  function OwnEvents<V>(v: V, w: Widget, form: Form): seq<NSEvent<V>>
    requires ProperWidget(w)
  {
    match w.kind
    case TabView(hideTab, _) => if Pressed(w.id, 0, |hideTab|, form).Some? then [NSEvent(v, None, None)] else []
    case PopUp(_, _) => if Changed(w, form) then [NSEvent(v, None, None)] else []
    case _ => []
  }

  /** The event of the collector inherited from the responder. */
  function InheritedEvent<V>(v: V, w: Widget, form: Form): seq<NSEvent<V>>
  {
    if !w.kind.PopUp? && EventIsForMe(w, form)
    then [NSEvent(v, Lookup(form, "clickedRow"), Lookup(form, "clickedColumn"))] else []
  }

  function Queue<V>(f: Forest<V>, form: Form): seq<NSEvent<V>>
    requires Proper(f)
  {
    match f
    case Nil => []
    case Node(v, w, subs, items, next) =>
      (if w.kind.PopUp? then OwnEvents(v, w, form)
       else Queue(items, form) + OwnEvents(v, w, form) + Queue(subs, form) + InheritedEvent(v, w, form)) +
      Queue(next, form)
  }

  function Collect<V>(f: Forest<V>, form: Form): (g: Forest<V>)
    requires Proper(f)
    ensures Views(g) == Views(f) && Tops(g) == Tops(f) && Length(g) == Length(f) && Size(g) == Size(f)
  {
    match f
    case Nil => Nil
    case Node(v, w, subs, items, next) =>
      Node(v, CollectedWidget(w, form),
           if w.kind.PopUp? then subs else Collect(subs, form), Collect(items, form), Collect(next, form))
  }

  lemma CollectedIsTouched(w: Widget, form: Form)
    requires ProperWidget(w)
    ensures Touched(w, CollectedWidget(w, form))
  {
  }

  lemma {:induction false} CollectRetouches<V>(f: Forest<V>, form: Form)
    requires Proper(f)
    ensures Retouched(f, Collect(f, form)) && Proper(Collect(f, form))
  {
    if f.Node? {
      CollectedIsTouched(f.w, form);
      hide Touched, ProperWidget;
      Same(f.subs);
      CollectRetouches(f.subs, form);
      CollectRetouches(f.items, form);
      CollectRetouches(f.next, form);
    }
    Properness(f, Collect(f, form));
  }

  /** What one view and the trees below it queue. */
  function QueueOne<V>(v: V, w: Widget, subs: Forest<V>, items: Forest<V>, form: Form): seq<NSEvent<V>>
    requires ProperWidget(w) && Proper(subs) && Proper(items)
  {
    if w.kind.PopUp? then OwnEvents(v, w, form)
    else Queue(items, form) + OwnEvents(v, w, form) + Queue(subs, form) + InheritedEvent(v, w, form)
  }

  lemma QueueIsOnes<V>(f: Forest<V>, form: Form)
    requires Proper(f) && f.Node?
    ensures Queue(f, form) == QueueOne(f.view, f.w, f.subs, f.items, form) + Queue(f.next, form)
    ensures Queue<V>(Nil, form) == []
  {
  }

  lemma QueueTree<V>(before: seq<NSEvent<V>>, t: Forest<V>, form: Form)
    requires Proper(t) && t.Node? && t.next.Nil? && !t.w.kind.PopUp?
    ensures before + Queue(t, form) ==
            ((before + Queue(t.items, form)) + OwnEvents(t.view, t.w, form)) +
            Queue(t.subs, form) + InheritedEvent(t.view, t.w, form)
  {
    QueueIsOnes(t, form);
    Regroup(before, Queue(t.items, form), OwnEvents(t.view, t.w, form), Queue(t.subs, form),
            InheritedEvent(t.view, t.w, form));
  }

  lemma Regroup<T>(before: seq<T>, a: seq<T>, b: seq<T>, c: seq<T>, d: seq<T>)
    ensures before + (a + b + c + d + []) == ((before + a) + b) + c + d
  {
  }

  lemma QueueHead<V>(before: seq<NSEvent<V>>, f: Forest<V>, form: Form)
    requires Proper(f) && f.Node?
    ensures (before + Queue(Tree(f), form)) + Queue(f.next, form) == before + Queue(f, form)
  {
    hide QueueOne, Queue;
    QueueIsOnes(f, form);
    QueueIsOnes(Tree(f), form);
  }

  // ----- hit testing -----

  /** `hitTest`: items, subviews, the view itself; the first hit wins. */
  function HitTest<V(==)>(f: Forest<V>, target: V): Option<V>
  {
    match f
    case Nil => None
    case Node(v, _, subs, items, next) =>
      var a := HitTest(items, target);
      if a.Some? then a else
      var b := HitTest(subs, target);
      if b.Some? then b else
      if v == target then Some(v) else HitTest(next, target)
  }

  /** Hit testing is sound and complete: it finds the target wherever it is in the forest,
      also in the items of a tab view that are not on display. */
  lemma {:induction false} HitTestFinds<V>(f: Forest<V>, target: V)
    ensures HitTest(f, target) == if target in Views(f) then Some(target) else None
  {
    match f
    case Nil =>
    case Node(_, _, subs, items, next) =>
      HitTestFinds(subs, target);
      HitTestFinds(items, target);
      HitTestFinds(next, target);
  }

  // ----- delivering -----

  /** Which events reach their target: with no content view all of them do, else those whose
      target lies under the content view. */
  ghost predicate Reached<V>(content: Option<Forest<V>>, target: V)
  {
    content.Some? ==> target in Views(content.value)
  }

  /** The views that get a mouseDown, in order. */
  ghost function Calls<V>(content: Option<Forest<V>>, queue: seq<NSEvent<V>>): seq<V>
  {
    if queue == [] then []
    else (if Reached(content, queue[0].target) then [queue[0].target] else []) + Calls(content, queue[1..])
  }

  lemma {:induction false} CallsConcat<V>(content: Option<Forest<V>>, a: seq<NSEvent<V>>, b: seq<NSEvent<V>>)
    ensures Calls(content, a + b) == Calls(content, a) + Calls(content, b)
  {
    if a == [] {
      assert a + b == b;
    } else {
      CallsConcat(content, a[1..], b);
      CallsHead(content, a[0], a[1..]);
      CallsHead(content, a[0], a[1..] + b);
      hide *;
      assert [a[0]] + a[1..] == a && [a[0]] + (a[1..] + b) == a + b;
      CallsJoin(Calls(content, [a[0]]), Calls(content, a[1..]), Calls(content, b));
    }
  }

  lemma CallsHead<V>(content: Option<Forest<V>>, event: NSEvent<V>, later: seq<NSEvent<V>>)
    ensures Calls(content, [event] + later) == Calls(content, [event]) + Calls(content, later)
  {
    hide Reached;
    assert ([event] + later)[1..] == later && [event][1..] == [];
  }

  lemma CallsJoin<V>(a: seq<V>, b: seq<V>, c: seq<V>)
    ensures a + (b + c) == (a + b) + c
  {
  }

  /** Only views of the forest get events. */
  lemma {:induction false} QueueTargets<V>(f: Forest<V>, form: Form)
    requires Proper(f)
    ensures forall e :: e in Queue(f, form) ==> e.target in Views(f)
  {
    hide OwnEvents, InheritedEvent, ProperWidget, Length;
    if f.Node? {
      OwnEventTargets(f.view, f.w, form);
      QueueTargets(f.subs, form);
      QueueTargets(f.items, form);
      QueueTargets(f.next, form);
    }
  }

  lemma OwnEventTargets<V>(v: V, w: Widget, form: Form)
    requires ProperWidget(w)
    ensures forall e :: e in OwnEvents(v, w, form) ==> e.target == v
    ensures forall e :: e in InheritedEvent(v, w, form) ==> e.target == v
  {
  }

  function QueueOf<V>(t: Forest<V>, form: Form): seq<NSEvent<V>>
    requires t.Node? && Proper(t)
  {
    Queue(t.items, form) + OwnEvents(t.view, t.w, form) + Queue(t.subs, form) + InheritedEvent(t.view, t.w, form)
  }

  lemma QueueParts<V>(f: Forest<V>, form: Form)
    requires Proper(f) && f.Node?
    ensures !f.w.kind.PopUp? ==> Queue(f, form) == QueueOf(f, form) + Queue(f.next, form)
    ensures Queue(f, form) == QueueOne(f.view, f.w, f.subs, f.items, form) + Queue(f.next, form)
    ensures Proper(Tree(f)) && QueueOf(Tree(f), form) == QueueOf(f, form)
  {
    hide OwnEvents, InheritedEvent, ProperWidget, Length;
  }

  /** No event goes to one of these views. */
  ghost predicate Aside<V>(queue: seq<NSEvent<V>>, views: set<V>) {
    forall e :: e in queue ==> e.target !in views
  }

  lemma AsideConcat<V>(a: seq<NSEvent<V>>, b: seq<NSEvent<V>>, views: set<V>)
    ensures Aside(a + b, views) <==> Aside(a, views) && Aside(b, views)
  {
    if Aside(a + b, views) {
      forall e | e in a ensures e.target !in views { assert e in a + b; }
      forall e | e in b ensures e.target !in views { assert e in a + b; }
    }
  }

  lemma QueueAside<V>(f: Forest<V>, form: Form, views: set<V>)
    requires Proper(f) && Views(f) !! views
    ensures Aside(Queue(f, form), views)
  {
    hide Queue;
    QueueTargets(f, form);
  }

  lemma OwnAside<V>(v: V, w: Widget, form: Form, views: set<V>)
    requires ProperWidget(w) && v !in views
    ensures Aside(OwnEvents(v, w, form), views) && Aside(InheritedEvent(v, w, form), views)
  {
    hide OwnEvents, InheritedEvent, ProperWidget;
    OwnEventTargets(v, w, form);
  }

  lemma InSubs<V>(
    a: seq<NSEvent<V>>, own: seq<NSEvent<V>>, mine: seq<NSEvent<V>>, rest: seq<NSEvent<V>>,
    before: seq<NSEvent<V>>, part: seq<NSEvent<V>>, after: seq<NSEvent<V>>, views: set<V>)
    requires Aside(a, views) && Aside(own, views) && Aside(mine, views) && Aside(rest, views)
    requires Aside(before, views) && Aside(after, views)
    ensures a + own + (before + part + after) + mine + rest == (a + own + before) + part + (after + mine + rest)
    ensures Aside(a + own + before, views) && Aside(after + mine + rest, views)
  {
    hide Aside;
    AsideConcat(a, own, views);
    AsideConcat(a + own, before, views);
    AsideConcat(after, mine, views);
    AsideConcat(after + mine, rest, views);
  }

  lemma InItems<V>(
    own: seq<NSEvent<V>>, subs: seq<NSEvent<V>>, mine: seq<NSEvent<V>>, rest: seq<NSEvent<V>>,
    before: seq<NSEvent<V>>, part: seq<NSEvent<V>>, after: seq<NSEvent<V>>, views: set<V>)
    requires Aside(own, views) && Aside(subs, views) && Aside(mine, views) && Aside(rest, views) && Aside(after, views)
    ensures (before + part + after) + own + subs + mine + rest == before + part + (after + own + subs + mine + rest)
    ensures Aside(after + own + subs + mine + rest, views)
  {
    hide Aside;
    AsideConcat(after, own, views);
    AsideConcat(after + own, subs, views);
    AsideConcat(after + own + subs, mine, views);
    AsideConcat(after + own + subs + mine, rest, views);
  }

  lemma InNext<V>(one: seq<NSEvent<V>>, before: seq<NSEvent<V>>, part: seq<NSEvent<V>>, after: seq<NSEvent<V>>, views: set<V>)
    requires Aside(one, views) && Aside(before, views)
    ensures one + (before + part + after) == (one + before) + part + after && Aside(one + before, views)
  {
    hide Aside;
    AsideConcat(one, before, views);
  }

  /** The order of events: first those of the items of a view, then the one that a pressed tab makes,
      then those of its subviews, and last the one that was posted for it; nothing comes between. */
  lemma {:induction false} QueueAround<V>(f: Forest<V>, form: Form, v: V)
    returns (before: seq<NSEvent<V>>, after: seq<NSEvent<V>>)
    requires Proper(f) && Distinct(f) && v in Views(f) && Asked(f, v) && !WidgetOf(f, v).kind.PopUp?
    ensures var t := TreeOf(f, v);
        && Proper(t) && ProperWidget(t.w)
        && Queue(f, form) == before + (Queue(t.items, form) + OwnEvents(v, t.w, form) +
                                       Queue(t.subs, form) + InheritedEvent(v, t.w, form)) + after
        && Aside(before, Views(t)) && Aside(after, Views(t))
  {
    hide Queue, QueueOne, Aside, OwnEvents, InheritedEvent, ProperWidget, Length;
    QueueParts(f, form);
    var views := Views(TreeOf(f, v));
    var own, mine := OwnEvents(f.view, f.w, form), InheritedEvent(f.view, f.w, form);
    var a, b, rest := Queue(f.items, form), Queue(f.subs, form), Queue(f.next, form);
    if f.view == v {
      before, after := [], rest;
      NothingAside<V>(views);
      QueueAside(f.next, form, views);
      assert [] + QueueOf(f, form) + rest == QueueOf(f, form) + rest;
    } else if v in Views(f.subs) {
      before, after := QueueAround(f.subs, form, v);
      QueueAside(f.items, form, views);
      QueueAside(f.next, form, views);
      OwnAside(f.view, f.w, form, views);
      InSubs(a, own, mine, rest, before, QueueOf(TreeOf(f, v), form), after, views);
      before, after := a + own + before, after + mine + rest;
    } else if v in Views(f.items) {
      before, after := QueueAround(f.items, form, v);
      QueueAside(f.subs, form, views);
      QueueAside(f.next, form, views);
      OwnAside(f.view, f.w, form, views);
      NotPopUpWithItems(f);
      InItems(own, b, mine, rest, before, QueueOf(TreeOf(f, v), form), after, views);
      after := after + own + b + mine + rest;
    } else {
      before, after := QueueAround(f.next, form, v);
      var one := QueueOne(f.view, f.w, f.subs, f.items, form);
      OneAside(f, form, views);
      InNext(one, before, QueueOf(TreeOf(f, v), form), after, views);
      before := one + before;
    }
  }

  lemma NothingAside<V>(views: set<V>)
    ensures Aside([], views)
  {
  }

  lemma NotPopUpWithItems<V>(f: Forest<V>)
    requires Proper(f) && f.Node? && f.items.Node?
    ensures !f.w.kind.PopUp?
  {
  }

  lemma OneAside<V>(f: Forest<V>, form: Form, views: set<V>)
    requires Proper(f) && f.Node? && f.view !in views && Views(f.subs) !! views && Views(f.items) !! views
    ensures Aside(QueueOne(f.view, f.w, f.subs, f.items, form), views)
  {
    hide Queue, Aside, OwnEvents, InheritedEvent, ProperWidget, Length;
    var own, mine := OwnEvents(f.view, f.w, form), InheritedEvent(f.view, f.w, form);
    var a, b := Queue(f.items, form), Queue(f.subs, form);
    OwnAside(f.view, f.w, form, views);
    QueueAside(f.items, form, views);
    QueueAside(f.subs, form, views);
    AsideConcat(a, own, views);
    AsideConcat(a + own, b, views);
    AsideConcat(a + own + b, mine, views);
  }

  /** An event of the view `w`: the one that was posted for it, with the row and the column that
      were posted, or one that a tab view or a pop-up button queues by itself, without any. */
  predicate EventFor<V>(e: NSEvent<V>, w: Widget, form: Form)
  {
    || (&& "NSEvent" in form && form["NSEvent"] == w.id
        && (if "clickedRow" in form then e.row == Some(form["clickedRow"]) else e.row == None)
        && (if "clickedColumn" in form then e.column == Some(form["clickedColumn"]) else e.column == None))
    || ((w.kind.TabView? || w.kind.PopUp?) && e.row == None && e.column == None)
  }

  /** Every queued event is one of its target's own. */
  lemma {:induction false} QueuedEvents<V>(f: Forest<V>, form: Form)
    requires Proper(f) && Distinct(f)
    ensures forall e :: e in Queue(f, form) ==> e.target in Views(f) && EventFor(e, WidgetOf(f, e.target), form)
  {
    hide OwnEvents, InheritedEvent, ProperWidget, Length, EventFor;
    if f.Node? {
      QueueTargets(f.subs, form);
      QueueTargets(f.items, form);
      QueueTargets(f.next, form);
      OwnEventTargets(f.view, f.w, form);
      OwnEventPlaces(f.view, f.w, form);
      QueuedEvents(f.subs, form);
      QueuedEvents(f.items, form);
      QueuedEvents(f.next, form);
      QueueIsOnes(f, form);
      forall e | e in QueueOne(f.view, f.w, f.subs, f.items, form)
        ensures e.target in Views(f) && EventFor(e, WidgetOf(f, e.target), form)
      {
      }
    }
  }

  lemma OwnEventPlaces<V>(v: V, w: Widget, form: Form)
    requires ProperWidget(w)
    ensures forall e :: e in OwnEvents(v, w, form) ==> EventFor(e, w, form)
    ensures forall e :: e in InheritedEvent(v, w, form) ==> EventFor(e, w, form)
  {
  }

  // ----- end to end -----

  ghost function Count<V>(calls: seq<V>, v: V): nat
  {
    if calls == [] then 0 else (if calls[0] == v then 1 else 0) + Count(calls[1..], v)
  }

  ghost function Targeted<V>(queue: seq<NSEvent<V>>, v: V): nat
  {
    if queue == [] then 0 else (if queue[0].target == v then 1 else 0) + Targeted(queue[1..], v)
  }

  lemma {:induction false} TargetedConcat<V>(a: seq<NSEvent<V>>, b: seq<NSEvent<V>>, v: V)
    ensures Targeted(a + b, v) == Targeted(a, v) + Targeted(b, v)
  {
    if a == [] {
      assert a + b == b;
    } else {
      TargetedConcat(a[1..], b, v);
      assert (a + b)[1..] == a[1..] + b && (a + b)[0] == a[0];
    }
  }

  /** A pop-up button does not pass collecting on to its subviews: the view is not below one. */
  ghost predicate Asked<V>(f: Forest<V>, v: V)
    requires v in Views(f)
  {
    if f.view == v then true
    else if v in Views(f.subs) then !f.w.kind.PopUp? && Asked(f.subs, v)
    else if v in Views(f.items) then Asked(f.items, v)
    else Asked(f.next, v)
  }

  ghost function EventsOf<V>(v: V, w: Widget, form: Form): nat
    requires ProperWidget(w)
  {
    |OwnEvents(v, w, form)| + |InheritedEvent(v, w, form)|
  }

  lemma OwnTargets<V>(u: V, w: Widget, form: Form, v: V)
    requires ProperWidget(w)
    ensures Targeted(OwnEvents(u, w, form), v) == if u == v then |OwnEvents(u, w, form)| else 0
    ensures Targeted(InheritedEvent(u, w, form), v) == if u == v then |InheritedEvent(u, w, form)| else 0
    ensures w.kind.PopUp? ==> InheritedEvent(u, w, form) == []
  {
    var own, mine := OwnEvents(u, w, form), InheritedEvent(u, w, form);
    assert own != [] ==> own[1..] == [];
    assert mine != [] ==> mine[1..] == [];
  }

  lemma QueueSplits<V>(f: Forest<V>, form: Form, v: V)
    requires Proper(f) && f.Node?
    ensures Targeted(Queue(f, form), v) ==
            (if f.view == v then EventsOf(v, f.w, form) else 0) +
            Targeted(Queue(f.items, form), v) + (if f.w.kind.PopUp? then 0 else Targeted(Queue(f.subs, form), v)) +
            Targeted(Queue(f.next, form), v)
  {
    hide OwnEvents, InheritedEvent;
    var Node(u, w, subs, items, next) := f;
    var own, mine := OwnEvents(u, w, form), InheritedEvent(u, w, form);
    var a, b := Queue(items, form), Queue(subs, form);
    var head := if w.kind.PopUp? then own else a + own + b + mine;
    TargetedConcat(head, Queue(next, form), v);
    TargetedConcat(a + own + b, mine, v);
    TargetedConcat(a + own, b, v);
    TargetedConcat(a, own, v);
    OwnTargets(u, w, form, v);
  }

  lemma {:induction false} QueueForeign<V>(f: Forest<V>, form: Form, v: V)
    requires Proper(f) && v !in Views(f)
    ensures Targeted(Queue(f, form), v) == 0
  {
    match f
    case Nil =>
    case Node(_, _, subs, items, next) =>
      QueueSplits(f, form, v);
      QueueForeign(subs, form, v);
      QueueForeign(items, form, v);
      QueueForeign(next, form, v);
  }

  /** Every view queues exactly its own events, wherever it is in the window; only views below a
      pop-up button are never asked and queue none. */
  lemma {:induction false} QueueCounts<V>(f: Forest<V>, form: Form, v: V)
    requires Proper(f) && Distinct(f) && v in Views(f)
    ensures ProperWidget(WidgetOf(f, v))
    ensures Targeted(Queue(f, form), v) == if Asked(f, v) then EventsOf(v, WidgetOf(f, v), form) else 0
  {
    var Node(u, w, subs, items, next) := f;
    QueueSplits(f, form, v);
    if v in Views(subs) { QueueCounts(subs, form, v); } else { QueueForeign(subs, form, v); }
    if v in Views(items) { QueueCounts(items, form, v); } else { QueueForeign(items, form, v); }
    if v in Views(next) { QueueCounts(next, form, v); } else { QueueForeign(next, form, v); }
  }

  lemma {:induction false} CallsCount<V>(content: Option<Forest<V>>, queue: seq<NSEvent<V>>, v: V)
    ensures Count(Calls(content, queue), v) == if Reached(content, v) then Targeted(queue, v) else 0
  {
    if queue != [] {
      var rest := Calls(content, queue[1..]);
      CallsCount(content, queue[1..], v);
      var t := queue[0].target;
      if Reached(content, t) {
        assert Calls(content, queue) == [t] + rest;
        assert ([t] + rest)[1..] == rest;
      } else {
        assert Calls(content, queue) == rest;
      }
    }
  }

  ghost predicate DistinctIds<V>(f: Forest<V>)
  {
    forall u, v :: u in Views(f) && v in Views(f) && WidgetOf(f, u).id == WidgetOf(f, v).id ==> u == v
  }

  /** End to end: the view whose id was posted gets exactly one mouseDown for it, a view with
      another id gets none for it, and only tab views and pop-up buttons get any besides. A view
      below a pop-up button is not asked and gets none at all. */
  lemma PostedEventArrives<V>(f: Forest<V>, form: Form, content: Option<Forest<V>>, posted: V, v: V)
    requires Proper(f) && Distinct(f) && DistinctIds(f)
    requires posted in Views(f) && v in Views(f)
    requires !WidgetOf(f, posted).kind.PopUp? && Lookup(form, "NSEvent") == Some(WidgetOf(f, posted).id)
    requires content.Some? ==> posted in Views(content.value)
    ensures ProperWidget(WidgetOf(f, v))
    ensures var own := |OwnEvents(v, WidgetOf(f, v), form)|;
            var n := Count(Calls(content, Queue(f, form)), v);
            && (v == posted ==> n == if Asked(f, v) then 1 + own else 0)
            && (v != posted ==> n <= own)
            && (own > 0 ==> WidgetOf(f, v).kind.TabView? || WidgetOf(f, v).kind.PopUp?)
  {
    QueueCounts(f, form, v);
    CallsCount(content, Queue(f, form), v);
    if v != posted {
      assert WidgetOf(f, v).id != WidgetOf(f, posted).id;
    }
  }

  /** If the posted id belongs to no view, only tab views and pop-up buttons get a mouseDown. */
  lemma NoSuchIdNoCall<V>(f: Forest<V>, form: Form, content: Option<Forest<V>>, v: V)
    requires Proper(f) && Distinct(f) && v in Views(f)
    requires !EventIsForMe(WidgetOf(f, v), form)
    requires !WidgetOf(f, v).kind.TabView? && !WidgetOf(f, v).kind.PopUp?
    ensures Count(Calls(content, Queue(f, form)), v) == 0
  {
    QueueCounts(f, form, v);
    CallsCount(content, Queue(f, form), v);
  }

  lemma {:induction false} CollectedAt<V>(f: Forest<V>, form: Form, v: V)
    requires Proper(f) && v in Views(f)
    ensures ProperWidget(WidgetOf(f, v))
    ensures WidgetOf(Collect(f, form), v) ==
        if Asked(f, v) then CollectedWidget(WidgetOf(f, v), form) else WidgetOf(f, v)
  {
    var Node(u, w, subs, items, next) := f;
    var g := Collect(f, form);
    if u == v {
      assert WidgetOf(g, v) == g.w;
    } else if v in Views(subs) {
      CollectedAt(subs, form, v);
      assert WidgetOf(g, v) == WidgetOf(g.subs, v);
    } else if v in Views(items) {
      CollectedAt(items, form, v);
      assert WidgetOf(g, v) == WidgetOf(g.items, v);
    } else {
      CollectedAt(next, form, v);
      assert WidgetOf(g, v) == WidgetOf(g.next, v);
    }
  }
}
