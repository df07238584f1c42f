/** The classes of the view hierarchy. A view carries its own links and flags; `Rep` ties the
    objects to the forest they stand for, and every method is proved to compute the function
    on forests that Pages, Dispatch, Actions and Surgery define. PHP's subclasses of NSView are
    the kinds of one class, because the methods they override call each other. */
module Views {
  import opened Php
  import opened Persistence
  import opened Pages
  import opened PageLaws
  import opened Retouch
  import opened Showing
  import opened Dispatch
  import opened Surgery
  import opened Registry
  import opened Hierarchy
  import opened Links
  import opened Actions
  import Grids
  import Matrices
  import Delivery
  import Markup

  /** The static table of responders. */
  class NSResponders {
    var objects: Table<object>

    constructor ()
      ensures objects == map[]
    {
      objects := map[];
    }

    /** The view is in the table under its own id. */
    ghost predicate Stores(v: NSView)
      reads this, v`elementId
    {
      v.elementId in objects && objects[v.elementId] == v
    }

    /** The views of a window that are all in the table have distinct ids. */
    lemma StoredIdsAreDistinct(f: Forest<NSView>)
      requires Rep(f, null) && Distinct(f) && forall v :: v in Pages.Views(f) ==> Stores(v)
      ensures DistinctIds(f)
    {
      RepIsPointwise(f, null);
      forall u, v | u in Pages.Views(f) && v in Pages.Views(f) && WidgetOf(f, u).id == WidgetOf(f, v).id
        ensures u == v
      {
        assert At(f, u, null) && At(f, v, null) && Stores(u) && Stores(v);
      }
    }
  }

  /** Receives the output of a page. */
  class NSGraphicsContext {
    var output: seq<Output<NSView>>

    constructor ()
      ensures output == []
    {
      output := [];
    }

    method Emit(o: Output<NSView>)
      modifies this
      ensures output == old(output) + [o]
    {
      output := output + [o];
    }
  }

  /** The form of the current request and the queue of events it leads to. `calls` records the
      views that got a mouseDown, `sent` the actions that reached a target, with their senders. */
  class NSApplication {
    const post: Form
    var mainWindow: NSWindow
    var eventQueue: seq<NSEvent<NSView>>
    var calls: seq<NSView>
    var sent: seq<(NSView, string)>

    constructor (post: Form, mainWindow: NSWindow)
      ensures this.post == post && this.mainWindow == mainWindow && eventQueue == [] && calls == [] && sent == []
    {
      this.post, this.mainWindow := post, mainWindow;
      eventQueue, calls, sent := [], [], [];
    }

    /** One request: collect the events of the whole window, deliver them, draw the page and let
        every view persist what its drawn controls do not carry. */
    method Run(context: NSGraphicsContext, ghost f: Forest<NSView>) returns (ghost g: Forest<NSView>)
      requires Tops(f) == [mainWindow.scrollView] && Rep(f, null) && Proper(f) && Distinct(f)
      requires mainWindow.Shows(f) && eventQueue == [] && Arrays(Pages.Views(f))
      requires forall v :: v in Pages.Views(f) ==> v.window == null || v.window == mainWindow
      modifies this`eventQueue, this`calls, this`sent, context
      modifies Pages.Views(f)`props, Pages.Views(f)`kind, Pages.Views(f)`hidden, Pages.Views(f)`persists
      ensures g == Shown(Handled(f, old(KeysOf(Pages.Views(f))), post, old(mainWindow.Content(f))), Every, true)
      ensures calls == old(calls) + Calls(old(mainWindow.Content(f)), Queue(f, post))
      ensures sent == old(sent) + HandledSends(f, post, old(mainWindow.Content(f)))
      ensures Proper(g) && context.output == old(context.output) + Pages.Page(g)
      ensures Shown(g, Every, true) == g
      ensures Rep(Done(g, false, Every), null)
    {
      hide *;
      ghost var content := mainWindow.Content(f);
      ghost var keys := KeysOf(Pages.Views(f));
      var root := mainWindow.scrollView;
      OneTop(f, root);
      BeforeDelivery(mainWindow, f, post);
      root.CollectEvents(this, f);
      RootRep(Collect(f, post), root);
      ghost var h := Deliver(Collect(f, post), content);
      AfterDelivery(f, h, keys, root, post, content);
      root.Display(context, h, []);
      g := Shown(h, Every, true);
      AfterDisplay(h, root);
      root.DisplayDone(g, []);
      RootRep(Done(g, false, Every), root);
      root.WritePersist(context, Done(g, false, Every));
      PageOf(h, old(context.output));
    }

    /** Delivers the queued events in order; `g` is the forest after collecting. */
    method Deliver(ghost g: Forest<NSView>, ghost content: Option<Forest<NSView>>) returns (ghost h: Forest<NSView>)
      requires Rep(g, null) && Proper(g) && Distinct(g) && mainWindow.Shows(g) && Arrays(Pages.Views(g))
      requires forall e :: e in eventQueue ==> e.target in Pages.Views(g)
      requires forall v :: v in Pages.Views(g) ==> v.window == null || v.window == mainWindow
      requires mainWindow.HasContent(g, content)
      modifies this`calls, this`sent, Pages.Views(g)`props, Pages.Views(g)`kind
      ensures calls == old(calls) + Calls(content, eventQueue)
      ensures forall x :: x in Calls(content, eventQueue) ==> x in Pages.Views(g)
      ensures h == Clicks(g, old(KeysOf(Pages.Views(g))), Calls(content, eventQueue))
      ensures sent == old(sent) + ClicksSend(g, Calls(content, eventQueue))
      ensures Rep(h, null)
    {
      hide *;
      h := g;
      ghost var keys := KeysOf(Pages.Views(g));
      NothingDelivered(g, keys, content, eventQueue);
      for i := 0 to |eventQueue|
        invariant forall x :: x in Calls(content, eventQueue[..i]) ==> x in Pages.Views(g)
        invariant h == Clicks(g, keys, Calls(content, eventQueue[..i])) && Rep(h, null)
        invariant calls == old(calls) + Calls(content, eventQueue[..i])
        invariant sent == old(sent) + ClicksSend(g, Calls(content, eventQueue[..i]))
      {
        ContentStays(mainWindow, g, keys, Calls(content, eventQueue[..i]), content);
        Delivery.OneMoreEvent(g, keys, content, eventQueue, i);
        h := mainWindow.SendEvent(eventQueue[i], this, h, content);
      }
      assert eventQueue[..|eventQueue|] == eventQueue;
    }

    method QueueEvent(event: NSEvent<NSView>)
      modifies this`eventQueue
      ensures eventQueue == old(eventQueue) + [event]
    {
      eventQueue := eventQueue + [event];
    }
  }

  /** The objects of forest `f` are linked as the forest says, and its topmost views have
      `parent` as their superview. The views of tab items have none. */
  ghost predicate Rep(f: Forest<NSView>, parent: NSView?)
    reads Pages.Views(f)
  {
    match f
    case Nil => true
    case Node(v, w, subs, items, next) =>
      && v.superview == parent
      && v.subviews.vals == Tops(subs) && v.items == Tops(items)
      && v.Snapshot() == w
      && Rep(subs, v) && Rep(items, null) && Rep(next, parent)
  }

  /** The superviews of a view, nearest first. */
  ghost predicate Chain(c: seq<NSView>, v: NSView?)
    reads c`superview
  {
    if v == null then c == [] else c != [] && c[0] == v && Chain(c[1..], v.superview)
  }

  ghost predicate AnyHidden(c: seq<NSView>)
    reads c`hidden
  {
    c != [] && (c[0].hidden || AnyHidden(c[1..]))
  }

  /** The superviews from `v` up, none of them hidden. */
  ghost predicate Visible(c: seq<NSView>, v: NSView?)
    reads c`superview, c`hidden
  {
    Chain(c, v) && !AnyHidden(c)
  }

  ghost predicate Arrays(views: set<NSView>)
    reads views`subviews
  {
    forall v :: v in views ==> v.subviews.Valid()
  }

  /** The array keys of the subviews of every view. */
  ghost function KeysOf(views: set<NSView>): (keys: Keys<NSView>)
    reads views`subviews
  {
    map v | v in views :: v.subviews.keys
  }

  /** What the way up from a view needs: its superviews are views of the window, whose arrays are
      sound. */
  ghost predicate Climbs(views: set<NSView>, v: NSView, path: seq<NSView>)
    reads views`subviews, v`superview, path`superview
  {
    v in views && Arrays(views) && Chain(path, v.superview) && forall x :: x in path ==> x in views
  }

  class NSView {
    var elementId: string
    var kind: Kind
    var subviews: PhpArray<NSView>
    var superview: NSView?
    var window: NSWindow?
    var hidden: bool
    var action: string
    /** the views of the items of a tab view */
    var items: seq<NSView>
    var props: Properties
    var persists: seq<Persistor>

    constructor (responders: NSResponders, kind: Kind)
      modifies responders
      ensures elementId == NextId(old(responders.objects))
      ensures responders.objects == Register(old(responders.objects), this)
      ensures this.kind == kind && subviews == EmptyArray() && items == [] && props == map[] && persists == []
      ensures superview == null && window == null && !hidden && action == ""
      ensures old(Counted(responders.objects)) ==>
          (Counted(responders.objects) && responders.Stores(this)
           && forall k :: k in old(responders.objects) ==>
                k in responders.objects && responders.objects[k] == old(responders.objects)[k])
    {
      elementId := NextId(responders.objects);
      this.kind, subviews, items, props, persists := kind, EmptyArray(), [], map[], [];
      superview, window, hidden, action := null, null, false, "";
      new;
      ghost var before := responders.objects;
      if Counted(before) {
        NextIdIsFree<object>(before, this);
      }
      responders.objects := Register(responders.objects, this);
    }

    /** Every persistor has set up its property. */
    ghost predicate Persisted(post: Form)
      reads this`elementId, this`props, this`persists
    {
      && Registered(persists, props)
      && forall i :: 0 <= i < |persists| ==> props[persists[i].property] == Constructed(elementId, persists[i], post)
    }

    /** A persistor for a property: it takes the current value as its default and then reads the
        form under its automatic name. */
    method Persist(property: string, post: Form)
      requires Persisted(post) && property in props && forall i :: 0 <= i < |persists| ==> persists[i].property != property
      modifies this`props, this`persists
      ensures Persisted(post) && persists == old(persists) + [Persistor(property, None, old(props)[property])]
      ensures props.Keys == old(props).Keys && forall k :: k in old(props) && k != property ==> props[k] == old(props)[k]
    {
      var p := Persistor(property, None, props[property]);
      persists := persists + [p];
      props := ReadOne(elementId, p, props, post);
    }

    /** A persistor that then gets a name of its own and reads the form again. */
    method PersistAs(property: string, name: string, post: Form)
      requires Persisted(post) && property in props && forall i :: 0 <= i < |persists| ==> persists[i].property != property
      modifies this`props, this`persists
      ensures Persisted(post) && persists == old(persists) + [Persistor(property, Some(name), old(props)[property])]
      ensures props.Keys == old(props).Keys && forall k :: k in old(props) && k != property ==> props[k] == old(props)[k]
    {
      Persist(property, post);
      var p := persists[|persists| - 1].(name := Some(name));
      persists := persists[|persists| - 1 := p];
      props := ReadOne(elementId, p, props, post);
    }

    /** Used when a view is displayed as a cell of a table view: it moves in the table of
        responders and every persistor reads again. */
    method SetElementId(responders: NSResponders, id: string, post: Form)
      modifies responders, this`elementId, this`props
      ensures elementId == id
      ensures responders.objects == ReIdentify(old(responders.objects), old(elementId), id, this)
      ensures old(Counted(responders.objects) && responders.Stores(this)) && id !in old(responders.objects) && !Numeric(id)
          ==> Counted(responders.objects) && responders.Stores(this)
      ensures props == ReadAll(id, persists, old(props), post)
    {
      ghost var before := responders.objects;
      if Counted(before) && elementId in before && id !in before && !Numeric(id) {
        ReIdentifyMoves<object>(before, elementId, id, this);
      }
      responders.objects := responders.objects[id := this];
      responders.objects := responders.objects - {elementId};
      elementId := id;
      assert persists[0..] == persists;
      for i := 0 to |persists|
        invariant elementId == id && responders.objects == ReIdentify(old(responders.objects), old(elementId), id, this)
        invariant ReadAll(id, persists[i..], props, post) == ReadAll(id, persists, old(props), post)
      {
        var p := persists[i];
        assert persists[i..][1..] == persists[i + 1..];
        if NameOf(id, p) in post {
          props := props[p.property := Str(post[NameOf(id, p)])];
        }
      }
    }

    ghost function Snapshot(): Widget
      reads this`kind, this`elementId, this`hidden, this`action, this`props, this`persists
    {
      Widget(kind, elementId, hidden, action, props, persists)
    }

    // ----- hidden -----

    method IsHidden(ghost c: seq<NSView>) returns (r: bool)
      requires Chain(c, superview)
      ensures r == (hidden || AnyHidden(c))
      decreases |c|
    {
      if hidden {
        return true;
      }
      if superview != null {
        r := superview.IsHidden(c[1..]);
        return;
      }
      return false;
    }

    method SetHidden(flag: bool)
      modifies this`hidden
      ensures hidden == flag
    {
      if flag == hidden {
        return;
      }
      hidden := flag;
    }

    // ----- hierarchy -----

    /** Hands the window down to all subviews; the views of tab items are not among them. */
    method SetWindow(window: NSWindow?, ghost t: Forest<NSView>)
      requires IsTree(t, this) && Distinct(t)
      modifies Down(t)`window
      ensures forall x :: x in Down(t) ==> x.window == window
      decreases Size(t)
    {
      hide *;
      Open(t, this);
      DownTree(t);
      KeepWindow(window, t);
      Open(t, this);
      Apart(t);
      ghost var rest := t.subs;
      for i := 0 to |subviews.vals|
        invariant IsList(rest, subviews.vals[i..], this) && Distinct(rest) && Size(rest) <= Size(t.subs)
        invariant Down(rest) <= Down(t.subs) && this.window == window
        invariant forall x :: x in Down(t.subs) && x !in Down(rest) ==> x.window == window
      {
        Step(rest, subviews.vals, i, this);
        DownStep(rest);
        subviews.vals[i].SetWindow(window, Tree(rest));
        rest := rest.next;
      }
      DownEnd(rest, subviews.vals[|subviews.vals|..], this);
    }

    method KeepWindow(window: NSWindow?, ghost t: Forest<NSView>)
      requires IsTree(t, this) && Distinct(t)
      modifies this`window
      ensures IsTree(t, this) && this.window == window
    {
      this.window := window;
    }

    /** Sets the window of a tree of `f`; the links and widgets stay as they are. */
    method SetWindowInForest(window: NSWindow?, ghost f: Forest<NSView>)
      requires Rep(f, null) && Distinct(f) && Proper(f) && this in Pages.Views(f)
      modifies Down(TreeOf(f, this))`window
      ensures Rep(f, null) && forall x :: x in Down(TreeOf(f, this)) ==> x.window == window
    {
      hide Pages.Views, TreeOf, ParentOf, SubsOf, ItemsOf, WidgetOf, Rep, IsTree, Distinct, Proper, Down;
      assert allocated(Pages.Views(f));
      RepIsPointwise(f, null);
      TreeIsTree(f, this, null);
      SetWindow(window, TreeOf(f, this));
      forall x | x in Pages.Views(f) ensures At(f, x, null) { assert old(At(f, x, null)); }
      PointwiseIsRep(f, null);
    }

    /** The list and the superview link of `addSubview`. */
    method Attach(view: NSView, ghost f: Forest<NSView>)
      requires Rep(f, null) && Distinct(f) && Proper(f) && this in Pages.Views(f) && view in Pages.Views(f)
      requires subviews.Valid() && view != this && view.superview == null && this !in Pages.Views(TreeOf(f, view))
      modifies this`subviews, view`superview
      ensures subviews == old(subviews.Append(view)) && subviews.Valid()
      ensures LinkedAfterAdd(f, this, view) && WidgetsAre(f) && IsTree(TreeOf(f, view), view)
    {
      hide Pages.Views, TreeOf, ParentOf, SubsOf, ItemsOf, WidgetOf, Rep, IsTree, Distinct, Proper;
      ghost var t := TreeOf(f, view);
      assert allocated(Pages.Views(f));
      RepIsPointwise(f, null);
      TreeIsTree(f, view, null);
      Open(t, view);
      Apart(t);
      subviews := subviews.Append(view);
      view.superview := this;
      TopStays(t, view);
      forall x | x in Pages.Views(f)
        ensures x.Snapshot() == WidgetOf(f, x) && x.items == ItemsOf(f, x)
        ensures x.subviews.vals == SubsOf(f, x) + if x == this then [view] else []
        ensures x.superview == if x == view then this else FromOpt(ParentOf(f, x, None))
      {
        assert old(At(f, x, null));
      }
    }

    /** `f` is the forest of all views. The view is refused if it is this one or has a superview.
        Otherwise it is added; if it is the view of a tab item, the links are then those of no
        forest. Only a view that this one is below must not be added. */
    method AddSubview(view: NSView, ghost f: Forest<NSView>)
      requires Rep(f, null) && Distinct(f) && this in Pages.Views(f) && view in Pages.Views(f)
      requires subviews.Valid() && Proper(f) && (Addable(f, this, view) || this !in Pages.Views(TreeOf(f, view)))
      modifies this`subviews, view`superview, Down(TreeOf(f, view))`window
      ensures subviews.Valid()
      ensures if this == view || old(view.superview) != null then subviews == old(subviews)
              else subviews == old(subviews.Append(view)) && forall x :: x in Down(TreeOf(f, view)) ==> x.window == window
      ensures Addable(f, this, view) ==>
          (Rep(Add(f, this, view), null) && Distinct(Add(f, this, view))
           && (old(WindowsAgree(f)) ==> WindowsAgree(Add(f, this, view))))
      ensures !Addable(f, this, view) ==> LinkedAfterAdd(f, this, view)
    {
      hide *;
      SuperviewIs(f, view);
      AddRefuses(f, this, view);
      WhoIsAddable(f, this, view);
      if this == view || view.superview != null {
        return;
      }
      ghost var agreed := WindowsAgree(f);
      ghost var was := NoteWindows(f);
      Attach(view, f);
      view.SetWindow(window, TreeOf(f, view));
      if Addable(f, this, view) {
        Added(f, this, view);
        if agreed { WindowsAfterAdd(f, this, view, was); }
      }
    }

    /** The list and the superview link of `_removeSubView`. */
    method Unlink(view: NSView, ghost f: Forest<NSView>)
      requires Rep(f, null) && Distinct(f) && this in Pages.Views(f) && view in Pages.Views(f)
      requires subviews.Valid() && view in subviews.vals
      modifies this`subviews, view`superview
      ensures Rep(Detach(f, view), null) && Distinct(Detach(f, view)) && Pages.Views(Detach(f, view)) == Pages.Views(f)
      ensures subviews == old(subviews.Unset(IndexOf(subviews.vals, view))) && subviews.Valid()
      ensures view.superview == null
    {
      hide Pages.Views, TreeOf, ParentOf, SubsOf, ItemsOf, WidgetOf, Rep, Distinct, Proper, Detach, IndexOf;
      assert allocated(Pages.Views(f));
      RepIsPointwise(f, null);
      assert At(f, this, null);
      DetachKeepsForest(f, view);
      ghost var i := IndexOf(subviews.vals, view);
      view.superview := null;
      subviews := subviews.Unset(IndexOf(subviews.vals, view));
      forall x | x in Pages.Views(f)
        ensures x.Snapshot() == WidgetOf(f, x) && x.items == ItemsOf(f, x)
        ensures x.subviews.vals == if x == this then SubsOf(f, x)[..i] + SubsOf(f, x)[i + 1..] else SubsOf(f, x)
        ensures x.superview == if x == view then null else FromOpt(ParentOf(f, x, None))
      {
        assert old(At(f, x, null));
      }
      Removed(f, this, view, i);
    }

    /** `view` is one of the subviews. */
    method RemoveSubview(view: NSView, ghost f: Forest<NSView>)
      requires Rep(f, null) && Distinct(f) && this in Pages.Views(f) && view in Pages.Views(f)
      requires subviews.Valid() && Proper(f) && view in subviews.vals
      modifies this`subviews, view`superview, Down(TreeOf(f, view))`window
      ensures Rep(Detach(f, view), null) && Distinct(Detach(f, view)) && Proper(Detach(f, view))
      ensures Pages.Views(Detach(f, view)) == Pages.Views(f)
      ensures subviews == old(subviews.Unset(IndexOf(subviews.vals, view))) && subviews.Valid()
      ensures view.superview == null
      ensures forall x :: x in Down(TreeOf(f, view)) ==> x.window == null
      ensures old(WindowsAgree(f)) ==> WindowsAgree(Detach(f, view))
    {
      hide *;
      SuperviewIs(f, this);
      DetachedTree(f, this, view);
      ghost var agreed := WindowsAgree(f);
      ghost var was := NoteWindows(f);
      DownInside(TreeOf(f, view));
      view.SetWindowInForest(null, f);
      Unlink(view, f);
      if agreed { WindowsAfterDetach(f, this, view, was); }
    }

    method RemoveFromSuperview(ghost f: Forest<NSView>)
      requires Rep(f, null) && Distinct(f) && this in Pages.Views(f) && Proper(f)
      requires superview != null && superview.subviews.Valid()
      modifies superview`subviews, this`superview, Down(TreeOf(f, this))`window
      ensures Rep(Detach(f, this), null) && Distinct(Detach(f, this)) && Proper(Detach(f, this))
      ensures superview == null && this !in old(superview).subviews.vals
      ensures old(superview).subviews.Valid() && this in old(superview.subviews.vals)
      ensures old(superview).subviews == old(superview.subviews.Unset(IndexOf(superview.subviews.vals, this)))
      ensures Pages.Views(Detach(f, this)) == Pages.Views(f)
      ensures old(WindowsAgree(f)) ==> WindowsAgree(Detach(f, this))
    {
      hide *;
      SuperviewHolds(f, this);
      ghost var p, list := superview, superview.subviews;
      UnsetDrops(list, this);
      superview.RemoveSubview(this, f);
      assert p.subviews == list.Unset(IndexOf(list.vals, this));
    }

    /** Adds views one after the other. */
    method AddEach(views: seq<NSView>, ghost f: Forest<NSView>) returns (ghost g: Forest<NSView>)
      requires IsHierarchy(f, Pages.Views(f), this) && Hierarchy.LegalRun(f, Additions(this, views))
      modifies Pages.Views(f)`subviews, Pages.Views(f)`superview, Pages.Views(f)`window
      ensures g == Hierarchy.Run(f, Additions(this, views))
      ensures Rep(g, null) && Distinct(g) && Proper(g) && Pages.Views(g) == Pages.Views(f)
      ensures old(WindowsAgree(f)) ==> WindowsAgree(g)
    {
      hide *;
      g := f;
      assert views[0..] == views;
      for i := 0 to |views|
        invariant IsHierarchy(g, Pages.Views(f), this) && (old(WindowsAgree(f)) ==> WindowsAgree(g))
        invariant Hierarchy.LegalRun(g, Additions(this, views[i..]))
        invariant Hierarchy.Run(g, Additions(this, views[i..])) == Hierarchy.Run(f, Additions(this, views))
      {
        RunAdds(g, Pages.Views(f), this, views, i);
        AddSubview(views[i], g);
        g := Add(g, this, views[i]);
        StillHierarchy(g, Pages.Views(f), this);
      }
      RunEnd(g, Pages.Views(f), this, views[|views|..]);
    }

    /** Replaces all subviews: the old ones are removed, then the new ones are added. */
    method SetSubviews(views: seq<NSView>, ghost f: Forest<NSView>) returns (ghost g: Forest<NSView>)
      requires Rep(f, null) && Distinct(f) && this in Pages.Views(f) && Proper(f) && subviews.Valid()
      requires Hierarchy.LegalRun(f, Replacement(this, subviews.vals, views))
      modifies Pages.Views(f)`subviews, Pages.Views(f)`superview, Pages.Views(f)`window
      ensures Hierarchy.LegalRun(f, Replacement(this, old(subviews.vals), views))
      ensures g == Hierarchy.Run(f, Replacement(this, old(subviews.vals), views))
      ensures Rep(g, null) && Distinct(g) && Proper(g) && Pages.Views(g) == Pages.Views(f)
      ensures old(WindowsAgree(f)) ==> WindowsAgree(g)
    {
      hide *;
      var before := subviews.vals;
      g := f;
      RunStart(f, this, before, views);
      for i := 0 to |before|
        invariant IsHierarchy(g, Pages.Views(f), this) && subviews.vals == before[i..]
        invariant old(WindowsAgree(f)) ==> WindowsAgree(g)
        invariant Hierarchy.LegalRun(g, Replacement(this, before[i..], views))
        invariant Hierarchy.Run(g, Replacement(this, before[i..], views)) ==
                  Hierarchy.Run(f, Replacement(this, before, views))
      {
        RunRemoves(g, Pages.Views(f), this, before, i, views);
        RemoveSubview(before[i], g);
        g := Detach(g, before[i]);
        StillHierarchy(g, Pages.Views(f), this);
      }
      RunBetween(g, Pages.Views(f), this, before, views);
      g := AddEach(views, g);
    }

    /** Replaces the items of a collection view: every old one removes itself from its superview. */
    method SetContent(views: seq<NSView>, ghost f: Forest<NSView>) returns (ghost g: Forest<NSView>)
      requires Rep(f, null) && Distinct(f) && this in Pages.Views(f) && Proper(f) && subviews.Valid()
      requires Hierarchy.LegalRun(f, Replacement(this, subviews.vals, views))
      modifies Pages.Views(f)`subviews, Pages.Views(f)`superview, Pages.Views(f)`window
      ensures Hierarchy.LegalRun(f, Replacement(this, old(subviews.vals), views))
      ensures g == Hierarchy.Run(f, Replacement(this, old(subviews.vals), views))
      ensures Rep(g, null) && Distinct(g) && Proper(g) && Pages.Views(g) == Pages.Views(f)
      ensures old(WindowsAgree(f)) ==> WindowsAgree(g)
    {
      hide *;
      var before := subviews.vals;
      g := f;
      RunStart(f, this, before, views);
      for i := 0 to |before|
        invariant IsHierarchy(g, Pages.Views(f), this) && subviews.vals == before[i..]
        invariant old(WindowsAgree(f)) ==> WindowsAgree(g)
        invariant Hierarchy.LegalRun(g, Replacement(this, before[i..], views))
        invariant Hierarchy.Run(g, Replacement(this, before[i..], views)) ==
                  Hierarchy.Run(f, Replacement(this, before, views))
      {
        RunRemoves(g, Pages.Views(f), this, before, i, views);
        HeldBy(g, this, before[i]);
        before[i].RemoveFromSuperview(g);
        g := Detach(g, before[i]);
        StillHierarchy(g, Pages.Views(f), this);
      }
      RunBetween(g, Pages.Views(f), this, before, views);
      g := AddEach(views, g);
    }

    // ----- hit testing -----

    method HitTest(event: NSEvent<NSView>, ghost t: Forest<NSView>) returns (r: NSView?)
      requires IsTree(t, this)
      ensures r == if event.target in Pages.Views(t) then event.target else null
      decreases Size(t), 2
    {
      if kind.TabView? {
        r := HitTestTabView(event, t);
      } else {
        r := HitTestView(event, t);
      }
    }

    method HitTestTabView(event: NSEvent<NSView>, ghost t: Forest<NSView>) returns (r: NSView?)
      requires IsTree(t, this)
      ensures r == if event.target in Pages.Views(t) then event.target else null
      decreases Size(t), 1
    {
      Open(t, this);
      ghost var rest := t.items;
      for i := 0 to |items|
        invariant IsList(rest, items[i..], null) && Size(rest) <= Size(t.items)
        invariant event.target in Pages.Views(t.items) <==> event.target in Pages.Views(rest)
      {
        Step(rest, items, i, null);
        r := items[i].HitTest(event, Tree(rest));
        if r != null {
          return;
        }
        rest := rest.next;
      }
      r := HitTestView(event, t);
    }

    method HitTestView(event: NSEvent<NSView>, ghost t: Forest<NSView>) returns (r: NSView?)
      requires IsTree(t, this)
      requires event.target !in Pages.Views(t.items)
      ensures r == if event.target in Pages.Views(t) then event.target else null
      decreases Size(t), 0
    {
      Open(t, this);
      ghost var rest := t.subs;
      for i := 0 to |subviews.vals|
        invariant IsList(rest, subviews.vals[i..], this) && Size(rest) <= Size(t.subs)
        invariant event.target in Pages.Views(t.subs) <==> event.target in Pages.Views(rest)
      {
        Step(rest, subviews.vals, i, this);
        r := subviews.vals[i].HitTest(event, Tree(rest));
        if r != null {
          return;
        }
        rest := rest.next;
      }
      if event.target == this {
        return this;
      }
      return null;
    }

    // ----- drawing -----

    method Draw(context: NSGraphicsContext)
      requires ProperWidget(Snapshot()) && Draws(kind)
      modifies context
      ensures context.output == old(context.output) + Pages.Draw(this, Snapshot())
    {
      context.Emit(DrawCall(this));
      match kind
      case TextField(editable, password) =>
        if editable {
          context.Emit(Element(Typed(NameOf(elementId, persists[0]), if password then "" else Text(props["string"]))));
        }
      case PopUp(pullsDown, count) =>
        if !pullsDown {
          context.Emit(Element(Choice(elementId, count, Num(props["selectedIndex"]))));
        }
      case _ =>
    }

    /** The page grows by the displayed tree, matrices on display derive the states of their cells,
        and a scroll view at the top forgets its position. `c` are the superviews. */
    method Display(context: NSGraphicsContext, ghost t: Forest<NSView>, ghost c: seq<NSView>)
      requires IsTree(t, this) && Distinct(t) && Visible(c, superview)
      modifies context, Pages.Views(t)`props
      ensures IsTree(Shown(t, Every, superview == null), this) && Proper(t)
      ensures context.output == old(context.output) + Pages.Display(t, Every)
      decreases Size(t), 4
    {
      if kind.TabView? {
        DisplayTabView(context, t);
      } else if kind.Matrix? {
        var tags := DisplayMatrix(context, t, c);
      } else if kind.Collection? {
        var tags := DisplayCollection(context, t, c);
      } else if kind.ScrollView? {
        DisplayScrollView(context, t, c);
      } else {
        DisplayView(context, t, c);
      }
      TopMatters(t, superview == null);
    }

    /** The topmost scroll view forgets its position once it is displayed. */
    method DisplayScrollView(context: NSGraphicsContext, ghost t: Forest<NSView>, ghost c: seq<NSView>)
      requires IsTree(t, this) && Distinct(t) && Visible(c, superview) && kind.ScrollView?
      modifies context, Pages.Views(t)`props
      ensures IsTree(Shown(t, Every, superview == null), this) && Proper(t)
      ensures context.output == old(context.output) + Pages.Display(t, Every)
      decreases Size(t), 3
    {
      hide *;
      Open(t, this);
      Apart(t);
      KindIs(this);
      VisibleBelow(this, c);
      DisplayPlain(context.output, t);
      var isHidden := IsHidden(c);
      if isHidden {
        HiddenStays(t, this);
        return;
      }
      DisplayView(context, t, c);
      if superview == null {
        ForgetPosition(t);
      }
    }

    /** `scrollX` and `scrollY` become empty texts. */
    method ForgetPosition(ghost t: Forest<NSView>)
      requires t.Node? && t.next.Nil? && Proper(t) && Distinct(t) && IsTree(Shown(t, Every, false), this)
      requires kind.ScrollView? && !hidden && superview == null
      modifies this`props
      ensures IsTree(Shown(t, Every, true), this)
    {
      hide Pages.Views, Distinct, Shown, Proper, Retouched, Size, Tops;
      ghost var g := Shown(t, Every, false);
      ShownOne(t, false);
      ShownRetouches(t, Every, false);
      Distinctness(t, g);
      Open(g, this);
      Apart(g);
      assert allocated(Pages.Views(g));
      props := props[SCROLL_X := Str("")][SCROLL_Y := Str("")];
      Forgotten(t, this);
    }

    /** What every view inherits; that a scroll view has no superview does not matter here. */
    method DisplayView(context: NSGraphicsContext, ghost t: Forest<NSView>, ghost c: seq<NSView>)
      requires IsTree(t, this) && Distinct(t) && Visible(c, superview)
      requires !kind.TabView? && !kind.Matrix? && !kind.Collection?
      modifies context, Pages.Views(t)`props
      ensures IsTree(Shown(t, Every, false), this) && Proper(t)
      ensures context.output == old(context.output) + Pages.Display(t, Every)
      decreases Size(t), 2
    {
      hide *;
      Open(t, this);
      Apart(t);
      KindIs(this);
      DisplayPlain(context.output, t);
      if hidden {
        HiddenStays(t, this);
        return;
      }
      VisibleBelow(this, c);
      DisplayEach(subviews.vals, context, t.subs, this, [this] + c);
      Draw(context);
      SubviewsShown(t, Shown(t.subs, Every, false), this);
    }

    /** Displays a list of views, each with everything below it. */
    static method DisplayEach(
      views: seq<NSView>, context: NSGraphicsContext,
      ghost list: Forest<NSView>, ghost parent: NSView?, ghost c: seq<NSView>)
      requires IsList(list, views, parent) && Distinct(list) && Visible(c, parent)
      modifies context, Pages.Views(list)`props
      ensures Proper(list) && Rep(Shown(list, Every, parent == null), parent)
      ensures context.output == old(context.output) + Pages.Display(list, Every)
      decreases Size(list), 6
    {
      hide *;
      ghost var rest, acc := list, Nil;
      ShownStart(list, views, parent);
      for i := 0 to |views|
        invariant IsList(rest, views[i..], parent) && Proper(rest) && Distinct(rest) && Size(rest) <= Size(list)
        invariant Pages.Views(rest) <= Pages.Views(list)
        invariant Rep(acc, parent) && Pages.Views(acc) <= Pages.Views(list) && Pages.Views(acc) !! Pages.Views(rest)
        invariant Append(acc, Shown(rest, Every, parent == null)) == Shown(list, Every, parent == null)
        invariant context.output + Pages.Display(rest, Every) == old(context.output) + Pages.Display(list, Every)
      {
        rest, acc := DisplayTurn(i, views, context, rest, acc, parent, c);
      }
      ShownEnd(context.output, acc, rest, views[|views|..], parent);
    }

    /** One turn of a loop over views. */
    static method DisplayTurn(
      i: nat, views: seq<NSView>, context: NSGraphicsContext,
      ghost rest: Forest<NSView>, ghost acc: Forest<NSView>, ghost parent: NSView?, ghost c: seq<NSView>)
      returns (ghost rest': Forest<NSView>, ghost acc': Forest<NSView>)
      requires i < |views| && IsList(rest, views[i..], parent) && Proper(rest) && Distinct(rest) && Visible(c, parent)
      requires Rep(acc, parent) && Pages.Views(acc) !! Pages.Views(rest)
      modifies context, Pages.Views(rest)`props
      ensures IsList(rest', views[i + 1..], parent) && Proper(rest') && Distinct(rest') && Size(rest') < Size(rest)
      ensures Rep(acc', parent) && Pages.Views(acc') + Pages.Views(rest') == Pages.Views(acc) + Pages.Views(rest)
      ensures Pages.Views(acc') !! Pages.Views(rest') && Pages.Views(rest') <= Pages.Views(rest)
      ensures Append(acc', Shown(rest', Every, parent == null)) == Append(acc, Shown(rest, Every, parent == null))
      ensures context.output + Pages.Display(rest', Every) == old(context.output) + Pages.Display(rest, Every)
      decreases Size(rest), 5
    {
      hide *;
      EveryStays();
      assert allocated(Pages.Views(acc));
      Step(rest, views, i, parent);
      ShownCons(rest, Every, parent == null);
      DisplayCons(context.output, rest);
      views[i].Display(context, Tree(rest), c);
      acc' := Gather(acc, Shown(Tree(rest), Every, parent == null), Shown(rest.next, Every, parent == null), views[i]);
      rest' := rest.next;
      MoveOver(Pages.Views(acc), Pages.Views(Tree(rest)), Pages.Views(rest'), Pages.Views(rest), Pages.Views(acc'));
    }

    method DisplayTabView(context: NSGraphicsContext, ghost t: Forest<NSView>)
      requires IsTree(t, this) && Distinct(t) && kind.TabView?
      modifies context, Pages.Views(t)`props
      ensures IsTree(Shown(t, Every, false), this) && Proper(t)
      ensures context.output == old(context.output) + Pages.Display(t, Every)
      decreases Size(t), 3
    {
      hide *;
      Open(t, this);
      Apart(t);
      KindIs(this);
      DrawTabButtons(context);
      DisplaySelected(context, t.items);
      ItemShown(t, this);
      DisplayTree(old(context.output), t);
    }

    /** The view of the selected item, if there is such an item. */
    method DisplaySelected(context: NSGraphicsContext, ghost list: Forest<NSView>)
      requires IsList(list, items, null) && Distinct(list) && this !in Pages.Views(list)
      modifies context, Pages.Views(list)`props
      ensures Rep(Shown(list, Only(Selected(Snapshot())), true), null) && Proper(list)
      ensures context.output == old(context.output) + Pages.Display(list, Only(Selected(Snapshot())))
      decreases Size(list), 5
    {
      hide *;
      var selected := Selected(Read());
      SnapshotIs(this);
      ListLength(list, items, null);
      DisplayOnly(list, selected);
      ShownOnly(list, selected);
      if selected.Some? && 0 <= selected.value < |items| {
        var i := selected.value;
        NthTree(list, items, null, i);
        ListSplits(list, items, null, i);
        items[i].Display(context, Nth(list, i), []);
        ListJoins(Before(list, i), Shown(Nth(list, i), Every, true), After(list, i), items[i]);
      }
    }

    /** A matrix lays its cells out as a table and, in radio mode, derives their states again from
        the recorded selection with its row and column counters. */
    method DisplayMatrix(context: NSGraphicsContext, ghost t: Forest<NSView>, ghost c: seq<NSView>)
      returns (tags: seq<Markup.Token<NSView>>)
      requires IsTree(t, this) && Distinct(t) && Visible(c, superview) && kind.Matrix?
      modifies context, Pages.Views(t)`props
      ensures IsTree(Shown(t, Every, false), this) && Proper(t)
      ensures context.output == old(context.output) + Pages.Display(t, Every)
      ensures tags == if hidden then [] else Markup.TableOf(subviews.vals, 0, kind.columns)
      decreases Size(t), 3
    {
      hide *;
      Open(t, this);
      Apart(t);
      KindIs(this);
      VisibleBelow(this, c);
      DisplayPlain(context.output, t);
      tags := [];
      var isHidden := IsHidden(c);
      if isHidden {
        HiddenStays(t, this);
        return;
      }
      tags := DisplayCells(context, t.subs, t.w, [this] + c);
      SubviewsShown(t, Shown(Cells(t.w, t.subs, 0, 0), Every, false), this);
    }

    method DisplayCells(context: NSGraphicsContext, ghost list: Forest<NSView>, ghost m: Widget, ghost up: seq<NSView>)
      returns (tags: seq<Markup.Token<NSView>>)
      requires m.kind.Matrix? && Snapshot() == m && kind == m.kind && Visible(up, this)
      requires IsList(list, subviews.vals, this) && Distinct(list) && this !in Pages.Views(list)
      modifies context, Pages.Views(list)`props
      ensures Proper(list) && Rep(Shown(Cells(m, list, 0, 0), Every, false), this)
      ensures context.output == old(context.output) + Pages.Display(list, Every)
      ensures tags == Markup.TableOf(subviews.vals, 0, kind.columns)
      decreases Size(list), 6
    {
      hide *;
      tags := [Markup.OpenTable];
      var row, col := 0, 0;
      ghost var rest, acc, cells := list, Nil, subviews.vals;
      CellsStart(list, m, cells, this);
      Markup.EmittedFirst(cells, 0, kind.columns);
      for i := 0 to |subviews.vals|
        invariant IsList(rest, cells[i..], this) && Proper(rest) && Distinct(rest) && Size(rest) <= Size(list)
        invariant Pages.Views(rest) <= Pages.Views(list)
        invariant Rep(acc, this) && Pages.Views(acc) <= Pages.Views(list) && Pages.Views(acc) !! Pages.Views(rest)
        invariant Append(acc, Shown(Cells(m, rest, row, col), Every, false)) == Shown(Cells(m, list, 0, 0), Every, false)
        invariant context.output + Pages.Display(rest, Every) == old(context.output) + Pages.Display(list, Every)
        invariant Markup.Emitted(tags, cells, i, 0, row, col, kind.columns)
      {
        CellsNext(m, rest, cells, i, row, col, this);
        rest, acc := DisplayCell(i, row, col, context, rest, acc, m, up);
        assert allocated(Pages.Views(rest)) && allocated(Pages.Views(acc));
        tags, row, col := Markup.EmitCell(tags, subviews.vals[i], row, col, kind.columns, 0, cells, i);
      }
      CellsEnd(context.output, acc, rest, cells[|cells|..], m, row, col, this);
      Markup.EmittedAll(tags, cells, 0, row, col, kind.columns);
      if col > 1 {
        tags := tags + [Markup.CloseRow];
      }
      tags := tags + [Markup.CloseTable];
    }

    /** One turn of the loop over the cells of a matrix. */
    method DisplayCell(
      i: nat, row: int, col: int, context: NSGraphicsContext,
      ghost rest: Forest<NSView>, ghost acc: Forest<NSView>, ghost m: Widget, ghost up: seq<NSView>)
      returns (ghost rest': Forest<NSView>, ghost acc': Forest<NSView>)
      requires m.kind.Matrix? && Snapshot() == m && i < |subviews.vals|
      requires IsList(rest, subviews.vals[i..], this) && Proper(rest) && Distinct(rest) && Visible(up, this)
      requires Rep(acc, this) && Pages.Views(acc) !! Pages.Views(rest) && this !in Pages.Views(rest) && rest.Node?
      modifies context, Pages.Views(rest)`props
      ensures IsList(rest', subviews.vals[i + 1..], this) && Proper(rest') && Distinct(rest') && Size(rest') < Size(rest)
      ensures Rep(acc', this) && Pages.Views(acc') + Pages.Views(rest') == Pages.Views(acc) + Pages.Views(rest)
      ensures Pages.Views(acc') !! Pages.Views(rest') && Pages.Views(rest') <= Pages.Views(rest)
      ensures rest' == rest.next && Append(acc', Shown(OtherCells(m, rest, row, col), Every, false))
                      == Append(acc, Shown(Cells(m, rest, row, col), Every, false))
      ensures context.output + Pages.Display(rest', Every) == old(context.output) + Pages.Display(rest, Every)
      decreases Size(rest), 5
    {
      hide *;
      assert allocated(Pages.Views(acc));
      var item := subviews.vals[i];
      Step(rest, subviews.vals, i, this);
      CellsCons(m, rest, row, col);
      CellKeeps(m, Tree(rest), row, col);
      DisplayCons(context.output, rest);
      SnapshotIs(this);
      var w := Read();
      ghost var cell := item.SelectAsCell(w, row, col, Tree(rest));
      item.Display(context, cell, up);
      ShownViews(cell);
      acc' := Gather(acc, Shown(cell, Every, false), Shown(OtherCells(m, rest, row, col), Every, false), item);
      rest' := rest.next;
      MoveOver(Pages.Views(acc), Pages.Views(Tree(rest)), Pages.Views(rest'), Pages.Views(rest), Pages.Views(acc'));
      assert Rep(acc', this);
      assert Pages.Views(acc') + Pages.Views(rest') == Pages.Views(acc) + Pages.Views(rest);
      assert Pages.Views(acc') !! Pages.Views(rest') && Pages.Views(rest') <= Pages.Views(rest);
    }

    /** A cell of the matrix `m` takes the state it has at these coordinates. */
    method SelectAsCell(m: Widget, row: int, col: int, ghost t: Forest<NSView>) returns (ghost cell: Forest<NSView>)
      requires IsTree(t, this) && Distinct(t) && m.kind.Matrix?
      modifies this`props
      ensures t.Node? && cell == t.(w := Cell(m, t.w, row, col)) && IsTree(cell, this) && Distinct(cell)
      ensures Pages.Views(cell) == Pages.Views(t) && Size(cell) == Size(t)
    {
      Open(t, this);
      CellKeeps(m, t, row, col);
      if m.kind.radioMode && (kind.Button? || kind.PopUp?) {
        SetSelected(row == Number(m, "selectedRow") && col == Number(m, "selectedColumn"));
      }
      cell := t.(w := Snapshot());
    }

    /** A collection view lays its items out as a table, or side by side if it has no columns. */
    method DisplayCollection(context: NSGraphicsContext, ghost t: Forest<NSView>, ghost c: seq<NSView>)
      returns (tags: seq<Markup.Token<NSView>>)
      requires IsTree(t, this) && Distinct(t) && Visible(c, superview) && kind.Collection?
      modifies context, Pages.Views(t)`props
      ensures IsTree(Shown(t, Every, false), this) && Proper(t)
      ensures context.output == old(context.output) + Pages.Display(t, Every)
      ensures hidden ==> tags == []
      ensures !hidden && kind.perRow > 0 ==>
          (tags == Markup.TableOf(subviews.vals, 1, kind.perRow)
           && Markup.ReadTable(tags, 1) == Some(Markup.Rows(subviews.vals, kind.perRow)))
      ensures !hidden && kind.perRow <= 0 ==>
          (tags == Markup.Spans(subviews.vals, 1, kind.perRow < 0)
           && Markup.ReadSpans(tags, 1, kind.perRow < 0) == Some(subviews.vals))
      decreases Size(t), 3
    {
      hide *;
      Open(t, this);
      Apart(t);
      KindIs(this);
      VisibleBelow(this, c);
      DisplayPlain(context.output, t);
      tags := [];
      var isHidden := IsHidden(c);
      if isHidden {
        HiddenStays(t, this);
        return;
      }
      tags := DisplayItems(context, t.subs, [this] + c);
      SubviewsShown(t, Shown(t.subs, Every, false), this);
    }

    method DisplayItems(context: NSGraphicsContext, ghost list: Forest<NSView>, ghost up: seq<NSView>)
      returns (tags: seq<Markup.Token<NSView>>)
      requires kind.Collection? && Visible(up, this)
      requires IsList(list, subviews.vals, this) && Distinct(list) && this !in Pages.Views(list)
      modifies context, Pages.Views(list)`props
      ensures Proper(list) && Rep(Shown(list, Every, false), this)
      ensures context.output == old(context.output) + Pages.Display(list, Every)
      ensures kind.perRow > 0 ==>
          (tags == Markup.TableOf(subviews.vals, 1, kind.perRow)
           && Markup.ReadTable(tags, 1) == Some(Markup.Rows(subviews.vals, kind.perRow)))
      ensures kind.perRow <= 0 ==>
          (tags == Markup.Spans(subviews.vals, 1, kind.perRow < 0)
           && Markup.ReadSpans(tags, 1, kind.perRow < 0) == Some(subviews.vals))
      decreases Size(list), 6
    {
      hide *;
      tags := [];
      var columns := kind.perRow;
      if columns > 0 {
        tags := [Markup.OpenTable];
      }
      var row, col := 1, 1;
      ghost var rest, acc, views := list, Nil, subviews.vals;
      Markup.EmittedFirst(views, 1, columns);
      Markup.SpansFirst(views, columns < 0);
      ShownStart(list, views, this);
      for i := 0 to |subviews.vals|
        invariant IsList(rest, views[i..], this) && Proper(rest) && Distinct(rest) && Size(rest) <= Size(list)
        invariant Pages.Views(rest) <= Pages.Views(list)
        invariant Rep(acc, this) && Pages.Views(acc) <= Pages.Views(list) && Pages.Views(acc) !! Pages.Views(rest)
        invariant Append(acc, Shown(rest, Every, false)) == Shown(list, Every, false)
        invariant context.output + Pages.Display(rest, Every) == old(context.output) + Pages.Display(list, Every)
        invariant columns > 0 ==> Markup.Emitted(tags, views, i, 1, row, col, columns)
        invariant columns <= 0 ==> Markup.EmittedSpans(tags, views, i, col, columns < 0)
      {
        rest, acc := DisplayTurn(i, subviews.vals, context, rest, acc, this, up);
        assert allocated(Pages.Views(rest)) && allocated(Pages.Views(acc));
        if columns <= 0 {
          Markup.SpansNext(tags, views, i, col, columns < 0);
          tags := tags + Markup.Span(subviews.vals[i], col, columns < 0);
          col := col + 1;
        } else {
          tags, row, col := Markup.EmitCell(tags, subviews.vals[i], row, col, columns, 1, views, i);
        }
      }
      ShownEnd(context.output, acc, rest, views[|views|..], this);
      if columns <= 0 {
        Markup.SpansAll(tags, views, col, columns < 0);
        return;
      }
      Markup.EmittedAll(tags, views, 1, row, col, columns);
      if col > 1 {
        tags := tags + [Markup.CloseRow];
      }
      tags := tags + [Markup.CloseTable];
      Markup.TableReads(views, 1, columns);
    }

    method DrawTabButtons(context: NSGraphicsContext)
      requires kind.TabView?
      modifies context
      ensures context.output == old(context.output) + TabButtons(elementId, kind.hideTab, 0)
    {
      for i := 0 to |kind.hideTab|
        invariant context.output + TabButtons(elementId, kind.hideTab, i) ==
                  old(context.output) + TabButtons(elementId, kind.hideTab, 0)
      {
        if !kind.hideTab[i] {
          context.Emit(Element(Submit(TabName(elementId, i))));
        }
      }
    }

    // ----- finishing -----

    /** A tab view sets the flag of an item's view, as its pick says. */
    method SetHiddenAsItem(flag: bool, ghost t: Forest<NSView>, ghost pick: Pick) returns (ghost marked: Forest<NSView>)
      requires IsTree(t, this) && Distinct(t) && superview == null && pick.Only? && flag == !Chosen(pick)
      modifies this`hidden
      ensures IsTree(marked, this) && superview == null && Distinct(marked) && Size(marked) == Size(t)
      ensures Pages.Views(marked) == Pages.Views(t) && Proper(t) && Done(marked, false, Every) == Done(t, false, pick)
      ensures Chain([], null) && !AnyHidden([])
    {
      Open(t, this);
      SetHidden(flag);
      marked := t.(w := t.w.(hidden := flag));
      DoneMarked(t, pick);
    }

    method UnpersistString()
      requires Registered(persists, props) && |persists| > 0
      modifies this`persists
      ensures persists == UnpersistFirst(old(persists), props)
    {
      persists := persists[0 := persists[0].(default := props[persists[0].property])];
    }

    method DisplayDone(ghost t: Forest<NSView>, ghost c: seq<NSView>)
      requires IsTree(t, this) && Distinct(t) && Chain(c, superview) && (forall x :: x in c ==> x !in Pages.Views(t))
      modifies Pages.Views(t)`hidden, Pages.Views(t)`persists
      ensures superview == old(superview)
      ensures IsTree(Done(t, old(AnyHidden(c)), Every), this)
      decreases Size(t), 3
    {
      if kind.TabView? {
        DisplayDoneTabView(t, c);
      } else if kind.TextField? {
        DisplayDoneTextField(t, c);
      } else {
        DisplayDoneView(t, t, c);
      }
    }

    method DisplayDoneTextField(ghost t: Forest<NSView>, ghost c: seq<NSView>)
      requires IsTree(t, this) && Distinct(t) && Chain(c, superview) && (forall x :: x in c ==> x !in Pages.Views(t))
      requires kind.TextField?
      modifies Pages.Views(t)`hidden, Pages.Views(t)`persists
      ensures superview == old(superview)
      ensures IsTree(Done(t, old(AnyHidden(c)), Every), this)
      decreases Size(t), 2
    {
      Open(t, this);
      ghost var above := AnyHidden(c);
      var isHidden := IsHidden(c);
      if (!kind.editable || !isHidden) && !kind.password {
        UnpersistString();
      }
      assert Snapshot() == DoneWidget(t.w, above || t.w.hidden).(hidden := hidden);
      ghost var now := t.(w := Snapshot());
      DisplayDoneView(now, t, c);
    }

    method DisplayDoneTabView(ghost t: Forest<NSView>, ghost c: seq<NSView>)
      requires IsTree(t, this) && Distinct(t) && Chain(c, superview) && (forall x :: x in c ==> x !in Pages.Views(t))
      requires kind.TabView?
      modifies Pages.Views(t)`hidden, Pages.Views(t)`persists
      ensures superview == old(superview)
      ensures IsTree(Done(t, old(AnyHidden(c)), Every), this)
      decreases Size(t), 2
    {
      var w := Read();
      assert w == Snapshot() && Snapshot().kind == kind;
      hide *;
      Open(t, this);
      Apart(t);
      var selected := Selected(w);
      DisplayDoneItems(selected, t.items);
      ghost var now := WithItemsDone(t, this, selected);
      DisplayDoneView(now, t, c);
    }

    method DisplayDoneItems(selected: Option<int>, ghost list: Forest<NSView>)
      requires IsList(list, items, null) && Distinct(list) && this !in Pages.Views(list)
      modifies Pages.Views(list)`hidden, Pages.Views(list)`persists
      ensures Rep(Done(list, false, Only(selected)), null)
      decreases Size(list), 5
    {
      hide *;
      assert items[0..] == items;
      ghost var rest, acc := list, Nil;
      PickStep(selected, 0);
      StartGather(list, items, false, PickFrom(selected, 0), null);
      for i := 0 to |items|
        invariant IsList(rest, items[i..], null) && Proper(rest) && Distinct(rest) && Size(rest) <= Size(list)
        invariant Pages.Views(rest) <= Pages.Views(list)
        invariant Rep(acc, null) && Pages.Views(acc) <= Pages.Views(list) && Pages.Views(acc) !! Pages.Views(rest)
        invariant Append(acc, Done(rest, false, PickFrom(selected, i))) == Done(list, false, PickFrom(selected, 0))
      {
        rest, acc := DisplayDoneItem(i, selected, rest, acc);
      }
      EndGather(rest, acc, items[|items|..], false, PickFrom(selected, |items|), null);
    }

    /** One turn of the loop over the items. */
    method DisplayDoneItem(i: nat, selected: Option<int>, ghost rest: Forest<NSView>, ghost acc: Forest<NSView>)
      returns (ghost rest': Forest<NSView>, ghost acc': Forest<NSView>)
      requires i < |items| && IsList(rest, items[i..], null) && Proper(rest) && Distinct(rest)
      requires Rep(acc, null) && Pages.Views(acc) !! Pages.Views(rest) && this !in Pages.Views(rest)
      modifies Pages.Views(rest)`hidden, Pages.Views(rest)`persists
      ensures IsList(rest', items[i + 1..], null) && Proper(rest') && Distinct(rest') && Size(rest') < Size(rest)
      ensures Rep(acc', null) && Pages.Views(acc') + Pages.Views(rest') == Pages.Views(acc) + Pages.Views(rest)
      ensures Pages.Views(acc') !! Pages.Views(rest') && Pages.Views(rest') <= Pages.Views(rest)
      ensures Append(acc', Done(rest', false, PickFrom(selected, i + 1))) ==
              Append(acc, Done(rest, false, PickFrom(selected, i)))
      decreases Size(rest), 4
    {
      hide *;
      assert allocated(Pages.Views(acc));
      ghost var pick := PickFrom(selected, i);
      PickStep(selected, i);
      Step(rest, items, i, null);
      DoneCons(rest, false, pick);
      ghost var marked := items[i].SetHiddenAsItem(selected != Some(i), Tree(rest), pick);
      items[i].DisplayDone(marked, []);
      acc' := Gather(acc, Done(Tree(rest), false, pick), Done(rest.next, false, PickFrom(selected, i + 1)), items[i]);
      rest' := rest.next;
      MoveOver(Pages.Views(acc), Pages.Views(Tree(rest)), Pages.Views(rest'), Pages.Views(rest), Pages.Views(acc'));
    }

    /** The view itself and its items may already be finished: `t` is what the tree stood for
        before, `now` what it stands for, and only the subviews are left to do. */
    method DisplayDoneView(ghost now: Forest<NSView>, ghost t: Forest<NSView>, ghost c: seq<NSView>)
      requires IsTree(now, this) && Distinct(now) && Proper(t)
      requires t.Node? && t.next.Nil? && t.view == this && now.subs == t.subs
      requires Chain(c, superview) && (forall x :: x in c ==> x !in Pages.Views(now))
      requires now.w == DoneWidget(t.w, AnyHidden(c) || t.w.hidden).(hidden := t.w.hidden)
      requires now.items == Done(t.items, false, Only(Selected(t.w)))
      modifies Pages.Views(now)`hidden, Pages.Views(now)`persists
      ensures superview == old(superview)
      ensures IsTree(Done(t, old(AnyHidden(c)), Every), this)
      decreases Size(now), 1
    {
      Longer(now, this, c);
      hide *;
      Open(now, this);
      Apart(now);
      ghost var above := AnyHidden(c);
      DisplayDoneSubviews(now.subs, [this] + c);
      SubviewsDone(now, t, this, above);
    }

    method DisplayDoneSubviews(ghost list: Forest<NSView>, ghost up: seq<NSView>)
      requires IsList(list, subviews.vals, this) && Distinct(list)
      requires Chain(up, this) && (forall x :: x in up ==> x !in Pages.Views(list)) && this !in Pages.Views(list)
      modifies Pages.Views(list)`hidden, Pages.Views(list)`persists
      ensures Rep(Done(list, old(AnyHidden(up)), Every), this)
      decreases Size(list), 5
    {
      hide *;
      assert subviews.vals[0..] == subviews.vals;
      ghost var h := AnyHidden(up);
      ghost var rest, acc := list, Nil;
      StartGather(list, subviews.vals, h, Every, this);
      for i := 0 to |subviews.vals|
        invariant IsList(rest, subviews.vals[i..], this) && Proper(rest) && Distinct(rest) && Size(rest) <= Size(list)
        invariant Pages.Views(rest) <= Pages.Views(list)
        invariant Rep(acc, this) && Pages.Views(acc) <= Pages.Views(list) && Pages.Views(acc) !! Pages.Views(rest)
        invariant Append(acc, Done(rest, h, Every)) == Done(list, h, Every)
      {
        rest, acc := DisplayDoneSubview(i, rest, acc, up);
      }
      EndGather(rest, acc, subviews.vals[|subviews.vals|..], h, Every, this);
    }

    /** One turn of the loop over the subviews. */
    method DisplayDoneSubview(i: nat, ghost rest: Forest<NSView>, ghost acc: Forest<NSView>, ghost up: seq<NSView>)
      returns (ghost rest': Forest<NSView>, ghost acc': Forest<NSView>)
      requires i < |subviews.vals| && IsList(rest, subviews.vals[i..], this) && Proper(rest) && Distinct(rest)
      requires Chain(up, this) && (forall x :: x in up ==> x !in Pages.Views(rest))
      requires Rep(acc, this) && Pages.Views(acc) !! Pages.Views(rest) && this !in Pages.Views(rest)
      modifies Pages.Views(rest)`hidden, Pages.Views(rest)`persists
      ensures IsList(rest', subviews.vals[i + 1..], this) && Proper(rest') && Distinct(rest') && Size(rest') < Size(rest)
      ensures Rep(acc', this) && Pages.Views(acc') + Pages.Views(rest') == Pages.Views(acc) + Pages.Views(rest)
      ensures Pages.Views(acc') !! Pages.Views(rest') && Pages.Views(rest') <= Pages.Views(rest)
      ensures Append(acc', Done(rest', old(AnyHidden(up)), Every)) == Append(acc, Done(rest, old(AnyHidden(up)), Every))
      decreases Size(rest), 4
    {
      hide *;
      EveryStays();
      assert allocated(Pages.Views(acc));
      ghost var h := AnyHidden(up);
      Step(rest, subviews.vals, i, this);
      DoneCons(rest, h, Every);
      subviews.vals[i].DisplayDone(Tree(rest), up);
      acc' := Gather(acc, Done(Tree(rest), h, Every), Done(rest.next, h, Every), subviews.vals[i]);
      rest' := rest.next;
      MoveOver(Pages.Views(acc), Pages.Views(Tree(rest)), Pages.Views(rest'), Pages.Views(rest), Pages.Views(acc'));
    }

    // ----- persisting -----

    /** Every persistor of the view writes itself. */
    method WriteOwn(context: NSGraphicsContext)
      requires Registered(persists, props)
      modifies context
      ensures context.output == old(context.output) + Elements(WriteAll(elementId, persists, props))
    {
      assert persists[0..] == persists;
      for i := 0 to |persists|
        invariant context.output + Elements(WriteAll(elementId, persists[i..], props)) ==
                  old(context.output) + Elements(WriteAll(elementId, persists, props))
      {
        var p := persists[i];
        WriteCons(context.output, elementId, persists, i, props);
        if props[p.property] != p.default {
          context.Emit(Element(Input.Hidden(NameOf(elementId, p), Text(props[p.property]))));
        }
      }
    }

    method WritePersist(context: NSGraphicsContext, ghost t: Forest<NSView>)
      requires IsTree(t, this)
      modifies context
      ensures context.output == old(context.output) + Pages.WritePersist(t)
      decreases Size(t), 1
    {
      hide *;
      Open(t, this);
      if kind.TabView? {
        WriteEach(items, context, t.items, null);
      }
      WriteEach(subviews.vals, context, t.subs, this);
      WriteOwn(context);
      WriteTree(old(context.output), t);
    }

    static method WriteEach(
      views: seq<NSView>, context: NSGraphicsContext, ghost list: Forest<NSView>, ghost parent: NSView?)
      requires IsList(list, views, parent)
      modifies context
      ensures Proper(list) && context.output == old(context.output) + Pages.WritePersist(list)
      decreases Size(list), 2
    {
      hide *;
      ghost var rest := list;
      WriteList(context.output, list, views, parent);
      for i := 0 to |views|
        invariant IsList(rest, views[i..], parent) && Proper(rest) && Size(rest) <= Size(list)
        invariant context.output + Pages.WritePersist(rest) == old(context.output) + Pages.WritePersist(list)
      {
        Step(rest, views, i, parent);
        WriteHead(context.output, rest);
        views[i].WritePersist(context, Tree(rest));
        rest := rest.next;
      }
      WriteList(context.output, rest, views[|views|..], parent);
    }

    // ----- collecting events -----

    /** The collector every responder inherits. */
    method CollectResponder(app: NSApplication)
      modifies app`eventQueue
      ensures !kind.PopUp? ==>
                app.eventQueue == old(app.eventQueue) + InheritedEvent(this, Snapshot(), app.post)
    {
      if "NSEvent" in app.post && app.post["NSEvent"] == elementId {
        app.QueueEvent(NSEvent(this, Lookup(app.post, "clickedRow"), Lookup(app.post, "clickedColumn")));
      }
    }

    method CollectPopUp(app: NSApplication)
      requires ProperWidget(Snapshot()) && kind.PopUp?
      modifies app`eventQueue, this`props
      ensures Snapshot() == CollectedWidget(old(Snapshot()), app.post)
      ensures app.eventQueue == old(app.eventQueue) + OwnEvents(this, old(Snapshot()), app.post)
    {
      var state := SelectedItem(Read());
      if elementId in app.post && Num(Str(app.post[elementId])) != state {
        app.QueueEvent(NSEvent(this, None, None));
        var index := Num(Str(app.post[elementId]));
        if Num(props["selectedIndex"]) != index {
          props := props["selectedIndex" := Int(index)];
        }
      }
    }

    method CollectTabButtons(app: NSApplication)
      requires ProperWidget(Snapshot()) && kind.TabView?
      modifies app`eventQueue, this`kind
      ensures kind.TabView?
      ensures Snapshot() == CollectedWidget(old(Snapshot()), app.post)
      ensures app.eventQueue == old(app.eventQueue) + OwnEvents(this, old(Snapshot()), app.post)
    {
      var count, clicked := |kind.hideTab|, -1;
      for i := 0 to count
        invariant clicked == -1 && app.eventQueue == old(app.eventQueue)
        invariant Pressed(elementId, 0, count, app.post) == Pressed(elementId, i, count, app.post)
      {
        if TabName(elementId, i) in app.post {
          clicked := i;
          app.QueueEvent(NSEvent(this, None, None));
          break;
        }
      }
      kind := TabView(kind.hideTab, clicked);
    }

    method CollectEvents(app: NSApplication, ghost t: Forest<NSView>)
      requires IsTree(t, this) && Distinct(t)
      modifies app`eventQueue, Pages.Views(t)`props, Pages.Views(t)`kind
      ensures superview == old(superview) && IsTree(Collect(t, app.post), this)
      ensures Proper(t) && app.eventQueue == old(app.eventQueue) + Queue(t, app.post)
      decreases Size(t), 4
    {
      if kind.PopUp? {
        Open(t, this);
        CollectPopUp(app);
        PopUpCollected(old(app.eventQueue), t, this, app.post);
      } else if kind.TabView? {
        CollectTabView(app, t);
      } else {
        CollectOther(app, t);
      }
    }

    method CollectTabView(app: NSApplication, ghost t: Forest<NSView>)
      requires IsTree(t, this) && Distinct(t) && kind.TabView?
      modifies app`eventQueue, Pages.Views(t)`props, Pages.Views(t)`kind
      ensures superview == old(superview) && IsTree(Collect(t, app.post), this)
      ensures Proper(t) && app.eventQueue == old(app.eventQueue) + Queue(t, app.post)
      decreases Size(t), 3
    {
      hide *;
      Open(t, this);
      Apart(t);
      SameViews(t.items, app.post);
      CollectEach(items, app, t.items, null);
      KindIs(this);
      CollectTabButtons(app);
      CollectView(app, t);
      QueueTree(old(app.eventQueue), t, app.post);
    }

    method CollectOther(app: NSApplication, ghost t: Forest<NSView>)
      requires IsTree(t, this) && Distinct(t) && !kind.PopUp? && !kind.TabView?
      modifies app`eventQueue, Pages.Views(t)`props, Pages.Views(t)`kind
      ensures superview == old(superview) && IsTree(Collect(t, app.post), this)
      ensures Proper(t) && app.eventQueue == old(app.eventQueue) + Queue(t, app.post)
      decreases Size(t), 3
    {
      hide *;
      Open(t, this);
      Apart(t);
      KindIs(this);
      if kind.Button? && "NSEvent" !in app.post {
        props := props["state" := Int(0)];
      }
      OtherCollected(t, this, app.post);
      CollectView(app, t);
      QueueTree(old(app.eventQueue), t, app.post);
    }

    /** `t` is what the tree stood for before; the view's own part and its items are done. */
    method CollectView(app: NSApplication, ghost t: Forest<NSView>)
      requires t.Node? && t.view == this && t.next.Nil? && Proper(t) && Distinct(t) && !kind.PopUp?
      requires Snapshot() == CollectedWidget(t.w, app.post) && items == Tops(t.items)
      requires Rep(Collect(t.items, app.post), null) && IsList(t.subs, subviews.vals, this)
      modifies app`eventQueue, Pages.Views(t.subs)`props, Pages.Views(t.subs)`kind
      ensures superview == old(superview) && IsTree(Collect(t, app.post), this)
      ensures app.eventQueue ==
              old(app.eventQueue) + Queue(t.subs, app.post) + InheritedEvent(this, t.w, app.post)
      decreases Size(t), 2
    {
      hide *;
      Apart(t);
      ProperParts(t);
      KindIs(this);
      NotPopUp(t.w, app.post);
      TopsOf(t.subs, subviews.vals, this);
      SameViews(t.items, app.post);
      SameViews(t.subs, app.post);
      CollectEach(subviews.vals, app, t.subs, this);
      CollectResponder(app);
      ViewCollected(t, this, app.post);
      SameInherited(this, t.w, app.post);
    }

    static method CollectEach(
      views: seq<NSView>, app: NSApplication, ghost list: Forest<NSView>, ghost parent: NSView?)
      requires IsList(list, views, parent) && Distinct(list) && (parent != null ==> parent !in Pages.Views(list))
      modifies app`eventQueue, Pages.Views(list)`props, Pages.Views(list)`kind
      ensures Proper(list) && Rep(Collect(list, app.post), parent)
      ensures app.eventQueue == old(app.eventQueue) + Queue(list, app.post)
      decreases Size(list), 6
    {
      hide *;
      ghost var rest, acc := list, Nil;
      CollectStart(app.eventQueue, list, views, parent, app.post);
      for i := 0 to |views|
        invariant IsList(rest, views[i..], parent) && Proper(rest) && Distinct(rest) && Size(rest) <= Size(list)
        invariant Pages.Views(rest) <= Pages.Views(list)
        invariant Rep(acc, parent) && Pages.Views(acc) <= Pages.Views(list) && Pages.Views(acc) !! Pages.Views(rest)
        invariant Append(acc, Collect(rest, app.post)) == Collect(list, app.post)
        invariant app.eventQueue + Queue(rest, app.post) == old(app.eventQueue) + Queue(list, app.post)
      {
        rest, acc := CollectTurn(i, views, app, rest, acc, parent);
      }
      CollectEnd(app.eventQueue, acc, rest, views[|views|..], parent, app.post);
    }

    /** One turn of a loop over views. */
    static method CollectTurn(
      i: nat, views: seq<NSView>, app: NSApplication,
      ghost rest: Forest<NSView>, ghost acc: Forest<NSView>, ghost parent: NSView?)
      returns (ghost rest': Forest<NSView>, ghost acc': Forest<NSView>)
      requires i < |views| && IsList(rest, views[i..], parent) && Proper(rest) && Distinct(rest)
      requires Rep(acc, parent) && Pages.Views(acc) !! Pages.Views(rest)
      modifies app`eventQueue, Pages.Views(rest)`props, Pages.Views(rest)`kind
      ensures IsList(rest', views[i + 1..], parent) && Proper(rest') && Distinct(rest') && Size(rest') < Size(rest)
      ensures Rep(acc', parent) && Pages.Views(acc') + Pages.Views(rest') == Pages.Views(acc) + Pages.Views(rest)
      ensures Pages.Views(acc') !! Pages.Views(rest') && Pages.Views(rest') <= Pages.Views(rest)
      ensures Append(acc', Collect(rest', app.post)) == Append(acc, Collect(rest, app.post))
      ensures app.eventQueue + Queue(rest', app.post) == old(app.eventQueue) + Queue(rest, app.post)
      decreases Size(rest), 5
    {
      hide *;
      assert allocated(Pages.Views(acc));
      Step(rest, views, i, parent);
      CollectCons(rest, app.post);
      QueueHead(app.eventQueue, rest, app.post);
      views[i].CollectEvents(app, Tree(rest));
      acc' := Gather(acc, Collect(Tree(rest), app.post), Collect(rest.next, app.post), views[i]);
      rest' := rest.next;
      MoveOver(Pages.Views(acc), Pages.Views(Tree(rest)), Pages.Views(rest'), Pages.Views(rest), Pages.Views(acc'));
    }

    // ----- clicks -----

    method SelectTabViewItemAtIndex(index: int)
      requires kind.TabView?
      modifies this`props
      ensures props == if 0 <= index < |kind.hideTab| && !kind.hideTab[index]
                       then old(props)["selectedIndex" := Int(index)] else old(props)
    {
      if index < 0 || index >= |kind.hideTab| {
        return;
      }
      if kind.hideTab[index] {
        return;
      }
      props := props["selectedIndex" := Int(index)];
    }

    method SetNextState()
      requires kind.Button?
      modifies this`props
      ensures Snapshot() == WithState(old(Snapshot()), Grids.NextState(State(old(Snapshot())), kind.allowsMixedState))
      ensures var s := State(old(Snapshot()));
              State(Snapshot()) == if s == 0 then 1 else if s > 0 && kind.allowsMixedState then -1 else 0
    {
      var state := State(Read());
      if state < Grids.OFF {
        SetState(Grids.OFF);
      } else if state == Grids.OFF {
        SetState(Grids.ON);
      } else if kind.allowsMixedState {
        SetState(Grids.MIXED);
      } else {
        SetState(Grids.OFF);
      }
    }

    method SetState(value: int)
      modifies this`props
      ensures Snapshot() == WithState(old(Snapshot()), value)
    {
      if State(Read()) == value {
        return;
      }
      props := props["state" := Int(value)];
    }

    /** Buttons and pop-up buttons understand it. */
    method SetSelected(flag: bool)
      modifies this`props
      ensures Snapshot() == WithSelected(old(Snapshot()), flag)
    {
      if kind.Button? || kind.PopUp? {
        SetState(if flag then Grids.ON else Grids.OFF);
      }
    }

    /** The same for a view of the forest. */
    method SetSelectedIn(flag: bool, ghost f: Forest<NSView>) returns (ghost g: Forest<NSView>)
      requires Rep(f, null) && Distinct(f) && this in Pages.Views(f)
      modifies this`props
      ensures g == Put(f, this, WithSelected(WidgetOf(f, this), flag)) && Rep(g, null) && Distinct(g)
    {
      hide Pages.Views, TreeOf, ParentOf, SubsOf, ItemsOf, WidgetOf, Rep, Distinct, WithSelected, Put, Touched;
      assert allocated(Pages.Views(f));
      RepIsPointwise(f, null);
      assert At(f, this, null);
      SetSelected(flag);
      g := Put(f, this, WithSelected(WidgetOf(f, this), flag));
      forall x | x in Pages.Views(f)
        ensures LinkedIn(f, x) && x.Snapshot() == if x == this then WithSelected(WidgetOf(f, this), flag) else WidgetOf(f, x)
      {
        assert old(At(f, x, null));
      }
      Matrices.WithSelectedState(WidgetOf(f, this), flag);
      PutIsRep(f, this, WithSelected(WidgetOf(f, this), flag));
    }

    /** What a click makes of the view itself: a tab view selects the clicked item, a checkbox or
        radio button takes its next state. */
    method ChangeItself(ghost f: Forest<NSView>) returns (ghost g: Forest<NSView>)
      requires Rep(f, null) && Distinct(f) && this in Pages.Views(f)
      modifies this`props
      ensures g == Put(f, this, ClickedWidget(WidgetOf(f, this))) && Rep(g, null) && Distinct(g)
    {
      hide Pages.Views, TreeOf, ParentOf, SubsOf, ItemsOf, WidgetOf, Rep, Distinct, Put, Touched;
      assert allocated(Pages.Views(f));
      RepIsPointwise(f, null);
      assert At(f, this, null);
      if kind.TabView? {
        SelectTabViewItemAtIndex(kind.clickedItem);
      } else if kind.Button? && !kind.buttonType.PushButton? {
        SetNextState();
      }
      assert Snapshot() == ClickedWidget(WidgetOf(f, this));
      g := Put(f, this, ClickedWidget(WidgetOf(f, this)));
      forall x | x in Pages.Views(f)
        ensures LinkedIn(f, x) && x.Snapshot() == if x == this then ClickedWidget(WidgetOf(f, this)) else WidgetOf(f, x)
      {
        assert old(At(f, x, null));
      }
      PutIsRep(f, this, ClickedWidget(WidgetOf(f, this)));
    }

    // ----- cells of a matrix -----

    /** The place of a direct child, counting positions. */
    method GetRowColumnOfCell(cell: NSView) returns (found: bool, row: int, column: int)
      requires kind.Matrix?
      ensures found <==> cell in subviews.vals
      ensures found ==> row == Grids.RowOf(IndexOf(subviews.vals, cell), kind.columns)
      ensures found ==> column == Grids.ColumnOf(IndexOf(subviews.vals, cell), kind.columns)
    {
      found, row, column := cell in subviews.vals, 0, 0;
      if found {
        var idx := IndexOf(subviews.vals, cell);
        row, column := idx / kind.columns, idx % kind.columns;
      }
    }

    /** The subview whose key the coordinates stand for, whatever was removed before. */
    method CellAtRowColumn(row: int, column: int) returns (cell: NSView?)
      requires kind.Matrix? && subviews.Valid()
      ensures cell == CellOf(subviews, row, column, kind.columns)
      ensures forall i :: IsPlace(subviews.vals, i, row, column, kind.columns) ==>
          (cell == subviews.vals[i] <==> subviews.keys[i] == i)
    {
      PlacesAndKeys(subviews, row, column, kind.columns);
      if row < 0 || row * kind.columns >= |subviews.vals| + kind.columns - 1 {
        return null;
      }
      if column < 0 || column >= kind.columns {
        return null;
      }
      var idx := row * kind.columns + column;
      assert idx >= 0;
      match Get(subviews, idx) {
        case None => cell := null;
        case Some(c) => cell := c;
      }
    }

    method SelectedCell(ghost f: Forest<NSView>) returns (cell: NSView?)
      requires Rep(f, null) && Distinct(f) && this in Pages.Views(f) && kind.Matrix? && subviews.Valid()
      ensures cell == FromOpt(Actions.SelectedCell(f, KeysOf(Pages.Views(f)), this))
      ensures cell != null ==> cell in Pages.Views(f)
    {
      hide *;
      assert allocated(Pages.Views(f));
      SelectedIs(f, this);
      cell := CellAtRowColumn(Number(Read(), "selectedRow"), Number(Read(), "selectedColumn"));
    }

    method MarkSelectedCell(flag: bool, ghost f: Forest<NSView>) returns (ghost g: Forest<NSView>)
      requires Rep(f, null) && Distinct(f) && this in Pages.Views(f) && kind.Matrix? && subviews.Valid()
      modifies Pages.Views(f)`props
      ensures g == MarkSelected(f, KeysOf(Pages.Views(f)), this, flag) && Rep(g, null) && Distinct(g)
    {
      hide *;
      MarkedIs(f, KeysOf(Pages.Views(f)), this, flag);
      g := f;
      var item := SelectedCell(f);
      if item != null {
        g := item.SetSelectedIn(flag, f);
      }
    }

    /** The recorded selection moves. */
    method PlaceAt(row: int, column: int, ghost f: Forest<NSView>) returns (ghost g: Forest<NSView>)
      requires Rep(f, null) && Distinct(f) && this in Pages.Views(f)
      modifies this`props
      ensures g == Placed(f, this, row, column) && Rep(g, null) && Distinct(g)
    {
      hide Pages.Views, TreeOf, ParentOf, SubsOf, ItemsOf, WidgetOf, Rep, Distinct, Put, Touched;
      assert allocated(Pages.Views(f));
      RepIsPointwise(f, null);
      assert At(f, this, null);
      props := props["selectedRow" := Int(row)];
      props := props["selectedColumn" := Int(column)];
      g := Placed(f, this, row, column);
      forall x | x in Pages.Views(f)
        ensures LinkedIn(f, x) && x.Snapshot() == if x == this then PlacedWidget(WidgetOf(f, this), row, column) else WidgetOf(f, x)
      {
        assert old(At(f, x, null));
      }
      PutIsRep(f, this, PlacedWidget(WidgetOf(f, this), row, column));
    }

    method SelectRowColumn(row: int, column: int, ghost f: Forest<NSView>) returns (ghost g: Forest<NSView>)
      requires Rep(f, null) && Distinct(f) && this in Pages.Views(f) && kind.Matrix? && subviews.Valid()
      modifies Pages.Views(f)`props
      ensures g == SelectAt(f, KeysOf(Pages.Views(f)), this, row, column) && Rep(g, null) && Distinct(g)
    {
      hide *;
      SelectIs(f, KeysOf(Pages.Views(f)), this, row, column);
      g := f;
      if kind.radioMode {
        g := MarkSelectedCell(false, g);
      }
      g := PlaceAt(row, column, g);
      if kind.radioMode {
        g := MarkSelectedCell(true, g);
      }
    }

    method Record(row: int, column: int, ghost f: Forest<NSView>) returns (ghost g: Forest<NSView>)
      requires Rep(f, null) && Distinct(f) && this in Pages.Views(f) && kind.Matrix?
      modifies this`kind
      ensures g == Put(f, this, RecordedWidget(WidgetOf(f, this), row, column)) && Rep(g, null) && Distinct(g)
      ensures kind == old(kind).(clickedRow := row, clickedColumn := column)
    {
      hide Pages.Views, TreeOf, ParentOf, SubsOf, ItemsOf, WidgetOf, Rep, Distinct, Put, Touched;
      assert allocated(Pages.Views(f));
      RepIsPointwise(f, null);
      assert At(f, this, null);
      kind := kind.(clickedRow := row, clickedColumn := column);
      g := Put(f, this, RecordedWidget(WidgetOf(f, this), row, column));
      forall x | x in Pages.Views(f)
        ensures LinkedIn(f, x) && x.Snapshot() == if x == this then RecordedWidget(WidgetOf(f, this), row, column) else WidgetOf(f, x)
      {
        assert old(At(f, x, null));
      }
      PutIsRep(f, this, RecordedWidget(WidgetOf(f, this), row, column));
    }

    // ----- actions -----

    /** Sends the action of the view to its target, or, without one, looks upwards for the nearest
        matrix. */
    method SendAction(app: NSApplication, ghost f: Forest<NSView>, ghost path: seq<NSView>)
      returns (ghost g: Forest<NSView>)
      requires Rep(f, null) && Distinct(f) && this in Pages.Views(f) && Climbs(Pages.Views(f), this, path)
      modifies app`sent, Pages.Views(f)`props, Pages.Views(f)`kind
      ensures g == Actions.SendAction(f, old(KeysOf(Pages.Views(f))), this, path) && Rep(g, null) && Distinct(g)
      ensures app.sent == old(app.sent) + ActionsOf(f, this, path)
      decreases |path|, 0
    {
      hide *;
      ActionHere(f, KeysOf(Pages.Views(f)), this, path);
      g := f;
      if action != "" {
        app.sent := app.sent + [(this, action)];
        return;
      }
      var super := superview;
      ghost var i := 0;
      while super != null
        invariant 0 <= i <= |path| && Chain(path[i..], super) && Climbs(Pages.Views(f), this, path)
        invariant Rep(f, null) && app.sent == old(app.sent)
        invariant forall j :: 0 <= j < i ==> !IsMatrix(f, path[j])
        decreases |path| - i
      {
        ChainStep(f, this, path, i, super);
        if super.kind.Matrix? {
          Reaches(f, KeysOf(Pages.Views(f)), this, path, i);
          g := super.ClickedCell(app, this, f, path[i + 1..]);
          return;
        }
        super := super.superview;
        i := i + 1;
      }
      NoneReached(f, KeysOf(Pages.Views(f)), this, path, i);
    }

    /** The view is told that an action without a target came up from `cell`. */
    method ClickedCell(app: NSApplication, cell: NSView, ghost f: Forest<NSView>, ghost up: seq<NSView>)
      returns (ghost g: Forest<NSView>)
      requires Rep(f, null) && Distinct(f) && this in Pages.Views(f) && Climbs(Pages.Views(f), this, up)
      requires kind.Matrix? && cell in Pages.Views(f)
      modifies app`sent, Pages.Views(f)`props, Pages.Views(f)`kind
      ensures cell !in SubsOf(f, this) ==> g == f && app.sent == old(app.sent)
      ensures cell in SubsOf(f, this) ==>
          && g == Actions.SendAction(ClickCell(f, old(KeysOf(Pages.Views(f))), this, cell), old(KeysOf(Pages.Views(f))), this, up)
          && app.sent == old(app.sent) + ActionsOf(f, this, up)
      ensures Rep(g, null) && Distinct(g)
      decreases |up|, 2
    {
      hide *;
      CellPlace(f, KeysOf(Pages.Views(f)), this, cell);
      g := f;
      var found, row, column := GetRowColumnOfCell(cell);
      if found {
        RecordStays(f, this, row, column, up);
        g := Record(row, column, f);
        g := MouseDownMatrix(app, g, up);
      }
    }

    method MouseDownMatrix(app: NSApplication, ghost f: Forest<NSView>, ghost up: seq<NSView>)
      returns (ghost g: Forest<NSView>)
      requires Rep(f, null) && Distinct(f) && this in Pages.Views(f) && Climbs(Pages.Views(f), this, up) && kind.Matrix?
      modifies app`sent, Pages.Views(f)`props, Pages.Views(f)`kind
      ensures g == Actions.SendAction(
          SelectAt(f, old(KeysOf(Pages.Views(f))), this, old(kind.clickedRow), old(kind.clickedColumn)),
          old(KeysOf(Pages.Views(f))), this, up)
      ensures app.sent == old(app.sent) + ActionsOf(f, this, up)
      ensures Rep(g, null) && Distinct(g)
      decreases |up|, 1
    {
      hide *;
      SelectStays(f, KeysOf(Pages.Views(f)), this, kind.clickedRow, kind.clickedColumn, up);
      g := SelectRowColumn(kind.clickedRow, kind.clickedColumn, f);
      g := SendAction(app, g, up);
    }

    /** A tab view selects the item that was clicked; a button changes its state and sends its
        action, a matrix moves its selection and sends its action. */
    method MouseDown(app: NSApplication, ghost f: Forest<NSView>) returns (ghost g: Forest<NSView>)
      requires Rep(f, null) && Distinct(f) && this in Pages.Views(f) && Arrays(Pages.Views(f))
      modifies app`calls, app`sent, Pages.Views(f)`props, Pages.Views(f)`kind
      ensures g == Click(f, old(KeysOf(Pages.Views(f))), this) && Rep(g, null) && Distinct(g)
      ensures app.calls == old(app.calls) + [this] && app.sent == old(app.sent) + ClickSends(f, this)
    {
      hide *;
      ghost var up := PathOf(f, this, []);
      PathClimbs(f, this);
      ClickIs(f, KeysOf(Pages.Views(f)), this);
      app.calls := app.calls + [this];
      if kind.Matrix? {
        g := MouseDownMatrix(app, f, up);
      } else {
        g := ChangeItself(f);
        ChangeStays(f, g, this, up);
        if kind.Button? || kind.PopUp? || kind.TextField? {
          g := SendAction(app, g, up);
        }
      }
    }

    function Read(): (w: Widget)
      reads this
      ensures w == Snapshot()
    {
      Widget(kind, elementId, hidden, action, props, persists)
    }
  }

  // ----- lists of views -----

  lemma EveryStays()
    ensures Next(Every) == Every
  {
  }

  ghost predicate IsTree(t: Forest<NSView>, v: NSView)
    reads v, Pages.Views(t)
  {
    t.Node? && t.next.Nil? && t.view == v && Rep(t, v.superview) && Proper(t)
  }

  lemma DownTree(t: Forest<NSView>)
    requires t.Node? && t.next.Nil? && Distinct(t)
    ensures Down(t) == {t.view} + Down(t.subs) && t.view !in Down(t.subs) && Down(t.subs) <= Pages.Views(t.subs)
    ensures allocated(Down(t))
  {
    DownInside(t.subs);
  }

  lemma DownStep(f: Forest<NSView>)
    requires f.Node? && Distinct(f)
    ensures Down(f) == Down(Tree(f)) + Down(f.next) && Down(Tree(f)) !! Down(f.next)
    ensures Down(Tree(f)) <= Pages.Views(Tree(f)) && Down(f.next) <= Pages.Views(f.next)
    ensures allocated(Down(f.next))
  {
    DownInside(Tree(f));
    DownInside(f.next);
  }

  lemma DownEnd(f: Forest<NSView>, views: seq<NSView>, parent: NSView?)
    requires IsList(f, views, parent) && views == []
    ensures Down(f) == {}
  {
  }

  ghost predicate IsList(f: Forest<NSView>, views: seq<NSView>, parent: NSView?)
    reads Pages.Views(f)
  {
    Rep(f, parent) && Proper(f) && Tops(f) == views
  }

  lemma MoveOver<T>(done: set<T>, one: set<T>, later: set<T>, rest: set<T>, done': set<T>)
    requires rest == one + later && done' == done + one && one !! later && done !! rest
    ensures done' + later == done + rest && done' !! later && later <= rest
  {
  }

  /** One more tree of a list is finished. */
  lemma Gather(acc: Forest<NSView>, t: Forest<NSView>, later: Forest<NSView>, v: NSView)
    returns (r: Forest<NSView>)
    requires Rep(acc, v.superview) && IsTree(t, v)
    ensures Rep(r, v.superview) && Pages.Views(r) == Pages.Views(acc) + Pages.Views(t)
    ensures Append(r, later) == Append(acc, Append(t, later))
    ensures allocated(Pages.Views(r))
  {
    r := Append(acc, t);
    RepAppend(acc, t, v.superview);
    AppendViews(acc, t);
    AppendAssociates(acc, t, later);
  }

  /** A tab view whose items are finished already. */
  lemma WithItemsDone(t: Forest<NSView>, v: NSView, selected: Option<int>) returns (now: Forest<NSView>)
    requires t.Node? && t.next.Nil? && t.view == v && Proper(t) && Distinct(t) && t.w.kind.TabView?
    requires selected == Selected(t.w) && v.Snapshot() == t.w && v.items == Tops(t.items)
    requires IsList(t.subs, v.subviews.vals, v) && Rep(Done(t.items, false, Only(selected)), null)
    ensures IsTree(now, v) && Distinct(now) && Pages.Views(now) == Pages.Views(t) && Size(now) == Size(t)
    ensures now.Node? && now.subs == t.subs && now.items == Done(t.items, false, Only(Selected(t.w)))
    ensures forall h :: now.w == DoneWidget(t.w, h).(hidden := t.w.hidden)
  {
    now := t.(items := Done(t.items, false, Only(selected)));
    DoneProper(t.items, false, Only(selected));
    DoneDistinct(t.items, false, Only(selected));
  }

  lemma WriteList(before: seq<Output<NSView>>, f: Forest<NSView>, views: seq<NSView>, parent: NSView?)
    requires IsList(f, views, parent)
    ensures Proper(f) && views[0..] == views && (views == [] ==> before + Pages.WritePersist(f) == before)
  {
  }

  /** A pop-up button collects for itself only. */
  lemma PopUpCollected(before: seq<NSEvent<NSView>>, t: Forest<NSView>, v: NSView, form: Form)
    requires t.Node? && t.next.Nil? && t.view == v && Proper(t) && t.w.kind.PopUp?
    requires v.Snapshot() == CollectedWidget(t.w, form)
    requires v.items == Tops(t.items) && v.subviews.vals == Tops(t.subs) && Rep(t.subs, v)
    ensures IsTree(Collect(t, form), v)
    ensures before + Queue(t, form) == before + OwnEvents(v, t.w, form)
  {
    CollectRetouches(t, form);
  }

  lemma ProperParts(t: Forest<NSView>)
    requires t.Node? && Proper(t)
    ensures Proper(t.subs) && Proper(t.items) && ProperWidget(t.w)
  {
  }

  lemma {:induction false} TreeIsTree(f: Forest<NSView>, v: NSView, parent: NSView?)
    requires Rep(f, parent) && Proper(f) && v in Pages.Views(f)
    ensures IsTree(TreeOf(f, v), v)
  {
    if f.view == v {
    } else if v in Pages.Views(f.subs) {
      TreeIsTree(f.subs, v, f.view);
    } else if v in Pages.Views(f.items) {
      TreeIsTree(f.items, v, null);
    } else {
      TreeIsTree(f.next, v, parent);
    }
  }

  /** One view is linked as the forest says and has the widget the forest gives it. */
  ghost predicate At(f: Forest<NSView>, v: NSView, parent: NSView?)
    requires v in Pages.Views(f)
    reads v
  {
    && v.superview == FromOpt(ParentOf(f, v, Opt(parent)))
    && v.subviews.vals == SubsOf(f, v) && v.items == ItemsOf(f, v) && v.Snapshot() == WidgetOf(f, v)
  }

  function Opt(v: NSView?): Option<NSView>
  {
    if v == null then None else Some(v)
  }

  /** Nothing but the list of `p` and the superview of `view` is different. */
  lemma Removed(f: Forest<NSView>, p: NSView, view: NSView, i: nat)
    requires Distinct(f) && p in Pages.Views(f) && view in Pages.Views(f)
    requires i < |SubsOf(f, p)| && view == SubsOf(f, p)[i]
    requires Distinct(Detach(f, view)) && Pages.Views(Detach(f, view)) == Pages.Views(f)
    requires forall x :: x in Pages.Views(f) ==>
               && x.Snapshot() == WidgetOf(f, x) && x.items == ItemsOf(f, x)
               && x.subviews.vals == (if x == p then SubsOf(f, x)[..i] + SubsOf(f, x)[i + 1..] else SubsOf(f, x))
               && x.superview == if x == view then null else FromOpt(ParentOf(f, x, None))
    ensures Rep(Detach(f, view), null)
  {
    var g := Detach(f, view);
    forall x | x in Pages.Views(g)
      ensures At(g, x, null)
    {
      DetachLinks(f, p, view, i, x);
    }
    PointwiseIsRep(g, null);
  }

  lemma SuperviewHolds(f: Forest<NSView>, v: NSView)
    requires Rep(f, null) && Distinct(f) && v in Pages.Views(f) && v.superview != null
    ensures v.superview in Pages.Views(f) && v in v.superview.subviews.vals
    ensures forall i, j :: 0 <= i < j < |v.superview.subviews.vals| ==>
              v.superview.subviews.vals[i] != v.superview.subviews.vals[j]
  {
    SuperviewIs(f, v);
    var p := v.superview;
    ParentHasChild(f, v, p, None);
    SuperviewIs(f, p);
    TopsDistinct(TreeOf(f, p).subs);
  }

  /** The window of every view is that of its superview. */
  ghost predicate WindowsAgree(f: Forest<NSView>)
    reads Pages.Views(f)
  {
    forall x :: x in Pages.Views(f) && ParentOf(f, x, None).Some? ==>
      var q := ParentOf(f, x, None).value; q in Pages.Views(f) && x.window == q.window
  }

  /** Of a map that holds the window of every view: superviews and their children agree. */
  ghost predicate WindowsWere(f: Forest<NSView>, was: map<NSView, NSWindow?>)
  {
    && was.Keys == Pages.Views(f)
    && forall x :: x in Pages.Views(f) && ParentOf(f, x, None).Some? ==>
         var q := ParentOf(f, x, None).value; q in Pages.Views(f) && was[x] == was[q]
  }

  lemma NoteWindows(f: Forest<NSView>) returns (was: map<NSView, NSWindow?>)
    ensures was.Keys == Pages.Views(f) && forall x :: x in Pages.Views(f) ==> was[x] == x.window
    ensures WindowsAgree(f) ==> WindowsWere(f, was)
    ensures allocated(Pages.Views(f))
  {
    was := map x | x in Pages.Views(f) :: x.window;
  }

  /** After one view `v` got another superview or lost it, and all views down from it a window. */
  lemma WindowsFollow(
    f: Forest<NSView>, g: Forest<NSView>, v: NSView, top: Option<NSView>, window: NSWindow?, was: map<NSView, NSWindow?>)
    requires Distinct(f) && v in Pages.Views(f) && Pages.Views(g) == Pages.Views(f) && WindowsWere(f, was)
    requires forall x :: x in Pages.Views(f) ==> ParentOf(g, x, None) == if x == v then top else ParentOf(f, x, None)
    requires forall x :: x in Pages.Views(f) ==> x.window == if x in Down(TreeOf(f, v)) then window else was[x]
    requires top.Some? ==> top.value in Pages.Views(f) && top.value.window == window
    ensures WindowsAgree(g)
  {
    DownInside(TreeOf(f, v));
    forall x | x in Pages.Views(g) && ParentOf(g, x, None).Some?
      ensures var q := ParentOf(g, x, None).value; q in Pages.Views(g) && x.window == q.window
    {
      if x == v {
        assert v in Down(TreeOf(f, v));
      } else {
        DownOf(f, v, x, ParentOf(f, x, None).value);
      }
    }
  }

  lemma WindowsAfterAdd(f: Forest<NSView>, p: NSView, v: NSView, was: map<NSView, NSWindow?>)
    requires Distinct(f) && p in Pages.Views(f) && v in Pages.Views(f) && v != p && Addable(f, p, v)
    requires ParentOf(f, v, None).None? && WindowsWere(f, was)
    requires forall x :: x in Pages.Views(f) ==> x.window == if x in Down(TreeOf(f, v)) then p.window else was[x]
    ensures WindowsAgree(Add(f, p, v))
  {
    AddKeepsForest(f, p, v);
    forall x | x in Pages.Views(f)
      ensures ParentOf(Add(f, p, v), x, None) == if x == v then Some(p) else ParentOf(f, x, None)
    {
      AddLinks(f, p, v, x);
    }
    WindowsFollow(f, Add(f, p, v), v, Some(p), p.window, was);
  }

  lemma WindowsAfterDetach(f: Forest<NSView>, p: NSView, c: NSView, was: map<NSView, NSWindow?>)
    requires Distinct(f) && p in Pages.Views(f) && c in SubsOf(f, p) && c in Pages.Views(f) && WindowsWere(f, was)
    requires forall x :: x in Pages.Views(f) ==> x.window == if x in Down(TreeOf(f, c)) then null else was[x]
    ensures WindowsAgree(Detach(f, c))
  {
    DetachKeepsForest(f, c);
    forall x | x in Pages.Views(f)
      ensures ParentOf(Detach(f, c), x, None) == if x == c then None else ParentOf(f, x, None)
    {
      DetachLinks(f, p, c, IndexOf(SubsOf(f, p), c), x);
    }
    WindowsFollow(f, Detach(f, c), c, None, null, was);
  }

  /** `g` is a forest of the given views, and the arrays of all of them are sound. */
  ghost predicate IsHierarchy(g: Forest<NSView>, views: set<NSView>, v: NSView)
    reads Pages.Views(g), v
  {
    Rep(g, null) && Distinct(g) && Proper(g) && Pages.Views(g) == views && v in views && v.subviews.Valid()
  }

  lemma StillHierarchy(g: Forest<NSView>, views: set<NSView>, v: NSView)
    requires Rep(g, null) && Distinct(g) && Proper(g) && Pages.Views(g) == views && v in views && v.subviews.Valid()
    ensures IsHierarchy(g, views, v)
  {
  }

  lemma RunStart(f: Forest<NSView>, p: NSView, before: seq<NSView>, views: seq<NSView>)
    requires Rep(f, null) && Distinct(f) && Proper(f) && p in Pages.Views(f) && p.subviews.Valid()
    ensures IsHierarchy(f, Pages.Views(f), p) && before[0..] == before
  {
  }

  lemma RunRemoves(
    g: Forest<NSView>, all: set<NSView>, p: NSView, before: seq<NSView>, i: nat, views: seq<NSView>)
    requires IsHierarchy(g, all, p) && i < |before| && p.subviews.vals == before[i..]
    requires Hierarchy.LegalRun(g, Replacement(p, before[i..], views))
    ensures before[i] in Pages.Views(g) && Rep(g, null) && Distinct(g) && Proper(g) && Pages.Views(g) == all
    ensures Down(TreeOf(g, before[i])) <= all
    ensures p in all && p.subviews.Valid() && before[i] in p.subviews.vals
    ensures p.subviews.Unset(IndexOf(p.subviews.vals, before[i])).vals == before[i + 1..]
    ensures Hierarchy.LegalRun(Detach(g, before[i]), Replacement(p, before[i + 1..], views))
    ensures Hierarchy.Run(Detach(g, before[i]), Replacement(p, before[i + 1..], views)) ==
            Hierarchy.Run(g, Replacement(p, before[i..], views))
  {
    hide Pages.Views, TreeOf, Rep, Distinct, Proper, Detach, Down;
    DownInside(TreeOf(g, before[i]));
    var rest := before[i..];
    assert rest[1..] == before[i + 1..] && rest[0] == before[i];
    var changes := Replacement(p, rest, views);
    assert changes[0] == RemoveSubview(before[i]) && changes[1..] == Replacement(p, before[i + 1..], views);
  }

  lemma HeldBy(f: Forest<NSView>, p: NSView, c: NSView)
    requires Rep(f, null) && Distinct(f) && p in Pages.Views(f) && c in Pages.Views(f) && c in p.subviews.vals
    ensures c.superview == p
  {
    SuperviewIs(f, p);
    SuperviewIs(f, c);
    ChildHasOneParent(f, p, c, p, None);
  }

  /** The subviews of a view are distinct views of the forest. */
  lemma ListedViews(f: Forest<NSView>, v: NSView)
    requires Rep(f, null) && Distinct(f) && v in Pages.Views(f)
    ensures forall c :: c in v.subviews.vals ==> c in Pages.Views(f) && Down(TreeOf(f, c)) <= Pages.Views(f)
    ensures forall i, j :: 0 <= i < j < |v.subviews.vals| ==> v.subviews.vals[i] != v.subviews.vals[j]
  {
    SuperviewIs(f, v);
    var subs := TreeOf(f, v).subs;
    TopsDistinct(subs);
    TopsAreViews(subs);
    forall c | c in v.subviews.vals
      ensures c in Pages.Views(f) && Down(TreeOf(f, c)) <= Pages.Views(f)
    {
      assert Pages.Views(subs) <= Pages.Views(TreeOf(f, v));
      DownInside(TreeOf(f, c));
    }
  }

  lemma AddableTree(g: Forest<NSView>, all: set<NSView>, p: NSView, v: NSView)
    requires IsHierarchy(g, all, p) && v in all && Addable(g, p, v)
    ensures v in Pages.Views(g) && Rep(g, null) && Distinct(g) && Proper(g) && Pages.Views(g) == all
    ensures Down(TreeOf(g, v)) <= all && p in all && p.subviews.Valid()
    ensures Pages.Views(Add(g, p, v)) == all && Proper(Add(g, p, v))
  {
    DownInside(TreeOf(g, v));
    AddKeepsForest(g, p, v);
    AddedTree(g, p, v);
  }

  lemma RunBetween(
    g: Forest<NSView>, all: set<NSView>, p: NSView, before: seq<NSView>, views: seq<NSView>)
    requires IsHierarchy(g, all, p)
    ensures Replacement(p, before[|before|..], views) == Additions(p, views)
    ensures Pages.Views(g) == all && allocated(Pages.Views(g))
  {
    assert before[|before|..] == [];
  }

  lemma RunAdds(g: Forest<NSView>, all: set<NSView>, p: NSView, views: seq<NSView>, i: nat)
    requires IsHierarchy(g, all, p) && i < |views| && Hierarchy.LegalRun(g, Additions(p, views[i..]))
    ensures views[i] in Pages.Views(g) && Rep(g, null) && Distinct(g) && Proper(g) && Pages.Views(g) == all
    ensures Down(TreeOf(g, views[i])) <= all
    ensures p in all && p.subviews.Valid() && Addable(g, p, views[i])
    ensures Pages.Views(Add(g, p, views[i])) == all && Proper(Add(g, p, views[i]))
    ensures Hierarchy.LegalRun(Add(g, p, views[i]), Additions(p, views[i + 1..]))
    ensures Hierarchy.Run(Add(g, p, views[i]), Additions(p, views[i + 1..])) ==
            Hierarchy.Run(g, Additions(p, views[i..]))
  {
    DownInside(TreeOf(g, views[i]));
    var rest := views[i..];
    assert rest[1..] == views[i + 1..] && rest[0] == views[i];
    var changes := Additions(p, rest);
    assert changes[0] == AddSubview(p, views[i]) && changes[1..] == Additions(p, views[i + 1..]);
    AddKeepsForest(g, p, views[i]);
    AddedTree(g, p, views[i]);
  }

  lemma RunEnd(g: Forest<NSView>, all: set<NSView>, p: NSView, views: seq<NSView>)
    requires IsHierarchy(g, all, p) && views == []
    ensures Rep(g, null) && Distinct(g) && Proper(g) && Pages.Views(g) == all
    ensures Hierarchy.LegalRun(g, Additions(p, views)) && Hierarchy.Run(g, Additions(p, views)) == g
  {
  }

  lemma SuperviewIs(f: Forest<NSView>, v: NSView)
    requires Rep(f, null) && Distinct(f) && v in Pages.Views(f)
    ensures v.superview == FromOpt(ParentOf(f, v, None))
    ensures v.superview == null <==> ParentOf(f, v, None).None?
    ensures v.subviews.vals == SubsOf(f, v)
  {
    RepIsPointwise(f, null);
    assert At(f, v, null);
  }

  /** Nothing but the list of `p` and the superview of `view` is new. */
  lemma Added(f: Forest<NSView>, p: NSView, view: NSView)
    requires Distinct(f) && p in Pages.Views(f) && view in Pages.Views(f) && Addable(f, p, view)
    requires view != p && ParentOf(f, view, None).None? && LinkedAfterAdd(f, p, view) && WidgetsAre(f)
    ensures Rep(Add(f, p, view), null) && Distinct(Add(f, p, view))
  {
    var g := Add(f, p, view);
    AddKeepsForest(f, p, view);
    forall x | x in Pages.Views(g)
      ensures At(g, x, null)
    {
      AddLinks(f, p, view, x);
    }
    PointwiseIsRep(g, null);
  }

  /** The links that adding `view` to `p` leaves. */
  ghost predicate LinkedAfterAdd(f: Forest<NSView>, p: NSView, view: NSView)
    reads Pages.Views(f)`subviews, Pages.Views(f)`superview, Pages.Views(f)`items
  {
    forall x :: x in Pages.Views(f) ==>
      && x.subviews.vals == SubsOf(f, x) + (if x == p then [view] else [])
      && x.superview == (if x == view then p else FromOpt(ParentOf(f, x, None)))
      && x.items == ItemsOf(f, x)
  }

  ghost predicate WidgetsAre(f: Forest<NSView>)
    reads Pages.Views(f)`kind, Pages.Views(f)`elementId, Pages.Views(f)`hidden, Pages.Views(f)`action
    reads Pages.Views(f)`props, Pages.Views(f)`persists
  {
    forall x :: x in Pages.Views(f) ==> x.Snapshot() == WidgetOf(f, x)
  }

  lemma WhoIsAddable(f: Forest<NSView>, p: NSView, v: NSView)
    requires Distinct(f) && p in Pages.Views(f) && v in Pages.Views(f)
    ensures v == p || ParentOf(f, v, None).Some? ==> Addable(f, p, v)
    ensures Addable(f, p, v) && v != p && ParentOf(f, v, None).None? ==> p !in Pages.Views(TreeOf(f, v))
    ensures Distinct(TreeOf(f, v)) && allocated(Pages.Views(f))
  {
  }

  /** A tree stays one when its top gets another superview. */
  lemma TopStays(t: Forest<NSView>, v: NSView)
    requires t.Node? && t.next.Nil? && t.view == v && Proper(t) && v.Snapshot() == t.w
    requires v.subviews.vals == Tops(t.subs) && v.items == Tops(t.items) && Rep(t.subs, v) && Rep(t.items, null)
    ensures IsTree(t, v)
  {
  }

  function FromOpt(v: Option<NSView>): NSView?
  {
    if v.Some? then v.value else null
  }

  /** `Rep` says of every view on its own what `At` says. */
  lemma {:induction false} RepIsPointwise(f: Forest<NSView>, parent: NSView?)
    requires Rep(f, parent) && Distinct(f)
    ensures forall v :: v in Pages.Views(f) ==> At(f, v, parent)
  {
    if f.Node? {
      RepIsPointwise(f.subs, f.view);
      RepIsPointwise(f.items, null);
      RepIsPointwise(f.next, parent);
      assert At(f, f.view, parent);
      forall v | v in Pages.Views(f) && v != f.view ensures At(f, v, parent) {
        LiftAt(f, v, parent);
      }
    }
  }

  lemma LiftAt(f: Forest<NSView>, v: NSView, parent: NSView?)
    requires f.Node? && Distinct(f) && v in Pages.Views(f) && v != f.view
    requires v in Pages.Views(f.subs) ==> At(f.subs, v, f.view)
    requires v in Pages.Views(f.items) ==> At(f.items, v, null)
    requires v in Pages.Views(f.next) ==> At(f.next, v, parent)
    ensures At(f, v, parent)
  {
  }

  lemma {:induction false} PointwiseIsRep(f: Forest<NSView>, parent: NSView?)
    requires Distinct(f) && forall v :: v in Pages.Views(f) ==> At(f, v, parent)
    ensures Rep(f, parent)
  {
    if f.Node? {
      assert At(f, f.view, parent);
      forall v | v in Pages.Views(f.subs) ensures At(f.subs, v, f.view) { assert At(f, v, parent); }
      forall v | v in Pages.Views(f.items) ensures At(f.items, v, null) { assert At(f, v, parent); }
      forall v | v in Pages.Views(f.next) ensures At(f.next, v, parent) { assert At(f, v, parent); }
      PointwiseIsRep(f.subs, f.view);
      PointwiseIsRep(f.items, null);
      PointwiseIsRep(f.next, parent);
    }
  }

  lemma KindIs(v: NSView)
    ensures v.Snapshot().kind == v.kind && v.Snapshot().hidden == v.hidden
    ensures Draws(v.kind) <==> !v.kind.TabView? && !v.kind.Matrix? && !v.kind.Collection?
  {
  }

  lemma SnapshotIs(v: NSView)
    ensures v.Read() == v.Snapshot()
  {
  }

  // ----- displaying -----

  /** A view that is no tab view shows its subviews and then draws, or nothing if it is hidden. */
  lemma DisplayPlain(before: seq<Output<NSView>>, t: Forest<NSView>)
    requires Proper(t) && t.Node? && t.next.Nil? && !t.w.kind.TabView?
    ensures Proper(t.subs) && ProperWidget(t.w)
    ensures before + Pages.Display(t, Every) ==
        if t.w.hidden then before
        else if Draws(t.w.kind) then (before + Pages.Display(t.subs, Every)) + Pages.Draw(t.view, t.w)
        else before + Pages.Display(t.subs, Every)
  {
    DisplayTree(before, t);
    if !Draws(t.w.kind) {
      assert Pages.Draw(t.view, t.w) == [];
    }
  }

  lemma HiddenStays(t: Forest<NSView>, v: NSView)
    requires IsTree(t, v) && v.hidden && !v.kind.TabView?
    ensures IsTree(Shown(t, Every, v.superview == null), v) && IsTree(Shown(t, Every, false), v)
  {
    ShownOne(t, true);
    ShownOne(t, false);
  }

  /** Only a scroll view looks at whether it has a superview. */
  lemma TopMatters(t: Forest<NSView>, top: bool)
    requires t.Node? && t.next.Nil?
    ensures !t.w.kind.ScrollView? ==> Shown(t, Every, top) == Shown(t, Every, false)
  {
    ShownOne(t, top);
    ShownOne(t, false);
  }

  lemma Forgotten(t: Forest<NSView>, v: NSView)
    requires t.Node? && t.next.Nil? && t.view == v && Proper(t) && t.w.kind.ScrollView? && !t.w.hidden
    requires v.Snapshot() == t.w.(props := t.w.props[SCROLL_X := Str("")][SCROLL_Y := Str("")])
    requires var g := Shown(t, Every, false);
        v.subviews.vals == Tops(g.subs) && v.items == Tops(g.items) && Rep(g.subs, v) && Rep(g.items, null)
    ensures IsTree(Shown(t, Every, true), v)
  {
    ShownOne(t, false);
    ShownOne(t, true);
    ShownRetouches(t, Every, true);
    Properness(t, Shown(t, Every, true));
  }

  lemma VisibleBelow(v: NSView, c: seq<NSView>)
    requires Visible(c, v.superview)
    ensures Chain(c, v.superview) && !AnyHidden(c) && (!v.hidden ==> Visible([v] + c, v))
  {
    assert ([v] + c)[1..] == c;
  }

  lemma ShownViews(t: Forest<NSView>)
    ensures Pages.Views(Shown(t, Every, false)) == Pages.Views(t)
  {
  }

  lemma ShownStart(list: Forest<NSView>, views: seq<NSView>, parent: NSView?)
    requires IsList(list, views, parent)
    ensures Proper(list) && views[0..] == views && Rep(Nil, parent) && Pages.Views<NSView>(Nil) == {}
    ensures var shown := Shown(list, Every, parent == null); Append(Nil, shown) == shown
  {
  }

  lemma ShownEnd(
    out: seq<Output<NSView>>, acc: Forest<NSView>, rest: Forest<NSView>, views: seq<NSView>, parent: NSView?)
    requires IsList(rest, views, parent) && views == []
    ensures Proper(rest) && Append(acc, Shown(rest, Every, parent == null)) == acc && out + Pages.Display(rest, Every) == out
  {
    AppendViews(acc, Nil);
  }

  /** The view's subviews were displayed. */
  lemma SubviewsShown(t: Forest<NSView>, subs: Forest<NSView>, v: NSView)
    requires t.Node? && t.next.Nil? && t.view == v && Proper(t) && v.Snapshot() == t.w && !t.w.kind.TabView? && !v.hidden
    requires v.subviews.vals == Tops(t.subs) && v.items == Tops(t.items) && Rep(subs, v) && Rep(t.items, null)
    requires subs == Shown(if t.w.kind.Matrix? then Cells(t.w, t.subs, 0, 0) else t.subs, Every, false)
    ensures IsTree(Shown(t, Every, false), v)
  {
    ShownOne(t, false);
    ShownRetouches(t, Every, false);
    Properness(t, Shown(t, Every, false));
  }

  /** The view of the selected item was displayed. */
  lemma ItemShown(t: Forest<NSView>, v: NSView)
    requires t.Node? && t.next.Nil? && t.view == v && Proper(t) && v.Snapshot() == t.w && t.w.kind.TabView?
    requires v.subviews.vals == Tops(t.subs) && v.items == Tops(t.items) && Rep(t.subs, v)
    requires Rep(Shown(t.items, Only(Selected(t.w)), true), null)
    ensures IsTree(Shown(t, Every, false), v)
  {
    ShownOne(t, false);
    ShownRetouches(t, Every, false);
    Properness(t, Shown(t, Every, false));
  }

  lemma ListLength(list: Forest<NSView>, views: seq<NSView>, parent: NSView?)
    requires IsList(list, views, parent)
    ensures Proper(list) && Length(list) == |views| && Rep(list, parent) && allocated(Pages.Views(list))
  {
    TopsAreViews(list);
  }

  lemma {:induction false} ListSplits(list: Forest<NSView>, views: seq<NSView>, parent: NSView?, i: nat)
    requires IsList(list, views, parent) && Distinct(list) && i < |views|
    ensures Length(list) == |views| && Rep(Before(list, i), parent) && Rep(After(list, i), parent)
    ensures Pages.Views(Nth(list, i)) <= Pages.Views(list) && Distinct(Nth(list, i)) && Size(Nth(list, i)) <= Size(list)
    ensures Pages.Views(Before(list, i)) !! Pages.Views(Nth(list, i))
    ensures Pages.Views(After(list, i)) !! Pages.Views(Nth(list, i))
    ensures views[i].superview == parent && (parent == null ==> Visible([], views[i].superview))
    ensures allocated(Pages.Views(Before(list, i))) && allocated(Pages.Views(After(list, i)))
  {
    assert views[0..] == views;
    Step(list, views, 0, parent);
    TopsAreViews(list);
    SplitApart(list, i);
    if i > 0 {
      ListSplits(list.next, views[1..], parent, i - 1);
    }
  }

  lemma ListJoins(before: Forest<NSView>, t: Forest<NSView>, after: Forest<NSView>, v: NSView)
    requires Rep(before, v.superview) && IsTree(t, v) && Rep(after, v.superview)
    ensures Rep(Append(before, Append(t, after)), v.superview)
  {
    RepAppend(t, after, v.superview);
    RepAppend(before, Append(t, after), v.superview);
  }

  lemma CellsNext(m: Widget, rest: Forest<NSView>, views: seq<NSView>, i: nat, row: int, col: int, v: NSView)
    requires m.kind.Matrix? && i < |views| && IsList(rest, views[i..], v)
    ensures rest.Node?
    ensures OtherCells(m, rest, row, col)
        == if col + 1 >= m.kind.columns then Cells(m, rest.next, row + 1, 0) else Cells(m, rest.next, row, col + 1)
  {
  }

  lemma CellsStart(list: Forest<NSView>, m: Widget, views: seq<NSView>, v: NSView)
    requires IsList(list, views, v) && m.kind.Matrix?
    ensures Proper(list) && views[0..] == views && Rep(Nil, v) && Pages.Views<NSView>(Nil) == {}
    ensures var cells := Shown(Cells(m, list, 0, 0), Every, false); Append(Nil, cells) == cells
  {
  }

  lemma CellsEnd(
    out: seq<Output<NSView>>, acc: Forest<NSView>, rest: Forest<NSView>, views: seq<NSView>,
    m: Widget, row: int, col: int, parent: NSView?)
    requires IsList(rest, views, parent) && views == [] && m.kind.Matrix?
    ensures Proper(rest) && Append(acc, Shown(Cells(m, rest, row, col), Every, false)) == acc
    ensures out + Pages.Display(rest, Every) == out
  {
    AppendViews(acc, Nil);
  }

  lemma SameViews(f: Forest<NSView>, form: Form)
    requires Proper(f)
    ensures Pages.Views(Collect(f, form)) == Pages.Views(f) && allocated(Pages.Views(f))
  {
  }

  lemma ViewCollected(t: Forest<NSView>, v: NSView, form: Form)
    requires t.Node? && t.view == v && t.next.Nil? && Proper(t) && !v.kind.PopUp?
    requires v.Snapshot() == CollectedWidget(t.w, form) && v.items == Tops(t.items) && v.subviews.vals == Tops(t.subs)
    requires Rep(Collect(t.items, form), null) && Rep(Collect(t.subs, form), v)
    ensures IsTree(Collect(t, form), v)
  {
    NotPopUp(t.w, form);
    CollectRetouches(t, form);
    CollectNode(t, form);
    hide *;
    MakeTree(v, CollectedWidget(t.w, form), Collect(t.subs, form), Collect(t.items, form));
  }

  lemma CollectNode(t: Forest<NSView>, form: Form)
    requires t.Node? && t.next.Nil? && Proper(t) && !t.w.kind.PopUp?
    ensures ProperWidget(t.w) && Proper(t.subs) && Proper(t.items)
    ensures Collect(t, form) ==
            Node(t.view, CollectedWidget(t.w, form), Collect(t.subs, form), Collect(t.items, form), Nil)
    ensures Tops(Collect(t.subs, form)) == Tops(t.subs) && Tops(Collect(t.items, form)) == Tops(t.items)
  {
  }

  lemma MakeTree(v: NSView, w: Widget, subs: Forest<NSView>, items: Forest<NSView>)
    requires Proper(Node(v, w, subs, items, Nil)) && v.Snapshot() == w
    requires v.subviews.vals == Tops(subs) && v.items == Tops(items) && Rep(subs, v) && Rep(items, null)
    ensures IsTree(Node(v, w, subs, items, Nil), v)
  {
  }

  lemma SameInherited(v: NSView, w: Widget, form: Form)
    requires ProperWidget(w)
    ensures InheritedEvent(v, CollectedWidget(w, form), form) == InheritedEvent(v, w, form)
  {
  }

  lemma NotPopUp(w: Widget, form: Form)
    requires ProperWidget(w)
    ensures var c := CollectedWidget(w, form);
            (c.kind.PopUp? <==> w.kind.PopUp?) && c.id == w.id
  {
  }

  lemma TopsOf(f: Forest<NSView>, views: seq<NSView>, parent: NSView?)
    requires IsList(f, views, parent)
    ensures Tops(f) == views && Rep(f, parent) && Proper(f)
  {
  }

  lemma OtherCollected(t: Forest<NSView>, v: NSView, form: Form)
    requires t.Node? && Proper(t) && !t.w.kind.PopUp? && !t.w.kind.TabView?
    requires v.kind == t.w.kind && v.elementId == t.w.id && v.hidden == t.w.hidden && v.action == t.w.action
    requires v.persists == t.w.persists
    requires v.props == if t.w.kind.Button? && "NSEvent" !in form then t.w.props["state" := Int(0)] else t.w.props
    ensures v.Snapshot() == CollectedWidget(t.w, form) && OwnEvents(v, t.w, form) == []
    ensures t.items.Nil? && Collect(t.items, form).Nil? && Rep(Collect(t.items, form), null) && Queue(t.items, form) == []
  {
  }

  lemma CollectStart(
    before: seq<NSEvent<NSView>>, f: Forest<NSView>, views: seq<NSView>, parent: NSView?, form: Form)
    requires IsList(f, views, parent)
    ensures Proper(f) && views[0..] == views && Rep(Nil, parent) && Pages.Views<NSView>(Nil) == {}
    ensures Append(Nil, Collect(f, form)) == Collect(f, form)
  {
  }

  lemma CollectEnd(
    before: seq<NSEvent<NSView>>, acc: Forest<NSView>, f: Forest<NSView>, views: seq<NSView>, parent: NSView?, form: Form)
    requires IsList(f, views, parent) && views == []
    ensures Proper(f) && Append(acc, Collect(f, form)) == acc && before + Queue(f, form) == before
  {
    AppendViews(acc, Nil);
  }

  lemma Longer(t: Forest<NSView>, v: NSView, c: seq<NSView>)
    requires IsTree(t, v) && Distinct(t) && Chain(c, v.superview) && (forall x :: x in c ==> x !in Pages.Views(t))
    ensures Chain([v] + c, v) && AnyHidden([v] + c) == (AnyHidden(c) || t.w.hidden)
    ensures forall x :: x in [v] + c ==> x !in Pages.Views(t.subs)
  {
    assert ([v] + c)[1..] == c;
  }

  /** The subviews are finished last. */
  lemma SubviewsDone(now: Forest<NSView>, t: Forest<NSView>, v: NSView, above: bool)
    requires now.Node? && t.Node? && t.next.Nil? && t.view == v && Proper(t) && now.subs == t.subs
    requires now.w == v.Snapshot() && now.w == DoneWidget(t.w, above || t.w.hidden).(hidden := t.w.hidden)
    requires now.items == Done(t.items, false, Only(Selected(t.w))) && v.items == Tops(now.items)
    requires Rep(now.items, null) && v.subviews.vals == Tops(t.subs)
    requires Rep(Done(t.subs, above || t.w.hidden, Every), v)
    ensures IsTree(Done(t, above, Every), v)
  {
    DoneProper(t, above, Every);
  }

  lemma StartGather(list: Forest<NSView>, views: seq<NSView>, above: bool, pick: Pick, parent: NSView?)
    requires IsList(list, views, parent)
    ensures Proper(list) && Rep(Nil, parent) && Pages.Views<NSView>(Nil) == {}
    ensures Append(Nil, Done(list, above, pick)) == Done(list, above, pick)
  {
  }

  lemma EndGather(
    rest: Forest<NSView>, acc: Forest<NSView>, views: seq<NSView>, above: bool, pick: Pick, parent: NSView?)
    requires IsList(rest, views, parent) && views == []
    ensures Proper(rest) && Append(acc, Done(rest, above, pick)) == acc
  {
    AppendViews(acc, Nil);
  }

  lemma {:induction false} RepAppend(f: Forest<NSView>, g: Forest<NSView>, parent: NSView?)
    requires Rep(f, parent) && Rep(g, parent)
    ensures Rep(Append(f, g), parent)
  {
    if f.Node? {
      RepAppend(f.next, g, parent);
    }
  }

  lemma Open(t: Forest<NSView>, v: NSView)
    requires IsTree(t, v)
    ensures t.w == v.Snapshot() && ProperWidget(t.w) && Registered(v.persists, v.props)
    ensures t.w == Widget(v.kind, v.elementId, v.hidden, v.action, v.props, v.persists)
    ensures Size(t.subs) < Size(t) && Size(t.items) < Size(t)
    ensures IsList(t.subs, v.subviews.vals[0..], v) && IsList(t.items, v.items[0..], null)
    ensures IsList(t.items, v.items, null) && IsList(t.subs, v.subviews.vals, v)
    ensures t.Node? && t.next.Nil? && t.view == v && Proper(t)
    ensures v.items == Tops(t.items) && v.subviews.vals == Tops(t.subs) && Rep(t.items, null)
    ensures |v.subviews.vals| == Length(t.subs) && |v.items| == Length(t.items)
    ensures allocated(Pages.Views(t)) && allocated(Pages.Views(t.subs)) && allocated(Pages.Views(t.items))
  {
    TopsAreViews(t.subs);
    TopsAreViews(t.items);
    assert v.subviews.vals[0..] == v.subviews.vals && v.items[0..] == v.items;
  }

  lemma Apart(t: Forest<NSView>)
    requires t.Node? && Distinct(t)
    ensures t.view in Pages.Views(t)
    ensures t.view !in Pages.Views(t.subs) && t.view !in Pages.Views(t.items)
    ensures Pages.Views(t.subs) !! Pages.Views(t.items) && Distinct(t.subs) && Distinct(t.items)
    ensures Pages.Views(t.subs) <= Pages.Views(t) && Pages.Views(t.items) <= Pages.Views(t)
    ensures Size(t.subs) < Size(t) && Size(t.items) < Size(t)
  {
  }

  lemma Step(f: Forest<NSView>, views: seq<NSView>, i: nat, parent: NSView?)
    requires i < |views| && IsList(f, views[i..], parent)
    ensures f.Node? && f.view == views[i] && IsTree(Tree(f), views[i]) && f.view.superview == parent
    ensures Proper(f) && Proper(f.next) && Proper(Tree(f)) && Tree(f).Node? && Tree(f).next.Nil?
    ensures IsList(f.next, views[i + 1..], parent) && Size(Tree(f)) <= Size(f) && Size(f.next) < Size(f)
    ensures Pages.Views(f) == Pages.Views(Tree(f)) + Pages.Views(f.next)
    ensures Distinct(f) ==> Distinct(Tree(f)) && Distinct(f.next) && Pages.Views(Tree(f)) !! Pages.Views(f.next)
    ensures allocated(Pages.Views(f.next)) && allocated(Pages.Views(Tree(f))) && views[i] in Pages.Views(Tree(f))
  {
    assert views[i..][1..] == views[i + 1..];
  }

  lemma {:induction false} NthTree(f: Forest<NSView>, views: seq<NSView>, parent: NSView?, i: nat)
    requires IsList(f, views, parent) && i < |views|
    ensures Length(f) == |views|
    ensures IsTree(Nth(f, i), views[i])
  {
    assert views[0..] == views;
    Step(f, views, 0, parent);
    TopsAreViews(f);
    if i > 0 {
      NthTree(f.next, views[1..], parent, i - 1);
    }
  }

  lemma BeforeDelivery(window: NSWindow, f: Forest<NSView>, form: Form)
    requires Proper(f) && Distinct(f) && window.Shows(f)
    ensures var c := Collect(f, form);
            && Proper(c) && Distinct(c) && Pages.Views(c) == Pages.Views(f)
            && window.Shows(c) && window.HasContent(c, window.Content(f))
    ensures forall e :: e in Queue(f, form) ==> e.target in Pages.Views(f)
    ensures [] + Queue(f, form) == Queue(f, form) && allocated(Pages.Views(f))
  {
    CollectRetouches(f, form);
    Distinctness(f, Collect(f, form));
    QueueTargets(f, form);
    SameContent(window, f, Collect(f, form), window.Content(f));
  }

  lemma SameContent(window: NSWindow, f: Forest<NSView>, g: Forest<NSView>, content: Option<Forest<NSView>>)
    requires Retouched(f, g) && window.Shows(f) && window.HasContent(f, content)
    ensures window.Shows(g) && window.HasContent(g, content)
  {
    Shape(f, g);
    if window.ContentView().Some? {
      AlikeAt(f, g, window.ContentView().value, None);
    }
  }

  lemma RootRep(f: Forest<NSView>, root: NSView)
    requires IsTree(f, root) && root.superview == null
    ensures Rep(f, null) && Proper(f) && Chain([], null) && !AnyHidden([])
  {
  }

  lemma AfterDelivery(
    f: Forest<NSView>, h: Forest<NSView>, keys: Keys<NSView>, root: NSView, form: Form, content: Option<Forest<NSView>>)
    requires Tops(f) == [root] && Proper(f) && Distinct(f) && Rep(h, null)
    requires forall x :: x in Calls(content, Queue(f, form)) ==> x in Pages.Views(Collect(f, form))
    requires h == Clicks(Collect(f, form), keys, Calls(content, Queue(f, form)))
    ensures IsTree(h, root) && Distinct(h) && Proper(h) && h == Handled(f, keys, form, content)
    ensures ClicksSend(Collect(f, form), Calls(content, Queue(f, form))) == HandledSends(f, form, content)
    ensures root.superview == null && Visible([], root.superview)
    ensures Pages.Views(h) == Pages.Views(f) && allocated(Pages.Views(f))
  {
    HandledRetouches(f, keys, form, content);
    hide Clicks, Retouched, Rep;
    OneTop(h, root);
  }

  lemma AfterDisplay(h: Forest<NSView>, root: NSView)
    requires Distinct(h) && Proper(h) && IsTree(Shown(h, Every, true), root) && root.superview == null
    ensures var g := Shown(h, Every, true);
        Distinct(g) && Proper(g) && Pages.Views(g) == Pages.Views(h) && Chain([], null) && !AnyHidden([])
  {
    ShownRetouches(h, Every, true);
    Distinctness(h, Shown(h, Every, true));
    Properness(h, Shown(h, Every, true));
  }

  lemma OneTop(f: Forest<NSView>, root: NSView)
    requires Tops(f) == [root] && Rep(f, null) && Proper(f)
    ensures f.Node? && f.view == root && f.next.Nil? && root.superview == null && IsTree(f, root)
    ensures Chain([], null) && !AnyHidden([])
  {
    assert Tops(f) == [f.view] + Tops(f.next) && Tops(f)[0] == f.view;
    TopsAreViews(f.next);
    assert |Tops(f.next)| == Length(f.next) == 0;
  }

  /** What was displayed and written is the page of the displayed window. */
  lemma PageOf(h: Forest<NSView>, before: seq<Output<NSView>>)
    requires Proper(h)
    ensures var g := Shown(h, Every, true);
        && Proper(g) && Proper(Done(g, false, Every))
        && before + Pages.Display(h, Every) + Pages.WritePersist(Done(g, false, Every)) == before + Page(g)
        && Shown(g, Every, true) == g
  {
    PageOfShown(h);
    ShownTwice(h, Every, true);
    DoneProper(Shown(h, Every, true), false, Every);
  }

  lemma NothingDelivered(
    g: Forest<NSView>, keys: Keys<NSView>, content: Option<Forest<NSView>>, queue: seq<NSEvent<NSView>>)
    ensures Calls(content, queue[..0]) == [] && Clicks(g, keys, []) == g && ClicksSend(g, []) == []
  {
  }

  /** Clicks change neither what the window shows nor what is under its content view. */
  lemma ContentStays(
    window: NSWindow, g: Forest<NSView>, keys: Keys<NSView>, calls: seq<NSView>, content: Option<Forest<NSView>>)
    requires Proper(g) && Distinct(g) && window.Shows(g) && window.HasContent(g, content)
    requires forall x :: x in calls ==> x in Pages.Views(g)
    ensures var h := Clicks(g, keys, calls);
            && Proper(h) && Distinct(h) && Pages.Views(h) == Pages.Views(g)
            && window.Shows(h) && window.HasContent(h, content)
  {
    ClicksRetouches(g, keys, calls);
    Properness(g, Clicks(g, keys, calls));
    SameContent(window, g, Clicks(g, keys, calls), content);
  }

  // ----- clicks -----

  /** The links of a view are those of the forest. */
  ghost predicate LinkedIn(f: Forest<NSView>, x: NSView)
    requires x in Pages.Views(f)
    reads x`superview, x`subviews, x`items
  {
    x.superview == FromOpt(ParentOf(f, x, None)) && x.subviews.vals == SubsOf(f, x) && x.items == ItemsOf(f, x)
  }

  /** Another widget for one view: the objects stand for the forest with that widget. */
  lemma PutIsRep(f: Forest<NSView>, v: NSView, u: Widget)
    requires Distinct(f) && v in Pages.Views(f) && Touched(WidgetOf(f, v), u)
    requires forall x :: x in Pages.Views(f) ==>
        LinkedIn(f, x) && x.Snapshot() == if x == v then u else WidgetOf(f, x)
    ensures Rep(Put(f, v, u), null) && Distinct(Put(f, v, u))
  {
    hide Touched, Retouched;
    var g := Put(f, v, u);
    PutRetouches(f, v, u);
    Distinctness(f, g);
    forall x | x in Pages.Views(g)
      ensures At(g, x, null)
    {
      PutAt(f, v, u, x);
      AlikeAt(f, g, x, None);
    }
    PointwiseIsRep(g, null);
  }

  /** The subview that the coordinates read by key. */
  function CellOf(a: PhpArray<NSView>, row: int, column: int, columns: Columns): NSView?
    requires a.Valid()
  {
    match Grids.KeyAt(row, column, |a.vals|, columns)
    case Some(k) => FromOpt(Get(a, k))
    case None => null
  }

  /** Of different views, the one at place `i` stands at these coordinates. */
  ghost predicate IsPlace(views: seq<NSView>, i: int, row: int, column: int, columns: Columns) {
    && 0 <= i < |views| && row == Grids.RowOf(i, columns) && column == Grids.ColumnOf(i, columns)
    && forall j, k :: 0 <= j < k < |views| ==> views[j] != views[k]
  }

  lemma PlacesAndKeys(a: PhpArray<NSView>, row: int, column: int, columns: Columns)
    requires a.Valid()
    ensures var key := Grids.KeyAt(row, column, |a.vals|, columns);
        && key == (if 0 <= row && row * columns < |a.vals| + columns - 1 && 0 <= column < columns
                   then assert row * columns >= 0; Some(row * columns + column) else None)
        && forall i :: IsPlace(a.vals, i, row, column, columns) ==>
             key.Some? && (Get(a, key.value) == Some(a.vals[i]) <==> a.keys[i] == i)
  {
    forall i | IsPlace(a.vals, i, row, column, columns)
      ensures var key := Grids.KeyAt(row, column, |a.vals|, columns);
          key.Some? && (Get(a, key.value) == Some(a.vals[i]) <==> a.keys[i] == i)
    {
      Grids.CellAtItsCoordinates(a, i, columns);
    }
  }

  lemma SelectedIs(f: Forest<NSView>, m: NSView)
    requires Rep(f, null) && Distinct(f) && m in Pages.Views(f) && m.kind.Matrix? && m.subviews.Valid()
    ensures FromOpt(Actions.SelectedCell(f, KeysOf(Pages.Views(f)), m)) ==
        CellOf(m.subviews, Number(m.Read(), "selectedRow"), Number(m.Read(), "selectedColumn"), m.kind.columns)
    ensures var c := FromOpt(Actions.SelectedCell(f, KeysOf(Pages.Views(f)), m)); c != null ==> c in Pages.Views(f)
  {
    RepIsPointwise(f, null);
    assert At(f, m, null);
    SubsAreViews(f, m);
  }

  lemma MarkedIs(f: Forest<NSView>, keys: Keys<NSView>, m: NSView, flag: bool)
    requires m in Pages.Views(f)
    ensures var c := FromOpt(Actions.SelectedCell(f, keys, m));
        && (c == null ==> MarkSelected(f, keys, m, flag) == f)
        && (c != null ==> c in Pages.Views(f) && MarkSelected(f, keys, m, flag) == Put(f, c, WithSelected(WidgetOf(f, c), flag)))
    ensures allocated(Pages.Views(f))
  {
  }

  lemma SelectIs(f: Forest<NSView>, keys: Keys<NSView>, m: NSView, row: int, column: int)
    requires Rep(f, null) && Distinct(f) && m in Pages.Views(f) && m.kind.Matrix?
    ensures var g := MarkSelected(f, keys, m, false);
        && Pages.Views(g) == Pages.Views(f) && Pages.Views(Placed(f, m, row, column)) == Pages.Views(f)
        && Pages.Views(Placed(g, m, row, column)) == Pages.Views(f)
        && SelectAt(f, keys, m, row, column) ==
             if m.kind.radioMode then MarkSelected(Placed(g, m, row, column), keys, m, true) else Placed(f, m, row, column)
    ensures allocated(Pages.Views(f))
  {
    RepIsPointwise(f, null);
    assert At(f, m, null);
  }

  lemma ActionHere(f: Forest<NSView>, keys: Keys<NSView>, v: NSView, path: seq<NSView>)
    requires Rep(f, null) && Distinct(f) && v in Pages.Views(f) && Climbs(Pages.Views(f), v, path)
    ensures v.action != "" ==>
        Actions.SendAction(f, keys, v, path) == f && ActionsOf(f, v, path) == [(v, v.action)]
    ensures Chain(path[0..], v.superview) && allocated(Pages.Views(f))
  {
    RepIsPointwise(f, null);
    assert At(f, v, null);
    assert path[0..] == path;
  }

  lemma ChainStep(f: Forest<NSView>, v: NSView, path: seq<NSView>, i: nat, super: NSView)
    requires Rep(f, null) && Distinct(f) && v in Pages.Views(f) && Climbs(Pages.Views(f), v, path)
    requires i <= |path| && Chain(path[i..], super)
    ensures i < |path| && super == path[i] && super in Pages.Views(f) && (super.kind.Matrix? <==> IsMatrix(f, super))
    ensures Chain(path[i + 1..], super.superview) && Climbs(Pages.Views(f), super, path[i + 1..])
  {
    RepIsPointwise(f, null);
    assert path[i] in path && path[i..][1..] == path[i + 1..];
    assert At(f, super, null);
  }

  /** The walk upwards found the nearest matrix at place `i`. */
  lemma Reaches(f: Forest<NSView>, keys: Keys<NSView>, v: NSView, path: seq<NSView>, i: nat)
    requires Rep(f, null) && Distinct(f) && v in Pages.Views(f) && v.action == ""
    requires i < |path| && path[i] in Pages.Views(f) && IsMatrix(f, path[i]) && forall j :: 0 <= j < i ==> !IsMatrix(f, path[j])
    ensures v in SubsOf(f, path[i]) ==>
        && Actions.SendAction(f, keys, v, path)
           == Actions.SendAction(ClickCell(f, keys, path[i], v), keys, path[i], path[i + 1..])
        && ActionsOf(f, v, path) == ActionsOf(f, path[i], path[i + 1..])
    ensures v !in SubsOf(f, path[i]) ==> Actions.SendAction(f, keys, v, path) == f && ActionsOf(f, v, path) == []
  {
    RepIsPointwise(f, null);
    assert At(f, v, null);
    Delivery.ClimbReaches(f, keys, v, path, i);
  }

  lemma NoneReached(f: Forest<NSView>, keys: Keys<NSView>, v: NSView, path: seq<NSView>, i: nat)
    requires v in Pages.Views(f) && Rep(f, null) && Distinct(f) && v.action == ""
    requires i <= |path| && Chain(path[i..], null) && forall j :: 0 <= j < i ==> !IsMatrix(f, path[j])
    ensures Actions.SendAction(f, keys, v, path) == f && ActionsOf(f, v, path) == []
  {
    RepIsPointwise(f, null);
    assert At(f, v, null);
    assert |path[i..]| == 0;
    Delivery.ClimbEnds(f, keys, v, path);
  }

  lemma CellPlace(f: Forest<NSView>, keys: Keys<NSView>, m: NSView, cell: NSView)
    requires Rep(f, null) && Distinct(f) && m in Pages.Views(f) && m.kind.Matrix?
    ensures m.subviews.vals == SubsOf(f, m)
    ensures cell in SubsOf(f, m) ==>
        var i := IndexOf(m.subviews.vals, cell);
        var row, column := Grids.RowOf(i, m.kind.columns), Grids.ColumnOf(i, m.kind.columns);
        var g := Put(f, m, RecordedWidget(WidgetOf(f, m), row, column));
        Pages.Views(g) == Pages.Views(f) && ClickCell(f, keys, m, cell) == SelectAt(g, keys, m, row, column)
  {
    RepIsPointwise(f, null);
    assert At(f, m, null);
  }

  lemma RecordStays(f: Forest<NSView>, m: NSView, row: int, column: int, up: seq<NSView>)
    requires Rep(f, null) && Distinct(f) && m in Pages.Views(f)
    ensures var g := Put(f, m, RecordedWidget(WidgetOf(f, m), row, column));
        Pages.Views(g) == Pages.Views(f) && ActionsOf(g, m, up) == ActionsOf(f, m, up)
    ensures allocated(Pages.Views(f))
  {
    var g := Put(f, m, RecordedWidget(WidgetOf(f, m), row, column));
    PutRetouches(f, m, RecordedWidget(WidgetOf(f, m), row, column));
    Delivery.ActionsStay(f, g, m, up);
  }

  lemma SelectStays(f: Forest<NSView>, keys: Keys<NSView>, m: NSView, row: int, column: int, up: seq<NSView>)
    requires Distinct(f) && m in Pages.Views(f) && Climbs(Pages.Views(f), m, up)
    ensures var g := SelectAt(f, keys, m, row, column);
        Pages.Views(g) == Pages.Views(f) && ActionsOf(g, m, up) == ActionsOf(f, m, up)
    ensures m.subviews.Valid() && allocated(Pages.Views(f))
  {
    SelectRetouches(f, keys, m, row, column);
    Delivery.ActionsStay(f, SelectAt(f, keys, m, row, column), m, up);
  }

  lemma ChangeStays(f: Forest<NSView>, g: Forest<NSView>, v: NSView, up: seq<NSView>)
    requires Distinct(f) && v in Pages.Views(f) && g == Put(f, v, ClickedWidget(WidgetOf(f, v)))
    ensures Pages.Views(g) == Pages.Views(f) && ActionsOf(g, v, up) == ActionsOf(f, v, up)
  {
    PutRetouches(f, v, ClickedWidget(WidgetOf(f, v)));
    Delivery.ActionsStay(f, g, v, up);
  }

  /** The superviews of a view are those that the forest has above it. */
  lemma {:induction false} PathIsChain(f: Forest<NSView>, v: NSView, path: seq<NSView>)
    requires Rep(f, null) && Distinct(f) && v in Pages.Views(f) && path == PathOf(f, v, [])
    ensures Chain(path, v.superview)
    decreases |path|
  {
    SuperviewIs(f, v);
    PathStep(f, v, [], None);
    if v.superview != null {
      ParentInside(f, v, v.superview, None);
      PathIsChain(f, v.superview, path[1..]);
    }
  }

  lemma PathClimbs(f: Forest<NSView>, v: NSView)
    requires Rep(f, null) && Distinct(f) && v in Pages.Views(f) && Arrays(Pages.Views(f))
    ensures Climbs(Pages.Views(f), v, PathOf(f, v, [])) && allocated(Pages.Views(f)) && allocated(PathOf(f, v, []))
  {
    PathIsChain(f, v, PathOf(f, v, []));
  }

  lemma ClickIs(f: Forest<NSView>, keys: Keys<NSView>, v: NSView)
    requires Rep(f, null) && Distinct(f) && v in Pages.Views(f)
    ensures var up, g := PathOf(f, v, []), Put(f, v, ClickedWidget(WidgetOf(f, v)));
        && Pages.Views(g) == Pages.Views(f)
        && (v.kind.Matrix? ==>
              && Click(f, keys, v)
                 == Actions.SendAction(SelectAt(f, keys, v, v.kind.clickedRow, v.kind.clickedColumn), keys, v, up)
              && ClickSends(f, v) == ActionsOf(f, v, up))
        && (v.kind.Button? || v.kind.PopUp? || v.kind.TextField? ==>
              Click(f, keys, v) == Actions.SendAction(g, keys, v, up) && ClickSends(f, v) == ActionsOf(f, v, up))
        && (!v.kind.Matrix? && !v.kind.Button? && !v.kind.PopUp? && !v.kind.TextField? ==>
              Click(f, keys, v) == g && ClickSends(f, v) == [])
  {
    RepIsPointwise(f, null);
    assert At(f, v, null);
  }

  // ----- one request -----

  class NSWindow {
    var scrollView: NSView

    /** A new window: a scroll view with an empty view in it. */
    constructor (responders: NSResponders, post: Form)
      modifies responders
      ensures Valid() && fresh(scrollView) && scrollView.superview == null && |scrollView.subviews.vals| == 1
      ensures fresh(scrollView.subviews.vals[0]) && ContentView() == Some(scrollView.subviews.vals[0])
      ensures IsTree(FirstTree(), scrollView) && Distinct(FirstTree())
      ensures scrollView.Persisted(post) && HasScrollers(scrollView)
    {
      hide *;
      var scroll := NewScrollView(responders, post);
      scrollView := scroll;
      new;
      var clip := new NSView(responders, PlainView);
      ghost var f := Node(scroll, scroll.Snapshot(), Nil, Nil, Node(clip, clip.Snapshot(), Nil, Nil, Nil));
      TwoTrees(f, scroll, clip, post);
      scroll.AddSubview(clip, f);
      OneTree(f, clip);
    }

    /** The second of two new views was added to the first. */
    lemma OneTree(f: Forest<NSView>, clip: NSView)
      requires f.Node? && f.next.Node? && f.view == scrollView && f.next.view == clip && f.subs.Nil? && f.items.Nil?
      requires f.next.subs.Nil? && f.next.items.Nil? && f.next.next.Nil? && scrollView != clip && Proper(f)
      requires Rep(Add(f, scrollView, clip), null) && scrollView.subviews == EmptyArray().Append(clip)
      ensures Valid() && |scrollView.subviews.vals| == 1 && scrollView.subviews.vals[0] == clip
      ensures ContentView() == Some(clip) && scrollView.superview == null
      ensures IsTree(FirstTree(), scrollView) && Distinct(FirstTree())
    {
      FirstTreeIs(f, scrollView, clip);
    }

    ghost predicate Valid()
      reads this, scrollView`subviews
    {
      scrollView.subviews.Valid() && scrollView.subviews.nextKey > 0
    }

    /** The tree of a new window. */
    ghost function FirstTree(): Forest<NSView>
      requires |scrollView.subviews.vals| == 1
      reads this, scrollView, scrollView.subviews.vals
    {
      var clip := scrollView.subviews.vals[0];
      Node(scrollView, scrollView.Snapshot(), Node(clip, clip.Snapshot(), Nil, Nil, Nil), Nil, Nil)
    }

    /** The first subview ever added to the scroll view, while it is still there. */
    function ContentView(): (r: Option<NSView>)
      requires scrollView.subviews.Valid()
      reads this, scrollView`subviews
      ensures r.Some? ==> r.value in scrollView.subviews.vals
    {
      Get(scrollView.subviews, 0)
    }

    /** The forest once the content view is detached from the scroll view. */
    ghost function Emptied(f: Forest<NSView>): (g: Forest<NSView>)
      requires IsHierarchy(f, Pages.Views(f), scrollView)
      reads this, Pages.Views(f), scrollView
      ensures Pages.Views(g) == Pages.Views(f)
    {
      ListedViews(f, scrollView);
      if ContentView().Some? then
        DetachKeepsForest(f, ContentView().value);
        Detach(f, ContentView().value)
      else f
    }

    /** The old content view is removed and the new one is added after it. Since the key of a
        removed subview is not used again, the window has no content view from then on. */
    method SetContentView(view: NSView, ghost f: Forest<NSView>) returns (ghost g: Forest<NSView>)
      requires IsHierarchy(f, Pages.Views(f), scrollView) && view in Pages.Views(f) && Valid()
      requires Addable(Emptied(f), scrollView, view)
      modifies scrollView`subviews, Pages.Views(f)`superview, Pages.Views(f)`window
      ensures g == Add(old(Emptied(f)), scrollView, view) && Rep(g, null) && Distinct(g)
      ensures Pages.Views(g) == Pages.Views(f)
      ensures Valid() && ContentView().None?
      ensures forall x :: x in Down(TreeOf(g, scrollView)) ==> x.window == this
    {
      hide *;
      EmptiedIs(f);
      ListedViews(f, scrollView);
      var cv := ContentView();
      g := f;
      ghost var a := scrollView.subviews;
      ValidIs();
      FirstKeyIsNotReused(a, view);
      if cv.Some? {
        scrollView.RemoveSubview(cv.value, f);
        g := Detach(f, cv.value);
      }
      StillHierarchy(g, Pages.Views(f), scrollView);
      AddableTree(g, Pages.Views(f), scrollView, view);
      scrollView.AddSubview(view, g);
      g := Add(g, scrollView, view);
      StillHierarchy(g, Pages.Views(f), scrollView);
      AddableTree(g, Pages.Views(f), scrollView, scrollView);
      scrollView.SetWindowInForest(this, g);
      ContentIs(a, view);
    }

    lemma ContentIs(a: PhpArray<NSView>, view: NSView)
      requires scrollView.subviews.Valid() && a.Valid() && a.nextKey > 0
      requires var first := Get(a, 0); var b := if first.Some? then a.Unset(IndexOf(a.vals, first.value)) else a;
          && b.nextKey == a.nextKey && Get(b, 0).None? && Get(b.Append(view), 0).None?
          && (scrollView.subviews == b || scrollView.subviews == b.Append(view))
      ensures Valid() && ContentView().None?
    {
    }

    lemma ValidIs()
      requires Valid()
      ensures scrollView.subviews.Valid() && scrollView.subviews.nextKey > 0
    {
    }

    lemma EmptiedIs(f: Forest<NSView>)
      requires IsHierarchy(f, Pages.Views(f), scrollView)
      ensures scrollView.subviews.Valid() && Rep(f, null) && Distinct(f) && Proper(f) && scrollView in Pages.Views(f)
      ensures allocated(Pages.Views(f)) && ContentView() == Get(scrollView.subviews, 0)
      ensures ContentView().Some? ==> ContentView().value in Pages.Views(f)
      ensures Emptied(f) == if ContentView().Some? then Detach(f, ContentView().value) else f
    {
      ListedViews(f, scrollView);
    }

    ghost predicate Shows(t: Forest<NSView>)
      reads this, scrollView`subviews
    {
      scrollView.subviews.Valid() && forall v :: v in scrollView.subviews.vals ==> v in Pages.Views(t)
    }

    /** The content view with everything below it. */
    ghost function Content(t: Forest<NSView>): Option<Forest<NSView>>
      requires Shows(t)
      reads this, scrollView`subviews
    {
      if ContentView().Some? then Some(TreeOf(t, ContentView().value)) else None
    }

    /** The trees under the content view hold the views of `content`. */
    ghost predicate HasContent(t: Forest<NSView>, content: Option<Forest<NSView>>)
      requires Shows(t)
      reads this, scrollView`subviews
    {
      if ContentView().Some? then content.Some? && Pages.Views(content.value) == Pages.Views(TreeOf(t, ContentView().value))
      else content.None?
    }

    /** `hitTest` from the content view, or the target itself if there is none. */
    method FindTarget(event: NSEvent<NSView>, ghost t: Forest<NSView>) returns (target: NSView?)
      requires Rep(t, null) && Proper(t) && Shows(t)
      ensures target == if ContentView().Some? && event.target !in Pages.Views(TreeOf(t, ContentView().value))
                        then null else event.target
    {
      var content := ContentView();
      target := event.target;
      if content.Some? {
        TreeIsTree(t, content.value, null);
        target := content.value.HitTest(event, TreeOf(t, content.value));
      }
    }

    method SendEvent(
      event: NSEvent<NSView>, app: NSApplication, ghost t: Forest<NSView>, ghost content: Option<Forest<NSView>>)
      returns (ghost g: Forest<NSView>)
      requires Rep(t, null) && Proper(t) && Distinct(t) && Shows(t) && Arrays(Pages.Views(t))
      requires event.target in Pages.Views(t) && app.mainWindow == this && HasContent(t, content)
      requires event.target.window == null || event.target.window == this
      modifies app`calls, app`sent, Pages.Views(t)`props, Pages.Views(t)`kind
      ensures g == (if Reached(content, event.target) then Click(t, old(KeysOf(Pages.Views(t))), event.target) else t)
      ensures app.calls == old(app.calls) + if Reached(content, event.target) then [event.target] else []
      ensures app.sent == old(app.sent) + if Reached(content, event.target) then ClickSends(t, event.target) else []
      ensures Rep(g, null)
    {
      hide *;
      assert allocated(Pages.Views(t));
      g := t;
      var window := event.target.window;
      if window == null {
        window := app.mainWindow;
      }
      ReachedIs(this, t, content, event.target);
      var target := window.FindTarget(event, t);
      if target != null {
        g := target.MouseDown(app, t);
      }
    }
  }

  /** What the constructor of a scroll view sets up: four persistors, two of them renamed. */
  method NewScrollView(responders: NSResponders, post: Form) returns (scroll: NSView)
    modifies responders
    ensures fresh(scroll) && scroll.superview == null && scroll.subviews == EmptyArray() && scroll.items == []
    ensures scroll.kind == ScrollView && scroll.Persisted(post) && HasScrollers(scroll)
  {
    hide *;
    ScrollerNames();
    scroll := new NSView(responders, ScrollView);
    scroll.props := map[SCROLLER_X := Int(0), SCROLLER_Y := Int(0), SCROLL_X := Int(-1), SCROLL_Y := Int(-1)];
    NothingPersisted(scroll, post);
    scroll.Persist(SCROLLER_X, post);
    scroll.Persist(SCROLLER_Y, post);
    scroll.PersistAs(SCROLL_X, SCROLL_X, post);
    scroll.PersistAs(SCROLL_Y, SCROLL_Y, post);
    ScrollersAre(scroll);
  }

  lemma NothingPersisted(v: NSView, post: Form)
    requires v.persists == []
    ensures v.Persisted(post)
  {
  }

  lemma ScrollersAre(v: NSView)
    requires v.persists == [] + [Persistor(SCROLLER_X, None, Int(0))] + [Persistor(SCROLLER_Y, None, Int(0))]
                        + [Persistor(SCROLL_X, Some(SCROLL_X), Int(-1))] + [Persistor(SCROLL_Y, Some(SCROLL_Y), Int(-1))]
    ensures HasScrollers(v)
  {
  }

  const SCROLLER_X := "scrollerX"
  const SCROLLER_Y := "scrollerY"

  lemma ScrollerNames()
    ensures SCROLLER_X != SCROLLER_Y && SCROLL_X != SCROLL_Y
    ensures SCROLL_X != SCROLLER_X && SCROLL_X != SCROLLER_Y && SCROLL_Y != SCROLLER_X && SCROLL_Y != SCROLLER_Y
  {
    assert SCROLLER_X[8] != SCROLLER_Y[8] && SCROLL_X[6] != SCROLL_Y[6];
    assert |SCROLLER_X| == |SCROLLER_Y| == 9 && |SCROLL_X| == |SCROLL_Y| == 7;
  }

  /** Every scroll view persists its scrollers under automatic names, and its position under
      names of its own. */
  ghost predicate HasScrollers(v: NSView)
    reads v`persists
  {
    v.persists == [Persistor("scrollerX", None, Int(0)), Persistor("scrollerY", None, Int(0)),
                   Persistor("scrollX", Some("scrollX"), Int(-1)), Persistor("scrollY", Some("scrollY"), Int(-1))]
  }

  /** Two new views side by side. */
  lemma TwoTrees(f: Forest<NSView>, u: NSView, v: NSView, post: Form)
    requires f == Node(u, u.Snapshot(), Nil, Nil, Node(v, v.Snapshot(), Nil, Nil, Nil)) && u != v
    requires u.superview == null && v.superview == null && u.subviews == EmptyArray() && v.subviews == EmptyArray()
    requires u.items == [] && v.items == [] && u.kind == ScrollView && v.kind == PlainView && HasScrollers(u)
    requires u.Persisted(post) && v.persists == []
    ensures Rep(f, null) && Distinct(f) && Proper(f) && Pages.Views(f) == {u, v} && u.subviews.Valid()
    ensures Addable(f, u, v) && Down(TreeOf(f, v)) == {v} && v.superview == null
  {
    assert f.next.next.Nil?;
    assert Pages.Views(f.next) == {v};
    assert Tops(f.next) == [v] && [u] + [v] == [u, v];
    assert TreeOf(f, v) == TreeOf(f.next, v) == f.next;
  }

  /** The second added to the first. */
  lemma FirstTreeIs(f: Forest<NSView>, u: NSView, v: NSView)
    requires f.Node? && f.next.Node? && f.view == u && f.next.view == v && f.subs.Nil? && f.items.Nil?
    requires f.next.subs.Nil? && f.next.items.Nil? && f.next.next.Nil? && u != v
    ensures u in Pages.Views(f) && v in Pages.Views(f)
    ensures Add(f, u, v) == Node(u, f.w, Node(v, f.next.w, Nil, Nil, Nil), Nil, Nil)
  {
    var t, rest := f.next, Node(u, f.w, Nil, Nil, Nil);
    assert TreeOf(f, v) == TreeOf(t, v) == t;
    assert Prune(f, v) == rest by { assert Prune(t, v) == Nil; }
    GraftHere(rest, t);
    assert ParentOf(f, v, None) == ParentOf(t, v, None) == None;
  }

  lemma ReachedIs(window: NSWindow, t: Forest<NSView>, content: Option<Forest<NSView>>, target: NSView)
    requires window.Shows(t) && target in Pages.Views(t) && window.HasContent(t, content)
    ensures Reached(content, target) <==>
        !(window.ContentView().Some? && target !in Pages.Views(TreeOf(t, window.ContentView().value)))
  {
  }
}
