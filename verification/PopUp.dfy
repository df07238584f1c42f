/** A pop-up button from one request to the next: the page carries the selection, the user may
    pick an item, and the next request notices a change exactly when there is one. */
module PopUp {
  import opened Php
  import opened Persistence
  import opened Pages
  import opened PageLaws
  import opened RoundTrip
  import opened Showing
  import opened Dispatch
  import opened Controls

  function Selection(w: Widget): int
  {
    Number(w, "selectedIndex")
  }

  /** Is the pop-up button on the page as a control the user can pick from? */
  ghost predicate Offered<V>(f: Forest<V>, v: V)
    requires v in Views(f)
  {
    var w := WidgetOf(f, v);
    w.kind.PopUp? && !w.kind.pullsDown && OnDisplay(f, v, Every)
  }

  /** What a user can pick from the selects of one name: an option of the last one, if it has any. */
  predicate Pickable(selects: seq<Input>, picked: Option<nat>)
    requires forall i :: 0 <= i < |selects| ==> selects[i].Choice?
  {
    match picked
    case Some(k) => selects != [] && k < selects[|selects| - 1].count
    case None => selects == [] || selects[|selects| - 1].count == 0
  }

  /** What a browser can post for a page with this pop-up button: the page's own values under
      the persistor's names, and an option picked from the select that the page has for it. */
  ghost predicate Posted<V>(f: Forest<V>, v: V, form: Form, picked: Option<nat>)
    requires Proper(f) && v in Views(f)
  {
    var w := WidgetOf(f, v);
    && w.kind.PopUp? && |w.persists| == 2
    && (forall n :: n in Claims(w.id, w.persists[1]) ==> Lookup(form, n) == Lookup(Echo(Page(f)), n))
    && Pickable(On(Page(f), SelectOf(w.id)), picked)
    && Lookup(form, w.id) == (if picked.Some? then Some(Dec(picked.value)) else None)
  }

  /** There is something to pick exactly if the button is offered and its menu is not empty. */
  lemma PickedFromMenu<V>(f: Forest<V>, v: V, form: Form, picked: Option<nat>)
    requires Proper(f) && Distinct(f) && Unique(f) && v in Views(f) && Posted(f, v, form, picked)
    ensures var w := WidgetOf(f, v);
        && (picked.Some? <==> Offered(f, v) && w.kind.count > 0)
        && (picked.Some? ==> picked.value < w.kind.count)
  {
    hide Page, On, Proper, Unique, Distinct, OnDisplay;
    SelectOnPage(f, v);
  }

  /** The next request rebuilds the selection and then collects: it queues one event if the
      picked item differs from the selection the page was drawn with and none otherwise, and
      ends with the picked item; without an offer the selection survives and nothing happens. */
  lemma ChangeIsNoticed<V>(f: Forest<V>, v: V, form: Form, picked: Option<nat>)
    requires Proper(f) && Distinct(f) && Unique(f) && FieldDefaults(f) && v in Views(f)
    requires Posted(f, v, form, picked)
    ensures v in Views(Rebuild(f, form))
    ensures var w, rebuilt := WidgetOf(f, v), WidgetOf(Rebuild(f, form), v);
            && ProperWidget(w) && ProperWidget(rebuilt) && rebuilt.kind == w.kind
            && var s := Selection(w);
               && Selection(rebuilt) == s
               && |OwnEvents(v, rebuilt, form)| == (if picked.Some? && picked.value != s then 1 else 0)
               && Selection(CollectedWidget(rebuilt, form)) == if picked.Some? then picked.value else s
  {
    hide Drawn, OnDisplay, Pickable, HiddenAfter, Page, Echo, Distinct, Unique, Proper, FieldDefaults, WidgetOf, Views, Rebuild;
    WidgetsAreProper(f, v);
    RebuiltAt(f, form, v);
    var w, rebuilt := WidgetOf(f, v), WidgetOf(Rebuild(f, form), v);
    var p := w.persists[1];
    PickedFromMenu(f, v, form, picked);
    PropertyCarried(f, v, 1);
    DisplayedAt(f, v);
    assert NameOf(w.id, p) in Claims(w.id, p) && AutoName(w.id, p.property) in Claims(w.id, p);
    assert Lookup(form, NameOf(w.id, p)) == Lookup(Echo(Page(f)), NameOf(w.id, p));
    assert Constructed(w.id, p, form) == Constructed(w.id, p, Echo(Page(f)));
    ConstructAt(w.id, w.persists, w.props, w.props["selectedIndex"], form, 1);
    NumSurvivesText(w.props["selectedIndex"]);
    if picked.Some? {
      NumOfDec(picked.value);
    }
  }

  /** What a select posts that nobody touched: its preselected option, or else its first one. */
  function Untouched(selects: seq<Input>): (picked: Option<nat>)
    requires forall i :: 0 <= i < |selects| ==> selects[i].Choice?
    ensures Pickable(selects, picked)
  {
    if selects == [] || selects[|selects| - 1].count == 0 then None
    else if 0 <= selects[|selects| - 1].selected < selects[|selects| - 1].count then Some(selects[|selects| - 1].selected)
    else Some(0)
  }

  /** A page that is posted without touching the pop-up button leaves the selection alone and queues
      nothing, if and only if the button is not offered, its menu is empty or the selection is one of
      its items. Else the browser posts the first item, and the request notices a change to it. */
  lemma UntouchedIsQuiet<V>(f: Forest<V>, v: V, form: Form)
    requires Proper(f) && Distinct(f) && Unique(f) && FieldDefaults(f) && v in Views(f) && WidgetOf(f, v).kind.PopUp?
    requires Posted(f, v, form, Untouched(On(Page(f), SelectOf(WidgetOf(f, v).id))))
    ensures v in Views(Rebuild(f, form))
    ensures var w, rebuilt := WidgetOf(f, v), WidgetOf(Rebuild(f, form), v);
            && ProperWidget(w) && ProperWidget(rebuilt) && rebuilt.kind == w.kind
            && var s := Selection(w);
               var quiet := !Offered(f, v) || w.kind.count == 0 || 0 <= s < w.kind.count;
               && |OwnEvents(v, rebuilt, form)| == (if quiet then 0 else 1)
               && Selection(CollectedWidget(rebuilt, form)) == if quiet then s else 0
  {
    hide Page, On, Proper, Unique, Distinct, OnDisplay, FieldDefaults, Rebuild, OwnEvents, CollectedWidget, Posted;
    ChangeIsNoticed(f, v, form, Untouched(On(Page(f), SelectOf(WidgetOf(f, v).id))));
    SelectOnPage(f, v);
  }

  /** Whatever index is posted for a pop-up button, also one that the menu does not have: it is noticed
      and selected if it is not the selection, where a selection beyond the menu counts as -1. */
  lemma AnyIndexIsNoticed<V>(v: V, w: Widget, form: Form, k: int)
    requires ProperWidget(w) && w.kind.PopUp? && w.id in form && form[w.id] == Dec(k)
    ensures var s := Selection(w);
        var now := if s < w.kind.count then s else -1;
        && OwnEvents(v, w, form) == (if k == now then [] else [NSEvent(v, None, None)])
        && Selection(CollectedWidget(w, form)) == if k == now then s else k
  {
    NumOfDec(k);
  }
}
