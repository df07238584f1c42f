/** Why no two persistors of a window look under a common name: element ids are distinct, the
    automatic names are injective, and names chosen by hand hold no dash. */
module Naming {
  import opened Php
  import opened Persistence
  import opened Pages
  import opened Dispatch
  import Registry

  // ----- two persistors -----

  /** No property name and no name chosen by hand holds a dash. */
  predicate Dashless(p: Persistor) {
    '-' !in p.property && (p.name.Some? ==> '-' !in p.name.value)
  }

  /** Two persistors look under a common name only if they watch the same property of the same id,
      or were given the same name. */
  lemma ClaimsApart(id: string, p: Persistor, id': string, q: Persistor)
    requires Dashless(p) && Dashless(q) && (id != id' || p.property != q.property)
    requires p.name.Some? ==> p.name != q.name
    ensures Claims(id, p) !! Claims(id', q)
  {
    if AutoName(id, p.property) == AutoName(id', q.property) {
      AutoNameInjective(id, p.property, id', q.property);
    }
    AutoNameHasDash(id, p.property);
    AutoNameHasDash(id', q.property);
  }

  // ----- a whole window -----

  /** Only dashless names are chosen by hand, and none twice. */
  ghost predicate WellNamed<V>(f: Forest<V>) {
    && (forall v, i :: v in Views(f) && 0 <= i < |WidgetOf(f, v).persists| ==> Dashless(WidgetOf(f, v).persists[i]))
    && (forall u, v, i, j ::
          u in Views(f) && v in Views(f) && SameName(WidgetOf(f, u), i, WidgetOf(f, v), j) ==> u == v && i == j)
  }

  /** The two persistors were given the same name. */
  ghost predicate SameName(a: Widget, i: int, b: Widget, j: int) {
    && 0 <= i < |a.persists| && 0 <= j < |b.persists|
    && a.persists[i].name.Some? && a.persists[i].name == b.persists[j].name
  }

  /** Every name of a forest is one of some view's. */
  lemma {:induction false} NameOwner<V>(f: Forest<V>, n: string) returns (v: V)
    requires Distinct(f) && n in Names(f)
    ensures v in Views(f) && n in OwnNames(WidgetOf(f, v))
  {
    hide OwnNames;
    if n in OwnNames(f.w) {
      v := f.view;
    } else if n in Names(f.subs) {
      v := NameOwner(f.subs, n);
    } else if n in Names(f.items) {
      v := NameOwner(f.items, n);
    } else {
      v := NameOwner(f.next, n);
    }
  }

  ghost predicate Apart<V>(f: Forest<V>, g: Forest<V>) {
    forall u, v :: u in Views(f) && v in Views(g) ==> OwnNames(WidgetOf(f, u)) !! OwnNames(WidgetOf(g, v))
  }

  lemma ApartNames<V>(f: Forest<V>, g: Forest<V>)
    requires Distinct(f) && Distinct(g) && Apart(f, g)
    ensures Names(f) !! Names(g)
  {
    hide OwnNames;
    forall n | n in Names(f) && n in Names(g) ensures false {
      var u := NameOwner(f, n);
      var v := NameOwner(g, n);
    }
  }

  ghost predicate PairsApart<V>(f: Forest<V>) {
    && (forall v :: v in Views(f) ==> UniqueWidget(WidgetOf(f, v)))
    && (forall u, v :: u in Views(f) && v in Views(f) && u != v ==>
          OwnNames(WidgetOf(f, u)) !! OwnNames(WidgetOf(f, v)))
  }

  lemma PairsOfParts<V>(f: Forest<V>)
    requires f.Node? && Distinct(f) && PairsApart(f)
    ensures PairsApart(f.subs) && PairsApart(f.items) && PairsApart(f.next) && UniqueWidget(f.w)
    ensures Apart(f.subs, f.items) && Apart(f.subs, f.next) && Apart(f.items, f.next)
    ensures var top := Node(f.view, f.w, Nil, Nil, Nil); Apart(top, f.subs) && Apart(top, f.items) && Apart(top, f.next)
  {
    hide OwnNames, UniqueWidget;
    forall u | u in Views(f.subs) ensures u in Views(f) && WidgetOf(f, u) == WidgetOf(f.subs, u) {}
    forall u | u in Views(f.items) ensures u in Views(f) && WidgetOf(f, u) == WidgetOf(f.items, u) {}
    forall u | u in Views(f.next) ensures u in Views(f) && WidgetOf(f, u) == WidgetOf(f.next, u) {}
    assert WidgetOf(f, f.view) == f.w;
  }

  lemma {:induction false} PairsMakeUnique<V>(f: Forest<V>)
    requires Distinct(f) && PairsApart(f)
    ensures Unique(f)
  {
    hide OwnNames, UniqueWidget, PairsApart, Apart;
    if f.Node? {
      var top := Node(f.view, f.w, Nil, Nil, Nil);
      PairsOfParts(f);
      PairsMakeUnique(f.subs);
      PairsMakeUnique(f.items);
      PairsMakeUnique(f.next);
      assert Names(top) == OwnNames(f.w);
      ApartNames(top, f.subs);
      ApartNames(top, f.items);
      ApartNames(top, f.next);
      ApartNames(f.subs, f.items);
      ApartNames(f.subs, f.next);
      ApartNames(f.items, f.next);
    }
  }

  /** Distinct ids make all persistent names distinct, whatever dashless names the application
      gives to some of them, as long as it gives none twice. */
  lemma DistinctIdsMakeNamesUnique<V>(f: Forest<V>)
    requires Proper(f) && Distinct(f) && DistinctIds(f) && WellNamed(f)
    ensures Unique(f)
  {
    forall v | v in Views(f) ensures UniqueWidget(WidgetOf(f, v)) {
      OwnNamesApart(f, v);
    }
    forall u, v | u in Views(f) && v in Views(f) && u != v
      ensures OwnNames(WidgetOf(f, u)) !! OwnNames(WidgetOf(f, v))
    {
      ViewsApart(f, u, v);
    }
    PairsMakeUnique(f);
  }

  lemma OwnNamesApart<V>(f: Forest<V>, v: V)
    requires Proper(f) && WellNamed(f) && v in Views(f)
    ensures UniqueWidget(WidgetOf(f, v))
  {
    var w := WidgetOf(f, v);
    ProperAt(f, v);
    forall i, j | 0 <= i < j < |w.persists|
      ensures Claims(w.id, w.persists[i]) !! Claims(w.id, w.persists[j])
    {
      assert !SameName(w, i, w, j);
      ClaimsApart(w.id, w.persists[i], w.id, w.persists[j]);
    }
  }

  lemma ProperAt<V>(f: Forest<V>, v: V)
    requires Proper(f) && v in Views(f)
    ensures ProperWidget(WidgetOf(f, v))
  {
    assert Proper(TreeOf(f, v));
  }

  lemma ViewsApart<V>(f: Forest<V>, u: V, v: V)
    requires DistinctIds(f) && WellNamed(f) && u in Views(f) && v in Views(f) && u != v
    ensures OwnNames(WidgetOf(f, u)) !! OwnNames(WidgetOf(f, v))
  {
    var a, b := WidgetOf(f, u), WidgetOf(f, v);
    forall n | n in OwnNames(a) && n in OwnNames(b) ensures false {
      var i :| 0 <= i < |a.persists| && n in Claims(a.id, a.persists[i]);
      var j :| 0 <= j < |b.persists| && n in Claims(b.id, b.persists[j]);
      assert !SameName(a, i, b, j);
      ClaimsApart(a.id, a.persists[i], b.id, b.persists[j]);
    }
  }

  // ----- ids from the registry -----

  /** The views of a window have the ids that the registry recorded for them. */
  ghost predicate Identified<V>(f: Forest<V>, r: Registry.Records<V>) {
    forall v :: v in Views(f) ==> v in r.ids && r.ids[v] == WidgetOf(f, v).id
  }

  lemma RegistryKeepsIdsDistinct<V>(f: Forest<V>, r: Registry.Records<V>)
    requires Registry.Consistent(r) && Identified(f, r)
    ensures DistinctIds(f)
  {
    forall u, v | u in Views(f) && v in Views(f) && WidgetOf(f, u).id == WidgetOf(f, v).id
      ensures u == v
    {
      Registry.OwnIdsAreDistinct(r, u, v);
    }
  }

  /** From the empty table, over every legal run of constructions and renamings: any window of the
      constructed objects has distinct ids, and no two of its persistors look under one name. */
  lemma NumberedWindowIsUnique<V>(f: Forest<V>, steps: seq<Registry.Change<V>>)
    requires Proper(f) && Distinct(f) && WellNamed(f)
    requires Registry.LegalRun(Registry.Records(map[], map[]), steps)
    requires Identified(f, Registry.Run(Registry.Records(map[], map[]), steps))
    ensures DistinctIds(f) && Unique(f)
  {
    var empty: Registry.Records<V> := Registry.Records(map[], map[]);
    Registry.CountingIsFresh(empty, steps);
    RegistryKeepsIdsDistinct(f, Registry.Run(empty, steps));
    DistinctIdsMakeNamesUnique(f);
  }
}
