/** The table of all responders by element id. A constructor numbers its object by counting the
    table; a cell of a table view is later given an id made of its table's id, row and column. */
module Registry {
  import opened Php

  type Table<+V> = map<string, V>

  /** Every numeric id in use is at least 1 and at most the size of the table. */
  ghost predicate Counted<V>(t: Table<V>)
  {
    forall n: int :: Dec(n) in t ==> 1 <= n <= |t|
  }

  ghost predicate Numeric(id: string)
  {
    exists n: int :: id == Dec(n)
  }

  function NextId<V>(t: Table<V>): string
  {
    Dec(1 + |t|)
  }

  function Register<V>(t: Table<V>, v: V): Table<V>
  {
    t[NextId(t) := v]
  }

  function ReIdentify<V>(t: Table<V>, old': string, id: string, v: V): Table<V>
  {
    t[id := v] - {old'}
  }

  lemma NextIdOfCounted<V>(t: Table<V>)
    requires Counted(t)
    ensures NextId(t) !in t
  {
    assert 1 + |t| > |t|;
  }

  /** The id a constructor picks is not in use, and the table stays counted. */
  lemma NextIdIsFree<V>(t: Table<V>, v: V)
    requires Counted(t)
    ensures NextId(t) !in t && |Register(t, v)| == |t| + 1 && Counted(Register(t, v))
  {
    var r := Register(t, v);
    assert r.Keys == t.Keys + {NextId(t)};
    forall n: int | Dec(n) in r
      ensures 1 <= n <= |r|
    {
      if Dec(n) == NextId(t) {
        DecInjective(n, 1 + |t|);
      }
    }
  }

  /** Giving an object an unused id that is no number keeps the table counted, moves that
      object and leaves every other object where it was. */
  lemma ReIdentifyMoves<V>(t: Table<V>, old': string, id: string, v: V)
    requires Counted(t) && old' in t && id !in t && !Numeric(id)
    ensures var r := ReIdentify(t, old', id, v);
            && Counted(r) && |r| == |t|
            && id in r && r[id] == v && old' !in r
            && forall k :: k in t && k != old' ==> k in r && r[k] == t[k]
  {
    var r := ReIdentify(t, old', id, v);
    assert r.Keys == t.Keys + {id} - {old'};
    assert |t.Keys + {id}| == |t| + 1;
  }

  /** Giving an object the id it already has takes it out of the table. The next constructor
      then picks an id that is free if and only if the highest number was not in use by
      another object. */
  lemma SameIdDropsObject<V>(t: Table<V>, id: string, v: V)
    requires Counted(t) && id in t
    ensures var r := ReIdentify(t, id, id, v);
            id !in r && (NextId(r) !in r <==> Dec(|t|) !in t || id == Dec(|t|))
  {
    var r := ReIdentify(t, id, id, v);
    assert r.Keys == t.Keys - {id};
    assert |r| == |t| - 1;
  }

  // ----- runs -----

  /** The table, and the id that every constructed object has. */
  datatype Records<!V> = Records(table: Table<V>, ids: map<V, string>)

  /** Every object is in the table under its own id, and the table holds nothing else. */
  ghost predicate Consistent<V>(r: Records<V>)
  {
    && Counted(r.table)
    && (forall v :: v in r.ids ==> r.ids[v] in r.table && r.table[r.ids[v]] == v)
    && (forall k :: k in r.table ==> r.table[k] in r.ids && r.ids[r.table[k]] == k)
  }

  datatype Change<V> = Construct(v: V) | SetId(v: V, id: string)

  /** A new object is constructed, or an object gets an unused id that is no number. */
  ghost predicate Legal<V>(r: Records<V>, s: Change<V>)
  {
    match s
    case Construct(v) => v !in r.ids
    case SetId(v, id) => v in r.ids && id !in r.table && !Numeric(id)
  }

  function Apply<V>(r: Records<V>, s: Change<V>): Records<V>
    requires s.SetId? ==> s.v in r.ids
  {
    match s
    case Construct(v) => Records(Register(r.table, v), r.ids[v := NextId(r.table)])
    case SetId(v, id) => Records(ReIdentify(r.table, r.ids[v], id, v), r.ids[v := id])
  }

  ghost predicate LegalRun<V>(r: Records<V>, steps: seq<Change<V>>)
    decreases |steps|
  {
    steps == [] || (Legal(r, steps[0]) && LegalRun(Apply(r, steps[0]), steps[1..]))
  }

  ghost function Run<V>(r: Records<V>, steps: seq<Change<V>>): Records<V>
    requires LegalRun(r, steps)
    decreases |steps|
  {
    if steps == [] then r else Run(Apply(r, steps[0]), steps[1..])
  }

  function Constructions<V>(steps: seq<Change<V>>): nat
  {
    if steps == [] then 0 else (if steps[0].Construct? then 1 else 0) + Constructions(steps[1..])
  }

  lemma StepKeepsRecords<V>(r: Records<V>, s: Change<V>)
    requires Consistent(r) && Legal(r, s)
    ensures var u := Apply(r, s);
        && Consistent(u) && |u.table| == |r.table| + Constructions([s])
        && u.ids.Keys == r.ids.Keys + {s.v}
  {
    match s
    case Construct(v) =>
      NextIdIsFree(r.table, v);
    case SetId(v, id) =>
      ReIdentifyMoves(r.table, r.ids[v], id, v);
  }

  /** Over every run of constructions and moves to unused names, numbering by counting never picks
      an id in use, no object is ever lost, and every object is in the table under its own id. */
  lemma {:induction false} CountingIsFresh<V>(r: Records<V>, steps: seq<Change<V>>)
    requires Consistent(r) && LegalRun(r, steps)
    ensures var u := Run(r, steps);
        && Consistent(u) && NextId(u.table) !in u.table
        && |u.table| == |r.table| + Constructions(steps) && r.ids.Keys <= u.ids.Keys
    decreases |steps|
  {
    hide Apply, NextId, Counted, Numeric;
    if steps == [] {
      NextIdOfCounted(r.table);
    } else {
      StepKeepsRecords(r, steps[0]);
      CountingIsFresh(Apply(r, steps[0]), steps[1..]);
    }
  }

  lemma {:induction false} RunKeepsId<V>(r: Records<V>, steps: seq<Change<V>>, v: V)
    requires LegalRun(r, steps) && v in r.ids && forall i :: 0 <= i < |steps| ==> steps[i].Construct?
    ensures v in Run(r, steps).ids && Run(r, steps).ids[v] == r.ids[v]
    decreases |steps|
  {
    if steps != [] {
      RunKeepsId(Apply(r, steps[0]), steps[1..], v);
    }
  }

  lemma StepNumbers<V>(r: Records<V>, v: V)
    requires Consistent(r) && v !in r.ids
    ensures var s := Apply(r, Construct(v));
        Consistent(s) && v in s.ids && s.ids[v] == Dec(|r.table| + 1) && |s.table| == |r.table| + 1
  {
    hide Consistent, Dec, Register;
    StepKeepsRecords(r, Construct(v));
    OneConstruction(v);
  }

  lemma OneConstruction<V>(v: V)
    ensures Constructions([Construct(v)]) == 1
  {
  }

  /** Objects that are constructed one after the other are numbered one after the other, from one more
      than there are responders. */
  lemma {:induction false} NumbersCountUp<V>(r: Records<V>, steps: seq<Change<V>>, k: nat)
    requires Consistent(r) && LegalRun(r, steps) && k < |steps|
    requires forall i :: 0 <= i < |steps| ==> steps[i].Construct?
    ensures steps[k].v in Run(r, steps).ids && Run(r, steps).ids[steps[k].v] == Dec(|r.table| + 1 + k)
    decreases |steps|
  {
    hide Consistent, Apply, Dec;
    var s := Apply(r, steps[0]);
    StepNumbers(r, steps[0].v);
    if k == 0 {
      RunKeepsId(s, steps[1..], steps[0].v);
    } else {
      NumbersCountUp(s, steps[1..], k - 1);
      assert steps[1..][k - 1] == steps[k];
    }
  }

  /** Objects in the table under their own ids have distinct ids. */
  lemma OwnIdsAreDistinct<V>(r: Records<V>, u: V, v: V)
    requires Consistent(r) && u in r.ids && v in r.ids
    ensures r.ids[u] == r.ids[v] <==> u == v
  {
    assert r.table[r.ids[u]] == u && r.table[r.ids[v]] == v;
  }

  /** The id of a table cell is no number. */
  lemma CellIdIsNotNumeric(id: string, row: nat, column: nat)
    ensures !Numeric(id + "-" + Dec(row) + "-" + Dec(column))
  {
    var s := id + "-" + Dec(row) + "-" + Dec(column);
    var i := |id + "-" + Dec(row)|;
    assert s[i] == '-' && i > 0;
    forall n: int
      ensures s != Dec(n)
    {
      NumbersHaveNoInnerDash(n, i);
    }
  }

  lemma NumbersHaveNoInnerDash(n: int, i: nat)
    ensures 0 < i < |Dec(n)| ==> Dec(n)[i] != '-'
  {
    var digits := DecNat(if n < 0 then -n else n);
    if 0 < i < |Dec(n)| {
      assert Dec(n)[i] == if n < 0 then digits[i - 1] else digits[i];
      assert Dec(n)[i] in digits;
    }
  }
}
