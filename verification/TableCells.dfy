/** The value of a table view: its columns, how many rows it has and shows, and the data behind
    it. All rows of a column are drawn and read through one cell, which is renamed for each
    entry; what a page of such cells posts, and what collecting commits to the data. */
module TableCells {
  import opened Php
  import opened Persistence
  import opened Pages
  import opened PageLaws
  import opened Dispatch
  import opened Registry

  /** A column with its cells: whether the column and its data cell are editable, and the
      persistor of the data cell. */
  datatype Column<C, V> = Column(
    column: C, hidden: bool, isEditable: bool, title: string,
    dataCell: V, cellEditable: bool, password: bool, persistor: Persistor, headerCell: V)

  datatype TableView<C, V> = TableView(id: string, columns: seq<Column<C, V>>, rows: nat, visibleRows: int)

  /** The data source: a value for every column and row. */
  type Data<!C(==)> = map<(C, int), Value>

  function ValueAt<C(==)>(data: Data<C>, column: C, row: int): Value
  {
    if (column, row) in data then data[(column, row)] else Null
  }

  /** The row loops of collecting and of displaying run up to here. */
  function Limit<C, V>(t: TableView<C, V>): int
  {
    if t.visibleRows == 0 then t.rows else t.visibleRows
  }

  function CellId(id: string, row: int, index: int): string
  {
    id + "-" + Dec(row) + "-" + Dec(index)
  }

  /** The first place at which the column of a place is found. */
  function Place<C(==), V>(t: TableView<C, V>, index: nat): (r: nat)
    requires index < |t.columns|
    ensures r <= index && t.columns[r].column == t.columns[index].column
    ensures forall i :: 0 <= i < r ==> t.columns[i].column != t.columns[index].column
  {
    PlaceFrom(t, index, 0)
  }

  function PlaceFrom<C(==), V>(t: TableView<C, V>, index: nat, from: nat): (r: nat)
    requires from <= index < |t.columns|
    requires forall i :: 0 <= i < from ==> t.columns[i].column != t.columns[index].column
    ensures r <= index && t.columns[r].column == t.columns[index].column
    ensures forall i :: 0 <= i < r ==> t.columns[i].column != t.columns[index].column
    decreases index - from
  {
    if t.columns[from].column == t.columns[index].column then from else PlaceFrom(t, index, from + 1)
  }

  function EntryName<C, V>(t: TableView<C, V>, row: int, index: nat): string
    requires index < |t.columns|
  {
    NameOf(CellId(t.id, row, index), t.columns[index].persistor)
  }

  /** An entry that displaying fills with data. */
  predicate Filled<C, V>(t: TableView<C, V>, row: int, index: nat)
  {
    index < |t.columns| && !t.columns[index].hidden && 0 <= row < t.rows && row < Limit(t)
  }

  predicate Editable<C, V>(t: TableView<C, V>, row: int, index: nat)
  {
    Filled(t, row, index) && t.columns[index].isEditable
  }

  // ----- collecting -----

  /** What an entry becomes when the form holds a value under its name that differs. */
  function Edited(value: Value, name: string, form: Form, differs: (Value, Value) -> bool): Value
  {
    if name in form && differs(Str(form[name]), value) then Str(form[name]) else value
  }

  /** The string of the shared cell once it was filled with the value and read the form. */
  function ReadBack(value: Value, name: string, form: Form): Value
  {
    if name in form then Str(form[name]) else value
  }

  /** The data and the event queue while collecting. */
  datatype State<!C(==), V> = State(data: Data<C>, queue: seq<NSEvent<V>>)

  function Visit<C(==), V>(t: TableView<C, V>, form: Form, differs: (Value, Value) -> bool, s: State<C, V>,
                           row: int, index: nat): State<C, V>
    requires index < |t.columns|
  {
    if !Editable(t, row, index) then s
    else
      var c := t.columns[index];
      var value := ValueAt(s.data, c.column, row);
      var newval := ReadBack(value, EntryName(t, row, index), form);
      State(if differs(newval, value) then s.data[(c.column, row) := newval] else s.data,
            s.queue + if Lookup(form, "NSEvent") == Some(CellId(t.id, row, index))
                      then [NSEvent(c.dataCell, Lookup(form, "clickedRow"), Lookup(form, "clickedColumn"))] else [])
  }

  /** The rest of a row, from a column on. */
  function VisitRow<C(==), V>(t: TableView<C, V>, form: Form, differs: (Value, Value) -> bool, s: State<C, V>,
                              row: int, index: nat): State<C, V>
    decreases |t.columns| - index
  {
    if index >= |t.columns| then s
    else VisitRow(t, form, differs, Visit(t, form, differs, s, row, index), row, index + 1)
  }

  /** The rest of the table, from a row on. */
  function VisitRows<C(==), V>(t: TableView<C, V>, form: Form, differs: (Value, Value) -> bool, s: State<C, V>,
                               row: int): State<C, V>
    decreases Limit(t) - row
  {
    if row >= Limit(t) then s
    else VisitRows(t, form, differs, VisitRow(t, form, differs, s, row, 0), row + 1)
  }

  /** `!=`: no value differs from itself. */
  ghost predicate Irreflexive(differs: (Value, Value) -> bool) {
    forall v :: !differs(v, v)
  }

  ghost predicate DistinctColumns<C, V>(t: TableView<C, V>) {
    forall i, j :: 0 <= i < j < |t.columns| ==> t.columns[i].column != t.columns[j].column
  }

  lemma VisitEntry<C, V>(t: TableView<C, V>, form: Form, differs: (Value, Value) -> bool, s: State<C, V>,
                         row: int, index: nat, c: C, r: int)
    requires Irreflexive(differs) && index < |t.columns|
    ensures var v := ValueAt(s.data, c, r);
        ValueAt(Visit(t, form, differs, s, row, index).data, c, r) ==
        if Editable(t, row, index) && c == t.columns[index].column && r == row
        then Edited(v, EntryName(t, row, index), form, differs) else v
  {
  }

  lemma {:induction false} VisitRowEntry<C, V>(t: TableView<C, V>, form: Form, differs: (Value, Value) -> bool,
                                               s: State<C, V>, row: int, index: nat, k: nat, r: int)
    requires Irreflexive(differs) && DistinctColumns(t) && k < |t.columns|
    ensures var c := t.columns[k].column;
        var v := ValueAt(s.data, c, r);
        ValueAt(VisitRow(t, form, differs, s, row, index).data, c, r) ==
        if index <= k && r == row && Editable(t, row, k) then Edited(v, EntryName(t, row, k), form, differs) else v
    decreases |t.columns| - index
  {
    hide Edited, EntryName, Editable, ValueAt, Visit;
    if index < |t.columns| {
      VisitEntry(t, form, differs, s, row, index, t.columns[k].column, r);
      VisitRowEntry(t, form, differs, Visit(t, form, differs, s, row, index), row, index + 1, k, r);
    }
  }

  lemma {:induction false} VisitRowsEntry<C, V>(t: TableView<C, V>, form: Form, differs: (Value, Value) -> bool,
                                                s: State<C, V>, row: int, k: nat, r: int)
    requires Irreflexive(differs) && DistinctColumns(t) && k < |t.columns|
    ensures var c := t.columns[k].column;
        var v := ValueAt(s.data, c, r);
        ValueAt(VisitRows(t, form, differs, s, row).data, c, r) ==
        if row <= r && Editable(t, r, k) then Edited(v, EntryName(t, r, k), form, differs) else v
    decreases Limit(t) - row
  {
    hide Edited, EntryName, ValueAt, VisitRow;
    if row < Limit(t) {
      VisitRowEntry(t, form, differs, s, row, 0, k, r);
      VisitRowsEntry(t, form, differs, VisitRow(t, form, differs, s, row, 0), row + 1, k, r);
    }
  }

  lemma {:induction false} VisitRowForeign<C, V>(t: TableView<C, V>, form: Form, differs: (Value, Value) -> bool,
                                                 s: State<C, V>, row: int, index: nat, c: C, r: int)
    requires Irreflexive(differs) && forall i :: 0 <= i < |t.columns| ==> t.columns[i].column != c
    ensures ValueAt(VisitRow(t, form, differs, s, row, index).data, c, r) == ValueAt(s.data, c, r)
    decreases |t.columns| - index
  {
    hide ValueAt, Visit, Edited, EntryName, Editable;
    if index < |t.columns| {
      VisitEntry(t, form, differs, s, row, index, c, r);
      VisitRowForeign(t, form, differs, Visit(t, form, differs, s, row, index), row, index + 1, c, r);
    }
  }

  lemma {:induction false} VisitRowsForeign<C, V>(t: TableView<C, V>, form: Form, differs: (Value, Value) -> bool,
                                                  s: State<C, V>, row: int, c: C, r: int)
    requires Irreflexive(differs) && forall i :: 0 <= i < |t.columns| ==> t.columns[i].column != c
    ensures ValueAt(VisitRows(t, form, differs, s, row).data, c, r) == ValueAt(s.data, c, r)
    decreases Limit(t) - row
  {
    hide ValueAt, VisitRow;
    if row < Limit(t) {
      VisitRowForeign(t, form, differs, s, row, 0, c, r);
      VisitRowsForeign(t, form, differs, VisitRow(t, form, differs, s, row, 0), row + 1, c, r);
    }
  }

  function Committed<C(==), V>(t: TableView<C, V>, form: Form, differs: (Value, Value) -> bool, data: Data<C>): Data<C>
  {
    VisitRows(t, form, differs, State(data, []), 0).data
  }

  lemma {:induction false} RowIgnoresQueue<C, V>(t: TableView<C, V>, form: Form, differs: (Value, Value) -> bool,
                                                 s: State<C, V>, s': State<C, V>, row: int, index: nat)
    requires s.data == s'.data
    ensures VisitRow(t, form, differs, s, row, index).data == VisitRow(t, form, differs, s', row, index).data
    decreases |t.columns| - index
  {
    if index < |t.columns| {
      RowIgnoresQueue(t, form, differs, Visit(t, form, differs, s, row, index), Visit(t, form, differs, s', row, index),
                      row, index + 1);
    }
  }

  lemma {:induction false} DataIgnoresQueue<C, V>(t: TableView<C, V>, form: Form, differs: (Value, Value) -> bool,
                                                  s: State<C, V>, s': State<C, V>, row: int)
    requires s.data == s'.data
    ensures VisitRows(t, form, differs, s, row).data == VisitRows(t, form, differs, s', row).data
    decreases Limit(t) - row
  {
    if row < Limit(t) {
      RowIgnoresQueue(t, form, differs, s, s', row, 0);
      DataIgnoresQueue(t, form, differs, VisitRow(t, form, differs, s, row, 0), VisitRow(t, form, differs, s', row, 0),
                       row + 1);
    }
  }

  /** Collecting commits to each editable entry that displaying fills the value posted under
      the entry's own name, if one was posted that differs, and changes nothing else, although
      all entries of a column, and possibly of several columns, share one cell. */
  lemma EditsAreCommitted<C, V>(t: TableView<C, V>, form: Form, differs: (Value, Value) -> bool, data: Data<C>,
                                k: nat, r: int)
    requires Irreflexive(differs) && DistinctColumns(t) && k < |t.columns|
    ensures var c := t.columns[k].column;
        ValueAt(Committed(t, form, differs, data), c, r) ==
        if Editable(t, r, k) then Edited(ValueAt(data, c, r), EntryName(t, r, k), form, differs)
        else ValueAt(data, c, r)
  {
    VisitRowsEntry<C, V>(t, form, differs, State(data, []), 0, k, r);
  }

  /** The same by the names of a form: the value posted under the id of the table, the row and the
      column is committed to that row and that column, if it is one that the table shows and lets
      edit, and differs. */
  lemma PostedEntryIsCommitted<C, V>(t: TableView<C, V>, form: Form, differs: (Value, Value) -> bool, data: Data<C>,
                                     k: nat, r: int)
    requires Irreflexive(differs) && DistinctColumns(t) && AutoNamed(t) && k < |t.columns| && r >= 0
    ensures var c, n := t.columns[k], t.id + "-" + Dec(r) + "-" + Dec(k) + "-string";
        var before := ValueAt(data, c.column, r);
        ValueAt(Committed(t, form, differs, data), c.column, r) ==
        if n in form && differs(Str(form[n]), before)
           && !c.hidden && c.isEditable && r < t.rows && (t.visibleRows == 0 || r < t.visibleRows)
        then Str(form[n]) else before
  {
    hide Committed, ValueAt;
    EditsAreCommitted(t, form, differs, data, k, r);
    assert t.id + "-" + Dec(r) + "-" + Dec(k) + "-string" == EntryName(t, r, k) by {
      assert "-string" == "-" + "string";
    }
  }

  lemma OtherDataIsKept<C, V>(t: TableView<C, V>, form: Form, differs: (Value, Value) -> bool, data: Data<C>, c: C, r: int)
    requires Irreflexive(differs) && forall i :: 0 <= i < |t.columns| ==> t.columns[i].column != c
    ensures ValueAt(Committed(t, form, differs, data), c, r) == ValueAt(data, c, r)
  {
    VisitRowsForeign<C, V>(t, form, differs, State(data, []), 0, c, r);
  }

  // ----- the events of cells -----

  /** The shared cells are no views under the content view: they are nobody's subviews. */
  ghost predicate CellsApart<C, V>(t: TableView<C, V>, content: Forest<V>) {
    forall i :: 0 <= i < |t.columns| ==> t.columns[i].dataCell !in Views(content)
  }

  lemma VisitCallsNobody<C, V>(t: TableView<C, V>, form: Form, differs: (Value, Value) -> bool, s: State<C, V>,
                               row: int, index: nat, content: Forest<V>)
    requires index < |t.columns| && CellsApart(t, content)
    ensures Calls(Some(content), Visit(t, form, differs, s, row, index).queue) == Calls(Some(content), s.queue)
  {
    var queue := Visit(t, form, differs, s, row, index).queue;
    if |queue| > |s.queue| {
      var event := queue[|s.queue|];
      CallsConcat(Some(content), s.queue, [event]);
      assert queue == s.queue + [event];
      assert Calls(Some(content), [event]) == [] + Calls(Some(content), []);
    } else {
      assert queue == s.queue;
    }
  }

  lemma {:induction false} RowCallsNobody<C, V>(t: TableView<C, V>, form: Form, differs: (Value, Value) -> bool,
                                                s: State<C, V>, row: int, index: nat, content: Forest<V>)
    requires CellsApart(t, content)
    ensures Calls(Some(content), VisitRow(t, form, differs, s, row, index).queue) == Calls(Some(content), s.queue)
    decreases |t.columns| - index
  {
    hide Visit, Calls, CellsApart;
    if index < |t.columns| {
      VisitCallsNobody(t, form, differs, s, row, index, content);
      RowCallsNobody(t, form, differs, Visit(t, form, differs, s, row, index), row, index + 1, content);
    }
  }

  /** The event that was posted for a cell of the table, with the row and the column that were posted. */
  ghost predicate CellEvent<C, V>(e: NSEvent<V>, t: TableView<C, V>, form: Form)
  {
    && (if "clickedRow" in form then e.row == Some(form["clickedRow"]) else e.row == None)
    && (if "clickedColumn" in form then e.column == Some(form["clickedColumn"]) else e.column == None)
    && exists r, k: nat :: Editable(t, r, k) && e.target == t.columns[k].dataCell
         && "NSEvent" in form && form["NSEvent"] == t.id + "-" + Dec(r) + "-" + Dec(k)
  }

  lemma VisitEvents<C, V>(t: TableView<C, V>, form: Form, differs: (Value, Value) -> bool, s: State<C, V>,
                          row: int, index: nat)
    requires index < |t.columns|
    ensures forall e :: e in Visit(t, form, differs, s, row, index).queue ==> e in s.queue || CellEvent(e, t, form)
  {
    var queue := Visit(t, form, differs, s, row, index).queue;
    if |queue| > |s.queue| {
      assert queue == s.queue + [queue[|s.queue|]];
      assert Editable(t, row, index) && form["NSEvent"] == t.id + "-" + Dec(row) + "-" + Dec(index);
    } else {
      assert queue == s.queue;
    }
  }

  lemma {:induction false} RowEvents<C, V>(t: TableView<C, V>, form: Form, differs: (Value, Value) -> bool,
                                           s: State<C, V>, row: int, index: nat)
    ensures forall e :: e in VisitRow(t, form, differs, s, row, index).queue ==> e in s.queue || CellEvent(e, t, form)
    decreases |t.columns| - index
  {
    hide Visit, CellEvent;
    if index < |t.columns| {
      VisitEvents(t, form, differs, s, row, index);
      RowEvents(t, form, differs, Visit(t, form, differs, s, row, index), row, index + 1);
    }
  }

  /** Collecting queues nothing but events that were posted for the cells of editable entries. */
  lemma {:induction false} CellEvents<C, V>(t: TableView<C, V>, form: Form, differs: (Value, Value) -> bool,
                                            s: State<C, V>, row: int)
    ensures forall e :: e in VisitRows(t, form, differs, s, row).queue ==> e in s.queue || CellEvent(e, t, form)
    decreases Limit(t) - row
  {
    hide VisitRow, CellEvent;
    if row < Limit(t) {
      RowEvents(t, form, differs, s, row, 0);
      CellEvents(t, form, differs, VisitRow(t, form, differs, s, row, 0), row + 1);
    }
  }

  /** While the window has a content view, the events that are queued for cells reach nobody: hit
      testing does not find the cell, and the calls are those of the queue without these events. */
  lemma {:induction false} CellsAreNotCalled<C, V>(t: TableView<C, V>, form: Form, differs: (Value, Value) -> bool,
                                                   s: State<C, V>, row: int, content: Forest<V>)
    requires CellsApart(t, content)
    ensures Calls(Some(content), VisitRows(t, form, differs, s, row).queue) == Calls(Some(content), s.queue)
    ensures forall i :: 0 <= i < |t.columns| ==> HitTest(content, t.columns[i].dataCell) == None
    decreases Limit(t) - row
  {
    hide VisitRow, Calls;
    if row < Limit(t) {
      RowCallsNobody(t, form, differs, s, row, 0, content);
      CellsAreNotCalled(t, form, differs, VisitRow(t, form, differs, s, row, 0), row + 1, content);
    }
    forall i | 0 <= i < |t.columns| ensures HitTest(content, t.columns[i].dataCell) == None {
      HitTestFinds(content, t.columns[i].dataCell);
    }
  }

  // ----- displaying -----

  /** Displaying names a cell once, for the first place of its column. */
  function ShownName<C(==), V>(t: TableView<C, V>, row: int, index: nat): string
    requires index < |t.columns|
  {
    NameOf(CellId(t.id, row, Place(t, index)), t.columns[index].persistor)
  }

  /** One cell of a row: the header cell in row -1, the data cell in a row with data, nothing in
      the rows that only pad the table. */
  function CellOutput<C(==), V>(t: TableView<C, V>, data: Data<C>, row: int, index: nat): seq<Output<V>>
    requires index < |t.columns|
  {
    var c := t.columns[index];
    if c.hidden || row >= t.rows then []
    else if row < 0 then [DrawCall(c.headerCell)]
    else [DrawCall(c.dataCell)] +
         if c.cellEditable
         then [Element(Typed(ShownName(t, row, index), if c.password then "" else Text(ValueAt(data, c.column, row))))]
         else []
  }

  function RowOutput<C(==), V>(t: TableView<C, V>, data: Data<C>, row: int, index: nat): seq<Output<V>>
    decreases |t.columns| - index
  {
    if index >= |t.columns| then [] else CellOutput(t, data, row, index) + RowOutput(t, data, row, index + 1)
  }

  function RowsOutput<C(==), V>(t: TableView<C, V>, data: Data<C>, row: int): seq<Output<V>>
    decreases Limit(t) - row
  {
    if row >= Limit(t) then [] else RowOutput(t, data, row, 0) + RowsOutput(t, data, row + 1)
  }

  /** In how many columns on display, from one on, a view is the header cell or the data cell. */
  function Uses<C, V(==)>(t: TableView<C, V>, x: V, header: bool, from: nat): nat
    decreases |t.columns| - from
  {
    if from >= |t.columns| then 0
    else
      var c := t.columns[from];
      (if !c.hidden && (if header then c.headerCell else c.dataCell) == x then 1 else 0) + Uses(t, x, header, from + 1)
  }

  lemma CellDraws<C, V>(t: TableView<C, V>, data: Data<C>, row: int, index: nat, x: V)
    requires index < |t.columns|
    ensures var c := t.columns[index];
        DrawCount(CellOutput(t, data, row, index), x) ==
        if !c.hidden && row < t.rows && (if row < 0 then c.headerCell else c.dataCell) == x then 1 else 0
  {
    var out := CellOutput(t, data, row, index);
    if out != [] {
      var rest := out[1..];
      assert out[0].DrawCall? && (rest != [] ==> rest[0].Element? && rest[1..] == []);
      assert DrawCount(rest, x) == 0;
    }
  }

  lemma {:induction false} RowDraws<C, V>(t: TableView<C, V>, data: Data<C>, row: int, index: nat, x: V)
    ensures DrawCount(RowOutput(t, data, row, index), x) == if row < t.rows then Uses(t, x, row < 0, index) else 0
    decreases |t.columns| - index
  {
    hide CellOutput, DrawCount;
    if index < |t.columns| {
      CellDraws(t, data, row, index, x);
      RowDraws(t, data, row, index + 1, x);
      DrawCountConcat(CellOutput(t, data, row, index), RowOutput(t, data, row, index + 1), x);
    } else {
      NoDraws(x);
    }
  }

  lemma NoDraws<V>(x: V)
    ensures DrawCount<V>([], x) == 0
  {
  }

  /** How many of the rows from one on have data and are shown. */
  function RowsFrom<C, V>(t: TableView<C, V>, row: int): nat
  {
    var end := if t.visibleRows == 0 || t.rows < t.visibleRows then t.rows else t.visibleRows;
    if row < end then end - row else 0
  }

  lemma {:induction false} RowsDraw<C, V>(t: TableView<C, V>, data: Data<C>, row: nat, x: V)
    ensures DrawCount(RowsOutput(t, data, row), x) == RowsFrom(t, row) * Uses(t, x, false, 0)
    decreases Limit(t) - row
  {
    hide RowOutput, Uses, DrawCount;
    if row < Limit(t) {
      RowDraws(t, data, row, 0, x);
      RowsDraw(t, data, row + 1, x);
      DrawCountConcat(RowOutput(t, data, row, 0), RowsOutput(t, data, row + 1), x);
      OneMoreRow(t, row, Uses(t, x, false, 0));
    } else {
      NoDraws(x);
      assert RowsFrom(t, row) == 0;
    }
  }

  lemma OneMoreRow<C, V>(t: TableView<C, V>, row: int, n: nat)
    requires 0 <= row < Limit(t)
    ensures RowsFrom(t, row) * n == (if row < t.rows then n else 0) + RowsFrom(t, row + 1) * n
  {
    if row < t.rows {
      assert RowsFrom(t, row) == RowsFrom(t, row + 1) + 1;
      assert (RowsFrom(t, row + 1) + 1) * n == RowsFrom(t, row + 1) * n + n;
    } else {
      assert RowsFrom(t, row) == 0 && RowsFrom(t, row + 1) == 0;
    }
  }

  /** A table draws the header cell of every column on display once, and its data cell once for every
      row that has data and is shown. */
  lemma TableDraws<C, V>(t: TableView<C, V>, data: Data<C>, x: V)
    requires t.visibleRows >= 0
    ensures var shown := if t.visibleRows == 0 || t.rows < t.visibleRows then t.rows else t.visibleRows;
        DrawCount(RowsOutput(t, data, -1), x) == Uses(t, x, true, 0) + shown * Uses(t, x, false, 0)
  {
    hide RowOutput, Uses, DrawCount;
    RowDraws(t, data, -1, 0, x);
    RowsDraw(t, data, 0, x);
    DrawCountConcat(RowOutput(t, data, -1, 0), RowsOutput(t, data, 0), x);
  }

  /** Every data cell keeps the automatic name of its string. */
  ghost predicate AutoNamed<C, V>(t: TableView<C, V>) {
    forall i :: 0 <= i < |t.columns| ==> t.columns[i].persistor.name.None? && t.columns[i].persistor.property == "string"
  }

  lemma DecHasNoDash(n: int)
    requires n >= 0
    ensures '-' !in Dec(n)
  {
  }

  /** No two entries of a table have the same name. */
  lemma EntryNameInjective<C, V>(t: TableView<C, V>, r: int, k: nat, r': int, k': nat)
    requires AutoNamed(t) && k < |t.columns| && k' < |t.columns| && r >= 0 && r' >= 0
    requires EntryName(t, r, k) == EntryName(t, r', k')
    ensures r == r' && k == k'
  {
    DecHasNoDash(k);
    DecHasNoDash(k');
    DecHasNoDash(r);
    DecHasNoDash(r');
    assert '-' !in "string";
    AutoNameInjective(CellId(t.id, r, k), "string", CellId(t.id, r', k'), "string");
    AutoNameInjective(AutoName(t.id, Dec(r)), Dec(k), AutoName(t.id, Dec(r')), Dec(k'));
    AutoNameInjective(t.id, Dec(r), t.id, Dec(r'));
    DecInjective(r, r');
    DecInjective(k, k');
  }

  function Posted<C(==), V>(t: TableView<C, V>, data: Data<C>, row: int, index: nat): string
    requires index < |t.columns|
  {
    if t.columns[index].password then "" else Text(ValueAt(data, t.columns[index].column, row))
  }

  lemma CellValues<C, V>(t: TableView<C, V>, data: Data<C>, row: int, index: nat, r: int, k: nat)
    requires AutoNamed(t) && DistinctColumns(t) && index < |t.columns| && Filled(t, r, k) && t.columns[k].cellEditable
    ensures Values(CellOutput(t, data, row, index), EntryName(t, r, k)) ==
        if row == r && index == k then [Posted(t, data, r, k)] else []
  {
    var n := EntryName(t, r, k);
    var c := t.columns[index];
    var out := CellOutput(t, data, row, index);
    if out != [] {
      assert out[0].DrawCall?;
      var rest := out[1..];
      if row >= 0 && c.cellEditable {
        assert Place(t, index) == index;
        assert rest == [Element(Typed(EntryName(t, row, index), Posted(t, data, row, index)))];
        assert rest[1..] == [] && rest[0] == Element(Typed(EntryName(t, row, index), Posted(t, data, row, index)));
        NoValues<V>(n);
        assert Values(rest, n) == ValueUnder(rest[0], n);
        if EntryName(t, row, index) == n {
          EntryNameInjective(t, row, index, r, k);
        }
      } else {
        assert rest == [];
      }
    }
  }

  lemma {:induction false} RowValues<C, V>(t: TableView<C, V>, data: Data<C>, row: int, index: nat, r: int, k: nat)
    requires AutoNamed(t) && DistinctColumns(t) && Filled(t, r, k) && t.columns[k].cellEditable
    ensures Values(RowOutput(t, data, row, index), EntryName(t, r, k)) ==
        if row == r && index <= k then [Posted(t, data, r, k)] else []
    decreases |t.columns| - index
  {
    hide CellOutput, EntryName, Posted, Values;
    if index < |t.columns| {
      CellValues(t, data, row, index, r, k);
      RowValues(t, data, row, index + 1, r, k);
      ValuesConcat(CellOutput(t, data, row, index), RowOutput(t, data, row, index + 1), EntryName(t, r, k));
    } else {
      NoValues<V>(EntryName(t, r, k));
    }
  }

  lemma NoValues<V>(n: string)
    ensures Values<V>([], n) == []
  {
  }

  lemma {:induction false} RowsValues<C, V>(t: TableView<C, V>, data: Data<C>, row: int, r: int, k: nat)
    requires AutoNamed(t) && DistinctColumns(t) && Filled(t, r, k) && t.columns[k].cellEditable
    ensures Values(RowsOutput(t, data, row), EntryName(t, r, k)) == if row <= r then [Posted(t, data, r, k)] else []
    decreases Limit(t) - row
  {
    hide RowOutput, EntryName, Posted, Values;
    if row < Limit(t) {
      RowValues(t, data, row, 0, r, k);
      RowsValues(t, data, row + 1, r, k);
      ValuesConcat(RowOutput(t, data, row, 0), RowsOutput(t, data, row + 1), EntryName(t, r, k));
    } else {
      NoValues<V>(EntryName(t, r, k));
    }
  }

  /** The page of a table has exactly one input under the name of each filled entry whose cell
      is editable, and it holds the entry's own value. */
  lemma OneInputPerEntry<C, V>(t: TableView<C, V>, data: Data<C>, r: int, k: nat)
    requires AutoNamed(t) && DistinctColumns(t) && Filled(t, r, k) && t.columns[k].cellEditable
    ensures Values(RowsOutput(t, data, -1), EntryName(t, r, k))
        == [if t.columns[k].password then "" else Text(ValueAt(data, t.columns[k].column, r))]
  {
    RowsValues(t, data, -1, r, k);
  }

  /** A page that is posted back as it is commits nothing: no entry differs from its own text. */
  lemma UnchangedPageKeepsData<C, V>(t: TableView<C, V>, differs: (Value, Value) -> bool, data: Data<C>, k: nat, r: int)
    requires Irreflexive(differs) && DistinctColumns(t) && AutoNamed(t) && k < |t.columns|
    requires forall v :: !differs(Str(Text(v)), v)
    requires forall i :: 0 <= i < |t.columns| && t.columns[i].isEditable ==>
        t.columns[i].cellEditable && !t.columns[i].password
    ensures var c := t.columns[k].column;
        ValueAt(Committed(t, Echo(RowsOutput(t, data, -1)), differs, data), c, r) == ValueAt(data, c, r)
  {
    var out := RowsOutput(t, data, -1);
    EditsAreCommitted(t, Echo(out), differs, data, k, r);
    if Editable(t, r, k) {
      OneInputPerEntry(t, data, r, k);
      EchoIsLast(out, EntryName(t, r, k));
    }
  }

  /** The page with other text typed into its inputs, name by name. */
  function Retyped<V>(out: seq<Output<V>>, typed: string -> string): seq<Output<V>>
  {
    if out == [] then []
    else [match out[0] case Element(Typed(n, _)) => Element(Typed(n, typed(n))) case _ => out[0]] + Retyped(out[1..], typed)
  }

  lemma {:induction false} RetypedValues<V>(out: seq<Output<V>>, typed: string -> string, n: string)
    requires forall i :: 0 <= i < |out| ==> !(out[i].Element? && out[i].input.Hidden?)
    ensures |Values(Retyped(out, typed), n)| == |Values(out, n)|
    ensures forall i :: 0 <= i < |Values(out, n)| ==> Values(Retyped(out, typed), n)[i] == typed(n)
  {
    if out != [] {
      RetypedValues(out[1..], typed, n);
      var again := Retyped(out, typed);
      assert again[1..] == Retyped(out[1..], typed);
      assert Values(again, n) == ValueUnder(again[0], n) + Values(again[1..], n);
      assert Values(out, n) == ValueUnder(out[0], n) + Values(out[1..], n);
    }
  }

  lemma {:induction false} NothingHidden<C, V>(t: TableView<C, V>, data: Data<C>, row: int)
    ensures forall o :: o in RowsOutput(t, data, row) ==> !(o.Element? && o.input.Hidden?)
    decreases Limit(t) - row
  {
    if row < Limit(t) {
      NothingHiddenInRow(t, data, row, 0);
      NothingHidden(t, data, row + 1);
    }
  }

  lemma {:induction false} NothingHiddenInRow<C, V>(t: TableView<C, V>, data: Data<C>, row: int, index: nat)
    ensures forall o :: o in RowOutput(t, data, row, index) ==> !(o.Element? && o.input.Hidden?)
    decreases |t.columns| - index
  {
    if index < |t.columns| {
      NothingHiddenInRow(t, data, row, index + 1);
    }
  }

  /** From page to data: whatever the user types into the cells of a page, independently of one
      another, the next request commits to exactly the entries whose text differs. */
  lemma TypedEntriesAreCommitted<C, V>(t: TableView<C, V>, differs: (Value, Value) -> bool, data: Data<C>,
                                       typed: string -> string, k: nat, r: int)
    requires Irreflexive(differs) && DistinctColumns(t) && AutoNamed(t)
    requires Editable(t, r, k) && t.columns[k].cellEditable
    ensures var c := t.columns[k].column;
        var old' := ValueAt(data, c, r);
        var new' := Str(typed(EntryName(t, r, k)));
        ValueAt(Committed(t, Echo(Retyped(RowsOutput(t, data, -1), typed)), differs, data), c, r)
        == if differs(new', old') then new' else old'
  {
    var out := RowsOutput(t, data, -1);
    var n := EntryName(t, r, k);
    var form := Echo(Retyped(out, typed));
    EditsAreCommitted(t, form, differs, data, k, r);
    OneInputPerEntry(t, data, r, k);
    NothingHidden(t, data, -1);
    RetypedValues(out, typed, n);
    EchoIsLast(Retyped(out, typed), n);
  }

  /** One page after the other: each is drawn from the data as they are, the user types into it, and
      posting it commits what differs. */
  function CommittedRun<C(==), V>(t: TableView<C, V>, differs: (Value, Value) -> bool, data: Data<C>,
                                  pages: seq<string -> string>): Data<C>
    decreases |pages|
  {
    if pages == [] then data
    else
      var before := CommittedRun(t, differs, data, pages[..|pages| - 1]);
      Committed(t, Echo(Retyped(RowsOutput(t, before, -1), pages[|pages| - 1])), differs, before)
  }

  /** Over any run of pages an entry holds what was typed last, up to texts that do not differ from
      what it holds; and it never holds anything but its first value or a text typed for it. */
  lemma {:induction false} LastTypedIsHeld<C, V>(t: TableView<C, V>, differs: (Value, Value) -> bool, data: Data<C>,
                                                 pages: seq<string -> string>, k: nat, r: int)
    requires Irreflexive(differs) && DistinctColumns(t) && AutoNamed(t)
    requires Editable(t, r, k) && t.columns[k].cellEditable
    ensures var c, n := t.columns[k].column, EntryName(t, r, k);
        var v := ValueAt(CommittedRun(t, differs, data, pages), c, r);
        && (pages != [] ==> !differs(Str(pages[|pages| - 1](n)), v))
        && (v == ValueAt(data, c, r) || exists i :: 0 <= i < |pages| && v == Str(pages[i](n)))
    decreases |pages|
  {
    hide Committed, Retyped, RowsOutput, Echo, ValueAt, Editable, EntryName;
    if pages != [] {
      var earlier := pages[..|pages| - 1];
      LastTypedIsHeld(t, differs, data, earlier, k, r);
      TypedEntriesAreCommitted(t, differs, CommittedRun(t, differs, data, earlier), pages[|pages| - 1], k, r);
    }
  }
}
