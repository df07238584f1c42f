/** Tables of views, as collection views and matrices lay them out with row and column counters,
    and a reader of such markup that accepts only properly nested, fully closed tables. */
module Markup {
  import opened Php

  /** The tags that matter for nesting. A cell carries the counters at which it was opened. */
  datatype Token<V> =
    | OpenTable
    | CloseTable
    | OpenRow
    | CloseRow
    | OpenCell(row: int, column: int)
    | CloseCell
    | OpenSpan(column: int)
    | CloseSpan
    | Space
    | Shown(view: V)

  // ----- the layout loop -----

  function Cell<V>(row: int, column: int, item: V): seq<Token<V>>
  {
    [OpenCell(row, column), Shown(item), CloseCell]
  }

  /** What the loop emits from the given counters on. Both counters start at `first`; after the
      last item a row is closed if the column counter is beyond 1. */
  function Layout<V>(items: seq<V>, first: int, row: int, column: int, columns: int): seq<Token<V>>
    decreases |items|
  {
    if items == [] then
      if column > 1 then [CloseRow] else []
    else
      (if column == first then [OpenRow] else []) + Cell(row, column, items[0]) +
      if column + 1 - first >= columns
      then [CloseRow] + Layout(items[1..], first, row + 1, first, columns)
      else Layout(items[1..], first, row, column + 1, columns)
  }

  function TableOf<V>(items: seq<V>, first: int, columns: int): seq<Token<V>>
  {
    [OpenTable] + Layout(items, first, first, first, columns) + [CloseTable]
  }

  /** What one turn of the loop emits. */
  function Turn<V>(item: V, first: int, row: int, column: int, columns: int): seq<Token<V>>
  {
    (if column == first then [OpenRow] else []) + Cell(row, column, item) +
    (if column + 1 - first >= columns then [CloseRow] else [])
  }

  lemma LayoutTurn<V>(items: seq<V>, i: nat, first: int, row: int, column: int, columns: int)
    requires i < |items|
    ensures Layout(items[i..], first, row, column, columns) == Turn(items[i], first, row, column, columns) +
        if column + 1 - first >= columns then Layout(items[i + 1..], first, row + 1, first, columns)
        else Layout(items[i + 1..], first, row, column + 1, columns)
  {
    hide Cell;
    var rest := items[i..];
    assert rest != [] && rest[0] == items[i] && rest[1..] == items[i + 1..];
    Regroup((if column == first then [OpenRow] else []) + Cell(row, column, items[i]), [CloseRow],
            Layout(items[i + 1..], first, row + 1, first, columns));
  }

  lemma Regroup<T>(a: seq<T>, b: seq<T>, c: seq<T>)
    ensures a + (b + c) == (a + b) + c
  {
  }

  /** What the loop has emitted when it comes to item `i` with these counters. */
  ghost predicate Emitted<V>(
    tags: seq<Token<V>>, items: seq<V>, i: nat, first: int, row: int, column: int, columns: int)
  {
    && i <= |items|
    && tags + Layout(items[i..], first, row, column, columns) == [OpenTable] + Layout(items, first, first, first, columns)
  }

  lemma EmittedFirst<V>(items: seq<V>, first: int, columns: int)
    ensures Emitted([OpenTable], items, 0, first, first, first, columns)
  {
    assert items[0..] == items;
  }

  lemma EmittedNext<V>(
    tags: seq<Token<V>>, items: seq<V>, i: nat, first: int, row: int, column: int, columns: int, turn: seq<Token<V>>)
    requires i < |items| && Emitted(tags, items, i, first, row, column, columns)
    requires turn == Turn(items[i], first, row, column, columns)
    ensures if column + 1 - first >= columns then Emitted(tags + turn, items, i + 1, first, row + 1, first, columns)
            else Emitted(tags + turn, items, i + 1, first, row, column + 1, columns)
  {
    hide Turn, Layout;
    LayoutTurn(items, i, first, row, column, columns);
  }

  lemma EmittedAll<V>(tags: seq<Token<V>>, items: seq<V>, first: int, row: int, column: int, columns: int)
    requires Emitted(tags, items, |items|, first, row, column, columns)
    ensures (if column > 1 then tags + [CloseRow] else tags) + [CloseTable] == TableOf(items, first, columns)
  {
    LayoutEnd(items[|items|..], first, row, column, columns);
  }

  lemma LayoutEnd<V>(items: seq<V>, first: int, row: int, column: int, columns: int)
    requires items == []
    ensures Layout(items, first, row, column, columns) == if column > 1 then [CloseRow] else []
  {
  }

  /** One turn of the loop: the tags of one cell, and the counters after it. The ghost parameters
      say where the loop is. */
  method EmitCell<V>(
    tags: seq<Token<V>>, item: V, row: int, column: int, columns: int,
    first: int, ghost items: seq<V>, ghost i: nat) returns (tags': seq<Token<V>>, row': int, column': int)
    requires i < |items| && items[i] == item && Emitted(tags, items, i, first, row, column, columns)
    ensures Emitted(tags', items, i + 1, first, row', column', columns)
    ensures row' == (if column + 1 - first >= columns then row + 1 else row)
    ensures column' == (if column + 1 - first >= columns then first else column + 1)
  {
    hide Emitted, Cell, Layout;
    row', column' := row, column;
    var turn := if column == first then [OpenRow] else [];
    turn := turn + Cell(row, column, item);
    column' := column' + 1;
    if column' - first >= columns {
      turn := turn + [CloseRow];
      column' := first;
      row' := row' + 1;
    }
    EmittedNext(tags, items, i, first, row, column, columns, turn);
    tags' := tags + turn;
  }

  // ----- the reader -----

  predicate OpensAt<V>(t: Token<V>, row: int, column: int) {
    t.OpenCell? && t.row == row && t.column == column
  }

  /** Rows up to the end of the table. */
  function ReadRows<V>(ts: seq<Token<V>>, first: int, done: seq<seq<V>>): Option<seq<seq<V>>>
    decreases |ts|
  {
    if |ts| == 1 && ts[0].CloseTable? then Some(done)
    else if ts != [] && ts[0].OpenRow? then ReadCells(ts[1..], first, done, [])
    else None
  }

  /** Cells up to the end of the row; their counters have to be their place in the table. */
  function ReadCells<V>(ts: seq<Token<V>>, first: int, done: seq<seq<V>>, cells: seq<V>): Option<seq<seq<V>>>
    decreases |ts|
  {
    if ts != [] && ts[0].CloseRow? then ReadRows(ts[1..], first, done + [cells])
    else if |ts| >= 3 && OpensAt(ts[0], first + |done|, first + |cells|) && ts[1].Shown? && ts[2].CloseCell?
    then ReadCells(ts[3..], first, done, cells + [ts[1].view])
    else None
  }

  function ReadTable<V>(ts: seq<Token<V>>, first: int): Option<seq<seq<V>>>
  {
    if ts != [] && ts[0].OpenTable? then ReadRows(ts[1..], first, []) else None
  }

  // ----- rows -----

  /** The items in rows of `columns`, the last row holding what is left. */
  function Rows<V>(items: seq<V>, columns: int): (rows: seq<seq<V>>)
    requires columns > 0
  {
    if items == [] then []
    else if |items| <= columns then [items]
    else [items[..columns]] + Rows(items[columns..], columns)
  }

  lemma OneRowLess(n: int, columns: int)
    requires columns > 0
    ensures (n + columns) / columns == n / columns + 1 && (n + columns) % columns == n % columns
  {
    var q, r := n / columns, n % columns;
    assert (q + 1) * columns + r == n + columns;
    Divide(q + 1, columns, r);
  }

  lemma SmallDivide(n: int, columns: int)
    requires 0 <= n < columns
    ensures n / columns == 0 && n % columns == n
  {
  }

  /** There are ceil(n / columns) rows; all but the last have exactly `columns` cells; item `k`
      stands in row k / columns at position k % columns. */
  lemma {:induction false} RowsOfItems<V>(items: seq<V>, columns: int)
    requires columns > 0
    ensures |Rows(items, columns)| == (|items| + columns - 1) / columns
    ensures forall r :: 0 <= r < |Rows(items, columns)| - 1 ==> |Rows(items, columns)[r]| == columns
    ensures items != [] ==>
        Rows(items, columns) != [] && 0 < |Rows(items, columns)[|Rows(items, columns)| - 1]| <= columns
  {
    if items == [] {
      SmallDivide(columns - 1, columns);
    } else if |items| <= columns {
      OneRowLess(|items| - 1, columns);
      SmallDivide(|items| - 1, columns);
    } else {
      RowsOfItems(items[columns..], columns);
      OneRowLess(|items| - 1, columns);
    }
  }

  lemma {:induction false} ItemInRow<V>(items: seq<V>, columns: int, k: nat)
    requires columns > 0 && k < |items|
    ensures k / columns < |Rows(items, columns)| && k % columns < |Rows(items, columns)[k / columns]|
    ensures Rows(items, columns)[k / columns][k % columns] == items[k]
    decreases |items|
  {
    if k < columns {
      SmallDivide(k, columns);
    } else {
      OneRowLess(k - columns, columns);
      ItemInRow(items[columns..], columns, k - columns);
    }
  }

  // ----- the layout reads back -----

  /** The last row stays open: its only cell leaves the column counter at 1, where it began
      counting at 0. */
  predicate LeftOpen(n: nat, first: int, columns: int)
    requires columns > 0
  {
    first == 0 && columns > 1 && n % columns == 1
  }

  function Outcome<V>(done: seq<seq<V>>, items: seq<V>, first: int, columns: int): Option<seq<seq<V>>>
    requires columns > 0
  {
    if LeftOpen(|items|, first, columns) then None else Some(done + Rows(items, columns))
  }

  lemma OutcomeStep<V>(done: seq<seq<V>>, cells: seq<V>, rest: seq<V>, first: int, columns: int)
    requires columns > 0 && |cells| == columns
    ensures Outcome(done, cells + rest, first, columns) == Outcome(done + [cells], rest, first, columns)
  {
    var items := cells + rest;
    OneRowLess(|rest|, columns);
    SmallDivide(0, columns);
    if rest == [] {
      assert items == cells;
      assert done + [cells] == done + [cells] + Rows(rest, columns);
    } else {
      assert items[..columns] == cells && items[columns..] == rest;
    }
    assert done + ([cells] + Rows(rest, columns)) == done + [cells] + Rows(rest, columns);
  }

  lemma ReadCell<V>(row: int, item: V, more: seq<Token<V>>, first: int, done: seq<seq<V>>, cells: seq<V>)
    requires row == first + |done|
    ensures ReadCells(Cell(row, first + |cells|, item) + more, first, done, cells)
        == ReadCells(more, first, done, cells + [item])
  {
    var ts := Cell(row, first + |cells|, item) + more;
    assert ts[3..] == more && ts[1].view == item;
  }

  lemma ReadClose<V>(more: seq<Token<V>>, first: int, done: seq<seq<V>>, cells: seq<V>)
    ensures ReadCells([CloseRow] + more, first, done, cells) == ReadRows(more, first, done + [cells])
  {
    assert ([CloseRow] + more)[1..] == more;
  }

  lemma ReadOpen<V>(more: seq<Token<V>>, first: int, done: seq<seq<V>>)
    ensures ReadRows([OpenRow] + more, first, done) == ReadCells(more, first, done, [])
  {
    assert ([OpenRow] + more)[1..] == more;
  }

  /** Within a row that already has some cells. */
  lemma {:induction false} LayoutReads<V>(items: seq<V>, first: int, columns: int, done: seq<seq<V>>, cells: seq<V>)
    requires columns > 0 && 0 <= first <= 1 && |cells| < columns
    ensures var row, column := first + |done|, first + |cells|;
        var ts := Layout(items, first, row, column, columns) + [CloseTable];
        (if cells == [] then ReadRows(ts, first, done) else ReadCells(ts, first, done, cells))
        == Outcome(done, cells + items, first, columns)
    decreases |items|
  {
    hide Rows, ReadCells, ReadRows, Cell, Outcome;
    var row, column := first + |done|, first + |cells|;
    var ts := Layout(items, first, row, column, columns) + [CloseTable];
    if items == [] {
      assert cells + items == cells;
      LastRow(first, columns, done, cells);
    } else {
      var item, rest, now := items[0], items[1..], cells + [items[0]];
      assert cells + items == now + rest;
      var tail := if |now| >= columns then [CloseRow] + Layout(rest, first, row + 1, first, columns)
                  else Layout(rest, first, row, column + 1, columns);
      var body := Cell(row, column, item) + (tail + [CloseTable]);
      assert ts == (if cells == [] then [OpenRow] else []) + body;
      if cells == [] {
        ReadOpen(body, first, done);
      } else {
        assert ts == body;
      }
      ReadCell(row, item, tail + [CloseTable], first, done, cells);
      if |now| >= columns {
        LayoutReads(rest, first, columns, done + [now], []);
        var more := Layout(rest, first, row + 1, first, columns) + [CloseTable];
        assert tail + [CloseTable] == [CloseRow] + more;
        ReadClose(more, first, done, now);
        assert [] + rest == rest;
        OutcomeStep(done, now, rest, first, columns);
      } else {
        LayoutReads(rest, first, columns, done, now);
      }
    }
  }

  lemma LastRow<V>(first: int, columns: int, done: seq<seq<V>>, cells: seq<V>)
    requires columns > 0 && 0 <= first <= 1 && |cells| < columns
    ensures var ts := (if first + |cells| > 1 then [CloseRow] else []) + [CloseTable];
        (if cells == [] then ReadRows(ts, first, done) else ReadCells(ts, first, done, cells))
        == Outcome(done, cells, first, columns)
  {
    var close: Token<V> := CloseTable;
    SmallDivide(|cells|, columns);
    if cells != [] {
      ReadClose([close], first, done, cells);
      assert done + [cells] == done + Rows(cells, columns);
    } else {
      assert done + [] == done;
      assert [] + [close] == [close];
    }
  }

  /** The markup reads back as the rows of its items, every row and cell in its place and closed,
      unless the counters start at 0 and the last of several columns' rows has one cell: then,
      and only then, a row is left open. */
  lemma TableReads<V>(items: seq<V>, first: int, columns: int)
    requires columns > 0 && 0 <= first <= 1
    ensures ReadTable(TableOf(items, first, columns), first)
        == if first == 0 && columns > 1 && |items| % columns == 1 then None else Some(Rows(items, columns))
  {
    var inner := Layout(items, first, first, first, columns) + [CloseTable];
    assert TableOf(items, first, columns)[1..] == inner;
    LayoutReads(items, first, columns, [], []);
    assert [] + items == items;
    var none: seq<seq<V>> := [];
    assert none + Rows(items, columns) == Rows(items, columns);
  }

  // ----- a collection view -----

  /** Without columns, the items stand side by side. */
  function Spans<V>(items: seq<V>, column: int, spaced: bool): seq<Token<V>>
  {
    if items == [] then []
    else Span(items[0], column, spaced) + Spans(items[1..], column + 1, spaced)
  }

  function Span<V>(item: V, column: int, spaced: bool): seq<Token<V>>
  {
    [OpenSpan(column), Shown(item), CloseSpan] + if spaced then [Space] else []
  }

  /** A reader of items side by side: each in a closed span of its own with its number, and
      all of them followed by a space or none. */
  function ReadSpans<V>(ts: seq<Token<V>>, column: int, spaced: bool): Option<seq<V>>
  {
    if ts == [] then Some([])
    else if |ts| >= 3 && ts[0].OpenSpan? && ts[0].column == column && ts[1].Shown? && ts[2].CloseSpan?
         && (spaced ==> |ts| >= 4 && ts[3].Space?)
    then
      match ReadSpans(ts[if spaced then 4 else 3..], column + 1, spaced)
      case Some(items) => Some([ts[1].view] + items)
      case None => None
    else None
  }

  /** Items side by side read back in order. */
  lemma {:induction false} SpansRead<V>(items: seq<V>, column: int, spaced: bool)
    ensures ReadSpans(Spans(items, column, spaced), column, spaced) == Some(items)
  {
    if items != [] {
      SpansRead(items[1..], column + 1, spaced);
      var ts := Spans(items, column, spaced);
      assert ts[if spaced then 4 else 3..] == Spans(items[1..], column + 1, spaced);
      assert items == [items[0]] + items[1..];
    }
  }

  /** What the loop has emitted when it comes to item `i`. */
  ghost predicate EmittedSpans<V>(tags: seq<Token<V>>, items: seq<V>, i: nat, column: int, spaced: bool) {
    i <= |items| && tags + Spans(items[i..], column, spaced) == Spans(items, 1, spaced)
  }

  lemma SpansFirst<V>(items: seq<V>, spaced: bool)
    ensures EmittedSpans([], items, 0, 1, spaced)
  {
    assert items[0..] == items;
    assert [] + Spans(items, 1, spaced) == Spans(items, 1, spaced);
  }

  lemma SpansNext<V>(tags: seq<Token<V>>, items: seq<V>, i: nat, column: int, spaced: bool)
    requires i < |items| && EmittedSpans(tags, items, i, column, spaced)
    ensures EmittedSpans(tags + Span(items[i], column, spaced), items, i + 1, column + 1, spaced)
  {
    hide Span;
    assert items[i..][1..] == items[i + 1..];
    assert Spans(items[i..], column, spaced) == Span(items[i], column, spaced) + Spans(items[i + 1..], column + 1, spaced);
  }

  lemma SpansAll<V>(tags: seq<Token<V>>, items: seq<V>, column: int, spaced: bool)
    requires EmittedSpans(tags, items, |items|, column, spaced)
    ensures tags == Spans(items, 1, spaced) && ReadSpans(tags, 1, spaced) == Some(items)
  {
    assert items[|items|..] == [];
    SpansRead(items, 1, spaced);
  }

}
