/** Table views as objects. One cell object per column (or for several columns) is renamed,
    filled, asked and emptied again for every entry. */
module Tables {
  import opened Php
  import opened Persistence
  import opened Pages
  import opened Dispatch
  import opened Registry
  import opened TableCells
  import Views

  class DataSource {
    var rows: nat
    var values: Data<NSTableColumn>

    constructor (rows: nat)
      ensures this.rows == rows && values == map[]
    {
      this.rows, values := rows, map[];
    }

    method SetObjectValue(value: Value, column: NSTableColumn, row: int)
      modifies `values
      ensures values == old(values)[(column, row) := value]
    {
      values := values[(column, row) := value];
    }
  }

  /** A text field as the cell of a column. */
  ghost predicate IsCell(v: Views.NSView)
    reads v`kind, v`persists
  {
    v.kind.TextField? && |v.persists| == 1 && v.persists[0].property == "string"
  }

  class NSTableColumn {
    var title: string
    var hidden: bool
    var isEditable: bool
    var dataCell: Views.NSView
    var headerCell: Views.NSView

    constructor (title: string, dataCell: Views.NSView, headerCell: Views.NSView)
      requires dataCell.kind.TextField? && headerCell.kind.TextField?
      modifies dataCell`kind, headerCell`kind
      ensures this.title == title && this.dataCell == dataCell && this.headerCell == headerCell
      ensures !hidden && !isEditable
      ensures dataCell.kind.TextField? && headerCell.kind.TextField? && !dataCell.kind.editable && !headerCell.kind.editable
    {
      this.title, hidden, isEditable := title, false, false;
      this.dataCell, this.headerCell := dataCell, headerCell;
      new;
      headerCell.kind := headerCell.kind.(editable := false);
      dataCell.kind := dataCell.kind.(editable := false);
    }

    /** The flag is handed on to the data cell. */
    method SetEditable(flag: bool)
      requires dataCell.kind.TextField?
      modifies `isEditable, dataCell`kind
      ensures isEditable == flag && dataCell.kind == old(dataCell.kind).(editable := flag)
    {
      isEditable := flag;
      dataCell.kind := dataCell.kind.(editable := flag);
    }
  }

  ghost function ColumnOf(c: NSTableColumn): Column<NSTableColumn, Views.NSView>
    requires IsCell(c.dataCell)
    reads c, c.dataCell`kind, c.dataCell`persists
  {
    Column(c, c.hidden, c.isEditable, c.title, c.dataCell, c.dataCell.kind.editable, c.dataCell.kind.password,
           c.dataCell.persists[0], c.headerCell)
  }

  ghost function DataCells(columns: seq<NSTableColumn>): set<Views.NSView>
    reads columns
  {
    set c | c in columns :: c.dataCell
  }

  ghost function ColumnsOf(columns: seq<NSTableColumn>): (r: seq<Column<NSTableColumn, Views.NSView>>)
    requires forall v :: v in DataCells(columns) ==> IsCell(v)
    reads columns, DataCells(columns)`kind, DataCells(columns)`persists
    ensures |r| == |columns| && forall i :: 0 <= i < |columns| ==> r[i] == ColumnOf(columns[i])
    decreases |columns|
  {
    if columns == [] then []
    else
      assert columns[0].dataCell in DataCells(columns);
      [ColumnOf(columns[0])] + ColumnsOf(columns[1..])
  }

  class NSTableView {
    /** what a table view inherits: its id, its place among the views, whether it is hidden */
    const view: Views.NSView
    var columns: seq<NSTableColumn>
    var visibleRows: int
    var dataSource: DataSource
    var drawingRow: int
    var drawingColumn: int

    constructor (view: Views.NSView, columns: seq<NSTableColumn>, visibleRows: int, dataSource: DataSource)
      ensures this.view == view && this.columns == columns && this.visibleRows == visibleRows && this.dataSource == dataSource
    {
      this.view, this.columns, this.visibleRows, this.dataSource := view, columns, visibleRows, dataSource;
      drawingRow, drawingColumn := 0, 0;
    }

    ghost function Cells(): set<Views.NSView>
      reads `columns, columns
    {
      DataCells(columns) + set c | c in columns :: c.headerCell
    }

    /** The cells are text fields with their string, other views than the table itself; the
        header cells are labels. */
    ghost predicate Ready()
      reads `columns, columns, Cells()`kind, Cells()`persists
    {
      && view !in Cells()
      && (forall v :: v in Cells() ==> IsCell(v))
      && (forall c :: c in columns ==> !c.headerCell.kind.editable)
    }

    ghost predicate HasStrings()
      reads `columns, columns, Cells()`props
    {
      forall v :: v in Cells() ==> "string" in v.props
    }

    ghost function Value(): TableView<NSTableColumn, Views.NSView>
      requires Ready()
      reads `columns, `visibleRows, `dataSource, columns, dataSource`rows, view`elementId
      reads Cells()`kind, Cells()`persists
    {
      TableView(view.elementId, ColumnsOf(columns), dataSource.rows, visibleRows)
    }

    // ----- cells -----

    /** The cell of a column for a row, renamed for the first place the column has. */
    method DataCell(row: int, index: nat, responders: Views.NSResponders, post: Form) returns (cell: Views.NSView)
      requires Ready() && HasStrings() && index < |columns|
      modifies responders, Cells()`elementId, Cells()`props
      ensures Ready() && HasStrings() && Value() == old(Value())
      ensures cell == if row < 0 then columns[index].headerCell else columns[index].dataCell
      ensures row >= 0 ==> cell.elementId == CellId(view.elementId, row, Place(Value(), index))
    {
      hide Value, Ready, Cells, CellId, IsCell, ReadAll;
      EntryOf(row, index);
      var column := columns[index];
      var place := -1;
      if row < 0 {
        cell := column.headerCell;
      } else {
        cell := column.dataCell;
        place := 0;
        PlaceOf(index);
        while place < |columns| && columns[place] != column
          invariant 0 <= place <= Place(Value(), index)
        {
          place := place + 1;
        }
      }
      cell.SetElementId(responders, CellId(view.elementId, row, place), post);
      ReadKeepsKeys(cell.elementId, cell.persists, old(cell.props), post);
    }

    /** What the data cell of an entry offers. */
    lemma EntryOf(row: int, index: nat)
      requires Ready() && HasStrings() && index < |columns|
      ensures view !in Cells()
      ensures var cell := columns[index].dataCell;
          && cell in Cells() && columns[index].headerCell in Cells() && allocated(Cells())
          && cell != view && IsCell(cell) && "string" in cell.props
          && Value().id == view.elementId && Value().rows == dataSource.rows
          && |Value().columns| == |columns| && Value().columns[index] == ColumnOf(columns[index])
          && EntryName(Value(), row, index) == NameOf(CellId(view.elementId, row, index), cell.persists[0])
          && (Editable(Value(), row, index) ==> row >= 0)
          && ColumnOf(columns[index]).column == columns[index] && ColumnOf(columns[index]).dataCell == cell
    {
      assert columns[index] in columns;
      assert columns[index].dataCell in DataCells(columns);
    }

    lemma PlaceOf(index: nat)
      requires Ready() && index < |columns|
      ensures var place := Place(Value(), index);
          |Value().columns| == |columns| && place < |columns| && columns[place] == columns[index]
          && forall i :: 0 <= i < place ==> columns[i] != columns[index]
    {
      assert forall i :: 0 <= i < |columns| ==> Value().columns[i].column == columns[i];
    }

    // ----- collecting -----

    /** One entry: fill the shared cell with the data and let it read the form under the name
        of the entry. */
    method AskEntry(row: int, index: nat, oldval: Value, app: Views.NSApplication, responders: Views.NSResponders)
      returns (newval: Value)
      requires Ready() && HasStrings() && index < |columns| && row >= 0
      modifies responders, app`eventQueue, Cells()`elementId, Cells()`props, Cells()`superview
      ensures Ready() && HasStrings() && Value() == old(Value())
      ensures newval == ReadBack(oldval, EntryName(Value(), row, index), app.post)
      ensures app.eventQueue ==
          old(app.eventQueue) + AskedEvent(columns[index].dataCell, CellId(view.elementId, row, index), app.post)
      ensures Place(Value(), index) == index ==> CellId(view.elementId, row, index) !in responders.objects
    {
      hide Ready, Value, ColumnOf, EntryName, CellId, ReadBack, Cells, AskedEvent, Place, IsCell, NameOf;
      EntryOf(row, index);
      var cell := DataCell(row, index, responders, app.post);
      newval := AskCell(cell, oldval, CellId(view.elementId, row, index), view, app, responders);
    }

    /** A value that differs is handed to the data source. */
    method CollectEntry(row: int, index: nat, differs: (Value, Value) -> bool,
                        app: Views.NSApplication, responders: Views.NSResponders)
      requires Ready() && HasStrings() && index < |columns| && Editable(Value(), row, index)
      modifies responders, app`eventQueue, dataSource`values, `drawingRow, `drawingColumn
      modifies Cells()`elementId, Cells()`props, Cells()`superview
      ensures Ready() && HasStrings() && Value() == old(Value())
      ensures State(dataSource.values, app.eventQueue)
          == Visit(Value(), app.post, differs, old(State(dataSource.values, app.eventQueue)), row, index)
      ensures Place(Value(), index) == index ==> CellId(view.elementId, row, index) !in responders.objects
    {
      hide Ready, Value, ColumnOf, EntryName, CellId, ReadBack, Visit, Editable, Cells, ValueAt, AskedEvent, Place;
      hide IsCell, NameOf, HasStrings;
      EntryOf(row, index);
      VisitIs(Value(), app.post, differs, State(dataSource.values, app.eventQueue), row, index);
      var column := columns[index];
      var oldval := ValueAt(dataSource.values, column, row);
      var newval := AskEntry(row, index, oldval, app, responders);
      drawingRow, drawingColumn := row, index;
      if differs(newval, oldval) {
        dataSource.SetObjectValue(newval, column, row);
      }
    }

    method CollectRow(row: int, differs: (Value, Value) -> bool, app: Views.NSApplication, responders: Views.NSResponders)
      requires Ready() && HasStrings() && 0 <= row < Limit(Value())
      modifies responders, app`eventQueue, dataSource`values, `drawingRow, `drawingColumn
      modifies Cells()`elementId, Cells()`props, Cells()`superview
      ensures Ready() && HasStrings() && Value() == old(Value())
      ensures State(dataSource.values, app.eventQueue)
          == VisitRow(Value(), app.post, differs, old(State(dataSource.values, app.eventQueue)), row, 0)
    {
      hide Ready, Value, VisitRow, Visit, Cells, HasStrings, Editable;
      Facts();
      ghost var t, before := Value(), State(dataSource.values, app.eventQueue);
      for index := 0 to |columns|
        invariant Ready() && HasStrings() && Value() == t
        invariant VisitRow(t, app.post, differs, State(dataSource.values, app.eventQueue), row, index)
               == VisitRow(t, app.post, differs, before, row, 0)
      {
        EntryOf(row, index);
        VisitRowStep(t, app.post, differs, State(dataSource.values, app.eventQueue), row, index);
        var column := columns[index];
        if column.hidden {
          continue;
        }
        if row < dataSource.rows && column.isEditable {
          CollectEntry(row, index, differs, app, responders);
        } else {
          var _ := DataCell(row, index, responders, app.post);
        }
      }
      VisitRowStep(t, app.post, differs, State(dataSource.values, app.eventQueue), row, |columns|);
    }

    /** A hidden table collects nothing. Otherwise the event meant for the table itself comes
        first, and then every entry is visited, row by row. */
    method CollectEvents(differs: (Value, Value) -> bool, app: Views.NSApplication, responders: Views.NSResponders,
                         ghost c: seq<Views.NSView>)
      requires Ready() && HasStrings() && Views.Chain(c, view.superview) && !view.kind.PopUp?
      modifies responders, app`eventQueue, dataSource`values, `drawingRow, `drawingColumn
      modifies Cells()`elementId, Cells()`props, Cells()`superview
      ensures Ready() && HasStrings() && Value() == old(Value())
      ensures old(view.hidden || Views.AnyHidden(c)) ==>
          dataSource.values == old(dataSource.values) && app.eventQueue == old(app.eventQueue)
      ensures !old(view.hidden || Views.AnyHidden(c)) ==>
          State(dataSource.values, app.eventQueue) ==
          VisitRows(Value(), app.post, differs,
                    State(old(dataSource.values), old(app.eventQueue + InheritedEvent(view, view.Snapshot(), app.post))), 0)
      ensures !old(view.hidden || Views.AnyHidden(c)) ==>
          dataSource.values == Committed(Value(), app.post, differs, old(dataSource.values))
    {
      hide Ready, Value, VisitRows, VisitRow, Cells, HasStrings;
      Facts();
      var h := view.IsHidden(c);
      if h {
        return;
      }
      view.CollectResponder(app);
      var rows := dataSource.rows;
      var row := 0;
      ghost var t, before := Value(), State(dataSource.values, app.eventQueue);
      while (visibleRows == 0 && row < rows) || row < visibleRows
        invariant Ready() && HasStrings() && Value() == t && row >= 0
        invariant VisitRows(t, app.post, differs, State(dataSource.values, app.eventQueue), row)
               == VisitRows(t, app.post, differs, before, 0)
        decreases Limit(t) - row
      {
        VisitRowsStep(t, app.post, differs, State(dataSource.values, app.eventQueue), row);
        CollectRow(row, differs, app, responders);
        row := row + 1;
      }
      VisitRowsStep(t, app.post, differs, State(dataSource.values, app.eventQueue), row);
      DataIgnoresQueue(t, app.post, differs, before, State(before.data, []), 0);
    }

    lemma Facts()
      requires Ready()
      ensures Limit(Value()) == if visibleRows == 0 then dataSource.rows else visibleRows
      ensures Value().rows == dataSource.rows && |Value().columns| == |columns|
      ensures allocated(Cells()) && view !in Cells()
    {
    }

    // ----- displaying -----

    method DisplayCell(row: int, index: nat, context: Views.NSGraphicsContext, post: Form, responders: Views.NSResponders)
      requires Ready() && HasStrings() && index < |columns| && !columns[index].hidden
      modifies responders, context, `drawingRow, `drawingColumn
      modifies Cells()`elementId, Cells()`props, Cells()`superview
      ensures Ready() && HasStrings() && Value() == old(Value())
      ensures context.output == old(context.output) + CellOutput(Value(), dataSource.values, row, index)
    {
      hide Ready, Value, Cells, ColumnOf, Place, CellId, IsCell, CellDrawn, CellOutput, ValueAt, EntryName;
      Facts();
      EntryOf(row, index);
      ShownOf(row, index);
      var column := columns[index];
      var cell := DataCell(row, index, responders, post);
      if row < dataSource.rows {
        drawingRow, drawingColumn := row, index;
        DrawEntry(cell, if row < 0 then Str(column.title) else ValueAt(dataSource.values, column, row), context);
      } else {
        assert context.output + [] == context.output;
      }
    }

    /** One cell is filled and drawn as a part of this table. */
    method DrawEntry(cell: Views.NSView, value: Value, context: Views.NSGraphicsContext)
      requires Ready() && HasStrings() && cell in Cells() && IsCell(cell)
      modifies context, cell`props, cell`superview
      ensures Ready() && HasStrings() && Value() == old(Value())
      ensures context.output == old(context.output) +
          if cell.kind.editable then CellDrawn(cell, cell.kind, cell.persists[0], cell.elementId, value) else [DrawCall(cell)]
    {
      hide Ready, Value, Cells, CellDrawn, ProperWidget, Pages.Draw;
      Facts();
      HeaderDrawn(cell, cell.kind, cell.persists[0], cell.elementId, value);
      DrawCell(cell, value, view, context);
    }

    /** The whole table, from the header row on. */
    method Display(context: Views.NSGraphicsContext, post: Form, responders: Views.NSResponders)
      requires Ready() && HasStrings()
      modifies responders, context, `drawingRow, `drawingColumn
      modifies Cells()`elementId, Cells()`props, Cells()`superview
      ensures Ready() && HasStrings() && Value() == old(Value())
      ensures context.output == old(context.output) + RowsOutput(Value(), dataSource.values, -1)
    {
      hide Ready, Value, Cells, HasStrings, RowsOutput, RowOutput;
      Facts();
      var rows := dataSource.rows;
      var row := -1;
      ghost var t, data, before := Value(), dataSource.values, context.output;
      while (visibleRows == 0 && row < rows) || row < visibleRows
        invariant Ready() && HasStrings() && Value() == t
        invariant context.output + RowsOutput(t, data, row) == before + RowsOutput(t, data, -1)
        decreases Limit(t) - row
      {
        RowsOutputStep(t, data, context.output, row);
        DisplayRow(row, context, post, responders);
        row := row + 1;
      }
      RowsOutputStep(t, data, context.output, row);
    }

    method DisplayRow(row: int, context: Views.NSGraphicsContext, post: Form, responders: Views.NSResponders)
      requires Ready() && HasStrings()
      modifies responders, context, `drawingRow, `drawingColumn
      modifies Cells()`elementId, Cells()`props, Cells()`superview
      ensures Ready() && HasStrings() && Value() == old(Value())
      ensures context.output == old(context.output) + RowOutput(Value(), dataSource.values, row, 0)
    {
      hide Ready, Value, Cells, HasStrings, RowOutput, CellOutput;
      Facts();
      ghost var t, data, before := Value(), dataSource.values, context.output;
      for index := 0 to |columns|
        invariant Ready() && HasStrings() && Value() == t
        invariant context.output + RowOutput(t, data, row, index) == before + RowOutput(t, data, row, 0)
      {
        EntryOf(row, index);
        RowOutputStep(t, data, context.output, row, index);
        if columns[index].hidden {
          continue;
        }
        DisplayCell(row, index, context, post, responders);
      }
      RowOutputStep(t, data, context.output, row, |columns|);
    }

    /** What the cell of a place shows. */
    lemma ShownOf(row: int, index: nat)
      requires Ready() && index < |columns| && !columns[index].hidden
      ensures IsCell(columns[index].headerCell) && IsCell(columns[index].dataCell)
      ensures CellOutput(Value(), dataSource.values, row, index) ==
          if row >= dataSource.rows then []
          else if row < 0 then [DrawCall(columns[index].headerCell)]
          else if !columns[index].dataCell.kind.editable then [DrawCall(columns[index].dataCell)]
          else CellDrawn(columns[index].dataCell, columns[index].dataCell.kind, columns[index].dataCell.persists[0],
                         CellId(view.elementId, row, Place(Value(), index)), ValueAt(dataSource.values, columns[index], row))
      ensures columns[index].headerCell.kind.TextField? && !columns[index].headerCell.kind.editable
    {
      assert columns[index].headerCell in Cells() && columns[index].dataCell in Cells();
    }
  }

  /** The output of one text field that serves as a cell. */
  function CellDrawn<V>(cell: V, kind: Kind, p: Persistor, id: string, value: Value): seq<Output<V>>
    requires kind.TextField?
  {
    [DrawCall(cell)] +
    if kind.editable then [Element(Typed(NameOf(id, p), if kind.password then "" else Text(value)))] else []
  }

  lemma HeaderDrawn<V>(cell: V, kind: Kind, p: Persistor, id: string, value: Value)
    requires kind.TextField?
    ensures !kind.editable ==> CellDrawn(cell, kind, p, id, value) == [DrawCall(cell)]
  {
  }

  method DrawCell(cell: Views.NSView, value: Value, table: Views.NSView, context: Views.NSGraphicsContext)
    requires IsCell(cell) && "string" in cell.props && cell != table
    modifies context, cell`props, cell`superview
    ensures "string" in cell.props
    ensures context.output == old(context.output) + CellDrawn(cell, cell.kind, cell.persists[0], cell.elementId, value)
  {
    cell.superview := table;
    SetObjectValue(cell, value);
    cell.Draw(context);
    cell.superview := null;
  }

  lemma RowOutputStep<C, V>(t: TableView<C, V>, data: Data<C>, out: seq<Output<V>>, row: int, index: nat)
    requires index <= |t.columns|
    ensures out + RowOutput(t, data, row, index) ==
        if index == |t.columns| then out
        else (if t.columns[index].hidden then out else out + CellOutput(t, data, row, index)) + RowOutput(t, data, row, index + 1)
  {
  }

  lemma RowsOutputStep<C, V>(t: TableView<C, V>, data: Data<C>, out: seq<Output<V>>, row: int)
    ensures out + RowsOutput(t, data, row) ==
        if row >= Limit(t) then out else out + RowOutput(t, data, row, 0) + RowsOutput(t, data, row + 1)
  {
  }

  lemma VisitRowStep<C, V>(t: TableView<C, V>, form: Form, differs: (Value, Value) -> bool, s: State<C, V>, row: int, index: nat)
    requires index <= |t.columns|
    ensures VisitRow(t, form, differs, s, row, index) ==
        if index == |t.columns| then s
        else VisitRow(t, form, differs, if Editable(t, row, index) then Visit(t, form, differs, s, row, index) else s, row, index + 1)
    ensures index < |t.columns| && 0 <= row < Limit(t) ==>
        (Editable(t, row, index) <==> !t.columns[index].hidden && row < t.rows && t.columns[index].isEditable)
  {
  }

  lemma VisitRowsStep<C, V>(t: TableView<C, V>, form: Form, differs: (Value, Value) -> bool, s: State<C, V>, row: int)
    ensures VisitRows(t, form, differs, s, row) ==
        if row >= Limit(t) then s else VisitRows(t, form, differs, VisitRow(t, form, differs, s, row, 0), row + 1)
  {
  }

  /** The cell is filled with a value, reads the form under its new name, queues the event that
      was meant for it, and tells what it now holds. */
  method AskCell(cell: Views.NSView, value: Value, id: string, table: Views.NSView,
                 app: Views.NSApplication, responders: Views.NSResponders) returns (newval: Value)
    requires IsCell(cell) && "string" in cell.props && cell != table
    modifies responders, app`eventQueue, cell`elementId, cell`props, cell`superview
    ensures "string" in cell.props && cell.superview == null
    ensures newval == ReadBack(value, NameOf(id, cell.persists[0]), app.post)
    ensures app.eventQueue == old(app.eventQueue) + AskedEvent(cell, id, app.post)
    ensures old(cell.elementId) == id ==> id !in responders.objects
  {
    cell.superview := table;
    SetObjectValue(cell, value);
    ghost var before := cell.props;
    cell.SetElementId(responders, id, app.post);
    OneReads(id, cell.persists, before, app.post);
    cell.CollectResponder(app);
    newval := cell.props["string"];
    cell.superview := null;
  }

  function AskedEvent<V>(cell: V, id: string, form: Form): seq<NSEvent<V>>
  {
    if Lookup(form, "NSEvent") == Some(id)
    then [NSEvent(cell, Lookup(form, "clickedRow"), Lookup(form, "clickedColumn"))] else []
  }

  lemma VisitIs<C, V>(t: TableView<C, V>, form: Form, differs: (Value, Value) -> bool, s: State<C, V>, row: int, index: nat)
    requires index < |t.columns| && Editable(t, row, index)
    ensures var c := t.columns[index];
        var value := ValueAt(s.data, c.column, row);
        var newval := ReadBack(value, EntryName(t, row, index), form);
        Visit(t, form, differs, s, row, index) ==
        State(if differs(newval, value) then s.data[(c.column, row) := newval] else s.data,
              s.queue + AskedEvent(c.dataCell, CellId(t.id, row, index), form))
  {
  }

  lemma OneReads(id: string, ps: seq<Persistor>, props: Properties, post: Form)
    requires |ps| == 1 && ps[0].property == "string" && "string" in props
    ensures ReadAll(id, ps, props, post) == props["string" := ReadBack(props["string"], NameOf(id, ps[0]), post)]
  {
    assert ReadAll(id, ps[1..], ReadOne(id, ps[0], props, post), post) == ReadOne(id, ps[0], props, post);
  }

  method SetObjectValue(cell: Views.NSView, value: Value)
    requires "string" in cell.props
    modifies cell`props
    ensures cell.props == old(cell.props)["string" := value]
  {
    if cell.props["string"] == value {
      return;
    }
    cell.props := cell.props["string" := value];
  }

  lemma {:induction false} ReadKeepsKeys(id: string, ps: seq<Persistor>, props: Properties, post: Form)
    ensures "string" in props ==> "string" in ReadAll(id, ps, props, post)
  {
  }
}
