/** The bookkeeping half of `Table` (src/Table.h:129-226): the header, the
    ordered row list, the chosen line style and the set of columns flagged for
    edition style. Rendering and the width caches are not part of this model. */
module Tables {
  import opened TableRows

  /** `TableLineStyle` without its `_End` sentinel. */
  datatype LineStyle =
    | Ascii | Light | Heavy | Double | Light3 | Heavy3
    | LightHeavy | LightDouble | HeavyLight | DoubleLight
    | Colon | None

  class Table {
    var hasHeader: bool
    var header: Row
    var rows: seq<Row>
    var style: LineStyle
    var editionCols: set<nat>

    /** `Table()`. The process-wide `Table::defaultStyle` it starts from is
        passed in by the caller. */
    constructor (defaultStyle: LineStyle)
      ensures !hasHeader && header == NewRow(0) && rows == []
      ensures style == defaultStyle && editionCols == {}
    {
      hasHeader := false;
      header := NewRow(0);
      rows := [];
      style := defaultStyle;
      editionCols := {};
    }

    /** `empty()`: looks at the row list only, never at the header. */
    predicate Empty()
      reads this
    {
      rows == []
    }

    /** `editionStyle(column)`. */
    predicate EditionStyle(column: nat)
      reads this
    {
      column in editionCols
    }

    /** `add(tr)` and `table << tr`: appends a copy of the row. */
    method Add(tr: Row)
      modifies this
      ensures rows == old(rows) + [tr]
      ensures !Empty()
      ensures hasHeader == old(hasHeader) && header == old(header)
      ensures style == old(style) && editionCols == old(editionCols)
    {
      rows := rows + [tr];
    }

    /** `setHeader(tr)` and `table << header`: stores the header, replacing
        any earlier one; a header alone does not make the table non-empty. */
    method SetHeader(tr: Row)
      modifies this
      ensures hasHeader && header == tr
      ensures rows == old(rows) && Empty() == old(Empty())
      ensures style == old(style) && editionCols == old(editionCols)
    {
      hasHeader := true;
      header := tr;
    }

    /** `lineStyle(st)`. */
    method SetLineStyle(st: LineStyle)
      modifies this
      ensures style == st
      ensures hasHeader == old(hasHeader) && header == old(header)
      ensures rows == old(rows) && editionCols == old(editionCols)
    {
      style := st;
    }

    /** `setEditionStyle(column)`: inserts into a set, so flagging a column
        twice changes nothing the second time. */
    method SetEditionStyle(column: nat)
      modifies this
      ensures editionCols == old(editionCols) + {column}
      ensures EditionStyle(column)
      ensures old(EditionStyle(column)) ==> editionCols == old(editionCols)
      ensures forall c :: c != column ==> (EditionStyle(c) <==> old(EditionStyle(c)))
      ensures hasHeader == old(hasHeader) && header == old(header)
      ensures rows == old(rows) && style == old(style)
    {
      editionCols := editionCols + {column};
    }
  }

  /** `table::EditionStyleSetter`: a header title together with the table
      whose column it flags. */
  datatype EditionStyleSetter = EditionStyleSetter(table: Table, header: string)

  /** `th << EditionStyleSetter(table, title)`: flags the index the new cell
      will have, which is the header's column count before the add, then adds
      the title as the header's next column. */
  method AddEditionStyleColumn(th: Row, obj: EditionStyleSetter) returns (th': Row)
    modifies obj.table
    ensures obj.table.editionCols == old(obj.table.editionCols) + {th.Cols()}
    ensures th' == th.Add(obj.header)
    ensures th'.Cols() == th.Cols() + 1 && obj.table.EditionStyle(th'.Cols() - 1)
    ensures obj.table.rows == old(obj.table.rows) && obj.table.header == old(obj.table.header)
    ensures obj.table.hasHeader == old(obj.table.hasHeader) && obj.table.style == old(obj.table.style)
  {
    obj.table.SetEditionStyle(th.Cols());
    th' := th.Add(obj.header);
  }
}
