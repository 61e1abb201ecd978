/** `TableRow` and `TableHeader` (src/Table.h:51-126).

    A row is a value: `Table::add` stores a copy of it, so the row is a
    datatype and the in-place appends `add` and `addDetail` are functions that
    return the extended row. A header is a row in the header role; it shares
    the type. Cell values arrive already turned into strings by
    `zypp::str::asString`, which is why the `operator<<` templates are `Add`. */
module TableRows {
  import opened LexOrder

  datatype Row = Row(columns: seq<string>, details: seq<string>) {

    /** `cols()`: the number of primary columns. */
    function Cols(): nat {
      |columns|
    }

    /** Appends one primary column; the details are not touched. */
    function Add(s: string): (r: Row)
      ensures r.Cols() == Cols() + 1
      ensures r.columns[..Cols()] == columns && r.columns[Cols()] == s
      ensures r.details == details
    {
      Row(columns + [s], details)
    }

    /** Appends one detail line; the primary columns are not touched. */
    function AddDetail(s: string): (r: Row)
      ensures |r.details| == |details| + 1
      ensures r.details[..|details|] == details && r.details[|details|] == s
      ensures r.columns == columns
    {
      Row(columns, details + [s])
    }

    /** The row with its last primary column replaced by `s` (the cell that
        `rows().back().columns().back()` names). */
    function WithLastColumn(s: string): (r: Row)
      requires columns != []
      ensures r.Cols() == Cols()
      ensures r.columns[..Cols() - 1] == columns[..Cols() - 1]
      ensures r.columns[Cols() - 1] == s
      ensures r.details == details
    {
      Row(columns[..|columns| - 1] + [s], details)
    }
  }

  /** `TableRow(c)`: the argument only reserves capacity. */
  function NewRow(capacity: nat): (r: Row)
    ensures r.Cols() == 0 && r.details == []
  {
    Row([], [])
  }

  /** `TableRow::Less`: the comparator that orders rows by one column. */
  datatype Less = Less(byColumn: nat) {

    /** `operator()`; `TableRow::Less` indexes both rows' columns without a
        bounds check, so both rows must have the compared column. */
    predicate Holds(a: Row, b: Row)
      requires byColumn < a.Cols() && byColumn < b.Cols()
    {
      LexLess(a.columns[byColumn], b.columns[byColumn])
    }
  }

  /** The comparator never relates a row to itself. */
  lemma LessIrreflexive(less: Less, a: Row)
    requires less.byColumn < a.Cols()
    ensures !less.Holds(a, a)
  {
    LexLessIrreflexive(a.columns[less.byColumn]);
  }

  lemma LessTransitive(less: Less, a: Row, b: Row, c: Row)
    requires less.byColumn < a.Cols() && less.byColumn < b.Cols() && less.byColumn < c.Cols()
    requires less.Holds(a, b) && less.Holds(b, c)
    ensures less.Holds(a, c)
  {
    LexLessTransitive(a.columns[less.byColumn], b.columns[less.byColumn], c.columns[less.byColumn]);
  }

  /** Two rows are unordered by the comparator exactly when their key cells
      are equal, and never ordered both ways. */
  lemma LessIncomparableIffEqualKeys(less: Less, a: Row, b: Row)
    requires less.byColumn < a.Cols() && less.byColumn < b.Cols()
    ensures (!less.Holds(a, b) && !less.Holds(b, a)) <==> a.columns[less.byColumn] == b.columns[less.byColumn]
    ensures !(less.Holds(a, b) && less.Holds(b, a))
  {
    LexLessTrichotomous(a.columns[less.byColumn], b.columns[less.byColumn]);
    LexLessIrreflexive(a.columns[less.byColumn]);
  }

  /** What the comparator decides, stated without recursion: the key cells
      first differ at some position where `a`'s key is smaller or has ended. */
  lemma LessIffFirstDifference(less: Less, a: Row, b: Row)
    requires less.byColumn < a.Cols() && less.byColumn < b.Cols()
    ensures less.Holds(a, b) <==>
            exists k: nat :: FirstDifferenceAt(a.columns[less.byColumn], b.columns[less.byColumn], k)
  {
    LexLessIffFirstDifference(a.columns[less.byColumn], b.columns[less.byColumn]);
  }
}
