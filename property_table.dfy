/** `PropertyTable` (src/Table.h:245-325): aligned "key : value" rows built on
    a private `Table` in `Colon` style, with multi-value keys listed as detail
    lines and a hook that recolours the last value. */
module PropertyTables {
  import opened Decimal
  import opened TableRows
  import opened Tables

  /** The row that `add(key, begin, end)` appends for the elements of the
      range, in iteration order: an empty value for no elements, the element
      itself for one, and otherwise the element count (an `unsigned`, so
      modulo 2^32) with every element as a detail line. */
  function ListRow(key: string, elems: seq<string>): (r: Row)
    ensures r.Cols() == 2 && r.columns[0] == key
    ensures |elems| == 0 ==> r.columns[1] == "" && r.details == []
    ensures |elems| == 1 ==> r.columns[1] == elems[0] && r.details == []
    ensures |elems| >= 2 ==> r.details == elems && r.columns[1] == NatToString(Wrap32(|elems|))
  {
    if |elems| == 0 then Row([key, ""], [])
    else if |elems| == 1 then Row([key, elems[0]], [])
    else Row([key, NatToString(Wrap32(|elems|))], elems)
  }

  /** For fewer than 2^32 elements the value cell of a listed key reads back
      as the number of detail lines under it. */
  lemma ListRowCountsDetails(key: string, elems: seq<string>)
    requires 2 <= |elems| < UINT_BOUND
    ensures ParseDecimal(ListRow(key, elems).columns[1]) == |ListRow(key, elems).details| == |elems|
  {
    ParseNatToString(|elems|);
  }

  class PropertyTable {
    const table: Table

    /** Every row is a `[key, value]` pair, and the table keeps the style the
        constructor chose; header and edition flags are never touched. */
    ghost predicate Valid()
      reads this, table
    {
      && table.style == Colon
      && !table.hasHeader
      && table.editionCols == {}
      && forall i :: 0 <= i < |table.rows| ==> table.rows[i].Cols() == 2
    }

    /** `PropertyTable()`: a fresh table switched to `Colon` style. */
    constructor (defaultStyle: LineStyle)
      ensures Valid() && fresh(table)
      ensures table.style == Colon && table.rows == [] && table.Empty()
    {
      var t := new Table(defaultStyle);
      t.SetLineStyle(Colon);
      table := t;
    }

    /** `add(key, value)` for a value that is not a bool or a container. */
    method Add(key: string, val: string)
      requires Valid()
      modifies table
      ensures Valid()
      ensures table.rows == old(table.rows) + [Row([key, val], [])]
      ensures table.header == old(table.header)
    {
      var r := NewRow(0).Add(key).Add(val);
      assert r.columns == [key, val];
      table.Add(r);
    }

    /** `add(key, bool)`: the value cell is the translation of "Yes" or "No".
        `localize` stands for the message lookup `_()`. */
    method AddBool(key: string, val: bool, localize: string -> string)
      requires Valid()
      modifies table
      ensures Valid()
      ensures table.rows == old(table.rows) + [Row([key, localize(if val then "Yes" else "No")], [])]
      ensures table.header == old(table.header)
    {
      var r := NewRow(0).Add(key).Add(if val then localize("Yes") else localize("No"));
      assert r.columns == [key, localize(if val then "Yes" else "No")];
      table.Add(r);
    }

    /** `add(key, begin, end)`. The range is the sequence of its elements,
        already turned into strings; `begin` and `end` become positions in it. */
    method AddRange(key: string, elems: seq<string>)
      requires Valid()
      modifies table
      ensures Valid()
      ensures table.rows == old(table.rows) + [ListRow(key, elems)]
      ensures table.header == old(table.header)
    {
      var r := NewRow(0).Add(key);
      var begin, end := 0, |elems|;
      if begin != end {
        var first := begin;
        begin := begin + 1;
        if begin != end {
          var cnt: nat := 1;
          r := r.AddDetail(elems[first]);
          while begin != end
            invariant 1 <= begin <= end
            invariant cnt == Wrap32(begin)
            invariant r == Row([key], elems[..begin])
            decreases end - begin
          {
            cnt := Wrap32(cnt + 1);
            r := r.AddDetail(elems[begin]);
            begin := begin + 1;
          }
          assert elems[..begin] == elems;
          r := r.Add(NatToString(cnt));
          assert r.columns == [key, NatToString(Wrap32(|elems|))];
        } else {
          r := r.Add(elems[first]);
          assert r.columns == [key, elems[0]];
        }
      } else {
        r := r.Add("");
        assert r.columns == [key, ""];
      }
      table.Add(r);
    }

    /** `lst(key, container)` and the `std::set`, `std::list` and
        `std::vector` overloads of `add` that forward to it: the elements are
        passed in the container's iteration order. */
    method Lst(key: string, elems: seq<string>)
      requires Valid()
      modifies table
      ensures Valid()
      ensures table.rows == old(table.rows) + [ListRow(key, elems)]
      ensures table.header == old(table.header)
    {
      AddRange(key, elems);
    }

    /** `paint(color, cond)`. Its `cond_r` defaults to true, so a caller
        writing `paint(color)` passes `cond == true`. `colorString` stands for
        `s => ColorString(s, color).str()`. With `cond` false nothing changes;
        otherwise only the value cell of the last row is replaced by its
        recoloured text, so painting the same row twice wraps it twice. */
    method Paint(colorString: string -> string, cond: bool)
      requires Valid()
      requires cond ==> !table.Empty()
      modifies table
      ensures Valid()
      ensures !cond ==> table.rows == old(table.rows)
      ensures |table.rows| == |old(table.rows)|
      ensures cond ==> table.rows[..|table.rows| - 1] == old(table.rows)[..|table.rows| - 1]
      ensures cond ==> var last := old(table.rows)[|table.rows| - 1];
                       table.rows[|table.rows| - 1] == last.WithLastColumn(colorString(last.columns[1]))
      ensures table.header == old(table.header)
    {
      if cond {
        var n := |table.rows|;
        var last := table.rows[n - 1];
        var lastval := last.columns[last.Cols() - 1];
        table.rows := table.rows[..n - 1] + [last.WithLastColumn(colorString(lastval))];
      }
    }
  }
}
