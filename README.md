# zypper table model

A Dafny model of the in-memory part of zypper's text-table renderer
(`src/Table.h`). It covers the following pieces:

- the row model `TableRow` / `TableHeader`: primary columns plus detail lines, and the `Less` column comparator;
- the bookkeeping of `Table`: the ordered row list, the header, `empty()`, the line style and the set of edition-style columns;
- the `EditionStyleSetter` header manipulator;
- the `PropertyTable` builder, which turns keys and values into aligned two-column rows.

Modules, in dependency order:

- `LexOrder` (`lex_order.dfy`): the string order of `std::string::operator<`. Its proofs show it is a strict total order and match it against a first-difference definition.
- `Decimal` (`decimal.dfy`): `zypp::str::asString` on an `unsigned`, with a parser that reads the digits back.
- `TableRows` (`table_row.dfy`): the `Row` datatype and `Less`.
- `Tables` (`table.dfy`): `LineStyle`, the `Table` class and `EditionStyleSetter`.
- `PropertyTables` (`property_table.dfy`): the `ListRow` specification of the container form of `add`, and the `PropertyTable` class.

A row is a value in `src/Table.h` (`Table::add` stores a copy), so `Row` is a datatype and `add`/`addDetail` return the extended row. `Table` and `PropertyTable` are classes whose methods update fields in place. The loop of `add(key, begin, end)` is a `while` loop over positions in the element sequence. `paint` overwrites the last cell of the table's last row.

The bodies of `TableRow::add`, `TableRow::addDetail`, `TableRow::cols`, `Table::add`, `Table::setHeader`, `Table::lineStyle` and `Table()` are declared in `src/Table.h` but defined in a file that is not part of this model. They are modelled as what their declarations and callers imply:

- `add` and `addDetail` append;
- `cols` is the column count;
- `Table::add` appends the row;
- `setHeader` stores the header and sets `_has_header`;
- `lineStyle` stores the style;
- `Table()` starts with no rows, an empty header and no edition columns. It takes the default style as a parameter instead of reading the global `Table::defaultStyle`.

## Model

| member | source | states |
|---|---|---|
| `LexOrder.LexLessIrreflexive` | src/Table.h:84-86 | no string compares below itself under `LexLess`, the model of `std::string::operator<` |
| `LexOrder.LexLessTransitive` | src/Table.h:84-86 | `LexLess` is transitive |
| `LexOrder.LexLessTrichotomous` | src/Table.h:84-86 | under `LexLess` any two strings are equal or ordered one way, never both ways |
| `LexOrder.LexLessIffFirstDifference` | src/Table.h:84-86 | the recursive comparison `LexLess` holds iff the strings agree up to some position where the left one has ended while the right goes on or has the smaller character (both directions) |
| `Decimal.Wrap32` | src/Table.h:274-278 | the `unsigned` counter stays below 2^32 and equals the true count while that is below 2^32 |
| `Decimal.NatToString` | src/Table.h:281 | the count's text is non-empty, all decimal digits, and has no leading zero unless it is "0" |
| `Decimal.ParseNatToString` | src/Table.h:281 | reading the decimal text of `n` back gives `n` |
| `Decimal.NatToStringInjective` | src/Table.h:281 | different counts give different texts |
| `TableRows.NewRow` | src/Table.h:57-59 | a freshly constructed row has no columns and no details, whatever capacity was reserved (also `TableHeader(c)`, line 120) |
| `TableRows.Row.Add` | src/Table.h:61-70 | appending a column adds one to `Row.Cols` (`cols()`, line 70), keeps the earlier ones, puts the value last and leaves the details alone (also the `operator<<` forms at lines 104-115 and 124-126) |
| `TableRows.Row.AddDetail` | src/Table.h:63-67 | appending a detail adds one detail line at the end, keeps the earlier ones and leaves the columns alone |
| `TableRows.Row.WithLastColumn` | src/Table.h:313-314 | replacing the last cell keeps the column count, every other column and the details, and puts the new text last |
| `TableRows.LessIrreflexive` | src/Table.h:80-87 | `Less.Holds` (`Less(k)` applied to two rows) never relates a row with more than `k` columns to itself |
| `TableRows.LessTransitive` | src/Table.h:80-87 | `Less(k)` is transitive on rows with more than `k` columns |
| `TableRows.LessIncomparableIffEqualKeys` | src/Table.h:80-87 | two rows are unordered by `Less(k)` exactly when their column-`k` cells are equal, and never ordered both ways |
| `TableRows.LessIffFirstDifference` | src/Table.h:80-87 | `Less.Holds`, i.e. `Less(k)(a, b)`, holds exactly when `a`'s column-`k` cell is lexicographically smaller than `b`'s |
| `Tables.Table.constructor` | src/Table.h:153-188 | a new table has no rows, no header and no edition columns, and has the caller's default style |
| `Tables.Table.Add` | src/Table.h:135 | the row is appended after the existing rows, and `Empty()` (`empty()`, line 138) is then false; header, style and edition flags are unchanged (also `table << row`, lines 218-221) |
| `Tables.Table.SetHeader` | src/Table.h:136 | the header is stored and marked present; rows, and hence `Empty()`, are unchanged (also `table << header`, lines 223-226) |
| `Tables.Table.SetLineStyle` | src/Table.h:141 | the style is set; nothing else changes |
| `Tables.Table.SetEditionStyle` | src/Table.h:156-157 | the column is added to the flagged set, so `EditionStyle` (`editionStyle()`, lines 189-190) holds of it, other columns keep their flag, and flagging an already flagged column leaves the set unchanged |
| `Tables.AddEditionStyleColumn` | src/Table.h:209-214 | the header's column count before the add is flagged, the title becomes the header's new last column, so `EditionStyle` holds of the new last column index; the table's rows, header and style are unchanged |
| `PropertyTables.ListRow` | src/Table.h:264-290 | the row for a key and a range is `[key, value]`: value "" with no details for an empty range, the element with no details for one element, and for two or more the decimal count (mod 2^32) with all elements as details in order |
| `PropertyTables.ListRowCountsDetails` | src/Table.h:274-281 | for 2 to 2^32-1 elements the value cell reads back as the number of detail lines, which is the number of elements |
| `PropertyTables.PropertyTable.constructor` | src/Table.h:248-249 | a new property table owns a fresh table in `Colon` style with no rows |
| `PropertyTables.PropertyTable.Add` | src/Table.h:254-256 | exactly one row `[key, value]` with no details is appended after the unchanged earlier rows |
| `PropertyTables.PropertyTable.AddBool` | src/Table.h:258-260 | exactly one row `[key, _("Yes")]` for true or `[key, _("No")]` for false is appended after the unchanged earlier rows; `_()` is the `localize` parameter |
| `PropertyTables.PropertyTable.AddRange` | src/Table.h:264-290 | the loop that walks the range appends exactly `ListRow(key, elements)`; the counter ends equal to the number of details (mod 2^32) |
| `PropertyTables.PropertyTable.Lst` | src/Table.h:292-304 | `lst` and the `set`/`list`/`vector` overloads append `ListRow(key, elements)` for the container's elements in iteration order |
| `PropertyTables.PropertyTable.Paint` | src/Table.h:308-317 | with the condition false nothing changes; otherwise only the last row's value cell is replaced by its recoloured text, and the row count, earlier rows, key cell and details stay the same |

`PropertyTable.Valid()` is kept by every `PropertyTable` method. It says that every row has exactly two columns, the style stays `Colon`, and no header or edition flag is ever set. This is why `Paint` needs only a non-empty table: the last row always has a last column.

## Left out

- Rendering is not modelled: `dumpTo`, `dumbDumpTo`, `dumpDetails`, `dumpRule`, `updateColWidths`, and the width caches `_max_col`, `_max_width` and `_width`. Their bodies are not part of this model, and they write to an `ostream`.
- `Table::sort`, `wrap`, `allowAbbrev` and `margin` are only declared in the header, so they are not modelled. The configuration and render-time fields `_screen_width`, `_abbrev_col`, `_margin`, `_force_break_after`, `_do_wrap` and `_inHeader` are not modelled either.
- The global `Table::defaultStyle` is a constructor parameter, because it is process-wide mutable state.
- The `ostream` `operator<<` overloads for `Table` and `PropertyTable` are left out: they only forward to rendering.
- `zypp::str::asString` is modelled only for `unsigned` (decimal digits). Keys, values and container elements of other types enter the model already converted to strings.
- `ColorString(s, color).str()` is given to `Paint` as a string function. The ANSI escape sequences of `ansi::Color` are not modelled.
- `_()` is given to `AddBool` as a string function `localize`. Message catalogues are not modelled.
- `LexOrder.LexLess` compares Unicode code points. `std::string::operator<` compares arbitrary bytes as `unsigned char`. The two agree on valid UTF-8, but byte strings that are not valid UTF-8 are outside the model.
- `PropertyTables.PropertyTable.Lst`: the element order is the container's iteration order, which the caller passes in. For `std::set` that order is ascending by the value type's own `<`, before stringification, so the model does not derive it.
- `TableRows.Less.Holds` requires both rows to have the compared column. `TableRow::Less` indexes without a bounds check, so any other call is undefined behaviour.
- `Paint` with a true condition on a table with no rows is excluded for the same reason: `rows().back()` on an empty list is undefined behaviour.
- `Tables.AddEditionStyleColumn`: `cols()` returns a 32-bit `unsigned`. The model does not wrap header column counts at 2^32.
