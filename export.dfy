/**
 * The text `exportTable` of `ADataProvider` (`src/provider/ADataProvider.ts`) builds from
 * a ranking: an optional header line of column labels, then one line per data row of the
 * cell labels, cells joined by the separator and lines by the newline string.
 *
 * The rows are those `view(ranking.getOrder())` resolves to; they, a column's cell label
 * for a row (`getLabel`) and whether a column is numeric (`isNumberColumn`) are parameters.
 */
module Export {
  import opened Wrappers
  import opened DataProvider
  import opened Seqs

  /** The options in effect after the call's options are merged over the defaults. */
  datatype ExportOptions = ExportOptions(
    separator: string,
    newline: string,
    header: bool,
    quote: bool,
    quoteChar: string,
    filter: Desc -> bool)

  /** The options a caller passes: each one left out keeps its default. */
  datatype ExportOverrides = ExportOverrides(
    separator: Option<string>,
    newline: Option<string>,
    header: Option<bool>,
    quote: Option<bool>,
    quoteChar: Option<string>,
    filter: Option<Desc -> bool>)

  /** The defaults: tab, newline, a header, no quoting, `"`, and no support columns. */
  function Defaults(isSupport: Desc -> bool): ExportOptions
  {
    ExportOptions("\t", "\n", true, false, "\"", d => !isSupport(d))
  }

  /**
   * `merge(op, options)`: an option given by the caller wins over the default. A call
   * without options keeps the defaults; a call that gives every option gets exactly its own.
   */
  function Merge(op: ExportOptions, o: ExportOverrides): (r: ExportOptions)
    ensures o == NoOverrides ==> r == op
    ensures forall given :: o == AllGiven(given) ==> r == given
  {
    ExportOptions(
      o.separator.GetOr(op.separator), o.newline.GetOr(op.newline), o.header.GetOr(op.header),
      o.quote.GetOr(op.quote), o.quoteChar.GetOr(op.quoteChar), o.filter.GetOr(op.filter))
  }

  const NoOverrides: ExportOverrides := ExportOverrides(None, None, None, None, None, None)

  /** The overrides that restate every option of `op`. */
  function AllGiven(op: ExportOptions): ExportOverrides
  {
    ExportOverrides(Some(op.separator), Some(op.newline), Some(op.header), Some(op.quote), Some(op.quoteChar), Some(op.filter))
  }

  /**
   * `merge` as the options need it: a call without options keeps the defaults, merging the
   * same options twice changes nothing more, and a call that gives every option gets
   * exactly its own, whatever the defaults.
   */
  lemma MergeLaws(op: ExportOptions, o: ExportOverrides, op': ExportOptions)
    ensures Merge(op, NoOverrides) == op
    ensures Merge(Merge(op, o), o) == Merge(op, o)
    ensures Merge(op', AllGiven(op)) == op
  {
  }

  /** Overriding one option leaves every other default in place. */
  lemma MergeSeparatorOnly(op: ExportOptions, sep: string)
    ensures Merge(op, NoOverrides.(separator := Some(sep))) == op.(separator := sep)
  {
  }

  // ---------------------------------------------------------------------------
  // Joining and splitting

  /** `parts.join(sep)`. */
  function Join(parts: seq<string>, sep: string): string
  {
    if parts == [] then ""
    else if |parts| == 1 then parts[0]
    else parts[0] + sep + Join(parts[1..], sep)
  }

  /** `s.split(c)` for a one-character separator. */
  function Split(s: string, c: char): (r: seq<string>)
    ensures |r| >= 1
    decreases |s|
  {
    var i := IndexOf(s, c);
    if i < 0 then [s] else [s[..i]] + Split(s[i + 1..], c)
  }

  /**
   * Round trip: splitting a join at a one-character separator that occurs in no part gives
   * the parts back (the empty list excepted, whose join splits into one empty part).
   */
  lemma {:induction false} SplitJoin(parts: seq<string>, c: char)
    requires |parts| >= 1
    requires forall k :: 0 <= k < |parts| ==> c !in parts[k]
    ensures Split(Join(parts, [c]), c) == parts
    decreases |parts|
  {
    if |parts| > 1 {
      var p, rest := parts[0], Join(parts[1..], [c]);
      assert Join(parts, [c]) == p + [c] + rest;
      SplitAtFirst(p, c, rest);
      SplitJoin(parts[1..], c);
      assert parts == [p] + parts[1..];
    }
  }

  /** Splitting cuts at the first separator: the part before it, then the split of the rest. */
  lemma SplitAtFirst(p: string, c: char, rest: string)
    requires c !in p
    ensures Split(p + [c] + rest, c) == [p] + Split(rest, c)
  {
    var s := p + [c] + rest;
    assert s[..|p|] == p && s[|p|] == c;
    assert IndexOf(s, c) == |p| by {
      assert c !in s[..|p|];
    }
    assert s[|p| + 1..] == rest;
  }

  /** The join has the parts' lengths plus one separator between every two parts. */
  lemma {:induction false} JoinLength(parts: seq<string>, sep: string)
    requires |parts| >= 1
    ensures |Join(parts, sep)| == SumLengths(parts) + (|parts| - 1) * |sep|
    decreases |parts|
  {
    if |parts| > 1 {
      JoinLength(parts[1..], sep);
    }
  }

  function SumLengths(parts: seq<string>): nat
  {
    if parts == [] then 0 else |parts[0]| + SumLengths(parts[1..])
  }

  // ---------------------------------------------------------------------------
  // Cells and lines

  /**
   * `quote(l, c)`: wrapped in the quote string when quoting is on and `c` is not numeric.
   * A reader that strips the quote string where it is added gets every label back.
   */
  function Quote(op: ExportOptions, l: string, numeric: bool): (q: string)
    ensures Unquote(op, q, numeric) == l
    ensures |q| == |l| + if op.quote && !numeric then 2 * |op.quoteChar| else 0
  {
    if op.quote && !numeric then
      var c := op.quoteChar + l + op.quoteChar;
      assert c[|op.quoteChar|..|c| - |op.quoteChar|] == l;
      c
    else l
  }

  /** How a reader recovers a label: strip the quote string from both ends where `quote` adds it. */
  function Unquote(op: ExportOptions, cell: string, numeric: bool): string
  {
    var m := if op.quote && !numeric then |op.quoteChar| else 0;
    if 2 * m <= |cell| then cell[m..|cell| - m] else cell
  }

  /** The columns exported: those whose description passes the filter, in order. */
  function Exported(cs: seq<Column>, filter: Desc -> bool): (r: seq<Column>)
    ensures |r| <= |cs|
  {
    if cs == [] then []
    else
      var init := Exported(cs[..|cs| - 1], filter);
      if filter(cs[|cs| - 1].desc) then init + [cs[|cs| - 1]] else init
  }

  lemma {:induction false} ExportedIff(cs: seq<Column>, filter: Desc -> bool, c: Column)
    ensures c in Exported(cs, filter) <==> c in cs && filter(c.desc)
  {
    if cs != [] {
      ExportedIff(cs[..|cs| - 1], filter, c);
      assert cs == cs[..|cs| - 1] + [cs[|cs| - 1]];
    }
  }

  /** The header cells: the labels, quoted as a column without numeric check is. */
  function HeaderCells(op: ExportOptions, cols: seq<Column>): (r: seq<string>)
    ensures |r| == |cols|
  {
    seq(|cols|, j requires 0 <= j < |cols| => Quote(op, cols[j].desc.caption, false))
  }

  /** The cells of one data row. */
  function RowCells<R>(op: ExportOptions, cols: seq<Column>, row: R,
                       cellLabel: (Column, R) -> string, isNumber: Column -> bool): (r: seq<string>)
    ensures |r| == |cols|
  {
    seq(|cols|, j requires 0 <= j < |cols| => Quote(op, cellLabel(cols[j], row), isNumber(cols[j])))
  }

  /**
   * One cell per exported column, in column order: unquoting the header cells gives the
   * captions, and unquoting a row's cells gives its cell labels.
   */
  lemma CellsReadBack<R>(op: ExportOptions, cols: seq<Column>, row: R,
                         cellLabel: (Column, R) -> string, isNumber: Column -> bool)
    ensures forall j :: 0 <= j < |cols| ==> Unquote(op, HeaderCells(op, cols)[j], false) == cols[j].desc.caption
    ensures forall j :: 0 <= j < |cols| ==>
      Unquote(op, RowCells(op, cols, row, cellLabel, isNumber)[j], isNumber(cols[j])) == cellLabel(cols[j], row)
  {
    forall j | 0 <= j < |cols| ensures Unquote(op, HeaderCells(op, cols)[j], false) == cols[j].desc.caption {
      assert HeaderCells(op, cols)[j] == Quote(op, cols[j].desc.caption, false);
    }
    forall j | 0 <= j < |cols| ensures
      Unquote(op, RowCells(op, cols, row, cellLabel, isNumber)[j], isNumber(cols[j])) == cellLabel(cols[j], row)
    {
      assert RowCells(op, cols, row, cellLabel, isNumber)[j] == Quote(op, cellLabel(cols[j], row), isNumber(cols[j]));
    }
  }

  /** The lines of the table: the header line when asked for, then one line per row. */
  function Lines<R>(op: ExportOptions, cols: seq<Column>, rows: seq<R>,
                    cellLabel: (Column, R) -> string, isNumber: Column -> bool): (ls: seq<string>)
    ensures |ls| == |rows| + if op.header then 1 else 0
  {
    (if op.header then [Join(HeaderCells(op, cols), op.separator)] else [])
      + seq(|rows|, i requires 0 <= i < |rows| => Join(RowCells(op, cols, rows[i], cellLabel, isNumber), op.separator))
  }

  /** There is one line per row, plus the header line when `header` is on. */
  lemma LinesShape<R>(op: ExportOptions, cols: seq<Column>, rows: seq<R>,
                      cellLabel: (Column, R) -> string, isNumber: Column -> bool)
    ensures var ls, h := Lines(op, cols, rows, cellLabel, isNumber), if op.header then 1 else 0;
      && |ls| == |rows| + h
      && (op.header ==> ls[0] == Join(HeaderCells(op, cols), op.separator))
      && forall i :: 0 <= i < |rows| ==> ls[h + i] == Join(RowCells(op, cols, rows[i], cellLabel, isNumber), op.separator)
  {
  }

  /**
   * A reader splitting the text at a one-character newline and each line at a one-character
   * separator gets back the header cells and every row's cells, provided neither character
   * occurs in any cell and there is at least one column.
   */
  lemma {:induction false} TableReadsBack<R>(op: ExportOptions, cols: seq<Column>, rows: seq<R>,
                                             cellLabel: (Column, R) -> string, isNumber: Column -> bool,
                                             nl: char, sep: char)
    requires op.newline == [nl] && op.separator == [sep] && nl != sep && |cols| >= 1
    requires op.header || |rows| >= 1
    requires forall j :: 0 <= j < |cols| ==> var h := Quote(op, cols[j].desc.caption, false); nl !in h && sep !in h
    requires forall i, j :: 0 <= i < |rows| && 0 <= j < |cols| ==>
      var l := Quote(op, cellLabel(cols[j], rows[i]), isNumber(cols[j])); nl !in l && sep !in l
    ensures var ls, h := Split(Join(Lines(op, cols, rows, cellLabel, isNumber), op.newline), nl), if op.header then 1 else 0;
      && |ls| == |rows| + h
      && (op.header ==> Split(ls[0], sep) == HeaderCells(op, cols))
      && forall i :: 0 <= i < |rows| ==> Split(ls[h + i], sep) == RowCells(op, cols, rows[i], cellLabel, isNumber)
  {
    var ls := Lines(op, cols, rows, cellLabel, isNumber);
    var h := if op.header then 1 else 0;
    LinesShape(op, cols, rows, cellLabel, isNumber);
    forall k | 0 <= k < |ls| ensures nl !in ls[k] && (k < h ==> Split(ls[k], sep) == HeaderCells(op, cols))
      && (k >= h ==> Split(ls[k], sep) == RowCells(op, cols, rows[k - h], cellLabel, isNumber))
    {
      if k < h {
        assert forall j :: 0 <= j < |cols| ==> HeaderCells(op, cols)[j] == Quote(op, cols[j].desc.caption, false);
        assert ls[k] == Join(HeaderCells(op, cols), [sep]);
        LineReadsBack(HeaderCells(op, cols), nl, sep);
      } else {
        var cells := RowCells(op, cols, rows[k - h], cellLabel, isNumber);
        assert forall j :: 0 <= j < |cols| ==>
          cells[j] == Quote(op, cellLabel(cols[j], rows[k - h]), isNumber(cols[j]));
        assert ls[k] == ls[h + (k - h)] == Join(cells, [sep]);
        LineReadsBack(cells, nl, sep);
      }
    }
    SplitJoin(ls, nl);
  }

  /** One line: its cells joined at `sep` hold no newline and split back into the cells. */
  lemma LineReadsBack(cells: seq<string>, nl: char, sep: char)
    requires nl != sep && |cells| >= 1
    requires forall j :: 0 <= j < |cells| ==> nl !in cells[j] && sep !in cells[j]
    ensures nl !in Join(cells, [sep])
    ensures Split(Join(cells, [sep]), sep) == cells
  {
    NoCharInJoin(cells, [sep], nl);
    SplitJoin(cells, sep);
  }

  /** A character in no part and not in the separator is not in the join. */
  lemma {:induction false} NoCharInJoin(parts: seq<string>, sep: string, c: char)
    requires c !in sep
    requires forall k :: 0 <= k < |parts| ==> c !in parts[k]
    ensures c !in Join(parts, sep)
    decreases |parts|
  {
    if |parts| > 1 {
      NoCharInJoin(parts[1..], sep, c);
    }
  }

  /** With quoting on, every header cell and every non-numeric cell is wrapped in the quote string. */
  lemma QuotedCells<R>(op: ExportOptions, cols: seq<Column>, row: R,
                       cellLabel: (Column, R) -> string, isNumber: Column -> bool)
    requires op.quote
    ensures forall j :: 0 <= j < |cols| ==> HeaderCells(op, cols)[j] == op.quoteChar + cols[j].desc.caption + op.quoteChar
    ensures forall j :: 0 <= j < |cols| ==>
      RowCells(op, cols, row, cellLabel, isNumber)[j] ==
        if isNumber(cols[j]) then cellLabel(cols[j], row) else op.quoteChar + cellLabel(cols[j], row) + op.quoteChar
  {
  }

  // ---------------------------------------------------------------------------
  // exportTable

  /**
   * `exportTable(ranking, options)`: the merged options choose the separator, the newline,
   * the header and the quoting; the lines are collected header first, then row by row, and
   * joined by the newline string.
   */
  method ExportTable<R>(ranking: Ranking, options: ExportOverrides, rows: seq<R>,
                        isSupport: Desc -> bool, cellLabel: (Column, R) -> string, isNumber: Column -> bool)
    returns (text: string)
    ensures var op := Merge(Defaults(isSupport), options);
      text == Join(Lines(op, Exported(ranking.children, op.filter), rows, cellLabel, isNumber), op.newline)
  {
    var op := Merge(Defaults(isSupport), options);
    var columns := Exported(ranking.children, op.filter);
    var r: seq<string> := [];
    if op.header {
      r := r + [Join(HeaderCells(op, columns), op.separator)];
    }
    ghost var h := r;
    for i := 0 to |rows|
      invariant r == h + seq(i, k requires 0 <= k < i => Join(RowCells(op, columns, rows[k], cellLabel, isNumber), op.separator))
    {
      r := r + [Join(RowCells(op, columns, rows[i], cellLabel, isNumber), op.separator)];
    }
    text := Join(r, op.newline);
  }
}
