/** The CSV output session: the process-wide buffer that csv:header, csv:row,
    csv:rows and csv:data work on (CsvUtils::clear, escape and row). */
module Output {
  import opened Wrappers
  import opened Text
  import opened Select
  import LineReader

  /** `$csvHeader`: null, `true` (take the header from the first row's keys)
      or a list of column names. */
  datatype HeaderMode = NoHeader | AutoHeader | Fixed(names: seq<string>)

  /** One argument of csv:rows: a dict's (or list's) keys and values, in order. */
  datatype RowData = RowData(keys: seq<string>, values: seq<string>)

  /** The text so far; a null buffer reads as empty. */
  function Pending(d: Option<string>): string
  {
    if d.Some? then d.value else ""
  }

  /** escape(): with escaping on, the value in double quotes with `"`
      doubled, behind a `=` when its header entry starts with `=`. */
  function EscapeCell(on: bool, value: string, h: Option<string>): (r: string)
    ensures !on ==> r == value
    ensures on ==> |r| >= 2 && r[|r| - 1] == '"'
  {
    if !on then value
    else (if h.Some? && StartsWith(h.value, '=') then "=" else "") + "\"" + Double(value, '"') + "\""
  }

  /** The written text of an item: trimmed, and without a leading `=` in a header row. */
  function CellText(item: string, isHeader: bool): string
  {
    var t := Trim(item);
    if isHeader && StartsWith(t, '=') then t[1..] else t
  }

  /** `$header->get($i)`, null past the end or without a header. */
  function HeaderAt(h: Option<seq<string>>, i: nat): Option<string>
  {
    if h.Some? && i < |h.value| then Some(h.value[i]) else None
  }

  /** A column is left out when its header entry starts with `_`, or, in a
      header row, when the item itself (before trimming) does. */
  predicate Omitted(items: seq<string>, h: Option<seq<string>>, isHeader: bool, i: nat)
    requires i < |items|
  {
    (HeaderAt(h, i).Some? && StartsWith(HeaderAt(h, i).value, '_')) || (isHeader && StartsWith(items[i], '_'))
  }

  function KeepFn(items: seq<string>, h: Option<seq<string>>, isHeader: bool): nat -> bool
  {
    (j: nat) => j < |items| && !Omitted(items, h, isHeader, j)
  }

  function CellFn(items: seq<string>, h: Option<seq<string>>, isHeader: bool, on: bool): nat -> string
  {
    (j: nat) => if j < |items| then EscapeCell(on, CellText(items[j], isHeader), HeaderAt(h, j)) else ""
  }

  /** The `$data` list that row() builds. */
  function RowCells(items: seq<string>, h: Option<seq<string>>, isHeader: bool, on: bool): seq<string>
  {
    Gather(|items|, KeepFn(items, h, isHeader), CellFn(items, h, isHeader, on))
  }

  /** The line that row() appends. */
  function RowLine(items: seq<string>, h: Option<seq<string>>, isHeader: bool, on: bool, sep: string): string
  {
    Join(RowCells(items, h, isHeader, on), sep) + "\r\n"
  }

  /** The lines csv:rows appends, one per row, each under the header `h`. */
  function RowsText(rows: seq<RowData>, h: Option<seq<string>>, on: bool, sep: string): string
  {
    if |rows| == 0 then ""
    else RowsText(rows[..|rows| - 1], h, on, sep) + RowLine(rows[|rows| - 1].values, h, false, on, sep)
  }

  /** A row holds one cell per column that is not left out, in column order,
      and each cell is that column's item escaped under its header entry. */
  lemma RowCellsExact(items: seq<string>, h: Option<seq<string>>, isHeader: bool, on: bool)
    ensures var ks := Indices(|items|, KeepFn(items, h, isHeader));
            var cells := RowCells(items, h, isHeader, on);
            |cells| == |ks|
            && (forall j: nat :: j in ks <==> j < |items| && !Omitted(items, h, isHeader, j))
            && (forall a, b :: 0 <= a < b < |ks| ==> ks[a] < ks[b])
            && (forall k :: 0 <= k < |ks| ==> ks[k] < |items|)
            && (forall k :: 0 <= k < |ks| ==>
                  cells[k] == EscapeCell(on, CellText(items[ks[k]], isHeader), HeaderAt(h, ks[k])))
  {
    var keep := KeepFn(items, h, isHeader);
    IndicesExact(|items|, keep);
    GatherAligned(|items|, keep, CellFn(items, h, isHeader, on));
    var ks := Indices(|items|, keep);
    assert forall k :: 0 <= k < |ks| ==> ks[k] in ks;
  }

  /** An escaped cell reads back: after the optional `=`, strip the outer
      quotes and collapse `""` to get the value. */
  lemma EscapeRoundTrip(value: string, h: Option<string>)
    ensures var r := EscapeCell(true, value, h);
            var p := if h.Some? && StartsWith(h.value, '=') then 1 else 0;
            p + 2 <= |r| && r[..p] == (if p == 1 then "=" else "") && r[p] == '"'
            && Undouble(r[p + 1..|r| - 1], '"') == value
  {
    var r := EscapeCell(true, value, h);
    var p := if h.Some? && StartsWith(h.value, '=') then 1 else 0;
    assert r[p + 1..|r| - 1] == Double(value, '"');
    UndoubleDouble(value, '"');
  }

  /** A header row is written with no header list, so escaping puts no `=`
      in front of a cell and every cell starts with the opening quote. The
      leading `=` dropped from each item only changes the text inside. */
  lemma HeaderRowCells(items: seq<string>, on: bool)
    requires on
    ensures forall c :: c in RowCells(items, None, true, on) ==> |c| > 0 && c[0] == '"'
  {
    RowCellsExact(items, None, true, on);
    var ks := Indices(|items|, KeepFn(items, None, true));
    forall c | c in RowCells(items, None, true, on)
      ensures |c| > 0 && c[0] == '"'
    {
      var k :| 0 <= k < |ks| && RowCells(items, None, true, on)[k] == c;
    }
  }

  /** The loop of row() that builds `$data`. */
  method BuildCells(items: seq<string>, h: Option<seq<string>>, isHeader: bool, on: bool) returns (cells: seq<string>)
    ensures cells == RowCells(items, h, isHeader, on)
  {
    ghost var keep := KeepFn(items, h, isHeader);
    ghost var cell := CellFn(items, h, isHeader, on);
    cells := [];
    for i := 0 to |items|
      invariant cells == Gather(i, keep, cell)
    {
      var item := CellText(items[i], isHeader);
      if !Omitted(items, h, isHeader, i) {
        GatherTake(i, keep, cell);
        assert cell(i) == EscapeCell(on, item, HeaderAt(h, i));
        cells := cells + [EscapeCell(on, item, HeaderAt(h, i))];
      } else {
        GatherSkip(i, keep, cell);
      }
    }
  }

  /** One more row appends its line. */
  lemma RowsTextSnoc(rows: seq<RowData>, k: nat, h: Option<seq<string>>, on: bool, sep: string)
    requires k < |rows|
    ensures RowsText(rows[..k + 1], h, on, sep) == RowsText(rows[..k], h, on, sep) + RowLine(rows[k].values, h, false, on, sep)
  {
    assert rows[..k + 1][..k] == rows[..k];
  }

  class CsvBuffer {
    var data: Option<string>
    var header: HeaderMode
    var rowCount: nat
    var separator: string
    var escape: bool

    /** The static fields' initial values. */
    constructor ()
      ensures data == None && header == NoHeader && rowCount == 0
      ensures separator == "," && escape
    {
      data := None;
      header := NoHeader;
      rowCount := 0;
      separator := ",";
      escape := true;
    }

    /** The header that row() is given by csv:row and csv:rows. */
    function CurrentHeader(): (h: Option<seq<string>>)
      reads this
      ensures h.Some? <==> header.Fixed?
    {
      if header.Fixed? then Some(header.names) else None
    }

    /** clear() and csv:clear. */
    method Clear(autoHeader: bool)
      modifies this
      ensures data == Some("") && header == (if autoHeader then AutoHeader else NoHeader)
      ensures rowCount == 0 && separator == "," && escape
    {
      data := Some("");
      header := if autoHeader then AutoHeader else NoHeader;
      rowCount := 0;
      separator := ",";
      escape := true;
    }

    /** row(): exactly one line is appended and counted. */
    method Row(items: seq<string>, h: Option<seq<string>>, isHeader: bool)
      modifies this
      ensures data == Some(Pending(old(data)) + RowLine(items, h, isHeader, escape, separator))
      ensures rowCount == old(rowCount) + 1
      ensures header == old(header) && separator == old(separator) && escape == old(escape)
    {
      if data.None? {
        data := Some("");
      }
      var cells := BuildCells(items, h, isHeader, escape);
      AppendAssoc(data.value, Join(cells, separator), "\r\n");
      data := Some(data.value + Join(cells, separator) + "\r\n");
      rowCount := rowCount + 1;
    }

    /** csv:header: a fresh buffer whose first line is the header row. */
    method SetHeader(names: seq<string>)
      modifies this
      ensures header == Fixed(names) && separator == "," && escape
      ensures data == Some(RowLine(names, None, true, true, ","))
      ensures rowCount == 1
    {
      Clear(false);
      header := Fixed(names);
      Row(names, None, true);
      assert Pending(Some("")) + RowLine(names, None, true, true, ",") == RowLine(names, None, true, true, ",");
    }

    /** csv:row: in auto-header mode the row's keys become the header and
        are written first. */
    method AddRow(row: RowData)
      modifies this
      ensures separator == old(separator) && escape == old(escape)
      ensures old(header) == AutoHeader ==>
                header == Fixed(row.keys) && rowCount == old(rowCount) + 2
                && data == Some(Pending(old(data)) + RowLine(row.keys, None, true, escape, separator)
                                + RowLine(row.values, Some(row.keys), false, escape, separator))
      ensures old(header) != AutoHeader ==>
                header == old(header) && rowCount == old(rowCount) + 1
                && data == Some(Pending(old(data)) + RowLine(row.values, old(CurrentHeader()), false, escape, separator))
    {
      if header == AutoHeader {
        header := Fixed(row.keys);
        Row(row.keys, None, true);
      }
      Row(row.values, CurrentHeader(), false);
    }

    /** csv:rows: nothing at all for an empty list; otherwise as csv:row for
        each, with the auto header taken from the first row. */
    method AddRows(rows: seq<RowData>)
      modifies this
      ensures separator == old(separator) && escape == old(escape)
      ensures |rows| == 0 ==> data == old(data) && header == old(header) && rowCount == old(rowCount)
      ensures |rows| > 0 && old(header) == AutoHeader ==>
                header == Fixed(rows[0].keys) && rowCount == old(rowCount) + 1 + |rows|
                && data == Some(Pending(old(data)) + RowLine(rows[0].keys, None, true, escape, separator)
                                + RowsText(rows, Some(rows[0].keys), escape, separator))
      ensures |rows| > 0 && old(header) != AutoHeader ==>
                header == old(header) && rowCount == old(rowCount) + |rows|
                && data == Some(Pending(old(data)) + RowsText(rows, old(CurrentHeader()), escape, separator))
    {
      if |rows| == 0 {
        return;
      }
      if header == AutoHeader {
        header := Fixed(rows[0].keys);
        Row(rows[0].keys, None, true);
      }
      WriteRows(rows, CurrentHeader());
    }

    /** The loop of csv:rows: one row() per row, all under the header `h`. */
    method WriteRows(rows: seq<RowData>, h: Option<seq<string>>)
      requires |rows| > 0
      modifies this
      ensures data == Some(Pending(old(data)) + RowsText(rows, h, escape, separator))
      ensures rowCount == old(rowCount) + |rows|
      ensures header == old(header) && separator == old(separator) && escape == old(escape)
    {
      ghost var start := Pending(data);
      var k := 0;
      assert rows[..0] == [] && start + "" == start;
      while k < |rows|
        invariant k <= |rows|
        invariant header == old(header) && separator == old(separator) && escape == old(escape)
        invariant Pending(data) == start + RowsText(rows[..k], h, escape, separator)
        invariant k > 0 ==> data.Some?
        invariant rowCount == old(rowCount) + k
      {
        ghost var before := RowsText(rows[..k], h, escape, separator);
        Row(rows[k].values, h, false);
        RowsTextSnoc(rows, k, h, escape, separator);
        AppendAssoc(start, before, RowLine(rows[k].values, h, false, escape, separator));
        k := k + 1;
      }
      assert rows[..|rows|] == rows;
    }

    /** csv:separator. */
    method SetSeparator(sep: string)
      modifies this
      ensures separator == sep
      ensures data == old(data) && header == old(header) && rowCount == old(rowCount) && escape == old(escape)
    {
      separator := sep;
    }

    /** csv:escape. */
    method SetEscape(on: bool)
      modifies this
      ensures escape == on
      ensures data == old(data) && header == old(header) && rowCount == old(rowCount) && separator == old(separator)
    {
      escape := on;
    }

    /** csv:data: the buffer as it is, then optionally a fresh one. */
    method Data(clearAfter: bool) returns (d: Option<string>)
      modifies this
      ensures d == old(data)
      ensures clearAfter ==> data == Some("") && header == NoHeader && rowCount == 0 && separator == "," && escape
      ensures !clearAfter ==> data == old(data) && header == old(header) && rowCount == old(rowCount)
                              && separator == old(separator) && escape == old(escape)
    {
      d := data;
      if clearAfter {
        Clear(false);
      }
    }

    /** csv:write and csv:dump: the bytes written out (a byte-order mark
        first unless turned off), after which the buffer is null. */
    method Flush(bom: bool) returns (out: string)
      modifies this
      ensures out == (if bom then LineReader.BOM else "") + Pending(old(data))
      ensures data == None
      ensures header == old(header) && rowCount == old(rowCount) && separator == old(separator) && escape == old(escape)
    {
      out := (if bom then LineReader.BOM else "") + Pending(data);
      data := None;
    }
  }
}
