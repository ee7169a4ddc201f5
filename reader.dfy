/** CsvUtils::readCsv: every used row after the header becomes a record that
    maps each named column to its field, plus `_row_number`, the row's
    1-based line number. The header is either given or read from line 0. */
module Reader {
  import opened Wrappers
  import opened Text
  import opened LineReader
  import Tokenizer
  import opened Columns
  import opened Coercion
  import opened Rows

  /** A value stored in a record: a field, or the row number. */
  datatype Cell = Value(text: string) | RowNumber(n: nat)

  type Record = map<string, Cell>

  /** The records, or the error raised when a row is used before any
      header exists. */
  datatype ReadResult = Read(records: seq<Record>) | MissingHeader

  const RowNumberKey: string := "_row_number"

  const RowLimit: nat := 1000000

  /** A given header name is used as it is, as a plain string column. */
  function GivenColumns(header: seq<string>): seq<Column>
  {
    seq(|header|, i requires 0 <= i < |header| => Column(header[i], Str))
  }

  /** A header field read from the file: no type detection, and a truthy
      name starting with '-' is blanked. */
  function ReaderColumn(field: string): (c: Column)
    ensures c == Column(if StartsWith(field, '-') then "" else field, Str)
  {
    var c := ResolveColumn(field, false);
    if !Falsy(c.name) && StartsWith(c.name, '-') then Column("", c.stype) else c
  }

  function ParsedColumns(fields: seq<string>): seq<Column>
  {
    seq(|fields|, i requires 0 <= i < |fields| => ReaderColumn(fields[i]))
  }

  /** Every column readCsv knows is a plain string column, so parseValue
      without escaping hands each field back unchanged (PlainValue). */
  predicate Plain(defs: seq<Column>)
  {
    forall j :: 0 <= j < |defs| ==> defs[j].stype == Str
  }

  /** The record after the loop has looked at the first `n` fields: each
      stored field sets its column's name, a later one overwriting. */
  function Entries(cells: seq<string>, defs: seq<Column>, n: nat): Record
  {
    if n == 0 then map[]
    else
      var m := Entries(cells, defs, n - 1);
      if KeptAt(|cells|, defs)(n - 1) then
        m[defs[n - 1].name := Value(cells[n - 1])]
      else m
  }

  /** The record of row `k` (0-based): its entries, then `_row_number`. */
  function RecordOf(cells: seq<string>, defs: seq<Column>, k: nat): Record
  {
    Entries(cells, defs, |cells|)[RowNumberKey := RowNumber(k + 1)]
  }

  /** The loop that fills a record. */
  method BuildRecord(cells: seq<string>, defs: seq<Column>, k: nat) returns (o: Record)
    requires Plain(defs)
    ensures o == RecordOf(cells, defs, k)
  {
    o := map[];
    for j := 0 to |cells|
      invariant o == Entries(cells, defs, j)
    {
      if j >= |defs| || Falsy(defs[j].name) {
        continue;
      }
      var v := ParseValue(cells[j], defs[j].stype, false);
      PlainValue(cells[j]);
      o := o[defs[j].name := Value(v.value)];
    }
    o := o[RowNumberKey := RowNumber(k + 1)];
  }

  /** A key is present exactly when some stored field has that column name. */
  lemma {:induction false} EntriesKeys(cells: seq<string>, defs: seq<Column>, n: nat)
    ensures forall key :: key in Entries(cells, defs, n) <==>
              exists j :: 0 <= j < n && KeptAt(|cells|, defs)(j) && defs[j].name == key
  {
    if n > 0 {
      EntriesKeys(cells, defs, n - 1);
      forall key | key in Entries(cells, defs, n)
        ensures exists j :: 0 <= j < n && KeptAt(|cells|, defs)(j) && defs[j].name == key
      {
        if key !in Entries(cells, defs, n - 1) {
          assert KeptAt(|cells|, defs)(n - 1) && defs[n - 1].name == key;
        }
      }
    }
  }

  /** A stored field that no later stored field of the same name follows
      gives its key's value. */
  lemma {:induction false} EntriesValue(cells: seq<string>, defs: seq<Column>, n: nat, j: nat)
    requires j < n && KeptAt(|cells|, defs)(j)
    requires forall i :: j < i < n && KeptAt(|cells|, defs)(i) ==> defs[i].name != defs[j].name
    ensures defs[j].name in Entries(cells, defs, n)
    ensures Entries(cells, defs, n)[defs[j].name] == Value(cells[j])
  {
    if j < n - 1 {
      EntriesValue(cells, defs, n - 1, j);
    }
  }

  /** A record holds the row number and the named columns of the row; a
      column's value is its field, the last one when names repeat. */
  lemma RecordFields(cells: seq<string>, defs: seq<Column>, k: nat)
    ensures RecordOf(cells, defs, k)[RowNumberKey] == RowNumber(k + 1)
    ensures forall key :: key != RowNumberKey ==>
              (key in RecordOf(cells, defs, k) <==>
               exists j :: 0 <= j < |cells| && j < |defs| && !Falsy(defs[j].name) && defs[j].name == key)
    ensures forall j :: 0 <= j < |cells| && j < |defs| && !Falsy(defs[j].name) && defs[j].name != RowNumberKey
              && (forall i :: j < i < |cells| && i < |defs| && defs[i].name == defs[j].name ==> Falsy(defs[i].name))
              ==> RecordOf(cells, defs, k)[defs[j].name] == Value(cells[j])
  {
    EntriesKeys(cells, defs, |cells|);
    forall j | 0 <= j < |cells| && j < |defs| && !Falsy(defs[j].name) && defs[j].name != RowNumberKey
              && (forall i :: j < i < |cells| && i < |defs| && defs[i].name == defs[j].name ==> Falsy(defs[i].name))
      ensures RecordOf(cells, defs, k)[defs[j].name] == Value(cells[j])
    {
      EntriesValue(cells, defs, |cells|, j);
    }
  }

  /** The effect of one line on the columns and records so far. */
  datatype Step = Next(defs: Option<seq<Column>>, records: seq<Record>) | Stop

  /** A data row of fields `cells`: without a header it fails, with all
      fields empty it is skipped, otherwise its record is added. */
  function RowStep(cells: seq<string>, k: nat, defs: Option<seq<Column>>, records: seq<Record>): Step
  {
    if defs.None? then Stop
    else if EmptyCount(cells) == |cells| then Next(defs, records)
    else Next(defs, records + [RecordOf(cells, defs.value, k)])
  }

  /** Line `k` (0-based). It is the header when it is line 0 and no header
      was given or the given header is empty. */
  function ReadStep(d: char, line: string, k: nat, defs: Option<seq<Column>>, records: seq<Record>): Step
  {
    if !Accepted(line, d) then Next(defs, records)
    else
      var cells := Tokenizer.Columns(Trim(line), d, true);
      if k == 0 && (defs.None? || defs.value == []) then Next(Some(ParsedColumns(cells)), records)
      else RowStep(cells, k, defs, records)
  }

  /** What a line does, given its index and the state so far. */
  type LineStep = (string, nat, Option<seq<Column>>, seq<Record>) -> Step

  /** ReadStep with the file's delimiter. */
  function StepFor(d: char): LineStep
  {
    (line: string, k: nat, defs: Option<seq<Column>>, records: seq<Record>) => ReadStep(d, line, k, defs, records)
  }

  /** The loop from line `k` on, each line going through `step`. */
  function ReadFrom(step: LineStep, lines: seq<string>, k: nat, defs: Option<seq<Column>>, records: seq<Record>): ReadResult
    decreases |lines| - k
  {
    if k >= |lines| || k >= RowLimit then Read(records)
    else
      match step(lines[k], k, defs, records)
      case Next(defs', records') => ReadFrom(step, lines, k + 1, defs', records')
      case Stop => MissingHeader
  }

  /** One line further: the next line's step either continues or fails. */
  lemma ReadFromNext(step: LineStep, lines: seq<string>, k: nat, defs: Option<seq<Column>>, records: seq<Record>, st: Step)
    requires k < |lines| && k < RowLimit
    requires st == step(lines[k], k, defs, records)
    ensures ReadFrom(step, lines, k, defs, records)
            == if st.Next? then ReadFrom(step, lines, k + 1, st.defs, st.records) else MissingHeader
  {
  }

  /** readCsv on the file contents `input`. */
  function ReadRows(filename: string, header: Option<seq<string>>, input: string): ReadResult
  {
    ReadFrom(StepFor(Delimiter(filename)), Lines(input), 0,
             if header.Some? then Some(GivenColumns(header.value)) else None, [])
  }

  /** The loop over the header fields. */
  method HeaderLine(fields: seq<string>) returns (cols: seq<Column>)
    ensures cols == ParsedColumns(fields)
  {
    cols := [];
    for i := 0 to |fields|
      invariant |cols| == i && forall m :: 0 <= m < i ==> cols[m] == ReaderColumn(fields[m])
    {
      cols := cols + [ReaderColumn(fields[i])];
    }
  }

  /** The body of the main loop for one line. */
  method ReadRow(d: char, line: string, k: nat, defs: Option<seq<Column>>, records: seq<Record>) returns (st: Step)
    requires defs.Some? ==> Plain(defs.value)
    ensures st == ReadStep(d, line, k, defs, records)
    ensures st.Next? && st.defs.Some? ==> Plain(st.defs.value)
  {
    var t := Trim(line);
    if Falsy(t) {
      return Next(defs, records);
    }
    var tmp := Trim(RemoveChar(t, d));
    if |tmp| == 0 {
      return Next(defs, records);
    }
    if k == 0 && (defs.None? || defs.value == []) {
      var fields := Tokenizer.ParseColumns(t, d, true);
      var cols := HeaderLine(fields);
      return Next(Some(cols), records);
    }
    var cells := Tokenizer.ParseColumns(t, d, true);
    if defs.None? {
      return Stop;
    }
    var empty := CountEmpty(cells);
    if |cells| == empty {
      return Next(defs, records);
    }
    var o := BuildRecord(cells, defs.value, k);
    return Next(defs, records + [o]);
  }

  /** The main loop: reads lines until the input ends or the row limit. */
  method ReadCsv(filename: string, header: Option<seq<string>>, input: string) returns (r: ReadResult)
    ensures r == ReadRows(filename, header, input)
  {
    var d := Delimiter(filename);
    ghost var lines := Lines(input);
    var defs: Option<seq<Column>> := None;
    if header.Some? {
      var cols: seq<Column> := [];
      for i := 0 to |header.value|
        invariant |cols| == i && forall m :: 0 <= m < i ==> cols[m] == Column(header.value[m], Str)
      {
        cols := cols + [Column(header.value[i], Str)];
      }
      assert cols == GivenColumns(header.value);
      defs := Some(cols);
    }
    var pos := 0;
    var row: int := -1;
    var records: seq<Record> := [];
    while true
      invariant 0 <= pos <= |input|
      invariant -1 <= row < RowLimit as int && row + 1 <= |lines|
      invariant LinesFrom(input, pos) == lines[row + 1..]
      invariant ReadFrom(StepFor(d), lines, row + 1, defs, records) == ReadRows(filename, header, input)
      invariant defs.Some? ==> Plain(defs.value)
      decreases |input| - pos
    {
      var line, next := ReadLine(input, pos);
      if line.None? {
        break;
      }
      LinesFromNext(input, pos);
      SuffixCons(lines, row + 1, line.value, LinesFrom(input, next));
      row := row + 1;
      if row == 1000000 {
        break;
      }
      var st := ReadRow(d, line.value, row, defs, records);
      ReadFromNext(StepFor(d), lines, row, defs, records, st);
      if st.Stop? {
        return MissingHeader;
      }
      defs, records := st.defs, st.records;
      pos := next;
    }
    return Read(records);
  }

  /** How many lines readCsv looks at. */
  function ReadBound(lines: seq<string>): nat
  {
    if |lines| < RowLimit then |lines| else RowLimit
  }

  /** The row number a record carries, 0 when it has none. */
  function RowOf(r: Record): nat
  {
    if RowNumberKey in r && r[RowNumberKey].RowNumber? then r[RowNumberKey].n else 0
  }

  /** Row numbers between 1 and `hi`, strictly increasing. */
  predicate Numbered(records: seq<Record>, hi: nat)
  {
    (forall i :: 0 <= i < |records| ==> 1 <= RowOf(records[i]) <= hi)
    && forall a, b :: 0 <= a < b < |records| ==> RowOf(records[a]) < RowOf(records[b])
  }

  /** What a step may do: with a header it never fails; it only adds
      records, each numbered by its own line. */
  predicate StepOk(st: Step, k: nat, defs: Option<seq<Column>>, records: seq<Record>)
  {
    (defs.Some? ==> st.Next? && st.defs.Some?)
    && (st.Next? ==> records <= st.records && Numbered(st.records, k + 1))
  }

  ghost predicate NumbersRows(step: LineStep)
  {
    forall line, k, defs, records :: Numbered(records, k) ==> StepOk(step(line, k, defs, records), k, defs, records)
  }

  /** Past line 0, without a header, a line that `used` picks fails and
      any other is skipped. */
  ghost predicate NeedsHeader(step: LineStep, used: string -> bool)
  {
    forall line, k: nat, records :: k >= 1 ==> step(line, k, None, records) == if used(line) then Stop else Next(None, records)
  }

  /** Records are only ever added, in line order, each numbered by its line;
      once a header exists reading cannot fail. */
  lemma {:induction false} ReadFromFacts(step: LineStep, lines: seq<string>, k: nat, defs: Option<seq<Column>>, records: seq<Record>)
    requires NumbersRows(step)
    requires k <= ReadBound(lines) && Numbered(records, k)
    ensures var r := ReadFrom(step, lines, k, defs, records);
            (defs.Some? ==> r.Read?)
            && (r.Read? ==> records <= r.records && Numbered(r.records, ReadBound(lines)))
    decreases |lines| - k
  {
    if k < |lines| && k < RowLimit {
      var st := step(lines[k], k, defs, records);
      ReadFromNext(step, lines, k, defs, records, st);
      assert StepOk(st, k, defs, records);
      if st.Next? {
        ReadFromFacts(step, lines, k + 1, st.defs, st.records);
      }
    }
  }

  /** One line adds at most the record numbered by that line, and fails
      only without a header. */
  lemma StepNumbered(d: char, line: string, k: nat, defs: Option<seq<Column>>, records: seq<Record>)
    requires Numbered(records, k)
    ensures StepOk(ReadStep(d, line, k, defs, records), k, defs, records)
  {
    if Accepted(line, d) {
      var cells := Tokenizer.Columns(Trim(line), d, true);
      if !(k == 0 && (defs.None? || defs.value == [])) {
        RowNumbered(cells, k, defs, records);
      }
    }
  }

  lemma RowNumbered(cells: seq<string>, k: nat, defs: Option<seq<Column>>, records: seq<Record>)
    requires Numbered(records, k)
    ensures StepOk(RowStep(cells, k, defs, records), k, defs, records)
  {
    if defs.Some? && EmptyCount(cells) != |cells| {
      var o := RecordOf(cells, defs.value, k);
      assert RowOf(o) == k + 1;
      assert (records + [o])[..|records|] == records;
    }
  }

  /** Without a header, lines are skipped until the first used one, which
      fails for want of a header. */
  lemma {:induction false} ReadHeaderless(step: LineStep, used: string -> bool, lines: seq<string>, k: nat, records: seq<Record>)
    requires NeedsHeader(step, used)
    requires k >= 1
    ensures ReadFrom(step, lines, k, None, records)
            == if exists j :: k <= j < ReadBound(lines) && used(lines[j]) then MissingHeader else Read(records)
    decreases |lines| - k
  {
    if k < |lines| && k < RowLimit {
      var st := step(lines[k], k, None, records);
      ReadFromNext(step, lines, k, None, records, st);
      if !used(lines[k]) {
        ReadHeaderless(step, used, lines, k + 1, records);
        if exists j :: k <= j < ReadBound(lines) && used(lines[j]) {
          var j :| k <= j < ReadBound(lines) && used(lines[j]);
          assert j != k;
        }
      }
    }
  }

  /** The reader's step has both properties. */
  lemma StepForFacts(d: char)
    ensures NumbersRows(StepFor(d))
    ensures NeedsHeader(StepFor(d), UsedLine(d))
  {
    forall line, k, defs, records | Numbered(records, k)
      ensures StepOk(StepFor(d)(line, k, defs, records), k, defs, records)
    {
      StepNumbered(d, line, k, defs, records);
    }
  }

  /** Reading fails exactly when no header is given, the first line is not
      used, and a later line within the limit is. Otherwise the records are
      increasingly numbered by their lines. */
  lemma ReadOutcome(filename: string, header: Option<seq<string>>, input: string)
    ensures var lines := Lines(input);
            var d := Delimiter(filename);
            ReadRows(filename, header, input) == MissingHeader
            <==> header.None? && ReadBound(lines) > 0 && !Accepted(lines[0], d)
                 && exists j :: 0 < j < ReadBound(lines) && Accepted(lines[j], d)
    ensures ReadRows(filename, header, input).Read? ==>
            Numbered(ReadRows(filename, header, input).records, ReadBound(Lines(input)))
    ensures |input| == 0 ==> ReadRows(filename, header, input) == Read([])
  {
    var lines := Lines(input);
    var d := Delimiter(filename);
    var step := StepFor(d);
    var defs := if header.Some? then Some(GivenColumns(header.value)) else None;
    LinesEmpty(input);
    StepForFacts(d);
    ReadFromFacts(step, lines, 0, defs, []);
    if header.None? && ReadBound(lines) > 0 {
      var st := step(lines[0], 0, None, []);
      ReadFromNext(step, lines, 0, None, [], st);
      if Accepted(lines[0], d) {
        assert st.Next? && st.defs.Some?;
        ReadFromFacts(step, lines, 1, st.defs, st.records);
      } else {
        assert st == Next(None, []);
        ReadHeaderless(step, UsedLine(d), lines, 1, []);
      }
    }
  }
}
