/** CsvUtils::loadCsv: the first used line is the header, from which a
    CREATE TABLE statement is built; every later used row becomes an INSERT
    statement. The database is a parameter that says which statements it
    refuses; the result lists the statements it accepted, in order. */
module Loader {
  import opened Wrappers
  import opened Text
  import opened Select
  import opened LineReader
  import Tokenizer
  import opened Columns
  import opened Coercion
  import opened Rows

  /** Why loading stopped. */
  datatype LoadError =
    | NoData                   // the file holds no line at all
    | CreateRejected           // the database refused the CREATE TABLE statement
    | InsertRejected(row: nat) // it refused the INSERT for this 1-based row
    | NoHeader                 // a row was used before any header was read

  datatype LoadResult =
    | Loaded(statements: seq<string>)
    | Failed(statements: seq<string>, error: LoadError)

  /** The arguments of loadCsv besides the file contents. `max` is None for
      'all'; `extra` holds the extra columns' names and values in order;
      `rejects(done, q)` says whether the database raises an error on `q`
      after having run the statements `done`. */
  datatype Target = Target(
    filename: string,
    table: string,
    temp: bool,
    max: Option<int>,
    extra: seq<(string, string)>,
    rejects: (seq<string>, string) -> bool)

  function Keys(extra: seq<(string, string)>): seq<string>
  {
    seq(|extra|, i requires 0 <= i < |extra| => extra[i].0)
  }

  function Values(extra: seq<(string, string)>): seq<string>
  {
    seq(|extra|, i requires 0 <= i < |extra| => extra[i].1)
  }

  /** `$max + 2` (with 'all' read as 1e6), bounded by the hard stop at row
      1000000: the index of the first line that is not used. */
  function RowCap(max: Option<int>): (cap: nat)
    ensures cap <= 1000000
    ensures max.Some? && 0 <= max.value + 2 < 1000000 ==> cap == max.value + 2
    ensures max.None? || max.value + 2 < 0 || max.value + 2 >= 1000000 ==> cap == 1000000
  {
    var m := (if max.None? then 1000000 else max.value) + 2;
    if 0 <= m < 1000000 then m else 1000000
  }

  /** parseColumn with type detection, a name starting with '-' blanked. */
  function HeaderColumn(field: string): Column
  {
    var c := ResolveColumn(field, true);
    if StartsWith(c.name, '-') then Column("", c.stype) else c
  }

  function CreatePrefix(table: string, temp: bool): string
  {
    if temp then "CREATE TEMPORARY TABLE " + table + " ("
    else "CREATE TABLE IF NOT EXISTS " + table + " ("
  }

  function ColumnDef(c: Column): string
  {
    "`" + c.name + "` " + SqlType(c.stype) + " default null"
  }

  /** The header columns that get a definition: those with a truthy name. */
  function NamedAt(cols: seq<Column>): nat -> bool
  {
    (j: nat) => j < |cols| && !Falsy(cols[j].name)
  }

  function DefAt(cols: seq<Column>): nat -> string
  {
    (j: nat) => if j < |cols| then ColumnDef(cols[j]) else ""
  }

  /** The definitions, each followed by ",\n", with the last two characters
      cut off and ")" appended. */
  function CreateStatement(table: string, temp: bool, cols: seq<Column>): string
  {
    DropLast(CreatePrefix(table, temp) + Terminated(Gather(|cols|, NamedAt(cols), DefAt(cols)), ",\n"), 2) + ")"
  }

  /** CREATE TABLE defines the named columns in header order. */
  lemma CreateColumns(cols: seq<Column>)
    ensures var named := Indices(|cols|, NamedAt(cols));
            var defs := Gather(|cols|, NamedAt(cols), DefAt(cols));
            (forall j: nat :: j in named <==> j < |cols| && !Falsy(cols[j].name))
            && (forall a, b :: 0 <= a < b < |named| ==> named[a] < named[b])
            && |defs| == |named|
            && (forall k :: 0 <= k < |named| ==> named[k] < |cols| && defs[k] == ColumnDef(cols[named[k]]))
  {
    Collected(|cols|, NamedAt(cols), DefAt(cols));
  }

  /** The definitions are separated by ",\n" inside the parentheses; with no
      named column the prefix loses its " (". */
  lemma CreateJoined(table: string, temp: bool, cols: seq<Column>)
    ensures var defs := Gather(|cols|, NamedAt(cols), DefAt(cols));
            (|defs| > 0 ==> CreateStatement(table, temp, cols) == CreatePrefix(table, temp) + Join(defs, ",\n") + ")")
            && (|defs| == 0 ==> CreateStatement(table, temp, cols) == DropLast(CreatePrefix(table, temp), 2) + ")")
  {
    var defs := Gather(|cols|, NamedAt(cols), DefAt(cols));
    if |defs| > 0 {
      DropTerminator(CreatePrefix(table, temp), defs, ",\n");
    } else {
      assert CreatePrefix(table, temp) + Terminated(defs, ",\n") == CreatePrefix(table, temp);
    }
  }

  /** The header loop: resolves each field and appends the definition of
      each named column. */
  method BuildCreate(table: string, temp: bool, fields: seq<string>) returns (cols: seq<Column>, query: string)
    ensures |cols| == |fields| && forall i :: 0 <= i < |fields| ==> cols[i] == HeaderColumn(fields[i])
    ensures query == CreateStatement(table, temp, cols)
  {
    query := CreatePrefix(table, temp);
    ghost var prefix := query;
    ghost var defs: seq<string> := [];
    cols := [];
    for i := 0 to |fields|
      invariant |cols| == i && forall k :: 0 <= k < i ==> cols[k] == HeaderColumn(fields[k])
      invariant defs == Gather(i, NamedAt(cols), DefAt(cols))
      invariant query == prefix + Terminated(defs, ",\n")
    {
      var c := HeaderColumn(fields[i]);
      CreateStep(i, cols, c);
      ColumnsSnoc(fields, i, cols, c);
      cols := cols + [c];
      if !Falsy(c.name) {
        assert DefAt(cols + [c])(i) == ColumnDef(c);
        TerminatedAfter(prefix, defs, ColumnDef(c), ",\n");
        query := query + ColumnDef(c) + ",\n";
        defs := defs + [ColumnDef(c)];
      }
    }
    query := DropLast(query, 2) + ")";
  }

  lemma ColumnsSnoc(fields: seq<string>, i: nat, cols: seq<Column>, c: Column)
    requires i < |fields| && |cols| == i && forall k :: 0 <= k < i ==> cols[k] == HeaderColumn(fields[k])
    requires c == HeaderColumn(fields[i])
    ensures forall k :: 0 <= k < i + 1 ==> (cols + [c])[k] == HeaderColumn(fields[k])
  {
  }

  /** Appending a column extends the definitions by its own, if it is named. */
  lemma CreateStep(i: nat, cols: seq<Column>, c: Column)
    requires |cols| == i
    ensures Gather(i + 1, NamedAt(cols + [c]), DefAt(cols + [c]))
            == Gather(i, NamedAt(cols), DefAt(cols)) + (if Falsy(c.name) then [] else [ColumnDef(c)])
  {
    GatherAgree(i, NamedAt(cols), DefAt(cols), NamedAt(cols + [c]), DefAt(cols + [c]));
    GatherStep(i, NamedAt(cols + [c]), DefAt(cols + [c]));
  }

  function NameAt(defs: seq<Column>): nat -> string
  {
    (j: nat) => if j < |defs| then "`" + defs[j].name + "`" else ""
  }

  function ValueAt(cells: seq<string>, defs: seq<Column>): nat -> string
  {
    (j: nat) => if j < |cells| && j < |defs| then ParseValue(cells[j], defs[j].stype, true).value else ""
  }

  function InsertPrefix(table: string): string
  {
    "INSERT INTO " + table + " ("
  }

  /** The names, each followed by ",", with the last character cut off; then
      " ) VALUES(" and the values in the same way. */
  function InsertStatement(table: string, cells: seq<string>, defs: seq<Column>): string
  {
    var keep := KeptAt(|cells|, defs);
    var names := Gather(|cells|, keep, NameAt(defs));
    var values := Gather(|cells|, keep, ValueAt(cells, defs));
    DropLast(DropLast(InsertPrefix(table) + Terminated(names, ","), 1) + ") VALUES(" + Terminated(values, ","), 1) + ")"
  }

  /** INSERT lists the kept columns in order, the k-th value being the
      escaped value of the k-th kept column; fields past the header and
      header columns past the row are left out. */
  lemma InsertColumns(cells: seq<string>, defs: seq<Column>)
    ensures var kept := Indices(|cells|, KeptAt(|cells|, defs));
            var names := Gather(|cells|, KeptAt(|cells|, defs), NameAt(defs));
            var values := Gather(|cells|, KeptAt(|cells|, defs), ValueAt(cells, defs));
            (forall j: nat :: j in kept <==> j < |cells| && j < |defs| && !Falsy(defs[j].name))
            && (forall a, b :: 0 <= a < b < |kept| ==> kept[a] < kept[b])
            && |names| == |kept| && |values| == |kept|
            && (forall k :: 0 <= k < |kept| ==>
                  kept[k] < |cells| && kept[k] < |defs|
                  && names[k] == "`" + defs[kept[k]].name + "`"
                  && values[k] == ParseValue(cells[kept[k]], defs[kept[k]].stype, true).value)
  {
    Collected(|cells|, KeptAt(|cells|, defs), NameAt(defs));
    Collected(|cells|, KeptAt(|cells|, defs), ValueAt(cells, defs));
  }

  /** Names and values are separated by "," in their parentheses. */
  lemma InsertJoined(table: string, cells: seq<string>, defs: seq<Column>)
    ensures var names := Gather(|cells|, KeptAt(|cells|, defs), NameAt(defs));
            var values := Gather(|cells|, KeptAt(|cells|, defs), ValueAt(cells, defs));
            |names| > 0 && |values| > 0 ==>
              InsertStatement(table, cells, defs)
              == InsertPrefix(table) + Join(names, ",") + ") VALUES(" + Join(values, ",") + ")"
  {
    var names := Gather(|cells|, KeptAt(|cells|, defs), NameAt(defs));
    var values := Gather(|cells|, KeptAt(|cells|, defs), ValueAt(cells, defs));
    if |names| > 0 && |values| > 0 {
      DropTerminator(InsertPrefix(table), names, ",");
      DropTerminator(InsertPrefix(table) + Join(names, ",") + ") VALUES(", values, ",");
    }
  }

  /** One kept item more: it is collected, and written with its terminator. */
  lemma Collect(prefix: string, j: nat, keep: nat -> bool, f: nat -> string, items: seq<string>, x: string, sep: string)
    requires items == Gather(j, keep, f) && keep(j) && f(j) == x
    ensures items + [x] == Gather(j + 1, keep, f)
    ensures prefix + Terminated(items + [x], sep) == prefix + Terminated(items, sep) + x + sep
  {
    GatherTake(j, keep, f);
    TerminatedAfter(prefix, items, x, sep);
  }

  /** The first loop of a data row: each kept column's quoted name, followed by ",". */
  method AppendNames(prefix: string, cells: seq<string>, defs: seq<Column>) returns (query: string)
    ensures query == prefix + Terminated(Gather(|cells|, KeptAt(|cells|, defs), NameAt(defs)), ",")
  {
    ghost var keep := KeptAt(|cells|, defs);
    ghost var items: seq<string> := [];
    query := prefix;
    for j := 0 to |cells|
      invariant items == Gather(j, keep, NameAt(defs))
      invariant query == prefix + Terminated(items, ",")
    {
      if j < |defs| && !Falsy(defs[j].name) {
        var name := "`" + defs[j].name + "`";
        Collect(prefix, j, keep, NameAt(defs), items, name, ",");
        query := query + name + ",";
        items := items + [name];
      } else {
        GatherSkip(j, keep, NameAt(defs));
      }
    }
  }

  /** The second loop: each kept column's escaped value, followed by ",". */
  method AppendValues(prefix: string, cells: seq<string>, defs: seq<Column>) returns (query: string)
    ensures query == prefix + Terminated(Gather(|cells|, KeptAt(|cells|, defs), ValueAt(cells, defs)), ",")
  {
    ghost var keep := KeptAt(|cells|, defs);
    ghost var items: seq<string> := [];
    query := prefix;
    for j := 0 to |cells|
      invariant items == Gather(j, keep, ValueAt(cells, defs))
      invariant query == prefix + Terminated(items, ",")
    {
      if j < |defs| && !Falsy(defs[j].name) {
        var value := ParseValue(cells[j], defs[j].stype, true).value;
        Collect(prefix, j, keep, ValueAt(cells, defs), items, value, ",");
        query := query + value + ",";
        items := items + [value];
      } else {
        GatherSkip(j, keep, ValueAt(cells, defs));
      }
    }
  }

  /** The INSERT statement of a data row. */
  method BuildInsert(table: string, cells: seq<string>, defs: seq<Column>) returns (query: string)
    ensures query == InsertStatement(table, cells, defs)
  {
    query := AppendNames(InsertPrefix(table), cells, defs);
    query := AppendValues(DropLast(query, 1) + ") VALUES(", cells, defs);
    query := DropLast(query, 1) + ")";
  }

  /** The effect of one line: the columns read so far and the statements
      the database has accepted, or the error that ends the load. */
  datatype Step = Next(defs: Option<seq<Column>>, done: seq<string>) | Stop(error: LoadError)

  function HeaderColumns(fields: seq<string>): seq<Column>
  {
    seq(|fields|, i requires 0 <= i < |fields| => HeaderColumn(fields[i]))
  }

  /** The header's columns: the extra names (in reverse order) before the
      line's fields. */
  function HeaderCols(tg: Target, d: char, t: string): seq<Column>
  {
    HeaderColumns(Reversed(Keys(tg.extra)) + Tokenizer.Columns(t, d, true))
  }

  /** A data row's fields: the extra values (in reverse order) before the
      line's fields. */
  function RowCells(tg: Target, d: char, t: string): seq<string>
  {
    Reversed(Values(tg.extra)) + Tokenizer.Columns(t, d, true)
  }

  /** The header line runs CREATE TABLE. */
  function HeaderStep(tg: Target, cols: seq<Column>, done: seq<string>): Step
  {
    var q := CreateStatement(tg.table, tg.temp, cols);
    if tg.rejects(done, q) then Stop(CreateRejected) else Next(Some(cols), done + [q])
  }

  /** A data row runs INSERT, unless all its fields are empty. */
  function RowStep(tg: Target, cells: seq<string>, k: nat, defs: Option<seq<Column>>, done: seq<string>): Step
  {
    if defs.None? then Stop(NoHeader)
    else if EmptyCount(cells) == |cells| then Next(defs, done)
    else
      var q := InsertStatement(tg.table, cells, defs.value);
      if tg.rejects(done, q) then Stop(InsertRejected(k + 1)) else Next(defs, done + [q])
  }

  /** Line `k` (0-based) of the file. Line 0 is the header; every other used
      line is a data row. */
  function LoadStep(tg: Target, d: char, line: string, k: nat, defs: Option<seq<Column>>, done: seq<string>): Step
  {
    if !Accepted(line, d) then Next(defs, done)
    else if k == 0 then HeaderStep(tg, HeaderCols(tg, d, Trim(line)), done)
    else RowStep(tg, RowCells(tg, d, Trim(line)), k, defs, done)
  }

  /** What a line does, given its index and the state so far. */
  type LineStep = (string, nat, Option<seq<Column>>, seq<string>) -> Step

  /** LoadStep for the given arguments and delimiter. */
  function StepFor(tg: Target, d: char): LineStep
  {
    (line: string, k: nat, defs: Option<seq<Column>>, done: seq<string>) => LoadStep(tg, d, line, k, defs, done)
  }

  /** The loop from line `k` on, each line going through `step`, stopping
      at line `cap`. */
  function LoadFrom(step: LineStep, cap: nat, lines: seq<string>, k: nat, defs: Option<seq<Column>>, done: seq<string>): LoadResult
    decreases |lines| - k
  {
    if k >= |lines| || k >= cap then
      if |lines| == 0 then Failed(done, NoData) else Loaded(done)
    else
      match step(lines[k], k, defs, done)
      case Next(defs', done') => LoadFrom(step, cap, lines, k + 1, defs', done')
      case Stop(e) => Failed(done, e)
  }

  /** loadCsv on the file contents `input`. */
  function Load(tg: Target, input: string): LoadResult
  {
    LoadFrom(StepFor(tg, Delimiter(tg.filename)), RowCap(tg.max), Lines(input), 0, None, [])
  }

  method Extras(tg: Target) returns (keys: seq<string>, values: seq<string>)
    ensures keys == Keys(tg.extra) && values == Values(tg.extra)
  {
    keys, values := [], [];
    for i := 0 to |tg.extra|
      invariant keys == Keys(tg.extra[..i]) && values == Values(tg.extra[..i])
    {
      keys, values := keys + [tg.extra[i].0], values + [tg.extra[i].1];
    }
    assert tg.extra[..|tg.extra|] == tg.extra;
  }

  /** The body of the main loop for one line. */
  method LoadLine(tg: Target, d: char, line: string, k: nat, defs: Option<seq<Column>>, done: seq<string>) returns (st: Step)
    ensures st == LoadStep(tg, d, line, k, defs, done)
  {
    var t := Trim(line);
    if Falsy(t) {
      return Next(defs, done);
    }
    var tmp := Trim(RemoveChar(t, d));
    if |tmp| == 0 {
      return Next(defs, done);
    }
    var keys, values := Extras(tg);
    if k == 0 {
      var fields := Tokenizer.ParseColumns(t, d, true);
      fields := PrependEach(keys, fields);
      var cols, query := BuildCreate(tg.table, tg.temp, fields);
      assert cols == HeaderCols(tg, d, t);
      if tg.rejects(done, query) {
        return Stop(CreateRejected);
      }
      return Next(Some(cols), done + [query]);
    }
    var cells := Tokenizer.ParseColumns(t, d, true);
    cells := PrependEach(values, cells);
    assert cells == RowCells(tg, d, t);
    if defs.None? {
      return Stop(NoHeader);
    }
    var empty := CountEmpty(cells);
    if |cells| == empty {
      return Next(defs, done);
    }
    var query := BuildInsert(tg.table, cells, defs.value);
    if tg.rejects(done, query) {
      return Stop(InsertRejected(k + 1));
    }
    return Next(defs, done + [query]);
  }

  /** One line further: the next line's step either continues or ends the load. */
  lemma LoadFromNext(step: LineStep, cap: nat, lines: seq<string>, k: nat, defs: Option<seq<Column>>, done: seq<string>, st: Step)
    requires k < |lines| && k < cap
    requires st == step(lines[k], k, defs, done)
    ensures LoadFrom(step, cap, lines, k, defs, done)
            == if st.Next? then LoadFrom(step, cap, lines, k + 1, st.defs, st.done) else Failed(done, st.error)
  {
  }

  /** Past the last line or at the cap the load is over. */
  lemma LoadFromEnd(step: LineStep, cap: nat, lines: seq<string>, k: nat, defs: Option<seq<Column>>, done: seq<string>)
    requires k >= |lines| || k >= cap
    ensures LoadFrom(step, cap, lines, k, defs, done) == if |lines| == 0 then Failed(done, NoData) else Loaded(done)
  {
  }

  /** The main loop: reads lines until the input ends or a cap is reached. */
  method LoadCsv(tg: Target, input: string) returns (r: LoadResult)
    ensures r == Load(tg, input)
  {
    var max := (if tg.max.None? then 1000000 else tg.max.value) + 2;
    var d := Delimiter(tg.filename);
    ghost var lines := Lines(input);
    ghost var cap := RowCap(tg.max);
    var pos := 0;
    var row: int := -1;
    var defs: Option<seq<Column>> := None;
    var done: seq<string> := [];
    while true
      invariant 0 <= pos <= |input|
      invariant -1 <= row < cap && row + 1 <= |lines|
      invariant LinesFrom(input, pos) == lines[row + 1..]
      invariant LoadFrom(StepFor(tg, d), cap, lines, row + 1, defs, done) == Load(tg, input)
      decreases |input| - pos
    {
      var line, next := ReadLine(input, pos);
      if line.None? {
        assert row + 1 == |lines|;
        LoadFromEnd(StepFor(tg, d), cap, lines, row + 1, defs, done);
        if row == -1 {
          return Failed(done, NoData);
        }
        return Loaded(done);
      }
      LinesFromNext(input, pos);
      SuffixCons(lines, row + 1, line.value, LinesFrom(input, next));
      row := row + 1;
      if row == max || row == 1000000 {
        assert row >= cap;
        LoadFromEnd(StepFor(tg, d), cap, lines, row, defs, done);
        return Loaded(done);
      }
      var st := LoadLine(tg, d, line.value, row, defs, done);
      LoadFromNext(StepFor(tg, d), cap, lines, row, defs, done, st);
      if st.Stop? {
        return Failed(done, st.error);
      }
      defs, done := st.defs, st.done;
      pos := next;
    }
  }

  /** How many lines loadCsv looks at. */
  function Bound(cap: nat, lines: seq<string>): nat
  {
    if |lines| < cap then |lines| else cap
  }

  lemma PrefixThroughDrop(p: string, s: string, n: nat, tail: string)
    requires p <= s && |p| + n <= |s|
    ensures p <= DropLast(s, n) + tail
  {
    assert (DropLast(s, n) + tail)[..|p|] == s[..|p|];
  }

  /** A CREATE statement starts with "CREATE ". */
  lemma CreatePrefixed(table: string, temp: bool, cols: seq<Column>)
    ensures "CREATE " <= CreateStatement(table, temp, cols)
  {
    var cp := CreatePrefix(table, temp);
    var ct := Terminated(Gather(|cols|, NamedAt(cols), DefAt(cols)), ",\n");
    assert "CREATE " <= cp + ct;
    PrefixThroughDrop("CREATE ", cp + ct, 2, ")");
  }

  /** An INSERT statement starts with "INSERT INTO ". */
  lemma InsertPrefixed(table: string, cells: seq<string>, defs: seq<Column>)
    ensures "INSERT INTO " <= InsertStatement(table, cells, defs)
  {
    var keep := KeptAt(|cells|, defs);
    var ip := InsertPrefix(table);
    var s1 := ip + Terminated(Gather(|cells|, keep, NameAt(defs)), ",");
    assert "INSERT INTO " <= s1;
    PrefixThroughDrop("INSERT INTO ", s1, 1, ") VALUES(");
    var s2 := DropLast(s1, 1) + ") VALUES(";
    var s3 := s2 + Terminated(Gather(|cells|, keep, ValueAt(cells, defs)), ",");
    assert "INSERT INTO " <= s3;
    PrefixThroughDrop("INSERT INTO ", s3, 1, ")");
  }

  /** The CREATE statement comes first, every later statement is an INSERT. */
  predicate Shaped(sts: seq<string>)
  {
    (|sts| > 0 ==> "CREATE " <= sts[0]) && forall i :: 0 < i < |sts| ==> "INSERT INTO " <= sts[i]
  }

  /** The state before a line: the statements are shaped, there are some
      exactly once the header has been read, and line 0 finds no header. */
  predicate ShapedState(k: nat, defs: Option<seq<Column>>, done: seq<string>)
  {
    Shaped(done) && (defs.None? <==> done == []) && (k == 0 ==> defs.None?)
  }

  ghost predicate KeepsShape(step: LineStep)
  {
    forall line, k: nat, defs, done :: ShapedState(k, defs, done) ==>
      var st := step(line, k, defs, done);
      st.Next? ==> ShapedState(k + 1, st.defs, st.done)
  }

  lemma ShapedSnoc(done: seq<string>, q: string)
    requires Shaped(done) && |done| > 0 && "INSERT INTO " <= q
    ensures Shaped(done + [q])
  {
  }

  /** One line keeps the statements shaped: only line 0 can add the CREATE,
      and only after it can INSERTs be added. */
  lemma StepShaped(tg: Target, d: char, line: string, k: nat, defs: Option<seq<Column>>, done: seq<string>)
    requires ShapedState(k, defs, done)
    ensures var st := LoadStep(tg, d, line, k, defs, done);
            st.Next? ==> ShapedState(k + 1, st.defs, st.done)
  {
    if Accepted(line, d) {
      if k == 0 {
        HeaderShaped(tg, HeaderCols(tg, d, Trim(line)), done);
      } else {
        RowShaped(tg, RowCells(tg, d, Trim(line)), k, defs, done);
      }
    }
  }

  lemma HeaderShaped(tg: Target, cols: seq<Column>, done: seq<string>)
    requires done == []
    ensures var st := HeaderStep(tg, cols, done);
            st.Next? ==> ShapedState(1, st.defs, st.done)
  {
    var q := CreateStatement(tg.table, tg.temp, cols);
    CreatePrefixed(tg.table, tg.temp, cols);
    assert done + [q] == [q];
  }

  lemma RowShaped(tg: Target, cells: seq<string>, k: nat, defs: Option<seq<Column>>, done: seq<string>)
    requires ShapedState(k, defs, done)
    ensures var st := RowStep(tg, cells, k, defs, done);
            st.Next? ==> ShapedState(k + 1, st.defs, st.done)
  {
    if defs.Some? {
      InsertPrefixed(tg.table, cells, defs.value);
      ShapedSnoc(done, InsertStatement(tg.table, cells, defs.value));
    }
  }

  lemma {:induction false} LoadFromShaped(step: LineStep, cap: nat, lines: seq<string>, k: nat, defs: Option<seq<Column>>, done: seq<string>)
    requires KeepsShape(step)
    requires ShapedState(k, defs, done)
    ensures Shaped(LoadFrom(step, cap, lines, k, defs, done).statements)
    decreases |lines| - k
  {
    if k < |lines| && k < cap {
      var st := step(lines[k], k, defs, done);
      LoadFromNext(step, cap, lines, k, defs, done, st);
      if st.Next? {
        LoadFromShaped(step, cap, lines, k + 1, st.defs, st.done);
      }
    }
  }

  /** What one step may do: it keeps the statements so far and the header
      once read; it never reports an empty file, never a missing header once
      there is one, and a refused INSERT names its own row. */
  predicate StepOk(st: Step, k: nat, defs: Option<seq<Column>>, done: seq<string>)
  {
    (st.Next? ==> done <= st.done && (defs.Some? ==> st.defs.Some?))
    && (st.Stop? ==> st.error != NoData && (defs.Some? ==> st.error != NoHeader)
                     && (st.error.InsertRejected? ==> st.error.row == k + 1))
  }

  ghost predicate StepsOk(step: LineStep)
  {
    forall line, k, defs, done :: StepOk(step(line, k, defs, done), k, defs, done)
  }

  lemma StepFacts(tg: Target, d: char, line: string, k: nat, defs: Option<seq<Column>>, done: seq<string>)
    ensures StepOk(LoadStep(tg, d, line, k, defs, done), k, defs, done)
  {
    if Accepted(line, d) {
      if k == 0 {
        HeaderStepOk(tg, HeaderCols(tg, d, Trim(line)), k, defs, done);
      } else {
        RowStepOk(tg, RowCells(tg, d, Trim(line)), k, defs, done);
      }
    }
  }

  lemma HeaderStepOk(tg: Target, cols: seq<Column>, k: nat, defs: Option<seq<Column>>, done: seq<string>)
    ensures StepOk(HeaderStep(tg, cols, done), k, defs, done)
  {
  }

  lemma RowStepOk(tg: Target, cells: seq<string>, k: nat, defs: Option<seq<Column>>, done: seq<string>)
    ensures StepOk(RowStep(tg, cells, k, defs, done), k, defs, done)
  {
  }

  /** What a load can end in: what was accepted is kept; a file with lines is
      never "without data"; once the header is read no later row can lack
      it; a refused INSERT names a row that was read. */
  lemma {:induction false} LoadFromFacts(step: LineStep, cap: nat, lines: seq<string>, k: nat, defs: Option<seq<Column>>, done: seq<string>)
    requires StepsOk(step)
    ensures var r := LoadFrom(step, cap, lines, k, defs, done);
            done <= r.statements
            && (|lines| > 0 ==> r != Failed(r.statements, NoData))
            && (defs.Some? ==> r != Failed(r.statements, NoHeader))
            && (r.Failed? && r.error.InsertRejected? ==> k < r.error.row <= Bound(cap, lines))
    decreases |lines| - k
  {
    if k < |lines| && k < cap {
      var st := step(lines[k], k, defs, done);
      LoadFromNext(step, cap, lines, k, defs, done, st);
      assert StepOk(st, k, defs, done);
      if st.Next? {
        LoadFromFacts(step, cap, lines, k + 1, st.defs, st.done);
      }
    }
  }

  /** Past line 0, without a header, a line that `used` picks fails and any
      other is skipped. */
  ghost predicate NeedsHeader(step: LineStep, used: string -> bool)
  {
    forall line, k: nat :: k >= 1 ==> step(line, k, None, []) == if used(line) then Stop(NoHeader) else Next(None, [])
  }

  /** Without a header, lines are skipped until the first used one, which
      fails for want of a header. */
  lemma {:induction false} Headerless(step: LineStep, used: string -> bool, cap: nat, lines: seq<string>, k: nat)
    requires NeedsHeader(step, used)
    requires k >= 1
    ensures LoadFrom(step, cap, lines, k, None, [])
            == if exists j :: k <= j < Bound(cap, lines) && used(lines[j]) then Failed([], NoHeader)
               else if |lines| == 0 then Failed([], NoData) else Loaded([])
    decreases |lines| - k
  {
    if k < |lines| && k < cap {
      var st := step(lines[k], k, None, []);
      LoadFromNext(step, cap, lines, k, None, [], st);
      if !used(lines[k]) {
        Headerless(step, used, cap, lines, k + 1);
        if exists j :: k <= j < Bound(cap, lines) && used(lines[j]) {
          var j :| k <= j < Bound(cap, lines) && used(lines[j]);
          assert j != k;
        }
      }
    }
  }

  /** Lines at and after the cap are never looked at. */
  lemma {:induction false} LoadIgnoresRest(step: LineStep, cap: nat, lines: seq<string>, more: seq<string>, k: nat, defs: Option<seq<Column>>, done: seq<string>)
    requires |lines| > 0 && |lines| >= cap
    ensures LoadFrom(step, cap, lines + more, k, defs, done) == LoadFrom(step, cap, lines, k, defs, done)
    decreases |lines| - k
  {
    if k < |lines| && k < cap {
      assert (lines + more)[k] == lines[k];
      var st := step(lines[k], k, defs, done);
      LoadFromNext(step, cap, lines + more, k, defs, done, st);
      LoadFromNext(step, cap, lines, k, defs, done, st);
      if st.Next? {
        LoadIgnoresRest(step, cap, lines, more, k + 1, st.defs, st.done);
      }
    }
  }

  /** loadCsv's step has the properties above. */
  lemma StepForFacts(tg: Target, d: char)
    ensures KeepsShape(StepFor(tg, d))
    ensures StepsOk(StepFor(tg, d))
    ensures NeedsHeader(StepFor(tg, d), UsedLine(d))
  {
    forall line, k: nat, defs, done | ShapedState(k, defs, done)
      ensures var st := StepFor(tg, d)(line, k, defs, done);
              st.Next? ==> ShapedState(k + 1, st.defs, st.done)
    {
      StepShaped(tg, d, line, k, defs, done);
    }
    forall line, k, defs, done
      ensures StepOk(StepFor(tg, d)(line, k, defs, done), k, defs, done)
    {
      StepFacts(tg, d, line, k, defs, done);
    }
  }

  /** "Input file does not have any data" is raised exactly for an empty file. */
  lemma LoadNoData(tg: Target, input: string)
    ensures Load(tg, input).Failed? && Load(tg, input).error == NoData <==> |input| == 0
  {
    LinesEmpty(input);
    StepForFacts(tg, Delimiter(tg.filename));
    LoadFromFacts(StepFor(tg, Delimiter(tg.filename)), RowCap(tg.max), Lines(input), 0, None, []);
  }

  /** Every load, complete or not, has CREATE TABLE first and INSERTs after. */
  lemma LoadShaped(tg: Target, input: string)
    ensures Shaped(Load(tg, input).statements)
  {
    StepForFacts(tg, Delimiter(tg.filename));
    LoadFromShaped(StepFor(tg, Delimiter(tg.filename)), RowCap(tg.max), Lines(input), 0, None, []);
  }

  /** The load fails for want of a header exactly when the first line is not
      used but a later one within the cap is. */
  lemma LoadNoHeader(tg: Target, input: string)
    ensures var lines := Lines(input);
            var d := Delimiter(tg.filename);
            var n := Bound(RowCap(tg.max), lines);
            Load(tg, input).Failed? && Load(tg, input).error == NoHeader
            <==> n > 0 && !Accepted(lines[0], d) && exists j :: 0 < j < n && Accepted(lines[j], d)
  {
    var lines := Lines(input);
    var d := Delimiter(tg.filename);
    var cap := RowCap(tg.max);
    var step := StepFor(tg, d);
    StepForFacts(tg, d);
    if Bound(cap, lines) > 0 {
      var st := step(lines[0], 0, None, []);
      LoadFromNext(step, cap, lines, 0, None, [], st);
      if Accepted(lines[0], d) {
        if st.Next? {
          LoadFromFacts(step, cap, lines, 1, st.defs, st.done);
        }
      } else {
        assert st == Next(None, []);
        Headerless(step, UsedLine(d), cap, lines, 1);
      }
    }
  }

  /** What follows line `RowCap(max)` of a file does not change the load. */
  lemma LoadCapped(tg: Target, input: string, more: string)
    requires |Lines(input)| >= RowCap(tg.max) > 0
    requires Lines(input + more) == Lines(input) + Lines(more)
    ensures Load(tg, input + more) == Load(tg, input)
  {
    LoadIgnoresRest(StepFor(tg, Delimiter(tg.filename)), RowCap(tg.max), Lines(input), Lines(more), 0, None, []);
  }
}
