/** Steps that loadCsv and readCsv share: the delimiter chosen from the file
    name, the test that skips a line, the count of empty fields that skips a
    row, and the `array_unshift` loop that puts the extra columns in front. */
module Rows {
  import opened Text
  import opened Select
  import opened Columns

  /** A tab for a file whose name ends in "tsv" in any case, a comma
      otherwise. */
  function Delimiter(filename: string): (d: char)
    ensures d == '\t' || d == ','
  {
    if |filename| >= 3 && ToLower(filename[|filename| - 3..]) == "tsv" then '\t' else ','
  }

  /** Only the last three characters of the name matter, each compared
      without regard to case. */
  lemma DelimiterOfExtension(stem: string, ext: string)
    requires |ext| == 3
    ensures Delimiter(stem + ext)
            == if LowerChar(ext[0]) == 't' && LowerChar(ext[1]) == 's' && LowerChar(ext[2]) == 'v' then '\t' else ','
  {
    assert (stem + ext)[|stem + ext| - 3..] == ext;
    var l := ToLower(ext);
    if LowerChar(ext[0]) == 't' && LowerChar(ext[1]) == 's' && LowerChar(ext[2]) == 'v' {
      assert l == "tsv";
    }
  }

  /** "tsv" in any case selects the tab; other endings, and names shorter
      than three characters, the comma. */
  lemma DelimiterExamples(stem: string)
    ensures Delimiter(stem + "tsv") == '\t' && Delimiter(stem + "TSV") == '\t' && Delimiter(stem + "Tsv") == '\t'
    ensures Delimiter(stem + "csv") == ',' && Delimiter(stem + "txt") == ','
    ensures |stem| < 3 ==> Delimiter(stem) == ','
  {
    DelimiterOfExtension(stem, "tsv");
    DelimiterOfExtension(stem, "TSV");
    DelimiterOfExtension(stem, "Tsv");
    DelimiterOfExtension(stem, "csv");
    DelimiterOfExtension(stem, "txt");
  }

  /** The two tests before a line is used: the trimmed line must not be falsy
      ("" or "0"), and something must remain once the delimiters are removed
      and the rest is trimmed again. */
  predicate Accepted(line: string, d: char)
  {
    var t := Trim(line);
    !Falsy(t) && Trim(RemoveChar(t, d)) != ""
  }

  /** The test as a function of the line. */
  function UsedLine(d: char): string -> bool
  {
    (line: string) => Accepted(line, d)
  }

  /** A line is used exactly when it holds a character that is neither the
      delimiter nor a trim character, unless it trims to "0". */
  lemma AcceptedExactly(line: string, d: char)
    ensures Accepted(line, d) <==>
            Trim(line) != "0" && exists x :: x in line && x != d && !IsTrimChar(x)
  {
    var t := Trim(line);
    var u := RemoveChar(t, d);
    TrimSolid(line);
    TrimSolid(u);
    if Trim(u) != "" {
      var m :| 0 <= m < |u| && !IsTrimChar(u[m]);
      assert u[m] in line && u[m] != d;
    }
    if exists x :: x in line && x != d && !IsTrimChar(x) {
      var x :| x in line && x != d && !IsTrimChar(x);
      assert x in t && x in u;
    }
  }

  /** Lines of delimiters and blanks only are skipped. */
  lemma BlankLineSkipped(line: string, d: char)
    requires forall i :: 0 <= i < |line| ==> line[i] == d || IsTrimChar(line[i])
    ensures !Accepted(line, d)
  {
    AcceptedExactly(line, d);
  }

  /** `$j < $num_def && $rfields[$j]['name']`: the fields of a row of `n`
      fields that are stored, those with a column whose name is truthy. */
  function KeptAt(n: nat, defs: seq<Column>): nat -> bool
  {
    (j: nat) => j < n && j < |defs| && !Falsy(defs[j].name)
  }

  /** `$cols[$j] == ''` for the field at `j`. */
  function EmptyAt(cells: seq<string>): nat -> bool
  {
    (j: nat) => j < |cells| && cells[j] == ""
  }

  /** `$num_empty`: how many fields are empty. */
  function EmptyCount(cells: seq<string>): nat
  {
    |Indices(|cells|, EmptyAt(cells))|
  }

  /** The counting loop. */
  method CountEmpty(cells: seq<string>) returns (n: nat)
    ensures n == EmptyCount(cells)
  {
    n := 0;
    for j := 0 to |cells|
      invariant n == |Indices(j, EmptyAt(cells))|
    {
      if cells[j] == "" {
        n := n + 1;
      }
    }
  }

  /** A row is skipped as empty exactly when every field is empty (a row
      without fields counts as empty). */
  lemma AllEmpty(cells: seq<string>)
    ensures EmptyCount(cells) <= |cells|
    ensures EmptyCount(cells) == |cells| <==> forall j :: 0 <= j < |cells| ==> cells[j] == ""
  {
    IndicesAll(|cells|, EmptyAt(cells));
    if forall j :: 0 <= j < |cells| ==> cells[j] == "" {
      forall j: nat | j < |cells|
        ensures EmptyAt(cells)(j)
      {
      }
    } else {
      var j :| 0 <= j < |cells| && cells[j] != "";
      assert !EmptyAt(cells)(j);
    }
  }

  /** `foreach ($extra as …) array_unshift($fields, …)`: each extra item in
      turn goes to the front, so they end up before the fields in reverse
      order. */
  method PrependEach(items: seq<string>, fields: seq<string>) returns (r: seq<string>)
    ensures r == Reversed(items) + fields
  {
    r := fields;
    for i := 0 to |items|
      invariant r == Reversed(items[..i]) + fields
    {
      assert items[..i + 1] == items[..i] + [items[i]];
      ReversedSnoc(items[..i], items[i]);
      r := [items[i]] + r;
    }
    assert items[..|items|] == items;
  }
}
