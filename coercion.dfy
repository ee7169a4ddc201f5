/** Turning a field's text into a SQL value (CsvUtils::parseDate, extract and
    parseValue). */
module Coercion {
  import opened Wrappers
  import opened Text
  import opened Columns

  /** The `year`/`month`/`day` texts that parseDate collects. */
  datatype DateParts = DateParts(year: string, month: string, day: string)

  const NoDate := DateParts("", "", "")

  predicate IsDigit(c: char) {
    '0' <= c <= '9'
  }

  predicate AllDigits(s: string) {
    forall i :: 0 <= i < |s| ==> IsDigit(s[i])
  }

  predicate IsDateLetter(c: char) {
    c == 'd' || c == 'm' || c == 'y'
  }

  /** `s` appended to the component that letter `c` stands for. */
  function Append(o: DateParts, c: char, s: string): (r: DateParts)
    requires IsDateLetter(c)
  {
    if c == 'd' then o.(day := o.day + s)
    else if c == 'm' then o.(month := o.month + s)
    else o.(year := o.year + s)
  }

  /** The date scan on the value still to read (`v`) and the format still to
      match (`f`). A digit under a letter is added to that component and both
      advance; any other character under a letter skips the letter; any
      other format character must equal the value character. The value is
      done when it is exhausted; an exhausted format before that is a
      mismatch. */
  function DateScan(v: string, f: string, o: DateParts): Option<DateParts>
    decreases |f|
  {
    if |v| == 0 then Some(o)
    else if |f| == 0 then None
    else if IsDateLetter(f[0]) then
      if IsDigit(v[0]) then DateScan(v[1..], f[1..], Append(o, f[0], [v[0]]))
      else DateScan(v, f[1..], o)
    else if f[0] != v[0] then None
    else DateScan(v[1..], f[1..], o)
  }

  function ParsedDate(value: string, format: string): Option<DateParts>
  {
    DateScan(value, format, NoDate)
  }

  /** parseDate. `i` indexes the value and `i + j` the format; skipping a
      letter is the source's `$i--; $j++`, which keeps `i` and advances `j`. */
  method ParseDate(value: string, format: string) returns (r: Option<DateParts>)
    ensures r == ParsedDate(value, format)
  {
    var o := NoDate;
    var i: nat, j: nat := 0, 0;
    while i < |value|
      invariant i <= |value| && i + j <= |format|
      invariant DateScan(value[i..], format[i + j..], o) == ParsedDate(value, format)
      decreases |format| - (i + j)
    {
      if i + j == |format| {
        return None;
      }
      var c := format[i + j];
      assert value[i..][1..] == value[i + 1..];
      assert format[i + j..][1..] == format[i + j + 1..];
      if IsDateLetter(c) {
        if IsDigit(value[i]) {
          o := Append(o, c, [value[i]]);
          i := i + 1;
        } else {
          j := j + 1;
        }
      } else {
        if c != value[i] {
          return None;
        }
        i := i + 1;
      }
    }
    return Some(o);
  }

  /** Scanning never adds anything but digits to a component. */
  lemma {:induction false} DateDigits(v: string, f: string, o: DateParts)
    requires AllDigits(o.year) && AllDigits(o.month) && AllDigits(o.day)
    requires DateScan(v, f, o).Some?
    ensures var p := DateScan(v, f, o).value;
            AllDigits(p.year) && AllDigits(p.month) && AllDigits(p.day)
    decreases |f|
  {
    if |v| > 0 && IsDateLetter(f[0]) {
      if IsDigit(v[0]) {
        DateDigits(v[1..], f[1..], Append(o, f[0], [v[0]]));
      } else {
        DateDigits(v, f[1..], o);
      }
    } else if |v| > 0 {
      DateDigits(v[1..], f[1..], o);
    }
  }

  /** A format without letters matches exactly the values that are a prefix
      of it, and collects nothing. */
  lemma {:induction false} DateLiteralFormat(v: string, f: string, o: DateParts)
    requires forall i :: 0 <= i < |f| ==> !IsDateLetter(f[i])
    ensures DateScan(v, f, o) == if |v| <= |f| && f[..|v|] == v then Some(o) else None
    decreases |f|
  {
    if |v| > 0 && |f| > 0 {
      DateLiteralFormat(v[1..], f[1..], o);
      if f[0] == v[0] && |v| <= |f| {
        assert f[..|v|] == [f[0]] + f[1..][..|v| - 1];
        assert v == [v[0]] + v[1..];
      }
      if |v| <= |f| && f[..|v|] == v {
        assert f[1..][..|v| - 1] == f[..|v|][1..];
      }
    }
  }

  function Repeat(c: char, k: nat): (r: string)
    ensures |r| == k && forall i :: 0 <= i < k ==> r[i] == c
  {
    if k == 0 then "" else [c] + Repeat(c, k - 1)
  }

  /** A run of `k` copies of a letter takes up to `k` digits and then lets
      the next non-digit fall through to the rest of the format; a run
      filled with `k` digits hands whatever follows to the rest of the
      format, so formats without separators such as `ddmmyyyy` chain. */
  lemma {:induction false} DateRun(ds: string, rest: string, c: char, k: nat, f: string, o: DateParts)
    requires IsDateLetter(c) && AllDigits(ds) && |ds| <= k
    requires |ds| == k || |rest| == 0 || !IsDigit(rest[0])
    ensures DateScan(ds + rest, Repeat(c, k) + f, o) == DateScan(rest, f, Append(o, c, ds))
    decreases k
  {
    var g := Repeat(c, k) + f;
    if |ds| > 0 {
      assert g[0] == c && g[1..] == Repeat(c, k - 1) + f;
      assert (ds + rest)[0] == ds[0] && (ds + rest)[1..] == ds[1..] + rest;
      DateRun(ds[1..], rest, c, k - 1, f, Append(o, c, [ds[0]]));
      assert [ds[0]] + ds[1..] == ds;
      AppendAssoc(o.year, [ds[0]], ds[1..]);
      AppendAssoc(o.month, [ds[0]], ds[1..]);
      AppendAssoc(o.day, [ds[0]], ds[1..]);
      assert Append(Append(o, c, [ds[0]]), c, ds[1..]) == Append(o, c, ds);
    } else if |rest| == 0 {
      assert ds + rest == "";
      assert Append(o, c, ds) == o;
    } else if k == 0 {
      assert ds + rest == rest && g == f;
      assert Append(o, c, ds) == o;
    } else {
      assert ds + rest == rest && g[0] == c && g[1..] == Repeat(c, k - 1) + f;
      DateRun(ds, rest, c, k - 1, f, o);
    }
  }

  /** A separator character in the value matched by the same character in the format. */
  lemma DateLiteral(sep: char, v: string, f: string, o: DateParts)
    requires !IsDateLetter(sep)
    ensures DateScan([sep] + v, [sep] + f, o) == DateScan(v, f, o)
  {
    assert ([sep] + v)[1..] == v && ([sep] + f)[1..] == f;
  }

  /** The default format reads back any date written with up to four year
      digits, two month digits and two day digits. */
  lemma DefaultDateRoundTrip(y: string, m: string, d: string)
    requires AllDigits(y) && AllDigits(m) && AllDigits(d)
    requires |y| <= 4 && |m| <= 2 && |d| <= 2
    ensures ParsedDate(y + "-" + m + "-" + d, DefaultDateFormat) == Some(DateParts(y, m, d))
  {
    var f3 := Repeat('d', 2) + "";
    var f2 := Repeat('m', 2) + ("-" + f3);
    assert Repeat('y', 4) + ("-" + f2) == DefaultDateFormat;
    var v2 := m + ("-" + (d + ""));
    assert y + "-" + m + "-" + d == y + ("-" + v2);
    var o1 := DateParts(y, "", "");
    var o2 := DateParts(y, m, "");
    assert Append(NoDate, 'y', y) == o1;
    assert Append(o1, 'm', m) == o2;
    assert Append(o2, 'd', d) == DateParts(y, m, d);
    calc {
      DateScan(y + ("-" + v2), Repeat('y', 4) + ("-" + f2), NoDate);
      { DateRun(y, "-" + v2, 'y', 4, "-" + f2, NoDate); }
      DateScan("-" + v2, "-" + f2, o1);
      { DateLiteral('-', v2, f2, o1); }
      DateScan(m + ("-" + (d + "")), Repeat('m', 2) + ("-" + f3), o1);
      { DateRun(m, "-" + (d + ""), 'm', 2, "-" + f3, o1); }
      DateScan("-" + (d + ""), "-" + f3, o2);
      { DateLiteral('-', d + "", f3, o2); }
      DateScan(d + "", Repeat('d', 2) + "", o2);
      { DateRun(d, "", 'd', 2, "", o2); }
      DateScan("", "", DateParts(y, m, d));
    }
  }

  /** A format without separators, such as `:date:ddmmyyyy`, reads back a
      date written with exactly two day, two month and four year digits. */
  lemma CompactDateRoundTrip(d: string, m: string, y: string)
    requires AllDigits(d) && AllDigits(m) && AllDigits(y)
    requires |d| == 2 && |m| == 2 && |y| == 4
    ensures ParsedDate(d + m + y, "ddmmyyyy") == Some(DateParts(y, m, d))
  {
    var f2 := Repeat('y', 4) + "";
    var f1 := Repeat('m', 2) + f2;
    assert Repeat('d', 2) + f1 == "ddmmyyyy";
    assert d + m + y == d + (m + (y + ""));
    var o1 := DateParts("", "", d);
    var o2 := DateParts("", m, d);
    assert Append(NoDate, 'd', d) == o1;
    assert Append(o1, 'm', m) == o2;
    assert Append(o2, 'y', y) == DateParts(y, m, d);
    calc {
      DateScan(d + (m + (y + "")), Repeat('d', 2) + f1, NoDate);
      { DateRun(d, m + (y + ""), 'd', 2, f1, NoDate); }
      DateScan(m + (y + ""), Repeat('m', 2) + f2, o1);
      { DateRun(m, y + "", 'm', 2, f2, o1); }
      DateScan(y + "", Repeat('y', 4) + "", o2);
      { DateRun(y, "", 'y', 4, "", o2); }
      DateScan("", "", DateParts(y, m, d));
    }
  }

  /** `2023-1-5` with the default format is year 2023, month 1, day 5. */
  lemma DateExample()
    ensures ParsedDate("2023" + "-" + "1" + "-" + "5", DefaultDateFormat) == Some(DateParts("2023", "1", "5"))
  {
    DefaultDateRoundTrip("2023", "1", "5");
  }

  /** extract: the characters of `v` that are in `chars`, in order, up to the
      first character of `stop`; a falsy `stop` (PHP null, "" or "0") stops
      nowhere. */
  function Extracted(v: string, chars: string, stop: string): (r: string)
    ensures |r| <= |v|
  {
    if |v| == 0 then ""
    else if !Falsy(stop) && v[0] in stop then ""
    else (if v[0] in chars then [v[0]] else "") + Extracted(v[1..], chars, stop)
  }

  method Extract(v: string, chars: string, stop: string) returns (s: string)
    ensures s == Extracted(v, chars, stop)
  {
    s := "";
    var i := 0;
    while i < |v|
      invariant i <= |v|
      invariant s + Extracted(v[i..], chars, stop) == Extracted(v, chars, stop)
    {
      assert v[i..][1..] == v[i + 1..];
      if !Falsy(stop) && v[i] in stop {
        assert s + "" == s;
        return;
      }
      if v[i] in chars {
        s := s + [v[i]];
      }
      i := i + 1;
    }
    assert s + "" == s;
  }

  /** Only wanted characters of the value are kept, and never a stop character. */
  lemma {:induction false} ExtractedChars(v: string, chars: string, stop: string)
    ensures forall c :: c in Extracted(v, chars, stop) ==> c in chars && c in v
    ensures !Falsy(stop) ==> forall c :: c in Extracted(v, chars, stop) ==> c !in stop
  {
    if |v| > 0 && !(!Falsy(stop) && v[0] in stop) {
      ExtractedChars(v[1..], chars, stop);
      assert forall c :: c in v[1..] ==> c in v;
    }
  }

  /** Extracting again changes nothing. */
  lemma {:induction false} ExtractIdempotent(v: string, chars: string, stop: string)
    ensures Extracted(Extracted(v, chars, stop), chars, stop) == Extracted(v, chars, stop)
  {
    ExtractedChars(v, chars, stop);
    ExtractKept(Extracted(v, chars, stop), chars, stop);
  }

  /** Text made of wanted characters and free of stop characters is kept whole. */
  lemma {:induction false} ExtractKept(v: string, chars: string, stop: string)
    requires forall c :: c in v ==> c in chars
    requires !Falsy(stop) ==> forall c :: c in v ==> c !in stop
    ensures Extracted(v, chars, stop) == v
  {
    if |v| > 0 {
      assert v[0] in v;
      assert forall c :: c in v[1..] ==> c in v;
      ExtractKept(v[1..], chars, stop);
      assert [v[0]] + v[1..] == v;
    }
  }

  const IntChars: string := "-+0123456789"
  const NumericChars: string := "-+0123456789."

  /** The `clean` type: `)`, `(`, `.` and `,` removed, in that order. */
  function Cleaned(v: string): string
  {
    RemoveChar(RemoveChar(RemoveChar(RemoveChar(v, ')'), '('), '.'), ',')
  }

  /** The quoting at the end of parseValue: None stands for PHP null. */
  function Quote(v: Option<string>, escape: bool): (r: Option<string>)
    ensures !escape ==> r == v
    ensures escape ==> r.Some?
  {
    if !escape then v
    else if v.None? then Some("NULL")
    else Some("'" + Double(v.value, '\'') + "'")
  }

  /** How a date is written into the statement: year-month-day. */
  function DateText(p: Option<DateParts>): Option<string>
  {
    if p.Some? then Some(p.value.year + "-" + p.value.month + "-" + p.value.day) else None
  }

  /** parseValue: int and numeric are returned unquoted even when escaping;
      everything else goes through Quote. */
  function ParseValue(value: string, t: SType, escape: bool): (r: Option<string>)
    ensures escape ==> r.Some?
  {
    match t
    case Date(format) => Quote(DateText(ParsedDate(value, format)), escape)
    case Int => Some(Extracted(value, IntChars, "."))
    case Primary => Quote(None, escape)
    case Numeric => Some(Extracted(value, NumericChars, ""))
    case Clean => Quote(Some(Cleaned(value)), escape)
    case Textual => Quote(Some(value), escape)
    case Str => Quote(Some(value), escape)
  }

  /** Taking off the outer quotes of a quoted value and collapsing `''` gives
      the value back. */
  lemma QuoteRoundTrip(v: string)
    ensures var q := Quote(Some(v), true).value;
            |q| >= 2 && q[0] == '\'' && q[|q| - 1] == '\''
            && Undouble(q[1..|q| - 1], '\'') == v
  {
    var q := Quote(Some(v), true).value;
    assert q[1..|q| - 1] == Double(v, '\'');
    UndoubleDouble(v, '\'');
  }

  /** Text columns pass through unchanged when not escaping. */
  lemma PlainValue(v: string)
    ensures ParseValue(v, Str, false) == Some(v)
    ensures ParseValue(v, Textual, false) == Some(v)
  {
  }

  /** A primary key column always receives NULL, letting the database number it. */
  lemma PrimaryNull(v: string, escape: bool)
    ensures ParseValue(v, Primary, escape) == if escape then Some("NULL") else None
  {
  }

  /** A clean column keeps every character except `,` `.` `(` `)`. */
  lemma CleanValue(v: string)
    ensures var c := ParseValue(v, Clean, false).value;
            forall x :: x in c <==> x in v && x !in ",.()"
  {
  }

  /** An int column keeps signs and digits up to the first `.`; a numeric
      column keeps the `.` too and never stops. Neither is quoted. */
  lemma NumberValues(v: string, escape: bool)
    ensures var r := ParseValue(v, Int, escape).value;
            forall c :: c in r ==> c in IntChars && c != '.'
    ensures var r := ParseValue(v, Numeric, escape).value;
            forall c :: c in r ==> c in NumericChars
  {
    ExtractedChars(v, IntChars, ".");
    ExtractedChars(v, NumericChars, "");
  }

  /** Without a stop set, extraction works piece by piece. */
  lemma {:induction false} ExtractAppend(a: string, b: string, chars: string)
    ensures Extracted(a + b, chars, "") == Extracted(a, chars, "") + Extracted(b, chars, "")
  {
    if |a| > 0 {
      assert (a + b)[1..] == a[1..] + b;
      ExtractAppend(a[1..], b, chars);
      AppendAssoc(if a[0] in chars then [a[0]] else "", Extracted(a[1..], chars, ""), Extracted(b, chars, ""));
    } else {
      assert a + b == b;
    }
  }

  lemma IntExample()
    ensures ParseValue("12.5abc", Int, true) == Some("12")
  {
    assert Extracted("12.5abc", IntChars, ".") == "12";
  }

  lemma NumericExample()
    ensures ParseValue("(1.5)", Numeric, true) == Some("1.5")
  {
    assert Extracted("(1.5)", NumericChars, "") == "1.5";
  }

  /** A date that does not fit its format becomes NULL. */
  lemma DateMismatch(v: string, format: string)
    requires ParsedDate(v, format).None?
    ensures ParseValue(v, Date(format), true) == Some("NULL")
  {
  }
}
