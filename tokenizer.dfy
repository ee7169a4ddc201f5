/** The field tokenizer (CsvUtils::parseColumns). The line is trimmed, its
    carriage returns removed and a sentinel newline appended; a six-state
    machine then splits it into fields.

    The reference definition reads the prepared line field by field:
    FieldsAt (a field starts here), RestAfterField (a field has been
    recorded; skip to the next delimiter or newline) and RestAfterDelim (a
    delimiter has just been read), with NextStop and QuoteEnd locating where
    a bare and a quoted field end. The method ParseColumns is the state
    machine itself and is proved to compute the same fields. */
module Tokenizer {
  import opened Wrappers
  import opened Text

  /** Skipped before a field starts: code at most 32, except the newline. */
  predicate IsBlank(c: char) {
    c as int <= 32 && c != '\n'
  }

  /** A character that ends a bare field. */
  predicate IsStop(c: char, d: char) {
    c == d || c == '\n'
  }

  /** The text the machine walks: trim(line) without "\r", then "\n". */
  function Prepare(line: string): (t: string)
    ensures |t| >= 1 && t[|t| - 1] == '\n'
    ensures t[..|t| - 1] == RemoveChar(Trim(line), '\r')
  {
    RemoveChar(Trim(line), '\r') + "\n"
  }

  /** The first delimiter or newline at or after `i`, or |t|. */
  function NextStop(t: string, d: char, i: nat): (q: nat)
    requires i <= |t|
    ensures i <= q <= |t|
    ensures q < |t| ==> IsStop(t[q], d)
    ensures forall k :: i <= k < q ==> !IsStop(t[k], d)
    decreases |t| - i
  {
    if i == |t| then |t|
    else if IsStop(t[i], d) then i
    else NextStop(t, d, i + 1)
  }

  /** Inside a quoted field, scanning from `k`: the index just after the
      closing quote, a quote being closing when the next character is not
      another quote. None when the field is still open at the end. */
  function QuoteEnd(t: string, k: nat): (r: Option<nat>)
    requires k <= |t|
    ensures r.Some? ==> k < r.value < |t| && t[r.value - 1] == '"' && t[r.value] != '"'
    decreases |t| - k
  {
    if k == |t| then None
    else if t[k] != '"' then QuoteEnd(t, k + 1)
    else if k + 1 < |t| && t[k + 1] == '"' then QuoteEnd(t, k + 2)
    else if k + 1 < |t| then Some(k + 1)
    else None
  }

  /** A recorded field: the text from its first character up to its end,
      trimmed. */
  function FieldText(t: string, i: nat, j: nat): (r: string)
    requires i <= j <= |t|
  {
    TrimRange(t, i, j)
  }

  /** The fields of `t` from `i` on, a new field starting at `i` (state 0). */
  function FieldsAt(t: string, d: char, i: nat): seq<string>
    requires i <= |t|
    decreases |t| - i, 0
  {
    if i == |t| then []
    else if IsBlank(t[i]) then FieldsAt(t, d, i + 1)
    else if IsStop(t[i], d) then [""] + FieldsAt(t, d, i + 1)
    else if t[i] == '"' then
      match QuoteEnd(t, i + 1)
      case None => []
      case Some(r) => [FieldText(t, i, r)] + RestAfterField(t, d, r)
    else
      var q := NextStop(t, d, i);
      if q == |t| then [] else [FieldText(t, i, q)] + RestAfterField(t, d, q)
  }

  /** A field has been recorded; what follows it up to the next delimiter or
      newline is ignored (state 4). */
  function RestAfterField(t: string, d: char, k: nat): seq<string>
    requires k <= |t|
    decreases |t| - k, 0
  {
    var q := NextStop(t, d, k);
    if q == |t| then []
    else if t[q] == d then RestAfterDelim(t, d, q + 1)
    else FieldsAt(t, d, q + 1)
  }

  /** A delimiter ended a field: a newline right after it adds an empty
      field, and a new field starts here (state 5). */
  function RestAfterDelim(t: string, d: char, k: nat): seq<string>
    requires k <= |t|
    decreases |t| - k, 1
  {
    if k == |t| then []
    else if t[k] == '\n' then [""] + FieldsAt(t, d, k)
    else FieldsAt(t, d, k)
  }

  /** The optional post-pass: one leading and one trailing quote removed. */
  function StripQuotes(c: string): (r: string)
    ensures StartsWith(c, '"') && |c| >= 2 && c[|c| - 1] == '"' ==> r == c[1..|c| - 1]
    ensures !StartsWith(c, '"') && !(|c| > 0 && c[|c| - 1] == '"') ==> r == c
  {
    var a := if StartsWith(c, '"') then c[1..] else c;
    if |a| > 0 && a[|a| - 1] == '"' then a[..|a| - 1] else a
  }

  function MapStripQuotes(cs: seq<string>): (r: seq<string>)
    ensures |r| == |cs|
    ensures forall i :: 0 <= i < |cs| ==> r[i] == StripQuotes(cs[i])
  {
    if |cs| == 0 then [] else [StripQuotes(cs[0])] + MapStripQuotes(cs[1..])
  }

  /** What parseColumns returns for `line`. */
  function Columns(line: string, d: char, removeQuotes: bool): seq<string>
  {
    var fields := FieldsAt(Prepare(line), d, 0);
    if removeQuotes then MapStripQuotes(fields) else fields
  }

  /** The foreach loop over the fields that strips the quotes of each. */
  method StripAll(fields: seq<string>) returns (r: seq<string>)
    ensures r == MapStripQuotes(fields)
  {
    r := fields;
    var j := 0;
    while j < |r|
      invariant 0 <= j <= |r| == |fields|
      invariant forall k :: 0 <= k < j ==> r[k] == StripQuotes(fields[k])
      invariant forall k :: j <= k < |r| ==> r[k] == fields[k]
    {
      r := r[j := StripQuotes(r[j])];
      j := j + 1;
    }
  }

  datatype FieldState = Start | Quoted | QuoteClosed | Bare | Trailing | Delimited

  /** CsvUtils::parseColumns. */
  method ParseColumns(line: string, d: char, removeQuotes: bool) returns (stack: seq<string>)
    ensures stack == Columns(line, d, removeQuotes)
  {
    var t := Prepare(line);
    stack := Scan(t, d);
    if removeQuotes {
      stack := StripAll(stack);
    }
  }

  /** What the machine knows between two characters: `stack` followed by
      the fields still to come from the current state equals all the fields
      of `t`. In the three states inside a field, `st` is where that field
      started and the machine has read it up to `i`. */
  ghost predicate ScanInv(t: string, d: char, all: seq<string>, stack: seq<string>,
                          i: nat, st: nat, state: FieldState)
  {
    st <= i <= |t| &&
    match state
    case Start => stack + FieldsAt(t, d, i) == all
    case Trailing => stack + RestAfterField(t, d, i) == all
    case Delimited => stack + RestAfterDelim(t, d, i) == all
    case Quoted =>
      Opened(t, d, all, stack, i, st) && t[st] == '"' && QuoteEnd(t, st + 1) == QuoteEnd(t, i)
    case QuoteClosed =>
      Opened(t, d, all, stack, i, st) && t[st] == '"' && st + 1 < i && t[i - 1] == '"'
      && QuoteEnd(t, st + 1) == QuoteEnd(t, i - 1)
    case Bare =>
      Opened(t, d, all, stack, i, st) && t[st] != '"' && NextStop(t, d, st) == NextStop(t, d, i)
  }

  /** A field that started at `st` is being read: `stack` followed by the
      fields from `st` on are all the fields. */
  ghost predicate Opened(t: string, d: char, all: seq<string>, stack: seq<string>, i: nat, st: nat)
    requires st <= i <= |t|
  {
    st < i && !IsBlank(t[st]) && !IsStop(t[st], d) && stack + FieldsAt(t, d, st) == all
  }

  /** The for loop of parseColumns over the prepared line: the six-state
      machine, one step method per state. The two states that re-read the
      current character (QuoteClosed and Delimited) do not advance the
      index. */
  method Scan(t: string, d: char) returns (stack: seq<string>)
    ensures stack == FieldsAt(t, d, 0)
  {
    ghost var all := FieldsAt(t, d, 0);
    stack := [];
    var i: nat, st: nat, state := 0, 0, Start;
    assert [] + all == all;
    while i < |t|
      invariant ScanInv(t, d, all, stack, i, st, state)
      decreases |t| - i, Rank(state)
    {
      match state {
        case Start => stack, i, st, state := StepStart(t, d, all, stack, i, st);
        case Quoted => i, state := StepQuoted(t, d, all, stack, i, st);
        case QuoteClosed => stack, i, state := StepQuoteClosed(t, d, all, stack, i, st);
        case Bare => stack, i, state := StepBare(t, d, all, stack, i, st);
        case Trailing => i, state := StepTrailing(t, d, all, stack, i, st);
        case Delimited => stack, state := StepDelimited(t, d, all, stack, i, st);
      }
    }
    ScanEnd(t, d, all, stack, i, st, state);
  }

  /** Which states re-read the character: they must leave for one that does
      not. */
  function Rank(state: FieldState): (r: nat)
    ensures r == 1 <==> state == QuoteClosed || state == Delimited
  {
    if state == QuoteClosed || state == Delimited then 1 else 0
  }

  /** State 0: blanks are skipped; a delimiter or newline records an empty
      field; a quote opens a quoted field, anything else a bare one. */
  method StepStart(t: string, d: char, ghost all: seq<string>, stack: seq<string>, i: nat, st: nat)
    returns (stack': seq<string>, i': nat, st': nat, state': FieldState)
    requires i < |t| && ScanInv(t, d, all, stack, i, st, Start)
    ensures ScanInv(t, d, all, stack', i', st', state') && i' == i + 1
    ensures IsBlank(t[i]) ==> stack' == stack && st' == st && state' == Start
    ensures !IsBlank(t[i]) && IsStop(t[i], d) ==> stack' == stack + [""] && st' == i && state' == Start
    ensures !IsBlank(t[i]) && !IsStop(t[i], d) ==>
      stack' == stack && st' == i && state' == (if t[i] == '"' then Quoted else Bare)
  {
    var c := t[i];
    stack', st', state' := stack, st, Start;
    if IsBlank(c) {
      FieldsBlank(t, d, i);
    } else {
      st' := i;
      state' := if c == '"' then Quoted else Bare;
      if IsStop(c, d) {
        assert FieldText(t, st', i) == "";
        FieldsStop(t, d, i);
        AppendAssoc(stack, [""], FieldsAt(t, d, i + 1));
        stack' := stack + [FieldText(t, st', i)];
        state' := Start;
      } else {
        assert NextStop(t, d, i) == NextStop(t, d, i + 1);
      }
    }
    i' := i + 1;
  }

  /** State 1: inside quotes only a quote matters. */
  method StepQuoted(t: string, d: char, ghost all: seq<string>, stack: seq<string>, i: nat, st: nat)
    returns (i': nat, state': FieldState)
    requires i < |t| && ScanInv(t, d, all, stack, i, st, Quoted)
    ensures ScanInv(t, d, all, stack, i', st, state') && i' == i + 1
    ensures state' == if t[i] == '"' then QuoteClosed else Quoted
  {
    state' := Quoted;
    if t[i] == '"' {
      state' := QuoteClosed;
    } else {
      assert QuoteEnd(t, i) == QuoteEnd(t, i + 1);
    }
    i' := i + 1;
  }

  /** State 2: a second quote was an escaped one; anything else closes the
      field, which is recorded, and is read again in state 4. */
  method StepQuoteClosed(t: string, d: char, ghost all: seq<string>, stack: seq<string>, i: nat, st: nat)
    returns (stack': seq<string>, i': nat, state': FieldState)
    requires i < |t| && ScanInv(t, d, all, stack, i, st, QuoteClosed)
    ensures ScanInv(t, d, all, stack', i', st, state')
    ensures t[i] == '"' ==> stack' == stack && i' == i + 1 && state' == Quoted
    ensures t[i] != '"' ==> stack' == stack + [Trim(t[st..i])] && i' == i && state' == Trailing
  {
    if t[i] == '"' {
      assert QuoteEnd(t, i - 1) == QuoteEnd(t, i + 1);
      stack', i', state' := stack, i + 1, Quoted;
    } else {
      assert QuoteEnd(t, i - 1) == Some(i);
      FieldsQuoted(t, d, st, i);
      AppendAssoc(stack, [FieldText(t, st, i)], RestAfterField(t, d, i));
      TrimRangeSlice(t, st, i);
      stack', i', state' := stack + [FieldText(t, st, i)], i, Trailing;
    }
  }

  /** State 3: a bare field ends at a delimiter or newline. */
  method StepBare(t: string, d: char, ghost all: seq<string>, stack: seq<string>, i: nat, st: nat)
    returns (stack': seq<string>, i': nat, state': FieldState)
    requires i < |t| && ScanInv(t, d, all, stack, i, st, Bare)
    ensures ScanInv(t, d, all, stack', i', st, state') && i' == i + 1
    ensures !IsStop(t[i], d) ==> stack' == stack && state' == Bare
    ensures IsStop(t[i], d) ==>
      stack' == stack + [Trim(t[st..i])] && state' == (if t[i] == d then Delimited else Start)
  {
    if IsStop(t[i], d) {
      BareClosed(t, d, all, stack, i, st);
      stack' := stack + [FieldText(t, st, i)];
      state' := if t[i] == d then Delimited else Start;
    } else {
      assert NextStop(t, d, i) == NextStop(t, d, i + 1);
      stack', state' := stack, Bare;
    }
    i' := i + 1;
  }

  /** The stop that ends a bare field records the field, trimmed. */
  lemma BareClosed(t: string, d: char, all: seq<string>, stack: seq<string>, i: nat, st: nat)
    requires i < |t| && ScanInv(t, d, all, stack, i, st, Bare) && IsStop(t[i], d)
    ensures FieldText(t, st, i) == Trim(t[st..i])
    ensures ScanInv(t, d, all, stack + [FieldText(t, st, i)], i + 1, st, if t[i] == d then Delimited else Start)
  {
    FieldsBare(t, d, st);
    AfterStop(t, d, i);
    AppendAssoc(stack, [FieldText(t, st, i)], RestAfterField(t, d, i));
    TrimRangeSlice(t, st, i);
  }

  /** State 4: after a quoted field, skip to the next delimiter or newline. */
  method StepTrailing(t: string, d: char, ghost all: seq<string>, stack: seq<string>, i: nat, st: nat)
    returns (i': nat, state': FieldState)
    requires i < |t| && ScanInv(t, d, all, stack, i, st, Trailing)
    ensures ScanInv(t, d, all, stack, i', st, state') && i' == i + 1
    ensures state' == if !IsStop(t[i], d) then Trailing else if t[i] == d then Delimited else Start
  {
    if IsStop(t[i], d) {
      AfterStop(t, d, i);
      state' := if t[i] == d then Delimited else Start;
    } else {
      assert NextStop(t, d, i) == NextStop(t, d, i + 1);
      state' := Trailing;
    }
    i' := i + 1;
  }

  /** State 5: a newline right after a delimiter adds an empty field; the
      character is read again in state 0. */
  method StepDelimited(t: string, d: char, ghost all: seq<string>, stack: seq<string>, i: nat, st: nat)
    returns (stack': seq<string>, state': FieldState)
    requires i < |t| && ScanInv(t, d, all, stack, i, st, Delimited)
    ensures ScanInv(t, d, all, stack', i, st, state') && state' == Start
    ensures stack' == if t[i] == '\n' then stack + [""] else stack
  {
    stack' := stack;
    if t[i] == '\n' {
      AppendAssoc(stack, [""], FieldsAt(t, d, i));
      stack' := stack + [""];
    }
    state' := Start;
  }

  /** The four ways a field can start, one unfolding of FieldsAt each. */
  lemma FieldsBlank(t: string, d: char, i: nat)
    requires i < |t| && IsBlank(t[i])
    ensures FieldsAt(t, d, i) == FieldsAt(t, d, i + 1)
  {
  }

  lemma FieldsStop(t: string, d: char, i: nat)
    requires i < |t| && !IsBlank(t[i]) && IsStop(t[i], d)
    ensures FieldsAt(t, d, i) == [""] + FieldsAt(t, d, i + 1)
  {
  }

  lemma FieldsQuoted(t: string, d: char, i: nat, r: nat)
    requires i < |t| && t[i] == '"' && d != '"' && QuoteEnd(t, i + 1) == Some(r)
    ensures FieldsAt(t, d, i) == [FieldText(t, i, r)] + RestAfterField(t, d, r)
  {
  }

  lemma FieldsBare(t: string, d: char, i: nat)
    requires i < |t| && !IsBlank(t[i]) && !IsStop(t[i], d) && t[i] != '"' && NextStop(t, d, i) < |t|
    ensures FieldsAt(t, d, i) == [FieldText(t, i, NextStop(t, d, i))] + RestAfterField(t, d, NextStop(t, d, i))
  {
  }

  /** When the line is exhausted, nothing is pending: an open quoted field
      and a bare field without a stop are dropped. */
  lemma ScanEnd(t: string, d: char, all: seq<string>, stack: seq<string>, i: nat, st: nat, state: FieldState)
    requires i >= |t| && ScanInv(t, d, all, stack, i, st, state)
    ensures stack == all
  {
    match state {
      case Start =>
      case Trailing =>
      case Delimited =>
      case Quoted =>
        assert QuoteEnd(t, st + 1) == None;
      case QuoteClosed =>
        assert QuoteEnd(t, i - 1) == None;
      case Bare =>
        assert NextStop(t, d, st) == |t|;
    }
    assert stack + [] == stack;
  }

  /** RestAfterField at a delimiter or newline continues right after it. */
  lemma AfterStop(t: string, d: char, i: nat)
    requires i < |t| && IsStop(t[i], d)
    ensures RestAfterField(t, d, i) == if t[i] == d then RestAfterDelim(t, d, i + 1) else FieldsAt(t, d, i + 1)
  {
    assert NextStop(t, d, i) == i;
  }

  /** Scanning forward stops at the same place from anywhere before the stop. */
  lemma {:induction false} NextStopSkip(t: string, d: char, k: nat, j: nat)
    requires k <= j <= |t|
    requires forall m :: k <= m < j ==> !IsStop(t[m], d)
    ensures NextStop(t, d, k) == NextStop(t, d, j)
    decreases j - k
  {
    if k < j {
      NextStopSkip(t, d, k + 1, j);
    }
  }

  /** Whatever follows a recorded field up to the next delimiter or newline
      is discarded: `"a"xyz,b` has the fields `"a"` and `b`. */
  lemma AfterFieldIgnored(t: string, d: char, k: nat, j: nat)
    requires k <= j <= |t|
    requires forall m :: k <= m < j ==> !IsStop(t[m], d)
    ensures RestAfterField(t, d, k) == RestAfterField(t, d, j)
  {
    NextStopSkip(t, d, k, j);
  }

  /** Inside a quoted field, a body with every quote doubled is read through
      to the quote that follows it. */
  lemma {:induction false} QuoteEndDoubled(t: string, k: nat, y: string)
    requires k + |Double(y, '"')| + 1 < |t|
    requires t[k..k + |Double(y, '"')|] == Double(y, '"')
    requires t[k + |Double(y, '"')|] == '"' && t[k + |Double(y, '"')| + 1] != '"'
    ensures QuoteEnd(t, k) == Some(k + |Double(y, '"')| + 1)
    decreases |y|, 1
  {
    if |y| > 0 {
      QuoteEndDoubledStep(t, k, y);
    } else {
      assert Double(y, '"') == "";
    }
  }

  lemma {:induction false} QuoteEndDoubledStep(t: string, k: nat, y: string)
    requires |y| > 0
    requires k + |Double(y, '"')| + 1 < |t|
    requires t[k..k + |Double(y, '"')|] == Double(y, '"')
    requires t[k + |Double(y, '"')|] == '"' && t[k + |Double(y, '"')| + 1] != '"'
    ensures QuoteEnd(t, k) == Some(k + |Double(y, '"')| + 1)
    decreases |y|, 0
  {
    var w := DoubledHead(t, k, y);
    QuoteEndDoubled(t, k + w, y[1..]);
  }

  /** The first character of `y` takes `w` characters of `t` at `k` (two for
      a quote), after which QuoteEnd carries on with the rest of `y`. */
  lemma DoubledHead(t: string, k: nat, y: string) returns (w: nat)
    requires |y| > 0 && k + |Double(y, '"')| <= |t|
    requires t[k..k + |Double(y, '"')|] == Double(y, '"')
    ensures |Double(y, '"')| == w + |Double(y[1..], '"')|
    ensures t[k + w..k + w + |Double(y[1..], '"')|] == Double(y[1..], '"')
    ensures k + w < |t| ==> QuoteEnd(t, k) == QuoteEnd(t, k + w)
  {
    var e := Double(y, '"');
    var e' := Double(y[1..], '"');
    w := if y[0] == '"' then 2 else 1;
    assert e == e[..w] + e';
    assert t[k..k + w] == e[..w];
    assert t[k + w..k + w + |e'|] == e[w..];
    assert t[k] == e[0];
    if y[0] == '"' {
      assert t[k + 1] == e[1];
    }
  }

  /** A quoted field whose quotes are doubled is one field, whatever
      delimiters or newlines it holds. */
  lemma QuotedField(t: string, d: char, i: nat, y: string)
    requires d != '"'
    requires i + |Double(y, '"')| + 2 < |t|
    requires t[i..i + |Double(y, '"')| + 2] == "\"" + Double(y, '"') + "\""
    requires t[i + |Double(y, '"')| + 2] != '"'
    ensures FieldsAt(t, d, i) == ["\"" + Double(y, '"') + "\""] + RestAfterField(t, d, i + |Double(y, '"')| + 2)
  {
    var e := Double(y, '"');
    var f := "\"" + e + "\"";
    var j := i + |e| + 2;
    assert t[i] == f[0];
    assert t[i + 1..i + 1 + |e|] == e by {
      assert forall k :: 0 <= k < |e| ==> t[i + 1 + k] == t[i..j][1 + k] == f[1 + k] == e[k];
    }
    assert t[i + 1 + |e|] == f[1 + |e|];
    QuoteEndDoubled(t, i + 1, y);
    FieldsQuoted(t, d, i, j);
    TrimRangeSlice(t, i, j);
    TrimOfTrimmed(f);
  }

  /** Stripping the outer quotes of such a field leaves its doubled quotes
      inside (`"a""b"` becomes `a""b`), and collapsing them gives the value
      back. */
  lemma QuotedFieldStripped(y: string)
    ensures StripQuotes("\"" + Double(y, '"') + "\"") == Double(y, '"')
    ensures Undouble(StripQuotes("\"" + Double(y, '"') + "\""), '"') == y
  {
    var f := "\"" + Double(y, '"') + "\"";
    assert f[1..|f| - 1] == Double(y, '"');
    UndoubleDouble(y, '"');
  }

  /** Inside a quoted field with no quote left, the field never closes. */
  lemma {:induction false} QuoteEndNone(t: string, k: nat)
    requires k <= |t|
    requires forall m :: k <= m < |t| ==> t[m] != '"'
    ensures QuoteEnd(t, k) == None
    decreases |t| - k
  {
    if k < |t| {
      QuoteEndNone(t, k + 1);
    }
  }

  /** A quoted field that is never closed is not emitted, and nothing after
      its opening quote is. */
  lemma UnterminatedQuote(t: string, d: char, i: nat)
    requires i < |t| && t[i] == '"' && d != '"'
    requires forall m :: i < m < |t| ==> t[m] != '"'
    ensures FieldsAt(t, d, i) == []
  {
    QuoteEndNone(t, i + 1);
  }

  /** Trim applied to every piece. */
  function MapTrim(ps: seq<string>): (r: seq<string>)
    ensures |r| == |ps|
  {
    if |ps| == 0 then [] else [Trim(ps[0])] + MapTrim(ps[1..])
  }

  /** No quote and no newline, and only trim characters among the blanks
      (no other control character). */
  predicate PlainChars(s: string) {
    forall k :: 0 <= k < |s| ==> s[k] != '\n' && s[k] != '"' && (IsBlank(s[k]) ==> IsTrimChar(s[k]))
  }

  /** A line the machine reads like explode: plain characters, and a
      delimiter that is neither a blank, a quote nor a newline. */
  predicate PlainLine(s: string, d: char) {
    d != '\n' && d != '"' && !IsBlank(d) && PlainChars(s)
  }

  /** A delimiter at the very end that closes a non-empty field adds one
      more empty field: `a,b,` has four fields, `a,,` has three. */
  predicate TrailingExtra(ps: seq<string>) {
    |ps| >= 2 && ps[|ps| - 1] == "" && Trim(ps[|ps| - 2]) != ""
  }

  /** The fields of a plain line: explode on the delimiter and trim each
      piece, plus the extra empty field of a trailing delimiter. */
  function ExplodeFields(s: string, d: char): (r: seq<string>)
    ensures |r| >= |Split(s, d)|
  {
    var ps := Split(s, d);
    MapTrim(ps) + (if TrailingExtra(ps) then [""] else [])
  }

  lemma {:induction false} MapTrimAppend(a: seq<string>, b: seq<string>)
    ensures MapTrim(a + b) == MapTrim(a) + MapTrim(b)
  {
    if |a| == 0 {
      assert a + b == b;
    } else {
      assert (a + b)[1..] == a[1..] + b;
      MapTrimAppend(a[1..], b);
      AppendAssoc([Trim(a[0])], MapTrim(a[1..]), MapTrim(b));
    }
  }

  /** A leading trim character changes nothing in explode-and-trim. */
  lemma ExplodeBlankHead(c: char, s: string, d: char)
    requires IsTrimChar(c) && c != d
    ensures ExplodeFields([c] + s, d) == ExplodeFields(s, d)
  {
    var p := Split(s, d);
    assert ([c] + s)[1..] == s;
    var p2 := [[c] + p[0]] + p[1..];
    assert Split([c] + s, d) == p2;
    TrimBlankHead(c, p[0]);
    assert [p[0]] + p[1..] == p;
    MapTrimAppend([[c] + p[0]], p[1..]);
    MapTrimAppend([p[0]], p[1..]);
    assert MapTrim(p2) == MapTrim(p);
    assert TrailingExtra(p2) == TrailingExtra(p);
  }

  /** A leading delimiter is an empty first field. */
  lemma ExplodeDelimHead(s: string, d: char)
    ensures ExplodeFields([d] + s, d) == [""] + ExplodeFields(s, d)
  {
    var p := Split(s, d);
    var x: seq<string> := if TrailingExtra(p) then [""] else [];
    assert ([d] + s)[1..] == s;
    assert Split([d] + s, d) == [""] + p;
    MapTrimAppend([""], p);
    assert TrailingExtra([""] + p) == TrailingExtra(p);
    AppendAssoc([""], MapTrim(p), x);
  }

  /** Without a delimiter, explode-and-trim is the trimmed text. */
  lemma ExplodeNoSep(s: string, d: char)
    requires d !in s
    ensures ExplodeFields(s, d) == [Trim(s)]
  {
    SplitNoSep(s, d);
  }

  /** A non-empty first field, then a delimiter: the first field, and an
      extra empty field when the delimiter ends the text. */
  lemma ExplodeFieldHead(a: string, s: string, d: char)
    requires d !in a && |a| > 0 && !IsTrimChar(a[0])
    ensures ExplodeFields(a + [d] + s, d)
         == [Trim(a)] + (if s == "" then [""] else []) + ExplodeFields(s, d)
  {
    var p := Split(s, d);
    var P := [a] + p;
    var m := MapTrim(p);
    var x: seq<string> := if TrailingExtra(p) then [""] else [];
    SplitSepAfter(a, s, d);
    assert Split(a + [d] + s, d) == P;
    MapTrimAppend([a], p);
    assert MapTrim([a]) == [Trim(a)];
    assert MapTrim(P) == [Trim(a)] + m;
    assert ExplodeFields(s, d) == m + x;
    TrimSolidHead(a);
    if s == "" {
      assert p == [""];
      assert TrailingExtra(P);
      assert ExplodeFields(a + [d] + s, d) == [Trim(a)] + m + [""];
      assert ExplodeFields(s, d) == [""] + [];
      assert m == [""];
      assert [""] + [] == [""];
    } else {
      assert TrailingExtra(P) == TrailingExtra(p);
      assert ExplodeFields(a + [d] + s, d) == [Trim(a)] + m + x;
      assert [Trim(a)] + [] == [Trim(a)];
      AppendAssoc([Trim(a)], m, x);
    }
  }

  /** The hypothesis shared by the plain-line lemmas: `t` is a plain line
      followed by the sentinel newline. */
  predicate PlainText(t: string, d: char) {
    |t| >= 1 && t[|t| - 1] == '\n' && PlainLine(t[..|t| - 1], d)
  }

  /** On a plain line, the machine started at a field boundary agrees with
      explode-and-trim of the rest of the line. */
  lemma {:induction false} PlainFieldsAt(t: string, d: char, i: nat, n: nat)
    requires PlainText(t, d) && n == |t| - 1 && i <= n
    ensures FieldsAt(t, d, i) == ExplodeFields(t[i..n], d)
    decreases |t| - i, 2
  {
    if i == n {
      FieldsStop(t, d, i);
      assert t[i..n] == "";
    } else {
      assert t[i] == t[..n][i];
      assert t[i..n] == [t[i]] + t[i + 1..n];
      if IsBlank(t[i]) {
        PlainFieldsAt(t, d, i + 1, n);
        FieldsBlank(t, d, i);
        ExplodeBlankHead(t[i], t[i + 1..n], d);
      } else if t[i] == d {
        PlainFieldsAt(t, d, i + 1, n);
        FieldsStop(t, d, i);
        ExplodeDelimHead(t[i + 1..n], d);
      } else {
        PlainBare(t, d, i, n);
      }
    }
  }

  /** A bare field on a plain line: it runs to the next delimiter or the
      sentinel. */
  lemma {:induction false} PlainBare(t: string, d: char, i: nat, n: nat)
    requires PlainText(t, d) && n == |t| - 1 && i < n && !IsBlank(t[i]) && t[i] != d
    ensures FieldsAt(t, d, i) == ExplodeFields(t[i..n], d)
    decreases |t| - i, 1
  {
    var q := NextStop(t, d, i);
    StopBySentinel(t, d, i, n);
    if q == n {
      BareToEnd(t, d, i, n);
    } else {
      PlainDelimited(t, d, i, q, n);
    }
  }

  /** A bare field ended by a delimiter: the rest of the line after the
      delimiter is handled by the induction. */
  lemma {:induction false} PlainDelimited(t: string, d: char, i: nat, q: nat, n: nat)
    requires PlainText(t, d) && n == |t| - 1 && i < n && !IsBlank(t[i]) && t[i] != d
    requires q == NextStop(t, d, i) && q < n
    ensures FieldsAt(t, d, i) == ExplodeFields(t[i..n], d)
    decreases |t| - i, 0
  {
    PlainFieldsAt(t, d, q + 1, n);
    BareToDelim(t, d, i, q, n);
  }

  /** The sentinel newline ends every field that has not ended before. */
  lemma StopBySentinel(t: string, d: char, i: nat, n: nat)
    requires PlainText(t, d) && n == |t| - 1 && i <= n
    ensures NextStop(t, d, i) <= n
  {
    assert IsStop(t[n], d);
  }

  lemma BareToEnd(t: string, d: char, i: nat, n: nat)
    requires PlainText(t, d) && n == |t| - 1 && i < n && !IsBlank(t[i]) && t[i] != d
    requires NextStop(t, d, i) == n
    ensures FieldsAt(t, d, i) == ExplodeFields(t[i..n], d)
  {
    assert t[i] == t[..n][i];
    var a := t[i..n];
    assert d !in a;
    FieldsBare(t, d, i);
    TrimRangeSlice(t, i, n);
    AfterStop(t, d, n);
    ExplodeNoSep(a, d);
    assert RestAfterField(t, d, n) == FieldsAt(t, d, n + 1) == [];
    assert [Trim(a)] + [] == [Trim(a)];
  }

  lemma BareToDelim(t: string, d: char, i: nat, q: nat, n: nat)
    requires PlainText(t, d) && n == |t| - 1 && i < n && !IsBlank(t[i]) && t[i] != d
    requires q == NextStop(t, d, i) && q < n
    requires FieldsAt(t, d, q + 1) == ExplodeFields(t[q + 1..n], d)
    ensures FieldsAt(t, d, i) == ExplodeFields(t[i..n], d)
  {
    BareDelimSplit(t, d, i, q, n);
    DelimRest(t, d, q + 1);
    JoinField(FieldsAt(t, d, i), t[i..n], t[i..q], t[q + 1..n], FieldsAt(t, d, q + 1), RestAfterDelim(t, d, q + 1), d);
  }

  /** A field, the delimiter and the rest: explode's side and the machine's
      side agree once they agree on the rest. */
  lemma JoinField(fields: seq<string>, whole: string, a: string, r: string, e: seq<string>, rest: seq<string>, d: char)
    requires whole == a + [d] + r && d !in a && |a| > 0 && !IsTrimChar(a[0])
    requires fields == [Trim(a)] + rest
    requires rest == (if r == "" then [""] else []) + e
    requires e == ExplodeFields(r, d)
    ensures fields == ExplodeFields(whole, d)
  {
    var x: seq<string> := if r == "" then [""] else [];
    ExplodeFieldHead(a, r, d);
    AppendAssoc([Trim(a)], x, e);
  }

  /** The line from a bare field on is the field, the delimiter and the rest. */
  lemma BareDelimSplit(t: string, d: char, i: nat, q: nat, n: nat)
    requires PlainText(t, d) && n == |t| - 1 && i < n && !IsBlank(t[i]) && t[i] != d
    requires q == NextStop(t, d, i) && q < n
    ensures t[i..n] == t[i..q] + [d] + t[q + 1..n]
    ensures d !in t[i..q] && |t[i..q]| > 0 && !IsTrimChar(t[i..q][0])
    ensures FieldsAt(t, d, i) == [Trim(t[i..q])] + RestAfterDelim(t, d, q + 1)
  {
    assert t[i] == t[..n][i];
    assert t[q] == t[..n][q];
    BareDelimFields(t, d, i, q);
  }

  /** After a delimiter, the machine adds one empty field when the line ends
      right there. */
  lemma DelimRest(t: string, d: char, k: nat)
    requires PlainText(t, d) && 0 < k <= |t| - 1
    ensures RestAfterDelim(t, d, k) == (if t[k..|t| - 1] == "" then [""] else []) + FieldsAt(t, d, k)
  {
    var n := |t| - 1;
    if k < n {
      assert t[k] == t[..n][k];
      assert t[k..n][0] == t[k];
    }
  }

  /** A bare field ended by the delimiter, seen from the machine's side. */
  lemma BareDelimFields(t: string, d: char, i: nat, q: nat)
    requires i < |t| && !IsBlank(t[i]) && !IsStop(t[i], d) && t[i] != '"'
    requires q == NextStop(t, d, i) && q < |t| && t[q] == d
    ensures d !in t[i..q] && |t[i..q]| > 0 && !IsTrimChar(t[i..q][0])
    ensures FieldsAt(t, d, i) == [Trim(t[i..q])] + RestAfterDelim(t, d, q + 1)
  {
    FieldsBare(t, d, i);
    TrimRangeSlice(t, i, q);
    AfterStop(t, d, q);
  }

  /** parseColumns on a plain line is explode on the delimiter with every
      piece trimmed, plus one empty field after a trailing delimiter that
      ends a non-empty field. */
  lemma PlainColumns(line: string, d: char)
    requires PlainLine(line, d)
    ensures Columns(line, d, false) == ExplodeFields(RemoveChar(Trim(line), '\r'), d)
  {
    var b := RemoveChar(Trim(line), '\r');
    var t := Prepare(line);
    var lo := TrimSlice(line);
    assert forall k :: 0 <= k < |b| ==> b[k] in Trim(line);
    assert forall k :: 0 <= k < |Trim(line)| ==> Trim(line)[k] == line[lo + k];
    assert t[..|t| - 1] == b;
    PlainFieldsAt(t, d, 0, |t| - 1);
  }

  /** A line that ends in the delimiter after a non-empty field gets two
      empty fields at the end: state 5 records one at the sentinel newline,
      and state 0 reads that newline again and records another. So `a,b,`
      has the fields `a`, `b`, `` and ``. */
  lemma TrailingDelimiter(a: string, b: string, d: char)
    requires PlainLine(a + [d] + b + [d], d) && '\r' !in a + [d] + b + [d]
    requires d !in a && d !in b && |a| > 0 && |b| > 0
    requires !IsTrimChar(a[0]) && !IsTrimChar(b[0])
    ensures Columns(a + [d] + b + [d], d, false) == [Trim(a), Trim(b), "", ""]
  {
    var line := a + [d] + b + [d];
    assert line[0] == a[0] && line[|line| - 1] == d;
    TrimOfTrimmed(line);
    PlainColumns(line, d);
    assert a + [d] + b + [d] == a + [d] + (b + [d]);
    ExplodeFieldHead(a, b + [d], d);
    assert b + [d] == b + [d] + "";
    ExplodeFieldHead(b, "", d);
    assert Split("", d) == [""];
  }

  /** The pieces that are not empty, in order. */
  function DropEmpty(ps: seq<string>): (r: seq<string>)
    ensures |r| <= |ps|
    ensures forall k :: 0 <= k < |r| ==> r[k] != ""
  {
    if |ps| == 0 then [] else (if ps[0] == "" then [] else [ps[0]]) + DropEmpty(ps[1..])
  }

  /** The fields of a tab-separated line: explode on the tab, trim each
      piece, and drop the pieces that are left empty. */
  function TabFields(s: string): seq<string>
  {
    DropEmpty(MapTrim(Split(s, '\t')))
  }

  /** The hypothesis of the tab lemmas: `t` is a line of plain characters
      that ends in a non-blank, followed by the sentinel newline. */
  predicate TabText(t: string) {
    |t| >= 2 && t[|t| - 1] == '\n' && PlainChars(t[..|t| - 1]) && !IsBlank(t[|t| - 2])
  }

  /** A tab, or any other trim character, at the head of the text changes
      nothing: an empty piece is dropped, and a blank inside a piece is
      trimmed away. */
  lemma TabBlankHead(c: char, s: string)
    requires IsTrimChar(c)
    ensures TabFields([c] + s) == TabFields(s)
  {
    var p := Split(s, '\t');
    assert ([c] + s)[1..] == s;
    if c == '\t' {
      assert Split([c] + s, '\t') == [""] + p;
      MapTrimAppend([""], p);
      assert MapTrim([""]) == [""];
      assert ([""] + MapTrim(p))[1..] == MapTrim(p);
    } else {
      var p2 := [[c] + p[0]] + p[1..];
      assert Split([c] + s, '\t') == p2;
      TrimBlankHead(c, p[0]);
      assert [p[0]] + p[1..] == p;
      MapTrimAppend([[c] + p[0]], p[1..]);
      MapTrimAppend([p[0]], p[1..]);
    }
  }

  /** A piece that keeps something after trimming, then a tab: that piece
      is the first field. */
  lemma TabFieldHead(a: string, r: string)
    requires '\t' !in a && Trim(a) != ""
    ensures TabFields(a + ['\t'] + r) == [Trim(a)] + TabFields(r)
  {
    var p := Split(r, '\t');
    SplitSepAfter(a, r, '\t');
    MapTrimAppend([a], p);
    assert MapTrim([a]) == [Trim(a)];
    assert ([Trim(a)] + MapTrim(p))[1..] == MapTrim(p);
  }

  /** A piece without a tab that keeps something after trimming is the
      only field. */
  lemma TabSingle(a: string)
    requires '\t' !in a && Trim(a) != ""
    ensures TabFields(a) == [Trim(a)]
  {
    SplitNoSep(a, '\t');
    assert MapTrim([a]) == [Trim(a)];
  }

  /** On a tab-separated line the machine, started at a field boundary,
      agrees with TabFields of the rest of the line. */
  lemma {:induction false} TabFieldsAt(t: string, i: nat, n: nat)
    requires TabText(t) && n == |t| - 1 && i < n
    ensures FieldsAt(t, '\t', i) == TabFields(t[i..n])
    decreases |t| - i, 2
  {
    assert t[i] == t[..n][i];
    if IsBlank(t[i]) {
      assert i + 1 < n;
      FieldsBlank(t, '\t', i);
      TabFieldsAt(t, i + 1, n);
      assert t[i..n] == [t[i]] + t[i + 1..n];
      TabBlankHead(t[i], t[i + 1..n]);
    } else {
      TabBare(t, i, n);
    }
  }

  /** A bare field on a tab-separated line. */
  lemma {:induction false} TabBare(t: string, i: nat, n: nat)
    requires TabText(t) && n == |t| - 1 && i < n && !IsBlank(t[i])
    ensures FieldsAt(t, '\t', i) == TabFields(t[i..n])
    decreases |t| - i, 1
  {
    var q := NextStop(t, '\t', i);
    TabStop(t, i, n);
    if q == n {
      TabToEnd(t, i, n);
    } else {
      TabDelimited(t, i, q, n);
    }
  }

  /** The field ends at a tab before the last character, or at the
      sentinel. */
  lemma TabStop(t: string, i: nat, n: nat)
    requires TabText(t) && n == |t| - 1 && i < n
    ensures NextStop(t, '\t', i) <= n
    ensures NextStop(t, '\t', i) < n ==> t[NextStop(t, '\t', i)] == '\t' && NextStop(t, '\t', i) + 1 < n
  {
    var q := NextStop(t, '\t', i);
    assert IsStop(t[n], '\t');
    if q < n {
      assert t[q] == t[..n][q];
    }
  }

  lemma TabToEnd(t: string, i: nat, n: nat)
    requires TabText(t) && n == |t| - 1 && i < n && !IsBlank(t[i])
    requires NextStop(t, '\t', i) == n
    ensures FieldsAt(t, '\t', i) == TabFields(t[i..n])
  {
    assert t[i] == t[..n][i];
    var a := t[i..n];
    assert '\t' !in a;
    FieldsBare(t, '\t', i);
    TrimRangeSlice(t, i, n);
    AfterStop(t, '\t', n);
    TrimSolidHead(a);
    TabSingle(a);
    assert RestAfterField(t, '\t', n) == FieldsAt(t, '\t', n + 1) == [];
    assert [Trim(a)] + [] == [Trim(a)];
  }

  lemma {:induction false} TabDelimited(t: string, i: nat, q: nat, n: nat)
    requires TabText(t) && n == |t| - 1 && i < n && !IsBlank(t[i])
    requires q == NextStop(t, '\t', i) && q < n && t[q] == '\t' && q + 1 < n
    ensures FieldsAt(t, '\t', i) == TabFields(t[i..n])
    decreases |t| - i, 0
  {
    TabFieldsAt(t, q + 1, n);
    TabJoin(t, i, q, n);
  }

  /** One field and its tab, once the rest of the line is known. */
  lemma TabJoin(t: string, i: nat, q: nat, n: nat)
    requires TabText(t) && n == |t| - 1 && i < n && !IsBlank(t[i])
    requires q == NextStop(t, '\t', i) && q < n && t[q] == '\t' && q + 1 < n
    requires FieldsAt(t, '\t', q + 1) == TabFields(t[q + 1..n])
    ensures FieldsAt(t, '\t', i) == TabFields(t[i..n])
  {
    TabDelimSplit(t, i, q, n);
    TabJoinField(FieldsAt(t, '\t', i), t[i..n], t[i..q], t[q + 1..n], FieldsAt(t, '\t', q + 1));
  }

  /** The text and the machine's fields around the tab that ends a field. */
  lemma TabDelimSplit(t: string, i: nat, q: nat, n: nat)
    requires TabText(t) && n == |t| - 1 && i < n && !IsBlank(t[i])
    requires q == NextStop(t, '\t', i) && q < n && t[q] == '\t' && q + 1 < n
    ensures t[i..n] == t[i..q] + ['\t'] + t[q + 1..n]
    ensures '\t' !in t[i..q] && Trim(t[i..q]) != ""
    ensures FieldsAt(t, '\t', i) == [Trim(t[i..q])] + FieldsAt(t, '\t', q + 1)
  {
    assert t[i] == t[..n][i];
    assert t[q + 1] == t[..n][q + 1];
    BareDelimFields(t, '\t', i, q);
    TrimSolidHead(t[i..q]);
  }

  /** Joining a field to the fields after its tab. */
  lemma TabJoinField(fields: seq<string>, whole: string, a: string, r: string, rest: seq<string>)
    requires whole == a + ['\t'] + r && '\t' !in a && Trim(a) != ""
    requires fields == [Trim(a)] + rest && rest == TabFields(r)
    ensures fields == TabFields(whole)
  {
    TabFieldHead(a, r);
  }

  /** parseColumns on a tab-separated line. A tab is also a blank, so state
      0 skips it like a space: empty fields vanish, and `a<tab><tab>b` has
      the two fields `a` and `b`. The line must hold something besides
      blanks; an all-blank line gives the single field "". */
  lemma TabColumns(line: string)
    requires PlainChars(line) && Trim(line) != ""
    ensures Columns(line, '\t', false) == TabFields(RemoveChar(Trim(line), '\r'))
  {
    var t := Prepare(line);
    TabPrepared(line);
    TabFieldsAt(t, 0, |t| - 1);
    assert t[0..|t| - 1] == t[..|t| - 1];
  }

  /** The prepared text of such a line meets the hypothesis of the tab
      lemmas. */
  lemma TabPrepared(line: string)
    requires PlainChars(line) && Trim(line) != ""
    ensures TabText(Prepare(line))
  {
    var t := Prepare(line);
    var b := RemoveChar(Trim(line), '\r');
    TrimmedPlain(line);
    TrimmedLast(line);
    assert t[..|t| - 1] == b;
    assert t[|t| - 2] == b[|b| - 1];
  }

  /** Trimming and removing carriage returns keep the characters plain. */
  lemma TrimmedPlain(line: string)
    requires PlainChars(line)
    ensures PlainChars(RemoveChar(Trim(line), '\r'))
  {
    var u := Trim(line);
    var b := RemoveChar(u, '\r');
    var lo := TrimSlice(line);
    assert forall k :: 0 <= k < |b| ==> b[k] in u;
    assert forall k :: 0 <= k < |u| ==> u[k] == line[lo + k];
  }

  /** The last character left is the last of the trimmed line, which is
      neither a trim character nor any other blank. */
  lemma TrimmedLast(line: string)
    requires PlainChars(line) && Trim(line) != ""
    ensures var b := RemoveChar(Trim(line), '\r'); |b| > 0 && !IsBlank(b[|b| - 1])
  {
    var u := Trim(line);
    var lo := TrimSlice(line);
    var m := |u| - 1;
    assert u[m] == line[lo + m];
    assert u == u[..m] + [u[m]];
    RemoveCharAppend(u[..m], [u[m]], '\r');
    assert RemoveChar([u[m]], '\r') == [u[m]];
  }

  /** Two fields with two tabs between them. */
  lemma TabEmptyDropped(a: string, b: string)
    requires PlainChars(a + "\t\t" + b) && '\t' !in a && '\t' !in b && '\r' !in a + b
    requires |a| > 0 && |b| > 0 && !IsTrimChar(a[0]) && !IsTrimChar(b[|b| - 1])
    ensures Columns(a + "\t\t" + b, '\t', false) == [Trim(a), Trim(b)]
  {
    var line := a + "\t\t" + b;
    assert line[0] == a[0] && line[|line| - 1] == b[|b| - 1];
    TrimOfTrimmed(line);
    assert '\r' !in line;
    TabColumns(line);
    TabTwoFields(a, b);
  }

  /** The pieces of `a<tab><tab>b`: the empty one between the tabs goes. */
  lemma TabTwoFields(a: string, b: string)
    requires '\t' !in a && '\t' !in b
    requires |a| > 0 && |b| > 0 && !IsTrimChar(a[0]) && !IsTrimChar(b[|b| - 1])
    ensures TabFields(a + "\t\t" + b) == [Trim(a), Trim(b)]
  {
    assert a + "\t\t" + b == a + ['\t'] + (['\t'] + b);
    TrimSolidHead(a);
    TabFieldHead(a, ['\t'] + b);
    TabBlankHead('\t', b);
    TrimSolid(b);
    assert b[|b| - 1] in Trim(b);
    TabSingle(b);
  }
}
