/** The logical-line reader of the CSV loader (CsvUtils::parseLine). The byte
    stream is a string and the file position a cursor into it. A newline ends
    the line unless it lies inside a quoted section; quote tracking uses three
    states, and a doubled quote re-enters the quoted section. */
module LineReader {
  import opened Wrappers
  import Text

  /** The UTF-8 byte-order mark, one char per byte. */
  const BOM: string := ['\U{EF}', '\U{BB}', '\U{BF}']

  /** str_replace(BOM, '', s): occurrences are removed left to right and the
      result is not scanned again. */
  function RemoveBom(s: string): (r: string)
    ensures |r| <= |s|
    ensures '\U{EF}' !in s ==> r == s
  {
    if |s| < 3 then s
    else if s[0] == '\U{EF}' && s[1] == '\U{BB}' && s[2] == '\U{BF}' then RemoveBom(s[3..])
    else [s[0]] + RemoveBom(s[1..])
  }

  /** A byte-order mark is removed wherever it occurs, not only at the start:
      text in front of it that holds no 0xEF byte is kept as it is. */
  lemma {:induction false} RemoveBomAnywhere(a: string, b: string)
    requires '\U{EF}' !in a
    ensures RemoveBom(a + BOM + b) == a + RemoveBom(b)
    decreases |a|, 1
  {
    if |a| == 0 {
      assert a + BOM + b == BOM + b;
      RemoveBomHead(b);
    } else {
      RemoveBomAnywhereStep(a, b);
    }
  }

  lemma {:induction false} RemoveBomAnywhereStep(a: string, b: string)
    requires |a| > 0 && '\U{EF}' !in a
    ensures RemoveBom(a + BOM + b) == a + RemoveBom(b)
    decreases |a|, 0
  {
    var rest := a[1..] + BOM + b;
    assert a[0] in a;
    assert a + BOM + b == [a[0]] + rest;
    RemoveBomCons(a[0], rest);
    RemoveBomAnywhere(a[1..], b);
    assert a == [a[0]] + a[1..];
    Text.AppendAssoc([a[0]], a[1..], RemoveBom(b));
  }

  /** A leading byte-order mark is removed. */
  lemma RemoveBomHead(b: string)
    ensures RemoveBom(BOM + b) == RemoveBom(b)
  {
    var s := BOM + b;
    assert s[0] == '\U{EF}' && s[1] == '\U{BB}' && s[2] == '\U{BF}';
    assert s[3..] == b;
  }

  /** A first character other than 0xEF is kept. */
  lemma RemoveBomCons(c: char, rest: string)
    requires c != '\U{EF}' && |rest| >= 2
    ensures RemoveBom([c] + rest) == [c] + RemoveBom(rest)
  {
    assert ([c] + rest)[1..] == rest;
  }

  function QuoteCount(s: string): nat
  {
    if |s| == 0 then 0
    else QuoteCount(s[..|s| - 1]) + (if s[|s| - 1] == '"' then 1 else 0)
  }

  lemma {:induction false} QuoteCountAppend(a: string, b: string)
    ensures QuoteCount(a + b) == QuoteCount(a) + QuoteCount(b)
  {
    if |b| > 0 {
      assert (a + b)[..|a + b| - 1] == a + b[..|b| - 1];
      QuoteCountAppend(a, b[..|b| - 1]);
    } else {
      assert a + b == a;
    }
  }

  /** The newline at `k` ends the line that starts at `pos`: an even number of
      quotes precedes it on that line, so it is outside any quoted section. */
  predicate Closes(s: string, pos: nat, k: nat)
    requires pos <= k
  {
    k < |s| && s[k] == '\n' && QuoteCount(s[pos..k]) % 2 == 0
  }

  /** The first index at or after `k` where the line from `pos` ends, or |s|. */
  function LineEndFrom(s: string, pos: nat, k: nat): (e: nat)
    requires pos <= k <= |s|
    ensures k <= e <= |s|
    decreases |s| - k
  {
    if k == |s| then |s|
    else if Closes(s, pos, k) then k
    else LineEndFrom(s, pos, k + 1)
  }

  /** The scan stops at the first newline from `k` on that ends the line,
      and at the end of the stream when there is none. */
  lemma {:induction false} LineEndFacts(s: string, pos: nat, k: nat)
    requires pos <= k <= |s|
    ensures LineEndFrom(s, pos, k) < |s| ==> Closes(s, pos, LineEndFrom(s, pos, k))
    ensures forall m :: k <= m < LineEndFrom(s, pos, k) ==> !Closes(s, pos, m)
    decreases |s| - k
  {
    if k < |s| && !Closes(s, pos, k) {
      LineEndFacts(s, pos, k + 1);
    }
  }

  /** Where the raw line starting at `pos` ends (its newline is not part of it). */
  function LineEnd(s: string, pos: nat): nat
    requires pos <= |s|
  {
    LineEndFrom(s, pos, pos)
  }

  /** Where the following line starts: after the newline, or at the end. */
  function NextStart(s: string, pos: nat): (n: nat)
    requires pos <= |s|
    ensures pos < |s| ==> pos < n <= |s|
  {
    var e := LineEnd(s, pos);
    if e < |s| then e + 1 else |s|
  }

  datatype QuoteState = Normal | InQuotes | QuoteSeen

  /** CsvUtils::parseLine on the stream `s` read from `pos`: None stands for
      PHP's `false` at the end of the input. */
  method ReadLine(s: string, pos: nat) returns (line: Option<string>, next: nat)
    requires pos <= |s|
    ensures pos == |s| ==> line == None && next == pos
    ensures pos < |s| ==> line == Some(RemoveBom(s[pos..LineEnd(s, pos)])) && next == NextStart(s, pos)
  {
    var state := Normal;
    var str := "";
    var i := pos;
    while true
      invariant pos <= i <= |s|
      invariant str == s[pos..i]
      invariant state == InQuotes <==> QuoteCount(s[pos..i]) % 2 == 1
      invariant forall m :: pos <= m < i ==> !Closes(s, pos, m)
      invariant LineEnd(s, pos) == LineEndFrom(s, pos, i)
      decreases |s| - i
    {
      if i == |s| {
        if str == "" {
          return None, i;
        }
        return Some(RemoveBom(str)), i;
      }
      var ch := s[i];
      assert s[pos..i + 1] == s[pos..i] + [ch];
      assert QuoteCount(s[pos..i + 1]) == QuoteCount(s[pos..i]) + (if ch == '"' then 1 else 0);
      if state == Normal && ch == '\n' {
        assert Closes(s, pos, i);
        return Some(RemoveBom(str)), i + 1;
      }
      match state {
        case Normal =>
          if ch == '"' { state := InQuotes; }
        case InQuotes =>
          if ch == '"' { state := QuoteSeen; }
        case QuoteSeen =>
          state := if ch == '"' then InQuotes else Normal;
          if state == Normal && ch == '\n' {
            assert Closes(s, pos, i);
            return Some(RemoveBom(str)), i + 1;
          }
      }
      str := str + [ch];
      i := i + 1;
    }
  }

  /** Every logical line of `s` from `pos` on, as successive ReadLine calls
      return them until the end of the input. */
  function LinesFrom(s: string, pos: nat): seq<string>
    requires pos <= |s|
    decreases |s| - pos
  {
    if pos == |s| then []
    else [RemoveBom(s[pos..LineEnd(s, pos)])] + LinesFrom(s, NextStart(s, pos))
  }

  /** The first line, then the lines after it. */
  lemma LinesFromNext(s: string, pos: nat)
    requires pos < |s|
    ensures pos < NextStart(s, pos) <= |s|
    ensures LinesFrom(s, pos) == [RemoveBom(s[pos..LineEnd(s, pos)])] + LinesFrom(s, NextStart(s, pos))
  {
  }

  function Lines(s: string): seq<string>
  {
    LinesFrom(s, 0)
  }

  /** An empty stream has no lines; any other has at least one, even if it
      holds nothing but a newline. */
  lemma LinesEmpty(s: string)
    ensures |Lines(s)| == 0 <==> |s| == 0
  {
  }

  /** A newline read outside quotes right at the start gives the blank line,
      not the end of the input. */
  lemma BlankLine(s: string, pos: nat)
    requires pos < |s| && s[pos] == '\n'
    ensures LineEnd(s, pos) == pos && NextStart(s, pos) == pos + 1
    ensures LinesFrom(s, pos) == [""] + LinesFrom(s, pos + 1)
  {
    assert s[pos..pos] == "";
    assert Closes(s, pos, pos);
  }

  /** A newline with an odd number of quotes before it on its line is kept in
      the line. */
  lemma QuotedNewlineKept(s: string, pos: nat, k: nat)
    requires pos <= k < |s| && s[k] == '\n' && QuoteCount(s[pos..k]) % 2 == 1
    requires forall m :: pos <= m < k ==> !Closes(s, pos, m)
    ensures k < LineEnd(s, pos)
  {
    LineEndFacts(s, pos, pos);
  }

  /** Lines do not depend on what precedes their start. */
  lemma {:induction false} LineEndFromShift(a: string, b: string, pos: nat, k: nat)
    requires pos <= k <= |b|
    ensures LineEndFrom(a + b, |a| + pos, |a| + k) == |a| + LineEndFrom(b, pos, k)
    decreases |b| - k
  {
    if k < |b| {
      assert (a + b)[|a| + pos..|a| + k] == b[pos..k];
      assert Closes(a + b, |a| + pos, |a| + k) == Closes(b, pos, k);
      if !Closes(b, pos, k) {
        LineEndFromShift(a, b, pos, k + 1);
      }
    }
  }

  /** With `a` before it, the line of `b` at `pos` is read the same, and
      reading goes on at the same place in `b`. */
  lemma FirstLineShift(a: string, b: string, pos: nat)
    requires pos < |b|
    ensures LinesFrom(a + b, |a| + pos)
            == [RemoveBom(b[pos..LineEnd(b, pos)])] + LinesFrom(a + b, |a| + NextStart(b, pos))
  {
    LineEndShift(a, b, pos);
    Text.SliceAfter(a, b, pos, LineEnd(b, pos));
    LinesFromCons(a + b, |a| + pos, |a| + NextStart(b, pos), b[pos..LineEnd(b, pos)]);
  }

  lemma LineEndShift(a: string, b: string, pos: nat)
    requires pos <= |b|
    ensures LineEnd(a + b, |a| + pos) == |a| + LineEnd(b, pos)
    ensures NextStart(a + b, |a| + pos) == |a| + NextStart(b, pos)
  {
    LineEndFromShift(a, b, pos, pos);
  }

  lemma {:induction false} LinesFromShift(a: string, b: string, pos: nat)
    requires pos <= |b|
    ensures LinesFrom(a + b, |a| + pos) == LinesFrom(b, pos)
    decreases |b| - pos, 1
  {
    if pos < |b| {
      LinesFromShiftStep(a, b, pos);
    } else {
      LinesFromEnd(a + b, |a| + pos);
      LinesFromEnd(b, pos);
    }
  }

  /** The first line is the same, and the rest by induction. */
  lemma {:induction false} LinesFromShiftStep(a: string, b: string, pos: nat)
    requires pos < |b|
    ensures LinesFrom(a + b, |a| + pos) == LinesFrom(b, pos)
    decreases |b| - pos, 0
  {
    var n := NextStart(b, pos);
    FirstLineShift(a, b, pos);
    LinesFromCons(b, pos, n, b[pos..LineEnd(b, pos)]);
    LinesFromShift(a, b, n);
  }

  /** LinesFromNext with the first raw line and the next start given. */
  lemma LinesFromCons(s: string, pos: nat, next: nat, line: string)
    requires pos < |s| && NextStart(s, pos) == next
    requires s[pos..LineEnd(s, pos)] == line
    ensures next <= |s|
    ensures LinesFrom(s, pos) == [RemoveBom(line)] + LinesFrom(s, next)
  {
    LinesFromNext(s, pos);
  }

  /** No line starts at the end. */
  lemma LinesFromEnd(s: string, pos: nat)
    requires pos == |s|
    ensures LinesFrom(s, pos) == []
  {
  }

  /** A line that can stand alone in a file: any newline in it is inside
      quotes, and its quotes are balanced. */
  ghost predicate WellQuoted(l: string)
  {
    QuoteCount(l) % 2 == 0 &&
    forall k :: 0 <= k < |l| && l[k] == '\n' ==> QuoteCount(l[..k]) % 2 == 1
  }

  function MapRemoveBom(ls: seq<string>): (r: seq<string>)
    ensures |r| == |ls|
    ensures forall i :: 0 <= i < |ls| ==> r[i] == RemoveBom(ls[i])
  {
    if |ls| == 0 then [] else [RemoveBom(ls[0])] + MapRemoveBom(ls[1..])
  }

  /** Writing well-quoted lines, each with its newline, and reading the result
      back gives the same lines (byte-order marks removed). */
  lemma {:induction false} LinesOfTerminated(ls: seq<string>)
    requires forall i :: 0 <= i < |ls| ==> WellQuoted(ls[i])
    ensures Lines(Text.Terminated(ls, "\n")) == MapRemoveBom(ls)
  {
    if |ls| > 0 {
      var l := ls[0];
      var t := Text.Terminated(ls[1..], "\n");
      var s := l + "\n" + t;
      assert s == Text.Terminated(ls, "\n");
      FirstLine(l, t);
      LinesFromShift(l + "\n", t, 0);
      LinesOfTerminated(ls[1..]);
      assert Lines(s) == [RemoveBom(l)] + LinesFrom(s, |l| + 1);
    }
  }

  /** A well-quoted line followed by its newline is read back as one line. */
  lemma FirstLine(l: string, t: string)
    requires WellQuoted(l)
    ensures LineEnd(l + "\n" + t, 0) == |l|
    ensures NextStart(l + "\n" + t, 0) == |l| + 1
    ensures (l + "\n" + t)[0..|l|] == l
    ensures l + "\n" + t == (l + "\n") + t
  {
    var s := l + "\n" + t;
    assert s[0..|l|] == l;
    forall m | 0 <= m < |l|
      ensures !Closes(s, 0, m)
    {
      assert s[0..m] == l[..m];
      assert s[m] == l[m];
    }
    assert Closes(s, 0, |l|);
    LineEndFacts(s, 0, 0);
  }
}
