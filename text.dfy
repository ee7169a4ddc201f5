/** String primitives shared by the CSV model: PHP's trim, str_replace for a
    single character, strtolower on ASCII, explode/implode, the truthiness of a
    string, and substr with a negative length. Strings are sequences of bytes,
    each byte written as the char with the same code. */
module Text {

  /** The characters PHP's trim() removes by default. */
  predicate IsTrimChar(c: char) {
    c == ' ' || c == '\t' || c == '\n' || c == '\r' || c == '\0' || c == '\U{B}'
  }

  /** PHP's `!$s` for a string: the empty string and "0" are false. */
  predicate Falsy(s: string) {
    s == "" || s == "0"
  }

  /** `$s[0] === c`, reading an empty string as having no first character. */
  predicate StartsWith(s: string, c: char) {
    |s| > 0 && s[0] == c
  }

  /** The first index in [k, hi) that does not hold a trim character (hi
      when there is none). */
  function SkipTrim(s: string, k: nat, hi: nat): (r: nat)
    requires k <= hi <= |s|
    ensures k <= r <= hi
    decreases hi - k
  {
    if k < hi && IsTrimChar(s[k]) then SkipTrim(s, k + 1, hi) else k
  }

  /** trim() of the slice s[i..j], computed on `s` itself. */
  function TrimRange(s: string, i: nat, j: nat): string
    requires i <= j <= |s|
  {
    var lo := SkipTrim(s, i, j);
    s[lo..BackTrim(s, lo, j)]
  }

  /** Going back from `k` to no further than `lo`, the end of the text once
      its trailing trim characters are cut. */
  function BackTrim(s: string, lo: nat, k: nat): (r: nat)
    requires lo <= k <= |s|
    ensures lo <= r <= k
    decreases k
  {
    if k > lo && IsTrimChar(s[k - 1]) then BackTrim(s, lo, k - 1) else k
  }

  /** PHP trim(): the text between the leading and the trailing run of trim
      characters (TrimSlice and TrimUnique state it). */
  function Trim(s: string): string
  {
    TrimRange(s, 0, |s|)
  }

  lemma {:induction false} SkipTrimFacts(s: string, k: nat, hi: nat)
    requires k <= hi <= |s|
    ensures forall m :: k <= m < SkipTrim(s, k, hi) ==> IsTrimChar(s[m])
    ensures SkipTrim(s, k, hi) < hi ==> !IsTrimChar(s[SkipTrim(s, k, hi)])
    decreases hi - k
  {
    if k < hi && IsTrimChar(s[k]) {
      SkipTrimFacts(s, k + 1, hi);
    }
  }

  lemma {:induction false} BackTrimFacts(s: string, lo: nat, k: nat)
    requires lo <= k <= |s|
    ensures forall m :: BackTrim(s, lo, k) <= m < k ==> IsTrimChar(s[m])
    ensures BackTrim(s, lo, k) > lo ==> !IsTrimChar(s[BackTrim(s, lo, k) - 1])
    decreases k
  {
    if k > lo && IsTrimChar(s[k - 1]) {
      BackTrimFacts(s, lo, k - 1);
    }
  }

  lemma {:induction false} SkipTrimAt(s: string, k: nat, lo: nat, hi: nat)
    requires k <= lo <= hi <= |s|
    requires forall m :: k <= m < lo ==> IsTrimChar(s[m])
    requires lo < hi ==> !IsTrimChar(s[lo])
    ensures SkipTrim(s, k, hi) == lo
    decreases lo - k
  {
    if k < lo {
      SkipTrimAt(s, k + 1, lo, hi);
    }
  }

  lemma {:induction false} BackTrimAt(s: string, lo: nat, hi: nat, k: nat)
    requires lo <= hi <= k <= |s|
    requires forall m :: hi <= m < k ==> IsTrimChar(s[m])
    requires hi > lo ==> !IsTrimChar(s[hi - 1])
    ensures BackTrim(s, lo, k) == hi
    decreases k
  {
    if k > hi {
      BackTrimAt(s, lo, hi, k - 1);
    }
  }

  /** What trim() cuts off is trim characters only, what it keeps is one
      contiguous slice of the input, and that slice neither starts nor ends
      with a trim character. */
  lemma TrimSlice(s: string) returns (lo: nat)
    ensures lo + |Trim(s)| <= |s| && Trim(s) == s[lo..lo + |Trim(s)|]
    ensures forall i :: 0 <= i < lo ==> IsTrimChar(s[i])
    ensures forall i :: lo + |Trim(s)| <= i < |s| ==> IsTrimChar(s[i])
    ensures Trim(s) == [] || (!IsTrimChar(Trim(s)[0]) && !IsTrimChar(Trim(s)[|Trim(s)| - 1]))
  {
    lo := SkipTrim(s, 0, |s|);
    var hi := BackTrim(s, lo, |s|);
    SkipTrimFacts(s, 0, |s|);
    BackTrimFacts(s, lo, |s|);
    assert Trim(s) == s[lo..hi];
  }

  /** Any split of `s` into trim characters, a slice that neither starts nor
      ends with one, and trim characters is the one trim() makes. */
  lemma TrimUnique(s: string, lo: nat, hi: nat)
    requires lo <= hi <= |s|
    requires forall m :: 0 <= m < lo ==> IsTrimChar(s[m])
    requires forall m :: hi <= m < |s| ==> IsTrimChar(s[m])
    requires lo < hi ==> !IsTrimChar(s[lo]) && !IsTrimChar(s[hi - 1])
    ensures Trim(s) == s[lo..hi]
  {
    if lo < hi {
      SkipTrimAt(s, 0, lo, |s|);
      BackTrimAt(s, lo, hi, |s|);
    } else {
      SkipTrimAt(s, 0, |s|, |s|);
      assert BackTrim(s, |s|, |s|) == |s|;
    }
  }

  /** TrimRange is trim() of the slice. */
  lemma {:induction false} TrimRangeSlice(s: string, i: nat, j: nat)
    requires i <= j <= |s|
    ensures TrimRange(s, i, j) == Trim(s[i..j])
  {
    var lo := SkipTrim(s, i, j);
    var hi := BackTrim(s, lo, j);
    SkipTrimFacts(s, i, j);
    BackTrimFacts(s, lo, j);
    var u := s[i..j];
    assert forall m :: 0 <= m < |u| ==> u[m] == s[i + m];
    TrimUnique(u, lo - i, hi - i);
    assert forall m :: 0 <= m < hi - lo ==> u[lo - i..hi - i][m] == s[lo..hi][m];
  }

  lemma TrimIdempotent(s: string)
    ensures Trim(Trim(s)) == Trim(s)
  {
    var lo := TrimSlice(s);
    TrimOfTrimmed(Trim(s));
  }

  /** A string without trim characters at either end is its own trim. */
  lemma TrimOfTrimmed(s: string)
    requires s == [] || (!IsTrimChar(s[0]) && !IsTrimChar(s[|s| - 1]))
    ensures Trim(s) == s
  {
    TrimUnique(s, 0, |s|);
  }

  /** A string made of trim characters only trims to the empty string. */
  lemma TrimAllBlank(s: string)
    requires forall i :: 0 <= i < |s| ==> IsTrimChar(s[i])
    ensures Trim(s) == ""
  {
    TrimUnique(s, 0, 0);
  }

  /** trim() keeps exactly the characters that are not trim characters, and
      brings in none: it is empty exactly when the text is all trim characters. */
  lemma TrimSolid(s: string)
    ensures forall x :: x in Trim(s) ==> x in s
    ensures forall i :: 0 <= i < |s| && !IsTrimChar(s[i]) ==> s[i] in Trim(s)
    ensures Trim(s) == "" <==> forall i :: 0 <= i < |s| ==> IsTrimChar(s[i])
  {
    var lo := TrimSlice(s);
    var t := Trim(s);
    assert forall m :: 0 <= m < |t| ==> t[m] == s[lo + m];
    forall i | 0 <= i < |s| && !IsTrimChar(s[i])
      ensures s[i] in t
    {
      assert lo <= i < lo + |t|;
      assert t[i - lo] == s[i];
    }
  }

  /** A leading trim character does not change the trimmed text. */
  lemma TrimBlankHead(c: char, s: string)
    requires IsTrimChar(c)
    ensures Trim([c] + s) == Trim(s)
  {
    var lo := TrimSlice(s);
    var hi := lo + |Trim(s)|;
    var cs := [c] + s;
    if lo < hi {
      TrimUnique(cs, lo + 1, hi + 1);
      assert cs[lo + 1..hi + 1] == s[lo..hi];
    } else {
      TrimUnique(cs, 0, 0);
      TrimAllBlank(s);
    }
  }

  /** A text that starts with a character trim() keeps trims to a non-empty
      text. */
  lemma TrimSolidHead(s: string)
    requires |s| > 0 && !IsTrimChar(s[0])
    ensures Trim(s) != ""
  {
    var lo := TrimSlice(s);
  }

  /** str_replace(c, '', s). */
  function RemoveChar(s: string, c: char): (r: string)
    ensures |r| <= |s|
    ensures forall x :: x in r <==> x in s && x != c
    ensures c !in s ==> r == s
  {
    if |s| == 0 then ""
    else if s[0] == c then RemoveChar(s[1..], c)
    else [s[0]] + RemoveChar(s[1..], c)
  }

  lemma {:induction false} RemoveCharAppend(a: string, b: string, c: char)
    ensures RemoveChar(a + b, c) == RemoveChar(a, c) + RemoveChar(b, c)
  {
    if |a| > 0 {
      assert (a + b)[1..] == a[1..] + b;
      RemoveCharAppend(a[1..], b, c);
    } else {
      assert a + b == b;
    }
  }

  /** str_replace(c, c + c, s): every occurrence of `c` doubled. */
  function Double(s: string, c: char): (r: string)
    ensures |r| >= |s|
    ensures c !in s ==> r == s
  {
    if |s| == 0 then ""
    else if s[0] == c then [c, c] + Double(s[1..], c)
    else [s[0]] + Double(s[1..], c)
  }

  /** The inverse of Double: a doubled `c` collapses to one. */
  function Undouble(s: string, c: char): (r: string)
    ensures |r| <= |s|
    decreases |s|
  {
    if |s| >= 2 && s[0] == c && s[1] == c then [c] + Undouble(s[2..], c)
    else if |s| == 0 then ""
    else [s[0]] + Undouble(s[1..], c)
  }

  /** Doubling can always be undone: the escaped text determines the value. */
  lemma {:induction false} UndoubleDouble(s: string, c: char)
    ensures Undouble(Double(s, c), c) == s
  {
    if |s| > 0 {
      UndoubleDouble(s[1..], c);
      if s[0] == c {
        assert Double(s, c)[2..] == Double(s[1..], c);
      } else {
        assert Double(s, c)[1..] == Double(s[1..], c);
      }
    }
  }

  function LowerChar(c: char): (r: char)
    ensures 'A' <= c <= 'Z' ==> r as int == c as int + 32
    ensures !('A' <= c <= 'Z') ==> r == c
  {
    if 'A' <= c <= 'Z' then (c as int + 32) as char else c
  }

  /** PHP 8 strtolower(): ASCII letters only. */
  function ToLower(s: string): (r: string)
    ensures |r| == |s|
    ensures forall i :: 0 <= i < |s| ==> r[i] == LowerChar(s[i])
    ensures forall i :: 0 <= i < |r| ==> !('A' <= r[i] <= 'Z')
  {
    if |s| == 0 then "" else [LowerChar(s[0])] + ToLower(s[1..])
  }

  /** Lower-casing leaves exactly the texts without upper-case letters unchanged. */
  lemma ToLowerFixed(s: string)
    ensures ToLower(s) == s <==> forall i :: 0 <= i < |s| ==> !('A' <= s[i] <= 'Z')
  {
    if forall i :: 0 <= i < |s| ==> !('A' <= s[i] <= 'Z') {
      assert forall i :: 0 <= i < |s| ==> ToLower(s)[i] == s[i];
    }
  }

  lemma ToLowerIdempotent(s: string)
    ensures ToLower(ToLower(s)) == ToLower(s)
  {
    ToLowerFixed(ToLower(s));
  }

  /** implode(sep, parts). */
  function Join(parts: seq<string>, sep: string): (r: string)
    ensures |parts| == 1 ==> r == parts[0]
    ensures |parts| == 0 ==> r == ""
  {
    if |parts| == 0 then ""
    else if |parts| == 1 then parts[0]
    else parts[0] + sep + Join(parts[1..], sep)
  }

  lemma {:induction false} JoinSnoc(parts: seq<string>, p: string, sep: string)
    requires |parts| > 0
    ensures Join(parts + [p], sep) == Join(parts, sep) + sep + p
  {
    if |parts| == 1 {
      assert parts + [p] == [parts[0], p];
      assert (parts + [p])[1..] == [p];
    } else {
      assert (parts + [p])[1..] == parts[1..] + [p];
      JoinSnoc(parts[1..], p, sep);
    }
  }

  lemma JoinConsHead(a: string, b: string, rest: seq<string>, sep: string)
    ensures Join([a + b] + rest, sep) == a + Join([b] + rest, sep)
  {
    if |rest| > 0 {
      assert ([a + b] + rest)[1..] == rest;
      assert ([b] + rest)[1..] == rest;
    }
  }

  /** explode(c, s): the pieces between the occurrences of `c`. */
  function Split(s: string, c: char): (r: seq<string>)
    ensures |r| >= 1
  {
    if |s| == 0 then [""]
    else
      var rest := Split(s[1..], c);
      if s[0] == c then [""] + rest
      else [[s[0]] + rest[0]] + rest[1..]
  }

  /** No piece of explode contains the separator. */
  lemma {:induction false} SplitPieces(s: string, c: char)
    ensures forall i :: 0 <= i < |Split(s, c)| ==> c !in Split(s, c)[i]
  {
    if |s| > 0 {
      SplitPieces(s[1..], c);
    }
  }

  /** Joining the pieces of explode with the separator gives the text back. */
  lemma {:induction false} JoinSplit(s: string, c: char)
    ensures Join(Split(s, c), [c]) == s
  {
    if |s| > 0 {
      JoinSplit(s[1..], c);
      var rest := Split(s[1..], c);
      if s[0] == c {
        assert Split(s, c) == [""] + rest;
        assert ([""] + rest)[1..] == rest;
        calc {
          Join([""] + rest, [c]);
          "" + [c] + Join(rest, [c]);
          { assert "" + [c] == [c]; }
          [c] + s[1..];
          s;
        }
      } else {
        assert Split(s, c) == [[s[0]] + rest[0]] + rest[1..];
        JoinConsHead([s[0]], rest[0], rest[1..], [c]);
        assert [rest[0]] + rest[1..] == rest;
        assert [s[0]] + s[1..] == s;
      }
    }
  }

  /** The first piece of explode is the text before the first separator, and
      there is a single piece exactly when the separator does not occur. */
  lemma {:induction false} SplitFirst(s: string, c: char)
    ensures var r := Split(s, c);
            |r[0]| <= |s| && s[..|r[0]|] == r[0] && (|r[0]| < |s| ==> s[|r[0]|] == c)
            && (|r| == 1 <==> c !in s)
  {
    if |s| > 0 {
      SplitFirst(s[1..], c);
      var rest := Split(s[1..], c);
      if s[0] != c {
        assert Split(s, c)[0] == [s[0]] + rest[0];
        assert |Split(s, c)| == |rest|;
        assert c in s <==> c in s[1..];
      }
    }
  }

  /** Splitting a join of separator-free pieces gives the pieces back. */
  lemma {:induction false} SplitJoin(parts: seq<string>, c: char)
    requires |parts| >= 1
    requires forall i :: 0 <= i < |parts| ==> c !in parts[i]
    ensures Split(Join(parts, [c]), c) == parts
  {
    if |parts| == 1 {
      SplitNoSep(parts[0], c);
    } else {
      SplitJoin(parts[1..], c);
      SplitSepAfter(parts[0], Join(parts[1..], [c]), c);
      assert [parts[0]] + parts[1..] == parts;
    }
  }

  lemma {:induction false} SplitNoSep(s: string, c: char)
    requires c !in s
    ensures Split(s, c) == [s]
  {
    if |s| > 0 {
      SplitNoSep(s[1..], c);
      assert [s[0]] + s[1..] == s;
      assert Split(s, c) == [[s[0]] + s[1..]] + [];
    }
  }

  lemma {:induction false} SplitSepAfter(a: string, b: string, c: char)
    requires c !in a
    ensures Split(a + [c] + b, c) == [a] + Split(b, c)
  {
    if |a| == 0 {
      assert a + [c] + b == [c] + b;
      assert ([c] + b)[1..] == b;
    } else {
      assert (a + [c] + b)[1..] == a[1..] + [c] + b;
      SplitSepAfter(a[1..], b, c);
      assert [a[0]] + a[1..] == a;
    }
  }

  /** Each part followed by `sep`: what a loop of `$s .= $part . $sep` builds. */
  function Terminated(parts: seq<string>, sep: string): string
  {
    if |parts| == 0 then "" else parts[0] + sep + Terminated(parts[1..], sep)
  }

  lemma {:induction false} TerminatedSnoc(parts: seq<string>, p: string, sep: string)
    ensures Terminated(parts + [p], sep) == Terminated(parts, sep) + p + sep
  {
    if |parts| == 0 {
      assert parts + [p] == [p];
    } else {
      assert (parts + [p])[1..] == parts[1..] + [p];
      TerminatedSnoc(parts[1..], p, sep);
    }
  }

  /** Appending a part and a separator to text that ends in terminated parts. */
  lemma TerminatedAfter(prefix: string, parts: seq<string>, p: string, sep: string)
    ensures prefix + Terminated(parts + [p], sep) == prefix + Terminated(parts, sep) + p + sep
  {
    TerminatedSnoc(parts, p, sep);
    var t := Terminated(parts, sep);
    assert prefix + (t + p + sep) == prefix + t + p + sep;
  }

  /** Dropping the separator after the last part leaves the parts joined. */
  lemma {:induction false} TerminatedJoin(parts: seq<string>, sep: string)
    requires |parts| > 0
    ensures Terminated(parts, sep) == Join(parts, sep) + sep
  {
    if |parts| > 1 {
      TerminatedJoin(parts[1..], sep);
    } else {
      assert parts[1..] == [];
    }
  }

  lemma DropTerminator(prefix: string, parts: seq<string>, sep: string)
    requires |parts| > 0
    ensures DropLast(prefix + Terminated(parts, sep), |sep|) == prefix + Join(parts, sep)
  {
    TerminatedJoin(parts, sep);
    var s := prefix + Terminated(parts, sep);
    assert s == prefix + Join(parts, sep) + sep;
    assert s[..|s| - |sep|] == prefix + Join(parts, sep);
  }

  /** substr(s, 0, -n): `s` without its last `n` characters, empty when `s` is shorter. */
  function DropLast(s: string, n: nat): (r: string)
    ensures n <= |s| ==> |r| == |s| - n && s == r + s[|r|..]
    ensures n > |s| ==> r == ""
  {
    if n <= |s| then s[..|s| - n] else ""
  }

  /** A suffix that is an item followed by a rest. */
  lemma SuffixCons<T>(xs: seq<T>, i: nat, x: T, rest: seq<T>)
    requires i <= |xs| && xs[i..] == [x] + rest
    ensures i < |xs| && xs[i] == x && xs[i + 1..] == rest
  {
    assert xs[i..][0] == x;
    assert xs[i + 1..] == xs[i..][1..];
  }

  /** A slice of the second part of a concatenation. */
  lemma SliceAfter<T>(a: seq<T>, b: seq<T>, i: nat, j: nat)
    requires i <= j <= |b|
    ensures (a + b)[|a| + i..|a| + j] == b[i..j]
  {
  }

  lemma AppendAssoc<T>(a: seq<T>, b: seq<T>, c: seq<T>)
    ensures a + (b + c) == a + b + c
  {
  }

  function Reversed<T>(s: seq<T>): (r: seq<T>)
    ensures |r| == |s|
    ensures forall i :: 0 <= i < |s| ==> r[i] == s[|s| - 1 - i]
  {
    if |s| == 0 then [] else Reversed(s[1..]) + [s[0]]
  }

  /** Putting an item last puts it first in the reversal. */
  lemma ReversedSnoc<T>(s: seq<T>, x: T)
    ensures Reversed(s + [x]) == [x] + Reversed(s)
  {
    var r := Reversed(s + [x]);
    assert forall i :: 0 <= i < |r| ==> r[i] == ([x] + Reversed(s))[i];
  }
}
