/**
 * Character classes and the string routines the script relies on:
 * Python's whitespace test, `int()` of a digit run, `f"{n}"` for a
 * non-negative integer, `str.strip()`, and `"\n".join` with its inverse.
 */
module Text {

  /** Python's `str.isspace()`: the characters a `\s` in a str pattern
      matches and that `str.strip()` removes. */
  predicate IsSpace(c: char)
    ensures c == ' ' || c == '\t' || c == '\n' || c == '\r' ==> IsSpace(c)
    ensures IsSpace(c) ==> !IsDigit(c) && c != ':' && c != '\'' && c != '.'
  {
    var n := c as int;
    || (0x09 <= n <= 0x0D) || (0x1C <= n <= 0x20)
    || n == 0x85 || n == 0xA0 || n == 0x1680
    || (0x2000 <= n <= 0x200A)
    || n == 0x2028 || n == 0x2029 || n == 0x202F || n == 0x205F || n == 0x3000
  }

  /** An ASCII decimal digit. */
  predicate IsDigit(c: char)
  {
    '0' <= c <= '9'
  }

  predicate AllSpace(s: string)
  {
    forall i :: 0 <= i < |s| ==> IsSpace(s[i])
  }

  predicate AllDigits(s: string)
  {
    forall i :: 0 <= i < |s| ==> IsDigit(s[i])
  }

  function DigitValue(c: char): (d: nat)
    requires IsDigit(c)
    ensures d < 10
  {
    (c as int) - ('0' as int)
  }

  function DigitChar(d: nat): (c: char)
    requires d < 10
    ensures IsDigit(c) && DigitValue(c) == d
  {
    (('0' as int) + d) as char
  }

  function Pow10(n: nat): (p: nat)
    ensures p >= 1
  {
    if n == 0 then 1 else 10 * Pow10(n - 1)
  }

  /** `int(s)` for a run of decimal digits; the empty run is worth 0. An
      `n`-digit run is worth less than 10^n, and at least 10^(n-1) when it
      does not start with a zero. */
  function DecimalValue(s: string): (v: nat)
    requires AllDigits(s)
    ensures v < Pow10(|s|)
    ensures |s| > 0 && s[0] != '0' ==> Pow10(|s| - 1) <= v
    decreases |s|
  {
    if |s| == 0 then 0
    else
      var init := s[..|s| - 1];
      assert |init| > 0 ==> init[0] == s[0];
      DecimalValue(init) * 10 + DigitValue(s[|s| - 1])
  }

  /** A digit string as `f"{n}"` prints it: non-empty, no leading zero. */
  predicate IsCanonicalDecimal(s: string)
  {
    && |s| > 0
    && AllDigits(s)
    && (|s| > 1 ==> s[0] != '0')
  }

  /** `f"{n}"` for a non-negative integer. */
  function NatToString(n: nat): (r: string)
    ensures IsCanonicalDecimal(r)
    ensures DecimalValue(r) == n
    decreases n
  {
    if n < 10 then [DigitChar(n)]
    else
      var p := NatToString(n / 10);
      var r := p + [DigitChar(n % 10)];
      assert r[..|r| - 1] == p;
      r
  }

  /** A leading zero does not change the value of a digit run. */
  lemma {:induction false} LeadingZero(s: string)
    requires AllDigits(s)
    ensures AllDigits("0" + s) && DecimalValue("0" + s) == DecimalValue(s)
    decreases |s|
  {
    var z := "0" + s;
    assert AllDigits(z) by {
      forall i | 0 <= i < |z| ensures IsDigit(z[i]) {
        if i > 0 { assert z[i] == s[i - 1]; }
      }
    }
    if |s| > 0 {
      var init := s[..|s| - 1];
      assert z[..|z| - 1] == "0" + init;
      LeadingZero(init);
    }
  }

  /** Printing the value of a canonical digit string gives it back. */
  lemma {:induction false} NatToStringOfValue(s: string)
    requires IsCanonicalDecimal(s)
    ensures NatToString(DecimalValue(s)) == s
    decreases |s|
  {
    if |s| > 1 {
      var init, last := s[..|s| - 1], s[|s| - 1];
      assert s == init + [last];
      assert init[0] == s[0];
      NatToStringOfValue(init);
      DecimalValueAppend(init, last);
      NatToStringAppend(DecimalValue(init), DigitValue(last));
      DigitCharOfValue(last);
    }
  }

  /** The value of a digit run with one more digit at its end. */
  lemma DecimalValueAppend(init: string, last: char)
    requires IsCanonicalDecimal(init) && init[0] != '0' && IsDigit(last)
    ensures AllDigits(init + [last])
    ensures DecimalValue(init) >= 1
    ensures DecimalValue(init + [last]) == DecimalValue(init) * 10 + DigitValue(last)
  {
    var s := init + [last];
    assert s[..|s| - 1] == init;
  }

  /** Printing a number with a last digit `d` appends `d` to the printed
      rest. */
  lemma NatToStringAppend(v: nat, d: nat)
    requires v >= 1 && d < 10
    ensures NatToString(v * 10 + d) == NatToString(v) + [DigitChar(d)]
  {
    AppendDigit(v, d);
  }

  /** Appending a digit `d` to a positive `v` gives a number of at least two
      digits whose quotient and remainder by 10 are `v` and `d`. */
  lemma AppendDigit(v: nat, d: nat)
    requires v >= 1 && d < 10
    ensures v * 10 + d >= 10 && (v * 10 + d) / 10 == v && (v * 10 + d) % 10 == d
  {
  }

  lemma DigitCharOfValue(c: char)
    requires IsDigit(c)
    ensures DigitChar(DigitValue(c)) == c
  {
  }

  /** The first index at or after `i` holding `c`, or `|s|` when there is none. */
  function NextIndex(s: string, c: char, i: nat): (j: nat)
    requires i <= |s|
    ensures i <= j <= |s|
    ensures j < |s| ==> s[j] == c
    ensures forall k :: i <= k < j ==> s[k] != c
    decreases |s| - i
  {
    if i == |s| || s[i] == c then i else NextIndex(s, c, i + 1)
  }

  /** The properties NextIndex states single out one index. */
  lemma NextIndexUnique(s: string, c: char, i: nat, j: nat)
    requires i <= j <= |s|
    requires j < |s| ==> s[j] == c
    requires forall k :: i <= k < j ==> s[k] != c
    ensures NextIndex(s, c, i) == j
  {
  }

  /** Scanning `x + t` from inside `t` finds what scanning `t` finds. */
  lemma NextIndexShift(x: string, t: string, c: char, i: nat)
    requires i <= |t|
    ensures NextIndex(x + t, c, |x| + i) == |x| + NextIndex(t, c, i)
  {
    var j := NextIndex(t, c, i);
    NextIndexUnique(x + t, c, |x| + i, |x| + j);
  }

  /** Where a greedy `\s*` starting at `i` stops. */
  function SkipSpaces(s: string, i: nat): (j: nat)
    requires i <= |s|
    ensures i <= j <= |s|
    ensures forall k :: i <= k < j ==> IsSpace(s[k])
    ensures j < |s| ==> !IsSpace(s[j])
    decreases |s| - i
  {
    if i == |s| || !IsSpace(s[i]) then i else SkipSpaces(s, i + 1)
  }

  /** Where a greedy `\d*` starting at `i` stops. */
  function SkipDigits(s: string, i: nat): (j: nat)
    requires i <= |s|
    ensures i <= j <= |s|
    ensures forall k :: i <= k < j ==> IsDigit(s[k])
    ensures j < |s| ==> !IsDigit(s[j])
    decreases |s| - i
  {
    if i == |s| || !IsDigit(s[i]) then i else SkipDigits(s, i + 1)
  }

  lemma SkipSpacesUnique(s: string, i: nat, j: nat)
    requires i <= j <= |s|
    requires forall k :: i <= k < j ==> IsSpace(s[k])
    requires j < |s| ==> !IsSpace(s[j])
    ensures SkipSpaces(s, i) == j
  {
  }

  lemma SkipDigitsUnique(s: string, i: nat, j: nat)
    requires i <= j <= |s|
    requires forall k :: i <= k < j ==> IsDigit(s[k])
    requires j < |s| ==> !IsDigit(s[j])
    ensures SkipDigits(s, i) == j
  {
  }

  /** The number of trailing whitespace characters. */
  function TrailingSpace(s: string): (b: nat)
    ensures b <= |s|
    ensures AllSpace(s[|s| - b..])
    ensures b < |s| ==> !IsSpace(s[|s| - 1 - b])
    decreases |s|
  {
    if |s| == 0 || !IsSpace(s[|s| - 1]) then 0
    else
      var init := s[..|s| - 1];
      var b := 1 + TrailingSpace(init);
      assert s[|s| - b..] == init[|init| - (b - 1)..] + [s[|s| - 1]];
      b
  }

  /** The bounds of a slice of `s` with only whitespace around it and no
      whitespace at either of its ends. */
  ghost predicate StripBounds(s: string, a: nat, b: nat)
  {
    && a <= b <= |s|
    && AllSpace(s[..a])
    && AllSpace(s[b..])
    && (a < b ==> !IsSpace(s[a]) && !IsSpace(s[b - 1]))
  }

  /** `r` is `s` with its whitespace margins removed. */
  ghost predicate StrippedOf(s: string, r: string)
  {
    exists a: nat, b: nat :: StripBounds(s, a, b) && r == s[a..b]
  }

  /** Python's `str.strip()` with no argument. */
  function Strip(s: string): (r: string)
    ensures StrippedOf(s, r)
    ensures r == [] <==> AllSpace(s)
  {
    var a := SkipSpaces(s, 0);
    assert AllSpace(s[..a]);
    var t := s[a..];
    var n := |t| - TrailingSpace(t);
    var r := t[..n];
    assert r == s[a..a + n];
    assert s[a + n..] == t[n..];
    assert StripBounds(s, a, a + n);
    assert r == [] ==> AllSpace(s) by {
      if r == [] {
        MarginsCoverAll(s, a);
      }
    }
    r
  }

  /** Two candidates for the first non-whitespace index agree. */
  lemma FirstNonSpaceUnique(s: string, a1: nat, a2: nat)
    requires a1 < |s| && AllSpace(s[..a1]) && !IsSpace(s[a1])
    requires a2 < |s| && AllSpace(s[..a2]) && !IsSpace(s[a2])
    ensures a1 == a2
  {
  }

  /** Two candidates for the end of the last non-whitespace character agree. */
  lemma LastNonSpaceUnique(s: string, b1: nat, b2: nat)
    requires 0 < b1 <= |s| && AllSpace(s[b1..]) && !IsSpace(s[b1 - 1])
    requires 0 < b2 <= |s| && AllSpace(s[b2..]) && !IsSpace(s[b2 - 1])
    ensures b1 == b2
  {
  }

  /** Whitespace margins that meet cover the whole string. */
  lemma MarginsCoverAll(s: string, a: nat)
    requires a <= |s| && AllSpace(s[..a]) && AllSpace(s[a..])
    ensures AllSpace(s)
  {
    forall i | 0 <= i < |s| ensures IsSpace(s[i]) {
      if i < a { assert s[..a][i] == s[i]; } else { assert s[a..][i - a] == s[i]; }
    }
  }

  /** An empty slice between the margins leaves no room for any other. */
  lemma EmptyStripBounds(s: string, a1: nat, a2: nat, b2: nat)
    requires StripBounds(s, a1, a1) && StripBounds(s, a2, b2)
    ensures a2 == b2
  {
    MarginsCoverAll(s, a1);
    if a2 < b2 {
      assert false;
    }
  }

  lemma StripBoundsUnique(s: string, a1: nat, b1: nat, a2: nat, b2: nat)
    requires StripBounds(s, a1, b1) && StripBounds(s, a2, b2)
    ensures s[a1..b1] == s[a2..b2]
  {
    if a1 == b1 {
      EmptyStripBounds(s, a1, a2, b2);
    } else if a2 == b2 {
      EmptyStripBounds(s, a2, a1, b1);
    } else {
      FirstNonSpaceUnique(s, a1, a2);
      LastNonSpaceUnique(s, b1, b2);
    }
  }

  /** StrippedOf has exactly one solution, so it fully specifies Strip. */
  lemma StrippedOfUnique(s: string, r1: string, r2: string)
    requires StrippedOf(s, r1) && StrippedOf(s, r2)
    ensures r1 == r2
  {
    var a1: nat, b1: nat :| StripBounds(s, a1, b1) && r1 == s[a1..b1];
    var a2: nat, b2: nat :| StripBounds(s, a2, b2) && r2 == s[a2..b2];
    StripBoundsUnique(s, a1, b1, a2, b2);
  }

  /** A string without whitespace at either end is its own strip. */
  lemma StripUnchanged(s: string)
    requires s != [] ==> !IsSpace(s[0]) && !IsSpace(s[|s| - 1])
    ensures Strip(s) == s
  {
    assert s[0..|s|] == s && s[..0] == [] && s[|s|..] == [];
    assert StrippedOf(s, s);
    StrippedOfUnique(s, s, Strip(s));
  }

  /** Stripping twice is stripping once. */
  lemma StripIdempotent(s: string)
    ensures Strip(Strip(s)) == Strip(s)
  {
    StripUnchanged(Strip(s));
  }

  /** No line holds a newline. */
  predicate NoNewlines(lines: seq<string>)
  {
    forall k :: 0 <= k < |lines| ==> '\n' !in lines[k]
  }

  /** `"\n".join(lines)`. Splitting the result at newlines gives back the
      lines, provided none of them holds a newline. */
  function JoinLines(lines: seq<string>): (r: string)
    ensures |lines| > 0 ==> lines[0] <= r
    ensures |lines| > 0 && NoNewlines(lines) ==> SplitLines(r) == lines
    decreases |lines|
  {
    if |lines| == 0 then ""
    else if |lines| == 1 then
      SplitSingleLine(lines[0]);
      lines[0]
    else
      var rest := JoinLines(lines[1..]);
      SplitLinesAfterHead(lines[0], rest);
      assert NoNewlines(lines) ==> NoNewlines(lines[1..]);
      assert lines == [lines[0]] + lines[1..];
      lines[0] + "\n" + rest
  }

  /** `s.split("\n")`: the pieces between newlines, never fewer than one. */
  function SplitLines(s: string): (r: seq<string>)
    ensures |r| > 0
    ensures NoNewlines(r)
    decreases |s|
  {
    var i := NextIndex(s, '\n', 0);
    assert '\n' !in s[..i];
    if i == |s| then [s] else [s[..i]] + SplitLines(s[i + 1..])
  }

  /** A string without newlines splits into itself. */
  lemma SplitSingleLine(s: string)
    ensures '\n' !in s ==> SplitLines(s) == [s]
  {
    if '\n' !in s {
      NextIndexUnique(s, '\n', 0, |s|);
    }
  }

  /** Splitting at a first newline that ends a newline-free head. */
  lemma SplitLinesAfterHead(head: string, tail: string)
    ensures '\n' !in head ==> SplitLines(head + "\n" + tail) == [head] + SplitLines(tail)
  {
    if '\n' !in head {
      var s := head + "\n" + tail;
      forall k | 0 <= k < |head| ensures s[k] != '\n' {
        assert s[k] == head[k];
      }
      NextIndexUnique(s, '\n', 0, |head|);
      assert s[..|head|] == head;
      assert s[|head| + 1..] == tail;
    }
  }

  /** Joining the pieces of a split gives the string back. */
  lemma {:induction false} JoinSplit(s: string)
    ensures JoinLines(SplitLines(s)) == s
    decreases |s|
  {
    var i := NextIndex(s, '\n', 0);
    if i < |s| {
      var rest := s[i + 1..];
      JoinSplit(rest);
      assert SplitLines(s) == [s[..i]] + SplitLines(rest);
      assert s == s[..i] + "\n" + rest;
    }
  }
}
