/**
 * `extract_answer`: the leftmost match of `ответ\s*:\s*(\d+)` with the
 * keyword compared case-insensitively, read as an integer; `None` when
 * the pattern occurs nowhere.
 */
module AnswerExtraction {
  import opened Wrappers
  import opened Text

  /** The keyword, in lower case. */
  const Keyword: string := "ответ"

  /** Case folding as far as the keyword needs it: the upper-case forms of
      its letters map to the lower-case ones; every other character is
      left alone. */
  function FoldCase(c: char): (r: char)
    ensures c in Keyword ==> r == c
    ensures r == c || (c !in Keyword && r in Keyword && !IsSpace(c) && !IsDigit(c) && c != ':')
  {
    if c == 'О' then 'о'
    else if c == 'Т' then 'т'
    else if c == 'В' then 'в'
    else if c == 'Е' then 'е'
    else c
  }

  /** The keyword occurs at `p`, ignoring case. */
  predicate KeywordAt(s: string, p: nat)
  {
    && p + |Keyword| <= |s|
    && forall k :: 0 <= k < |Keyword| ==> FoldCase(s[p + k]) == Keyword[k]
  }

  /** The rest of the pattern once the keyword has been read up to `i`:
      `\s*`, colon, `\s*`, then at least one digit, read greedily.
      Backtracking cannot help here, because whitespace is neither a
      colon nor a digit. */
  function AfterKeyword(s: string, i: nat): Option<nat>
    requires i <= |s|
  {
    var c := SkipSpaces(s, i);
    if c == |s| || s[c] != ':' then None
    else NumberAt(s, SkipSpaces(s, c + 1))
  }

  /** A greedy `\d+` at `d`, read as a number. */
  function NumberAt(s: string, d: nat): Option<nat>
    requires d <= |s|
  {
    var e := SkipDigits(s, d);
    if d == e then None
    else
      assert AllDigits(s[d..e]);
      Some(DecimalValue(s[d..e]))
  }

  /** The pattern tried at position `p`. */
  function MatchAt(s: string, p: nat): Option<nat>
    requires p <= |s|
  {
    if !KeywordAt(s, p) then None else AfterKeyword(s, p + |Keyword|)
  }

  /** `re.search` from position `p` on: the first position that matches wins. */
  function SearchFrom(s: string, p: nat): Option<nat>
    requires p <= |s|
    decreases |s| - p
  {
    if p == |s| then None
    else
      match MatchAt(s, p)
      case Some(n) => Some(n)
      case None => SearchFrom(s, p + 1)
  }

  /** `extract_answer(text)`: what the first successful attempt finds, or
      `None` when the pattern fails at every position. */
  function ExtractAnswer(text: string): (r: Option<nat>)
    ensures r.None? <==> FailsBetween(text, 0, |text|)
    ensures r.Some? ==> exists p :: 0 <= p < |text| && MatchAt(text, p) == r && FailsBetween(text, 0, p)
  {
    SearchFromScans(text, 0);
    SearchFrom(text, 0)
  }

  /** The pattern fails at every position from `p` up to `q`. */
  predicate FailsBetween(s: string, p: nat, q: nat)
    requires q <= |s|
  {
    forall k :: p <= k < q ==> MatchAt(s, k).None?
  }

  lemma FailsBetweenStep(s: string, p: nat, q: nat)
    requires p < q <= |s|
    ensures FailsBetween(s, p, q) <==> MatchAt(s, p).None? && FailsBetween(s, p + 1, q)
  {
  }

  /** SearchFrom returns what the first successful attempt from `p` on finds. */
  lemma SearchFromScans(s: string, p: nat)
    requires p <= |s|
    ensures SearchFrom(s, p).None? <==> FailsBetween(s, p, |s|)
    ensures SearchFrom(s, p).Some? ==>
      exists q :: p <= q < |s| && MatchAt(s, q) == SearchFrom(s, p) && FailsBetween(s, p, q)
  {
    SearchFromFails(s, p);
    if SearchFrom(s, p).Some? {
      var q := SearchFromFirst(s, p);
    }
  }

  lemma SearchFromFails(s: string, p: nat)
    requires p <= |s|
    ensures SearchFrom(s, p).None? <==> FailsBetween(s, p, |s|)
  {
    if SearchFrom(s, p).None? {
      MissMeansFails(s, p);
    }
    if FailsBetween(s, p, |s|) {
      FailsMeansMiss(s, p);
    }
  }

  lemma {:induction false} MissMeansFails(s: string, p: nat)
    requires p <= |s| && SearchFrom(s, p).None?
    ensures FailsBetween(s, p, |s|)
    decreases |s| - p
  {
    if p < |s| {
      SearchFromStep(s, p);
      MissMeansFails(s, p + 1);
      FailsBetweenStep(s, p, |s|);
    }
  }

  lemma {:induction false} FailsMeansMiss(s: string, p: nat)
    requires p <= |s| && FailsBetween(s, p, |s|)
    ensures SearchFrom(s, p).None?
    decreases |s| - p
  {
    if p < |s| {
      FailsBetweenStep(s, p, |s|);
      SearchFromStep(s, p);
      FailsMeansMiss(s, p + 1);
    }
  }

  /** One step of the search. */
  lemma SearchFromStep(s: string, p: nat)
    requires p < |s|
    ensures SearchFrom(s, p) == if MatchAt(s, p).Some? then MatchAt(s, p) else SearchFrom(s, p + 1)
  {
  }

  lemma {:induction false} SearchFromFirst(s: string, p: nat) returns (q: nat)
    requires p <= |s| && SearchFrom(s, p).Some?
    ensures p <= q < |s| && MatchAt(s, q) == SearchFrom(s, p) && FailsBetween(s, p, q)
    decreases |s| - p
  {
    SearchFromStep(s, p);
    if MatchAt(s, p).Some? {
      q := p;
    } else {
      q := SearchFromFirst(s, p + 1);
      FailsBetweenStep(s, p, q);
    }
  }

  // ---------------------------------------------------------------------
  // The pattern, stated declaratively.

  /** A match at `p`: the keyword at `p`, only whitespace up to the colon
      at `c`, only whitespace up to the digits at `d`, and the digit run
      `s[d..e]` that a greedy `\d+` takes. */
  ghost predicate IsMatch(s: string, p: nat, c: nat, d: nat, e: nat)
  {
    && p + |Keyword| <= c < d < e <= |s|
    && KeywordAt(s, p)
    && (forall k :: p + |Keyword| <= k < c ==> IsSpace(s[k]))
    && s[c] == ':'
    && (forall k :: c + 1 <= k < d ==> IsSpace(s[k]))
    && (forall k :: d <= k < e ==> IsDigit(s[k]))
    && (e == |s| || !IsDigit(s[e]))
  }

  ghost predicate MatchesAt(s: string, p: nat)
  {
    exists c: nat, d: nat, e: nat :: IsMatch(s, p, c, d, e)
  }

  /** The pattern matches at `p` and its digit run is worth `n`. */
  ghost predicate ReadsAt(s: string, p: nat, n: nat)
  {
    exists c: nat, d: nat, e: nat :: IsMatch(s, p, c, d, e) && AllDigits(s[d..e]) && n == DecimalValue(s[d..e])
  }

  /** `n` is the number read at the leftmost position where the pattern matches. */
  ghost predicate LeftmostAnswer(s: string, n: nat)
  {
    exists p: nat :: ReadsAt(s, p, n) && forall q :: 0 <= q < p ==> !MatchesAt(s, q)
  }

  ghost predicate NoMatch(s: string)
  {
    forall p: nat :: p <= |s| ==> !MatchesAt(s, p)
  }

  /** What MatchAt finds is a match. */
  lemma MatchAtSound(s: string, p: nat)
    requires p <= |s| && MatchAt(s, p).Some?
    ensures KeywordAt(s, p)
    ensures var c := SkipSpaces(s, p + |Keyword|); var d := SkipSpaces(s, c + 1); var e := SkipDigits(s, d);
      && IsMatch(s, p, c, d, e)
      && AllDigits(s[d..e])
      && MatchAt(s, p) == Some(DecimalValue(s[d..e]))
  {
  }

  /** The part of the pattern after the keyword, read at known positions. */
  lemma AfterKeywordReads(s: string, i: nat, c: nat, d: nat, e: nat)
    requires i <= c < d < e <= |s|
    requires forall k :: i <= k < c ==> IsSpace(s[k])
    requires s[c] == ':'
    requires forall k :: c + 1 <= k < d ==> IsSpace(s[k])
    requires forall k :: d <= k < e ==> IsDigit(s[k])
    requires e == |s| || !IsDigit(s[e])
    ensures AllDigits(s[d..e]) && AfterKeyword(s, i) == Some(DecimalValue(s[d..e]))
  {
    SkipSpacesUnique(s, i, c);
    SkipSpacesUnique(s, c + 1, d);
    NumberAtReads(s, d, e);
  }

  /** The digit run `s[d..e]`, read where it starts. */
  lemma NumberAtReads(s: string, d: nat, e: nat)
    requires d < e <= |s|
    requires forall k :: d <= k < e ==> IsDigit(s[k])
    requires e == |s| || !IsDigit(s[e])
    ensures AllDigits(s[d..e]) && NumberAt(s, d) == Some(DecimalValue(s[d..e]))
  {
    SkipDigitsUnique(s, d, e);
    assert AllDigits(s[d..e]);
  }

  /** Every match is found by MatchAt, with its own digit run. */
  lemma MatchAtComplete(s: string, p: nat, c: nat, d: nat, e: nat)
    requires IsMatch(s, p, c, d, e)
    ensures AllDigits(s[d..e]) && MatchAt(s, p) == Some(DecimalValue(s[d..e]))
  {
    AfterKeywordReads(s, p + |Keyword|, c, d, e);
  }

  /** A number MatchAt finds is read by a match at `p`. */
  lemma MatchAtReads(s: string, p: nat, n: nat)
    requires p <= |s| && MatchAt(s, p) == Some(n)
    ensures ReadsAt(s, p, n)
  {
    MatchAtSound(s, p);
  }

  /** A match at `p` reading `n` is what MatchAt finds. */
  lemma ReadsMatchAt(s: string, p: nat, n: nat)
    requires ReadsAt(s, p, n)
    ensures p < |s| && MatchAt(s, p) == Some(n)
  {
    var c: nat, d: nat, e: nat :| IsMatch(s, p, c, d, e) && AllDigits(s[d..e]) && n == DecimalValue(s[d..e]);
    MatchAtComplete(s, p, c, d, e);
  }

  lemma ReadsAtMatches(s: string, p: nat, n: nat)
    requires ReadsAt(s, p, n)
    ensures MatchesAt(s, p)
  {
    var c: nat, d: nat, e: nat :| IsMatch(s, p, c, d, e) && AllDigits(s[d..e]) && n == DecimalValue(s[d..e]);
  }

  /** Where the pattern matches, MatchAt finds something. */
  lemma MatchesAtFound(s: string, p: nat)
    requires MatchesAt(s, p)
    ensures p < |s| && MatchAt(s, p).Some?
  {
    var c: nat, d: nat, e: nat :| IsMatch(s, p, c, d, e);
    MatchAtComplete(s, p, c, d, e);
  }

  /** MatchAt finds `n` exactly when the pattern matches at `p` with a
      digit run worth `n`, and nothing exactly when it does not match. */
  lemma MatchAtSpec(s: string, p: nat, n: nat)
    requires p <= |s|
    ensures MatchAt(s, p) == Some(n) <==> ReadsAt(s, p, n)
    ensures MatchAt(s, p).None? <==> !MatchesAt(s, p)
  {
    if MatchAt(s, p) == Some(n) {
      MatchAtReads(s, p, n);
    }
    if ReadsAt(s, p, n) {
      ReadsMatchAt(s, p, n);
    }
    if MatchAt(s, p).Some? {
      MatchAtSound(s, p);
    }
    if MatchesAt(s, p) {
      MatchesAtFound(s, p);
    }
  }

  /** Two leftmost answers are the same number. */
  lemma LeftmostAnswerUnique(s: string, n1: nat, n2: nat)
    requires LeftmostAnswer(s, n1) && LeftmostAnswer(s, n2)
    ensures n1 == n2
  {
    var p1: nat :| ReadsAt(s, p1, n1) && forall q :: 0 <= q < p1 ==> !MatchesAt(s, q);
    var p2: nat :| ReadsAt(s, p2, n2) && forall q :: 0 <= q < p2 ==> !MatchesAt(s, q);
    ReadsAtMatches(s, p1, n1);
    ReadsAtMatches(s, p2, n2);
    LeftmostPositionUnique(s, p1, p2);
    ReadsMatchAt(s, p1, n1);
    ReadsMatchAt(s, p1, n2);
  }

  /** Two positions that each match with no match before them coincide. */
  lemma LeftmostPositionUnique(s: string, p1: nat, p2: nat)
    requires MatchesAt(s, p1) && forall q :: 0 <= q < p1 ==> !MatchesAt(s, q)
    requires MatchesAt(s, p2) && forall q :: 0 <= q < p2 ==> !MatchesAt(s, q)
    ensures p1 == p2
  {
  }

  /** A match at `i` with none before it gives the leftmost answer. */
  lemma LeftmostAt(s: string, i: nat, m: nat)
    requires i <= |s|
    requires forall q :: 0 <= q < i ==> !MatchesAt(s, q)
    requires MatchAt(s, i) == Some(m)
    ensures LeftmostAnswer(s, m) && MatchesAt(s, i)
  {
    MatchAtReads(s, i, m);
    MatchAtSound(s, i);
  }

  /** A leftmost answer needs a match somewhere before the end. */
  lemma LeftmostAnswerMatches(s: string, n: nat) returns (p: nat)
    requires LeftmostAnswer(s, n)
    ensures p < |s| && MatchesAt(s, p)
  {
    p :| ReadsAt(s, p, n) && forall q :: 0 <= q < p ==> !MatchesAt(s, q);
    ReadsMatchAt(s, p, n);
    MatchAtSound(s, p);
  }

  lemma {:induction false} SearchFromFinds(s: string, i: nat, n: nat)
    requires i <= |s|
    requires forall q :: 0 <= q < i ==> !MatchesAt(s, q)
    ensures SearchFrom(s, i) == Some(n) <==> LeftmostAnswer(s, n)
    decreases |s| - i
  {
    if i == |s| {
      if LeftmostAnswer(s, n) {
        var p := LeftmostAnswerMatches(s, n);
      }
    } else {
      match MatchAt(s, i)
      case Some(m) =>
        LeftmostAt(s, i, m);
        if LeftmostAnswer(s, n) {
          LeftmostAnswerUnique(s, n, m);
        }
      case None =>
        MatchAtSpec(s, i, n);
        SearchFromFinds(s, i + 1, n);
    }
  }

  lemma {:induction false} SearchFromMisses(s: string, i: nat)
    requires i <= |s|
    requires forall q :: 0 <= q < i ==> !MatchesAt(s, q)
    ensures SearchFrom(s, i).None? <==> NoMatch(s)
    decreases |s| - i
  {
    if i == |s| {
      NoMatchAtEnd(s);
    } else {
      match MatchAt(s, i)
      case Some(m) =>
        LeftmostAt(s, i, m);
      case None =>
        MatchAtSpec(s, i, 0);
        SearchFromMisses(s, i + 1);
    }
  }

  lemma NoMatchAtEnd(s: string)
    ensures !MatchesAt(s, |s|)
  {
  }

  /** `extract_answer` returns `n` exactly when `n` is the number read at
      the leftmost match, and `None` exactly when nothing matches. */
  lemma ExtractAnswerSpec(text: string, n: nat)
    ensures ExtractAnswer(text) == Some(n) <==> LeftmostAnswer(text, n)
    ensures ExtractAnswer(text) == None <==> NoMatch(text)
  {
    SearchFromFinds(text, 0, n);
    SearchFromMisses(text, 0);
  }

  // ---------------------------------------------------------------------
  // Consequences.

  /** A text with every keyword letter in lower case. */
  function Folded(s: string): (r: string)
    ensures |r| == |s|
  {
    seq(|s|, i requires 0 <= i < |s| => FoldCase(s[i]))
  }

  /** Case folding never turns whitespace, a colon or a digit into
      anything else, and leaves digits alone. */
  lemma FoldCaseKeepsClass(a: char, b: char)
    requires FoldCase(a) == FoldCase(b)
    ensures IsSpace(a) == IsSpace(b)
    ensures IsDigit(a) == IsDigit(b)
    ensures (a == ':') == (b == ':')
    ensures IsDigit(a) ==> a == b
  {
  }

  lemma SameClassAt(s: string, t: string, i: nat)
    requires Folded(s) == Folded(t) && i < |s|
    ensures IsSpace(s[i]) == IsSpace(t[i])
    ensures IsDigit(s[i]) == IsDigit(t[i])
    ensures (s[i] == ':') == (t[i] == ':')
    ensures IsDigit(s[i]) ==> s[i] == t[i]
  {
    assert Folded(s)[i] == Folded(t)[i];
    FoldCaseKeepsClass(s[i], t[i]);
  }

  lemma {:induction false} SkipSpacesUpToCase(s: string, t: string, i: nat)
    requires Folded(s) == Folded(t) && i <= |s|
    ensures SkipSpaces(s, i) == SkipSpaces(t, i)
    decreases |s| - i
  {
    if i < |s| {
      SameClassAt(s, t, i);
      SkipSpacesUpToCase(s, t, i + 1);
    }
  }

  lemma {:induction false} SkipDigitsUpToCase(s: string, t: string, i: nat)
    requires Folded(s) == Folded(t) && i <= |s|
    ensures SkipDigits(s, i) == SkipDigits(t, i)
    ensures s[i..SkipDigits(s, i)] == t[i..SkipDigits(s, i)]
    decreases |s| - i
  {
    if i < |s| {
      SameClassAt(s, t, i);
      SkipDigitsUpToCase(s, t, i + 1);
    }
  }

  lemma KeywordAtUpToCase(s: string, t: string, p: nat)
    requires Folded(s) == Folded(t)
    ensures KeywordAt(s, p) == KeywordAt(t, p)
  {
    if p + |Keyword| <= |s| {
      forall j | p <= j < p + |Keyword| ensures FoldCase(s[j]) == FoldCase(t[j]) {
        assert Folded(s)[j] == Folded(t)[j];
      }
    }
  }

  lemma AfterKeywordUpToCase(s: string, t: string, i: nat)
    requires Folded(s) == Folded(t) && i <= |s|
    ensures AfterKeyword(s, i) == AfterKeyword(t, i)
  {
    var c := SkipSpaces(s, i);
    SkipSpacesUpToCase(s, t, i);
    if c < |s| {
      SameClassAt(s, t, c);
      if s[c] == ':' {
        SkipSpacesUpToCase(s, t, c + 1);
        NumberAtUpToCase(s, t, SkipSpaces(s, c + 1));
      }
    }
    AfterKeywordSame(s, t, i);
  }

  /** AfterKeyword agrees on two texts of the same length that agree at
      every step it takes. */
  lemma AfterKeywordSame(s: string, t: string, i: nat)
    requires i <= |s| == |t|
    requires SkipSpaces(s, i) == SkipSpaces(t, i)
    requires var c := SkipSpaces(s, i); c < |s| ==> (s[c] == ':') == (t[c] == ':')
    requires var c := SkipSpaces(s, i); c < |s| && s[c] == ':' ==>
      SkipSpaces(s, c + 1) == SkipSpaces(t, c + 1) && NumberAt(s, SkipSpaces(s, c + 1)) == NumberAt(t, SkipSpaces(s, c + 1))
    ensures AfterKeyword(s, i) == AfterKeyword(t, i)
  {
  }

  lemma NumberAtUpToCase(s: string, t: string, d: nat)
    requires Folded(s) == Folded(t) && d <= |s|
    ensures NumberAt(s, d) == NumberAt(t, d)
  {
    SkipDigitsUpToCase(s, t, d);
  }

  lemma MatchAtUpToCase(s: string, t: string, p: nat)
    requires Folded(s) == Folded(t) && p <= |s|
    ensures MatchAt(s, p) == MatchAt(t, p)
  {
    KeywordAtUpToCase(s, t, p);
    if KeywordAt(s, p) {
      AfterKeywordUpToCase(s, t, p + |Keyword|);
    }
  }

  lemma {:induction false} SearchFromUpToCase(s: string, t: string, i: nat)
    requires Folded(s) == Folded(t) && i <= |s|
    ensures SearchFrom(s, i) == SearchFrom(t, i)
    decreases |s| - i
  {
    if i < |s| {
      MatchAtUpToCase(s, t, i);
      SearchFromUpToCase(s, t, i + 1);
    }
  }

  /** The keyword is matched without regard to case: texts that differ
      only in the case of keyword letters give the same answer. */
  lemma ExtractAnswerIgnoresCase(s: string, t: string)
    requires Folded(s) == Folded(t)
    ensures ExtractAnswer(s) == ExtractAnswer(t)
  {
    SearchFromUpToCase(s, t, 0);
  }

  /** A text that opens with "ответ: " and a digit run ending at a
      non-digit (or at the end) answers with that run's value. */
  lemma AnswerAfterKeyword(digits: string, suffix: string)
    requires |digits| > 0 && AllDigits(digits)
    requires suffix == [] || !IsDigit(suffix[0])
    ensures ExtractAnswer(Keyword + ": " + digits + suffix) == Some(DecimalValue(digits))
  {
    AfterPrefixReads(Keyword, digits, suffix);
    Regroup(Keyword, ": ", digits, suffix);
    FoundAfterKeyword(": " + digits + suffix);
  }

  lemma Regroup(a: string, b: string, c: string, d: string)
    ensures a + (b + c + d) == a + b + c + d
  {
  }

  /** A match right after a leading keyword is the answer. */
  lemma FoundAfterKeyword(t: string)
    requires AfterKeyword(Keyword + t, |Keyword|).Some?
    ensures ExtractAnswer(Keyword + t) == AfterKeyword(Keyword + t, |Keyword|)
  {
    KeywordAtFront(t);
    FoundAtFront(Keyword + t);
  }

  /** Whatever precedes it, ": <digits><suffix>" reads as the digits. */
  lemma AfterPrefixReads(x: string, digits: string, suffix: string)
    requires |digits| > 0 && AllDigits(digits)
    requires suffix == [] || !IsDigit(suffix[0])
    ensures |x| <= |x + ": " + digits + suffix|
    ensures AfterKeyword(x + ": " + digits + suffix, |x|) == Some(DecimalValue(digits))
  {
    var s := x + ": " + digits + suffix;
    assert s[|x|] == ':' && s[|x| + 1] == ' ' && s[|x| + 2] == digits[0];
    SkipSpacesUnique(s, |x|, |x|);
    SkipSpacesUnique(s, |x| + 1, |x| + 2);
    NumberAtFront(x + ": ", digits, suffix);
  }

  /** A digit run followed by a non-digit reads as its value. */
  lemma NumberAtFront(x: string, digits: string, suffix: string)
    requires |digits| > 0 && AllDigits(digits)
    requires suffix == [] || !IsDigit(suffix[0])
    ensures |x| <= |x + digits + suffix|
    ensures NumberAt(x + digits + suffix, |x|) == Some(DecimalValue(digits))
  {
    var s := x + digits + suffix;
    var e := |x| + |digits|;
    assert s[|x|..e] == digits;
    assert e < |s| ==> s[e] == suffix[0];
    forall k | |x| <= k < e ensures IsDigit(s[k]) {
      assert s[k] == digits[k - |x|];
    }
    NumberAtReads(s, |x|, e);
  }

  /** With the keyword at the front, a match right after it is the answer. */
  lemma FoundAtFront(s: string)
    requires KeywordAt(s, 0) && AfterKeyword(s, |Keyword|).Some?
    ensures ExtractAnswer(s) == AfterKeyword(s, |Keyword|)
  {
    assert MatchAt(s, 0) == AfterKeyword(s, |Keyword|);
  }

  /** Without digits after `i` the part after the keyword never matches. */
  lemma AfterKeywordNeedsDigit(s: string, i: nat)
    requires i <= |s|
    requires forall k :: i <= k < |s| ==> !IsDigit(s[k])
    ensures AfterKeyword(s, i) == None
  {
  }

  lemma {:induction false} SearchFromWithoutDigits(s: string, i: nat)
    requires i <= |s|
    requires forall k :: 0 <= k < |s| ==> !IsDigit(s[k])
    ensures SearchFrom(s, i) == None
    decreases |s| - i
  {
    if i < |s| {
      if KeywordAt(s, i) {
        AfterKeywordNeedsDigit(s, i + |Keyword|);
      }
      SearchFromWithoutDigits(s, i + 1);
    }
  }

  /** A text with no digit at all has no answer. */
  lemma NoDigitNoAnswer(s: string)
    requires forall i :: 0 <= i < |s| ==> !IsDigit(s[i])
    ensures ExtractAnswer(s) == None
  {
    SearchFromWithoutDigits(s, 0);
  }

  /** A non-whitespace character other than a colon right after the
      keyword rules out a match there. */
  lemma NonSpaceAfterKeywordBlocks(s: string, p: nat)
    requires KeywordAt(s, p) && p + |Keyword| < |s|
    requires !IsSpace(s[p + |Keyword|]) && s[p + |Keyword|] != ':'
    ensures !MatchesAt(s, p)
  {
  }

  lemma FoldedAppend(a: string, b: string)
    ensures Folded(a + b) == Folded(a) + Folded(b)
  {
  }

  lemma FoldedIdempotent(s: string)
    ensures Folded(Folded(s)) == Folded(s)
  {
  }

  /** Lower-casing the keyword letters of a reply never changes its answer. */
  lemma ExtractAnswerOfFolded(s: string)
    ensures ExtractAnswer(Folded(s)) == ExtractAnswer(s)
  {
    FoldedIdempotent(s);
    ExtractAnswerIgnoresCase(Folded(s), s);
  }

  /** The keyword written in capitals folds to the keyword. */
  lemma CapitalKeyword()
    ensures Folded("ОТВЕТ") == Keyword
  {
    var f := Folded("ОТВЕТ");
    assert f[0] == 'о' && f[1] == 'т' && f[2] == 'в' && f[3] == 'е' && f[4] == 'т';
  }

  /** The keyword is already in lower case. */
  lemma KeywordFolded()
    ensures Folded(Keyword) == Keyword
  {
    var f := Folded(Keyword);
    assert f[0] == 'о' && f[1] == 'т' && f[2] == 'в' && f[3] == 'е' && f[4] == 'т';
  }

  lemma KeywordAtFront(rest: string)
    ensures KeywordAt(Keyword + rest, 0)
  {
    KeywordFolded();
    var s := Keyword + rest;
    forall k | 0 <= k < |Keyword| ensures FoldCase(s[k]) == Keyword[k] {
      assert s[k] == Keyword[k];
      assert Folded(Keyword)[k] == FoldCase(Keyword[k]);
    }
  }

  /** A reply that writes the keyword in capitals gives the same answer as
      one that writes it in lower case. */
  lemma CapitalKeywordAnswer(rest: string)
    ensures ExtractAnswer("ОТВЕТ" + rest) == ExtractAnswer(Keyword + rest)
  {
    CapitalKeyword();
    KeywordFolded();
    FoldedAppend("ОТВЕТ", rest);
    FoldedAppend(Keyword, rest);
    ExtractAnswerIgnoresCase("ОТВЕТ" + rest, Keyword + rest);
  }

  /** Leading zeros do not change the number read. */
  lemma LeadingZeroAnswer(digits: string, suffix: string)
    requires |digits| > 0 && AllDigits(digits)
    requires suffix == [] || !IsDigit(suffix[0])
    ensures ExtractAnswer(Keyword + ": " + ("0" + digits) + suffix) == ExtractAnswer(Keyword + ": " + digits + suffix)
  {
    LeadingZero(digits);
    AnswerAfterKeyword("0" + digits, suffix);
    AnswerAfterKeyword(digits, suffix);
  }
}
