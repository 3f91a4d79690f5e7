/**
 * `format_options`: pull the single-quoted segments out of a raw options
 * cell, trim them, drop the empty ones and number the survivors by their
 * position among all segments, one "i. text" line each.
 */
module OptionFormatting {
  import opened Wrappers
  import opened Text

  const Quote: char := '\''

  /** The groups `re.findall(r"'([^']*)'", s)` returns: the text between
      the 1st and 2nd quote, the 3rd and 4th, and so on. A final unpaired
      quote opens no segment. */
  function Segments(s: string): (segs: seq<string>)
    ensures PairedSlices(s, QuotesFrom(s, 0), segs)
  {
    SegmentsBetweenQuotesFrom(s, 0);
    SegmentsFrom(s, 0)
  }

  /** The segments found by scanning from `i`, outside any quotes. */
  function SegmentsFrom(s: string, i: nat): seq<string>
    requires i <= |s|
    decreases |s| - i, 1
  {
    var a := NextIndex(s, Quote, i);
    if a == |s| then [] else SegmentsOpen(s, a + 1)
  }

  /** The segments found by scanning from `i`, just after an opening quote:
      everything up to the next quote is one segment, and the scan resumes
      after it. */
  function SegmentsOpen(s: string, i: nat): seq<string>
    requires i <= |s|
    decreases |s| - i, 0
  {
    var b := NextIndex(s, Quote, i);
    if b == |s| then [] else [s[i..b]] + SegmentsFrom(s, b + 1)
  }

  /** The positions of the quote characters of `s` at or after `i`, ascending. */
  function QuotesFrom(s: string, i: nat): (q: seq<nat>)
    requires i <= |s|
    ensures forall j :: 0 <= j < |q| ==> i <= q[j] < |s| && s[q[j]] == Quote
    decreases |s| - i
  {
    if i == |s| then []
    else (if s[i] == Quote then [i] else []) + QuotesFrom(s, i + 1)
  }

  /** A stretch without quotes adds no quote positions. */
  lemma {:induction false} QuotesSkip(s: string, i: nat, j: nat)
    requires i <= j <= |s|
    requires forall p :: i <= p < j ==> s[p] != Quote
    ensures QuotesFrom(s, i) == QuotesFrom(s, j)
    decreases j - i
  {
    if i < j {
      QuotesSkip(s, i + 1, j);
    }
  }

  /** The quote positions from `i` start at the next quote. */
  lemma QuotesFromNext(s: string, i: nat)
    requires i <= |s|
    ensures NextIndex(s, Quote, i) == |s| ==> QuotesFrom(s, i) == []
    ensures NextIndex(s, Quote, i) < |s| ==> QuotesFrom(s, i) == [NextIndex(s, Quote, i)] + QuotesFrom(s, NextIndex(s, Quote, i) + 1)
  {
    var a := NextIndex(s, Quote, i);
    QuotesSkip(s, i, a);
  }

  /** `segs` are the slices strictly between the quote positions `q`
      taken two by two; at most one position is left over. */
  ghost predicate PairedSlices(s: string, q: seq<nat>, segs: seq<string>)
  {
    && 2 * |segs| <= |q| <= 2 * |segs| + 1
    && forall k {:trigger segs[k]} :: 0 <= k < |segs| ==>
         q[2 * k] < q[2 * k + 1] <= |s| && segs[k] == s[q[2 * k] + 1..q[2 * k + 1]]
  }

  lemma PairedSlicesCons(s: string, qa: nat, qb: nat, q: seq<nat>, segs: seq<string>)
    requires qa < qb <= |s|
    requires PairedSlices(s, q, segs)
    ensures PairedSlices(s, [qa] + ([qb] + q), [s[qa + 1..qb]] + segs)
  {
    var q2 := [qa] + ([qb] + q);
    var segs2 := [s[qa + 1..qb]] + segs;
    forall k | 0 <= k < |segs2|
      ensures q2[2 * k] < q2[2 * k + 1] <= |s| && segs2[k] == s[q2[2 * k] + 1..q2[2 * k + 1]]
    {
      if k > 0 {
        assert segs2[k] == segs[k - 1];
        assert q2[2 * k] == q[2 * (k - 1)] && q2[2 * k + 1] == q[2 * (k - 1) + 1];
      }
    }
  }

  lemma QuotesFromPair(s: string, i: nat, a: nat, b: nat)
    requires i <= |s| && a == NextIndex(s, Quote, i) && a < |s|
    requires b == NextIndex(s, Quote, a + 1) && b < |s|
    ensures QuotesFrom(s, i) == [a] + ([b] + QuotesFrom(s, b + 1))
  {
    QuotesFromNext(s, i);
    QuotesFromNext(s, a + 1);
  }

  lemma SegmentsFromPair(s: string, i: nat, a: nat, b: nat)
    requires i <= |s| && a == NextIndex(s, Quote, i) && a < |s|
    requires b == NextIndex(s, Quote, a + 1) && b < |s|
    ensures SegmentsFrom(s, i) == [s[a + 1..b]] + SegmentsFrom(s, b + 1)
  {
  }

  /** A complete pair of quotes at `a` and `b` extends the pairing of
      what follows `b`. */
  lemma PairedSlicesStep(s: string, i: nat, a: nat, b: nat)
    requires i <= |s| && a == NextIndex(s, Quote, i) && a < |s|
    requires b == NextIndex(s, Quote, a + 1) && b < |s|
    requires PairedSlices(s, QuotesFrom(s, b + 1), SegmentsFrom(s, b + 1))
    ensures PairedSlices(s, QuotesFrom(s, i), SegmentsFrom(s, i))
  {
    QuotesFromPair(s, i, a, b);
    SegmentsFromPair(s, i, a, b);
    PairedSlicesCons(s, a, b, QuotesFrom(s, b + 1), SegmentsFrom(s, b + 1));
  }

  /** The segments from `i` are the slices between the quote positions
      from `i`, taken two by two. */
  lemma {:induction false} SegmentsBetweenQuotesFrom(s: string, i: nat)
    requires i <= |s|
    ensures PairedSlices(s, QuotesFrom(s, i), SegmentsFrom(s, i))
    decreases |s| - i
  {
    var a := NextIndex(s, Quote, i);
    QuotesFromNext(s, i);
    if a < |s| {
      var b := NextIndex(s, Quote, a + 1);
      QuotesFromNext(s, a + 1);
      if b < |s| {
        SegmentsBetweenQuotesFrom(s, b + 1);
        PairedSlicesStep(s, i, a, b);
      }
    }
  }

  lemma {:induction false} SegmentsFromShift(x: string, t: string, i: nat)
    requires i <= |t|
    ensures SegmentsFrom(x + t, |x| + i) == SegmentsFrom(t, i)
    decreases |t| - i, 1
  {
    NextIndexShift(x, t, Quote, i);
    var a := NextIndex(t, Quote, i);
    if a < |t| {
      SegmentsOpenShift(x, t, a + 1);
    }
  }

  lemma {:induction false} SegmentsOpenShift(x: string, t: string, i: nat)
    requires i <= |t|
    ensures SegmentsOpen(x + t, |x| + i) == SegmentsOpen(t, i)
    decreases |t| - i, 0
  {
    NextIndexShift(x, t, Quote, i);
    var b := NextIndex(t, Quote, i);
    if b < |t| {
      SegmentsFromShift(x, t, b + 1);
      SliceShift(x, t, i, b);
    }
  }

  lemma SliceShift(x: string, t: string, i: nat, j: nat)
    requires i <= j <= |t|
    ensures (x + t)[|x| + i..|x| + j] == t[i..j]
  {
  }

  /** A stretch without quotes in front of the scan position changes nothing. */
  lemma SegmentsFromPlain(s: string, i: nat, j: nat)
    requires i <= j <= |s|
    requires forall k :: i <= k < j ==> s[k] != Quote
    ensures SegmentsFrom(s, i) == SegmentsFrom(s, j)
  {
    NextIndexUnique(s, Quote, i, NextIndex(s, Quote, j));
  }

  /** Text without quotes in front of a string adds no segments. */
  lemma SegmentsAfterPlainText(x: string, t: string)
    requires Quote !in x
    ensures Segments(x + t) == Segments(t)
  {
    SegmentsFromPlain(x + t, 0, |x|);
    SegmentsFromShift(x, t, 0);
  }

  /** A quoted chunk in front of a string adds exactly its contents. */
  lemma SegmentsAfterQuoted(seg: string, t: string)
    requires Quote !in seg
    ensures Segments([Quote] + seg + [Quote] + t) == [seg] + Segments(t)
  {
    var chunk := [Quote] + seg + [Quote];
    var s := chunk + t;
    NextIndexUnique(s, Quote, 0, 0);
    NextIndexUnique(s, Quote, 1, |seg| + 1);
    assert s[1..|seg| + 1] == seg;
    assert SegmentsOpen(s, 1) == [seg] + SegmentsFrom(s, |chunk|);
    SegmentsFromShift(chunk, t, 0);
  }

  /** A list of options written as single-quoted entries separated by
      `sep` inside brackets, as in "['3','4','5']". */
  function QuotedList(opts: seq<string>, sep: string): string
  {
    "[" + QuotedItems(opts, sep) + "]"
  }

  function QuotedItems(opts: seq<string>, sep: string): string
    decreases |opts|
  {
    if |opts| == 0 then ""
    else [Quote] + opts[0] + [Quote] + (if |opts| == 1 then "" else sep + QuotedItems(opts[1..], sep))
  }

  /** The first quoted entry yields the first segment. */
  lemma SegmentsOfQuotedItemsHead(opts: seq<string>, sep: string, tail: string)
    requires |opts| > 0 && Quote !in opts[0]
    ensures Segments(QuotedItems(opts, sep) + tail)
         == [opts[0]] + Segments((if |opts| == 1 then "" else sep + QuotedItems(opts[1..], sep)) + tail)
  {
    var more := if |opts| == 1 then "" else sep + QuotedItems(opts[1..], sep);
    assert QuotedItems(opts, sep) + tail == [Quote] + opts[0] + [Quote] + (more + tail);
    SegmentsAfterQuoted(opts[0], more + tail);
  }

  /** Text without quotes has no segments. */
  lemma NoSegmentsInPlainText(t: string)
    requires Quote !in t
    ensures Segments(t) == []
  {
    NextIndexUnique(t, Quote, 0, |t|);
  }

  /** The entries after the first one, separator included, yield the
      remaining segments. */
  lemma SegmentsOfLaterItems(opts: seq<string>, sep: string, tail: string)
    requires |opts| > 1 && Quote !in sep
    requires Segments(QuotedItems(opts[1..], sep) + tail) == opts[1..]
    ensures Segments((sep + QuotedItems(opts[1..], sep)) + tail) == opts[1..]
  {
    var items := QuotedItems(opts[1..], sep);
    assert (sep + items) + tail == sep + (items + tail);
    SegmentsAfterPlainText(sep, items + tail);
  }

  lemma {:induction false} SegmentsOfQuotedItems(opts: seq<string>, sep: string, tail: string)
    requires Quote !in sep && Quote !in tail
    requires forall k :: 0 <= k < |opts| ==> Quote !in opts[k]
    ensures Segments(QuotedItems(opts, sep) + tail) == opts
    decreases |opts|
  {
    if |opts| == 0 {
      assert QuotedItems(opts, sep) + tail == tail;
      NoSegmentsInPlainText(tail);
    } else {
      SegmentsOfQuotedItemsHead(opts, sep, tail);
      if |opts| == 1 {
        assert "" + tail == tail;
        NoSegmentsInPlainText(tail);
        assert opts == [opts[0]];
      } else {
        SegmentsOfQuotedItems(opts[1..], sep, tail);
        SegmentsOfLaterItems(opts, sep, tail);
        assert opts == [opts[0]] + opts[1..];
      }
    }
  }

  /** Reading the segments of a quoted list gives the options back,
      provided no option and no separator contains a quote. */
  lemma QuotedListRoundTrip(opts: seq<string>, sep: string)
    requires Quote !in sep
    requires forall k :: 0 <= k < |opts| ==> Quote !in opts[k]
    ensures Segments(QuotedList(opts, sep)) == opts
  {
    SegmentsOfQuotedItems(opts, sep, "]");
    SegmentsAfterPlainText("[", QuotedItems(opts, sep) + "]");
    assert QuotedList(opts, sep) == "[" + (QuotedItems(opts, sep) + "]");
  }

  /** Reads a line back as its number and its text: a run of digits, then
      ". ", then the text. */
  function LabelParts(line: string): Option<(nat, string)>
  {
    var e := SkipDigits(line, 0);
    if e == 0 || |line| < e + 2 || line[e..e + 2] != ". " then None
    else
      assert AllDigits(line[..e]);
      Some((DecimalValue(line[..e]), line[e + 2..]))
  }

  /** One output line: `f"{i}. {text}"`. It reads back as `i` and `text`,
      and its number is printed without leading zeros. */
  function Label(i: nat, text: string): (line: string)
    ensures LabelParts(line) == Some((i, text))
    ensures |text| + 2 <= |line| && IsCanonicalDecimal(line[..|line| - |text| - 2])
  {
    LabelLayout(i, text);
    var line := NatToString(i) + ". " + text;
    assert line[..|line| - |text| - 2] == NatToString(i);
    line
  }

  /** The two clauses of Label's contract single out its line: any line that
      reads back as `i` and `text` with a canonical number is that label. */
  lemma LabelUnique(i: nat, text: string, line: string)
    requires LabelParts(line) == Some((i, text))
    requires |text| + 2 <= |line| && IsCanonicalDecimal(line[..|line| - |text| - 2])
    ensures line == Label(i, text)
  {
    var e := SkipDigits(line, 0);
    var d := line[..e];
    assert line[e + 2..] == text;
    assert e == |line| - |text| - 2;
    NatToStringOfValue(d);
    assert line == d + ". " + text;
  }

  /** Where the number, the ". " and the text of a label sit. */
  lemma LabelLayout(i: nat, text: string)
    ensures var d := NatToString(i); var line := d + ". " + text;
      && SkipDigits(line, 0) == |d|
      && line[..|d|] == d
      && line[|d|..|d| + 2] == ". "
      && line[|d| + 2..] == text
  {
    var d := NatToString(i);
    var line := d + ". " + text;
    forall k | 0 <= k < |d| ensures IsDigit(line[k]) {
      assert line[k] == d[k];
    }
    assert line[|d|] == '.';
    SkipDigitsUnique(line, 0, |d|);
    assert line[..|d|] == d;
    assert line[|d|..|d| + 2] == ". ";
    assert line[|d| + 2..] == text;
  }

  /** The lines the enumerate loop appends for the segments from index `i`
      on: one per survivor, labelled with the survivor's index among all
      segments. */
  function OptionLines(segs: seq<string>, i: nat): (lines: seq<string>)
    ensures |lines| == |Survivors(segs, i)|
    ensures forall j :: 0 <= j < |lines| ==>
      lines[j] == Label(Survivors(segs, i)[j], Strip(segs[Survivors(segs, i)[j]]))
    decreases |segs| - i
  {
    if i >= |segs| then []
    else
      var opt := Strip(segs[i]);
      var rest := OptionLines(segs, i + 1);
      if opt != [] then
        SurvivorLinesStep(segs, i, rest);
        [Label(i, opt)] + rest
      else
        assert Survivors(segs, i) == Survivors(segs, i + 1);
        rest
  }

  /** A survivor at `i` puts its line in front of the later ones. */
  lemma SurvivorLinesStep(segs: seq<string>, i: nat, rest: seq<string>)
    requires i < |segs| && !AllSpace(segs[i])
    requires |rest| == |Survivors(segs, i + 1)|
    requires forall j :: 0 <= j < |rest| ==>
      rest[j] == Label(Survivors(segs, i + 1)[j], Strip(segs[Survivors(segs, i + 1)[j]]))
    ensures var lines, idx := [Label(i, Strip(segs[i]))] + rest, Survivors(segs, i);
      && |lines| == |idx|
      && forall j :: 0 <= j < |lines| ==> lines[j] == Label(idx[j], Strip(segs[idx[j]]))
  {
    var lines, idx, later := [Label(i, Strip(segs[i]))] + rest, Survivors(segs, i), Survivors(segs, i + 1);
    assert idx == [i] + later;
    forall j | 0 <= j < |lines| ensures lines[j] == Label(idx[j], Strip(segs[idx[j]])) {
      if j > 0 {
        assert lines[j] == rest[j - 1] && idx[j] == later[j - 1];
      }
    }
  }

  /** The indices from `from` on whose segment is not all whitespace, ascending. */
  function Survivors(segs: seq<string>, from: nat): (idx: seq<nat>)
    ensures forall j :: 0 <= j < |idx| ==> from <= idx[j] < |segs| && !AllSpace(segs[idx[j]])
    ensures forall j, k :: 0 <= j < k < |idx| ==> idx[j] < idx[k]
    decreases |segs| - from
  {
    if from >= |segs| then []
    else (if !AllSpace(segs[from]) then [from] else []) + Survivors(segs, from + 1)
  }

  /** Every segment that is not all whitespace is a survivor. */
  lemma {:induction false} SurvivorsComplete(segs: seq<string>, from: nat, i: nat)
    requires from <= i < |segs| && !AllSpace(segs[i])
    ensures i in Survivors(segs, from)
    decreases i - from
  {
    if from < i {
      SurvivorsComplete(segs, from + 1, i);
    }
  }

  /** `format_options`. */
  function FormatOptions(raw: string): (r: string)
    ensures r != [] && IsDigit(r[0])
  {
    var segs := Segments(raw);
    var lines := OptionLines(segs, 0);
    if lines == [] then
      LabelStartsWithDigit(0, Strip(raw));
      Label(0, Strip(raw))
    else
      var k := Survivors(segs, 0)[0];
      LabelStartsWithDigit(k, Strip(segs[k]));
      JoinLines(lines)
  }

  lemma LabelStartsWithDigit(i: nat, text: string)
    ensures Label(i, text) != [] && IsDigit(Label(i, text)[0])
  {
    assert Label(i, text)[0] == NatToString(i)[0];
  }

  /** The lines `format_options` is meant to produce: one per surviving
      segment, or the single fallback line built from the whole input. */
  function ExpectedLines(raw: string): (lines: seq<string>)
    ensures |lines| > 0
  {
    var segs := Segments(raw);
    var idx := Survivors(segs, 0);
    if |idx| == 0 then [Label(0, Strip(raw))]
    else seq(|idx|, j requires 0 <= j < |idx| => Label(idx[j], Strip(segs[idx[j]])))
  }

  /** The output is the newline join of the expected lines. */
  lemma FormatOptionsJoinsExpectedLines(raw: string)
    ensures FormatOptions(raw) == JoinLines(ExpectedLines(raw))
  {
    var segs := Segments(raw);
    var lines := OptionLines(segs, 0);
    if lines != [] {
      assert lines == ExpectedLines(raw);
    }
  }

  /** A character missing from a string is missing from each of its slices. */
  lemma NotInSlice(c: char, s: string, a: nat, b: nat)
    requires a <= b <= |s| && c !in s
    ensures c !in s[a..b]
  {
    forall j | 0 <= j < b - a ensures s[a..b][j] != c {
      assert s[a..b][j] == s[a + j];
    }
  }

  /** A label line has a newline only where its text has one. */
  lemma LabelWithoutNewline(i: nat, text: string)
    requires '\n' !in text
    ensures '\n' !in Label(i, text)
  {
    var d := NatToString(i);
    var line := Label(i, text);
    forall j | 0 <= j < |line| ensures line[j] != '\n' {
      if j < |d| {
        assert line[j] == d[j];
      } else if j >= |d| + 2 {
        assert line[j] == text[j - |d| - 2];
      }
    }
  }

  /** Trimming never introduces a character. */
  lemma StripWithoutNewline(s: string)
    requires '\n' !in s
    ensures '\n' !in Strip(s)
  {
    var r := Strip(s);
    var a: nat, b: nat :| StripBounds(s, a, b) && r == s[a..b];
    NotInSlice('\n', s, a, b);
  }

  /** For a one-line options cell, splitting the output at newlines gives
      exactly the expected lines: one "i. text" per surviving segment, in
      order, or the single fallback line. */
  lemma FormatOptionsLines(raw: string)
    requires '\n' !in raw
    ensures SplitLines(FormatOptions(raw)) == ExpectedLines(raw)
  {
    var segs := Segments(raw);
    var q := QuotesFrom(raw, 0);
    var lines := ExpectedLines(raw);
    forall j | 0 <= j < |lines| ensures '\n' !in lines[j] {
      var idx := Survivors(segs, 0);
      if |idx| == 0 {
        StripWithoutNewline(raw);
        LabelWithoutNewline(0, Strip(raw));
      } else {
        var k := idx[j];
        assert segs[k] == raw[q[2 * k] + 1..q[2 * k + 1]];
        NotInSlice('\n', raw, q[2 * k] + 1, q[2 * k + 1]);
        StripWithoutNewline(segs[k]);
        LabelWithoutNewline(k, Strip(segs[k]));
      }
    }
    FormatOptionsJoinsExpectedLines(raw);
    assert JoinLines(lines) == FormatOptions(raw);
  }

  predicate Ascending(q: seq<nat>)
  {
    forall j, k :: 0 <= j < k < |q| ==> q[j] < q[k]
  }

  lemma AscendingCons(x: nat, q: seq<nat>)
    requires Ascending(q)
    requires forall j :: 0 <= j < |q| ==> x < q[j]
    ensures Ascending([x] + q)
  {
    var q2 := [x] + q;
    forall j, k | 0 <= j < k < |q2| ensures q2[j] < q2[k] {
      assert q2[k] == q[k - 1];
      if j > 0 { assert q2[j] == q[j - 1]; }
    }
  }

  /** The quote positions ascend. */
  lemma {:induction false} QuotesFromAscending(s: string, i: nat)
    requires i <= |s|
    ensures Ascending(QuotesFrom(s, i))
    decreases |s| - i
  {
    if i < |s| {
      QuotesFromAscending(s, i + 1);
      var q' := QuotesFrom(s, i + 1);
      if s[i] == Quote {
        AscendingCons(i, q');
        assert QuotesFrom(s, i) == [i] + q';
      } else {
        assert QuotesFrom(s, i) == [] + q';
        assert [] + q' == q';
      }
    }
  }

  /** Every quote at or after `i` is among the quote positions. */
  lemma {:induction false} QuotesFromComplete(s: string, i: nat, p: nat)
    requires i <= p < |s| && s[p] == Quote
    ensures p in QuotesFrom(s, i)
    decreases p - i
  {
    if i < p {
      QuotesFromComplete(s, i + 1, p);
      var q' := QuotesFrom(s, i + 1);
      assert QuotesFrom(s, i) == (if s[i] == Quote then [i] else []) + q';
    }
  }

  /** When every segment trims to nothing, the whole trimmed input becomes
      option 0. */
  lemma FallbackWhenNothingSurvives(raw: string)
    requires forall k :: 0 <= k < |Segments(raw)| ==> AllSpace(Segments(raw)[k])
    ensures FormatOptions(raw) == Label(0, Strip(raw))
  {
    var segs := Segments(raw);
    NoSurvivors(segs, 0);
  }

  /** With every segment from `from` on blank, nothing survives. */
  lemma {:induction false} NoSurvivors(segs: seq<string>, from: nat)
    requires forall k :: from <= k < |segs| ==> AllSpace(segs[k])
    ensures Survivors(segs, from) == []
    decreases |segs| - from
  {
    if from < |segs| {
      NoSurvivors(segs, from + 1);
    }
  }

  /** Without any quote there are no segments, so the whole trimmed input
      becomes option 0. */
  lemma FallbackWithoutQuotes(raw: string)
    requires Quote !in raw
    ensures FormatOptions(raw) == Label(0, Strip(raw))
  {
    NextIndexUnique(raw, Quote, 0, |raw|);
  }

  /** An empty or all-whitespace cell gives the bare label "0. ". */
  lemma BlankInputGivesBareLabel(raw: string)
    requires AllSpace(raw)
    ensures FormatOptions(raw) == "0. "
  {
    assert Quote !in raw by {
      forall j | 0 <= j < |raw| ensures raw[j] != Quote {
        assert IsSpace(raw[j]);
      }
    }
    FallbackWithoutQuotes(raw);
    assert NatToString(0) == "0";
  }
}
