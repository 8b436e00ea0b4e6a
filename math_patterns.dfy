/** The two regular expressions of `extract_latex`, each written out as a scanner that does
    what `re.findall` does with it: leftmost match first, the lazy `.*?` taking the shortest
    body, and the scan resuming where the previous match ended.

      display math  `[^\\](\$\$.*?[^\\]\$\$)`  (with DOTALL)
      inline math   `[^\$\\](\$.*?[^\\]\$)`    (with DOTALL)

    Each pattern starts with one character that is consumed but not captured, so a match is
    reported as the span of the captured group, which begins one position after the match. */
module MathPatterns {
  import opened Py
  import opened PyStr

  /** The captured text `s[start..end]`. */
  datatype Span = Span(start: nat, end: nat)

  /** Spans that come in order without overlapping. */
  ghost predicate InOrder(spans: seq<Span>) {
    forall i, j :: 0 <= i < j < |spans| ==> spans[i].end < spans[j].start
  }

  lemma {:induction false} ConsInOrder(first: Span, rest: seq<Span>)
    requires InOrder(rest) && forall sp :: sp in rest ==> first.end < sp.start
    ensures InOrder([first] + rest)
  {
    var r := [first] + rest;
    forall a, b | 0 <= a < b < |r| ensures r[a].end < r[b].start {
      assert r[b] == rest[b - 1] && rest[b - 1] in rest;
      if a > 0 {
        assert r[a] == rest[a - 1];
      }
    }
  }

  // ---------------------------------------------------------------------------------------
  // Display math.

  /** `[^\\]\$\$` matches at `k`: a character other than a backslash, then `$$`. This is both
      the opening and the closing part of the display pattern. */
  predicate BareDoubleDollarAt(s: string, k: nat) {
    k + 3 <= |s| && s[k] != '\\' && s[k + 1] == '$' && s[k + 2] == '$'
  }

  /** The first position at or after `from` where `[^\\]\$\$` matches. */
  function FirstBareDoubleDollar(s: string, from: nat): (r: Option<nat>)
    ensures r.Some? ==> from <= r.value && BareDoubleDollarAt(s, r.value)
    ensures forall t :: from <= t && (r.None? || t < r.value) ==> !BareDoubleDollarAt(s, t)
    decreases |s| - from
  {
    if from + 3 > |s| then None
    else if BareDoubleDollarAt(s, from) then Some(from)
    else FirstBareDoubleDollar(s, from + 1)
  }

  /** The display pattern matches starting at `k`: an opening `[^\\]\$\$` at `k` and a
      closing one somewhere from `k + 3` on. */
  predicate DisplayMatchAt(s: string, k: nat) {
    BareDoubleDollarAt(s, k) && FirstBareDoubleDollar(s, k + 3).Some?
  }

  ghost predicate NoDisplayMatchBetween(s: string, lo: nat, hi: int) {
    forall k :: lo <= k < hi ==> !DisplayMatchAt(s, k)
  }

  /** A captured display segment: `$$` preceded by a non-backslash, a body, then the first
      non-backslash followed by `$$` that comes after the opening `$$`. */
  ghost predicate IsDisplaySpan(s: string, sp: Span) {
    && 1 <= sp.start && sp.start + 5 <= sp.end <= |s|
    && BareDoubleDollarAt(s, sp.start - 1)
    && BareDoubleDollarAt(s, sp.end - 3)
    && forall t :: sp.start + 2 <= t < sp.end - 3 ==> !BareDoubleDollarAt(s, t)
  }

  /** `re.findall(display_math, s[pos..])`, as spans of `s`. What findall promises of them is
      proved in `DisplaySpansAreMatches` and `DisplaySpansAreLeftmost`. */
  function DisplaySpans(s: string, pos: nat): (r: seq<Span>)
    ensures forall sp :: sp in r ==> pos < sp.start && sp.start + 5 <= sp.end <= |s|
    decreases |s| - pos
  {
    if pos + 3 > |s| then []
    else if BareDoubleDollarAt(s, pos) then
      match FirstBareDoubleDollar(s, pos + 3)
      case Some(q) => [Span(pos + 1, q + 3)] + DisplaySpans(s, q + 3)
      case None => DisplaySpans(s, pos + 1)
    else DisplaySpans(s, pos + 1)
  }

  /** Every span is a match of the display pattern with the shortest body. */
  lemma {:induction false} DisplaySpansAreMatches(s: string, pos: nat)
    ensures forall sp :: sp in DisplaySpans(s, pos) ==> IsDisplaySpan(s, sp)
    decreases |s| - pos
  {
    if pos + 3 <= |s| {
      if BareDoubleDollarAt(s, pos) {
        match FirstBareDoubleDollar(s, pos + 3)
        case Some(q) => {
          DisplaySpansAreMatches(s, q + 3);
          assert DisplaySpans(s, pos) == [Span(pos + 1, q + 3)] + DisplaySpans(s, q + 3);
        }
        case None => DisplaySpansAreMatches(s, pos + 1);
      } else {
        DisplaySpansAreMatches(s, pos + 1);
      }
    }
  }

  /** The spans come in order without overlapping. */
  lemma {:induction false} DisplaySpansInOrder(s: string, pos: nat)
    ensures InOrder(DisplaySpans(s, pos))
    decreases |s| - pos
  {
    if pos + 3 <= |s| {
      if BareDoubleDollarAt(s, pos) {
        match FirstBareDoubleDollar(s, pos + 3)
        case Some(q) => {
          DisplaySpansInOrder(s, q + 3);
          var rest := DisplaySpans(s, q + 3);
          var r := [Span(pos + 1, q + 3)] + rest;
          assert DisplaySpans(s, pos) == r;
          ConsInOrder(r[0], rest);
        }
        case None => {
          DisplaySpansInOrder(s, pos + 1);
          assert DisplaySpans(s, pos) == DisplaySpans(s, pos + 1);
        }
      } else {
        DisplaySpansInOrder(s, pos + 1);
        assert DisplaySpans(s, pos) == DisplaySpans(s, pos + 1);
      }
    }
  }

  /** The first span is the leftmost match, and the rest is the scan resumed where it ends;
      when there is no span, the pattern matches nowhere. */
  ghost predicate DisplayLeftmost(s: string, pos: nat) {
    var r := DisplaySpans(s, pos);
    && (r == [] ==> NoDisplayMatchBetween(s, pos, |s|))
    && (r != [] ==> NoDisplayMatchBetween(s, pos, r[0].start - 1) && r[1..] == DisplaySpans(s, r[0].end))
  }

  lemma {:induction false} DisplaySpansAreLeftmost(s: string, pos: nat)
    ensures DisplayLeftmost(s, pos)
    decreases |s| - pos
  {
    if pos + 3 <= |s| {
      if DisplayMatchAt(s, pos) {
        DisplayMatchStep(s, pos);
      } else {
        DisplaySpansAreLeftmost(s, pos + 1);
        DisplaySkipStep(s, pos);
      }
    }
  }

  /** Where the pattern does not match, the scan moves on by one character. */
  lemma {:induction false} DisplaySkipStep(s: string, pos: nat)
    requires pos + 3 <= |s| && !DisplayMatchAt(s, pos) && DisplayLeftmost(s, pos + 1)
    ensures DisplayLeftmost(s, pos)
  {
    assert DisplaySpans(s, pos) == DisplaySpans(s, pos + 1);
  }

  /** A match at the scan position is the first span, and the scan resumes after it. */
  lemma {:induction false} DisplayMatchStep(s: string, pos: nat)
    requires DisplayMatchAt(s, pos)
    ensures var q := FirstBareDoubleDollar(s, pos + 3).value;
      DisplaySpans(s, pos) == [Span(pos + 1, q + 3)] + DisplaySpans(s, q + 3)
  {
  }

  // ---------------------------------------------------------------------------------------
  // Inline math.

  /** `[^\$\\]\$` matches at `k`: a character that is neither `$` nor a backslash, then `$`. */
  predicate InlineOpensAt(s: string, k: nat) {
    k + 2 <= |s| && s[k] != '$' && s[k] != '\\' && s[k + 1] == '$'
  }

  /** `[^\\]\$` ends at `j`: a `$` at `j` whose previous character is not a backslash. */
  predicate InlineClosesAt(s: string, j: nat) {
    1 <= j < |s| && s[j] == '$' && s[j - 1] != '\\'
  }

  /** The first position at or after `from` where the closing `[^\\]\$` ends. */
  function FirstInlineClose(s: string, from: nat): (r: Option<nat>)
    ensures r.Some? ==> from <= r.value && InlineClosesAt(s, r.value)
    ensures forall t :: from <= t && (r.None? || t < r.value) ==> !InlineClosesAt(s, t)
    decreases |s| - from
  {
    if from >= |s| then None
    else if InlineClosesAt(s, from) then Some(from)
    else FirstInlineClose(s, from + 1)
  }

  /** The inline pattern matches starting at `k`. The closing `$` comes at `k + 3` or later,
      since the opening `$` cannot also be the character before it. */
  predicate InlineMatchAt(s: string, k: nat) {
    InlineOpensAt(s, k) && FirstInlineClose(s, k + 3).Some?
  }

  ghost predicate NoInlineMatchBetween(s: string, lo: nat, hi: int) {
    forall k :: lo <= k < hi ==> !InlineMatchAt(s, k)
  }

  /** A captured inline segment: `$` preceded by neither `$` nor a backslash, a body, then
      the first `$` not preceded by a backslash, at least two places further on. */
  ghost predicate IsInlineSpan(s: string, sp: Span) {
    && 1 <= sp.start && sp.start + 3 <= sp.end <= |s|
    && InlineOpensAt(s, sp.start - 1)
    && InlineClosesAt(s, sp.end - 1)
    && forall t :: sp.start + 2 <= t < sp.end - 1 ==> !InlineClosesAt(s, t)
  }

  /** `re.findall(inline_math, s[pos..])`, as spans of `s`. What findall promises of them is
      proved in `InlineSpansAreMatches` and `InlineSpansAreLeftmost`. */
  function InlineSpans(s: string, pos: nat): (r: seq<Span>)
    ensures forall sp :: sp in r ==> pos < sp.start && sp.start + 3 <= sp.end <= |s|
    decreases |s| - pos
  {
    if pos + 2 > |s| then []
    else if InlineOpensAt(s, pos) then
      match FirstInlineClose(s, pos + 3)
      case Some(j) => [Span(pos + 1, j + 1)] + InlineSpans(s, j + 1)
      case None => InlineSpans(s, pos + 1)
    else InlineSpans(s, pos + 1)
  }

  /** Every span is a match of the inline pattern with the shortest body. */
  lemma {:induction false} InlineSpansAreMatches(s: string, pos: nat)
    ensures forall sp :: sp in InlineSpans(s, pos) ==> IsInlineSpan(s, sp)
    decreases |s| - pos
  {
    if pos + 2 <= |s| {
      if InlineOpensAt(s, pos) {
        match FirstInlineClose(s, pos + 3)
        case Some(j) => {
          InlineSpansAreMatches(s, j + 1);
          assert InlineSpans(s, pos) == [Span(pos + 1, j + 1)] + InlineSpans(s, j + 1);
        }
        case None => InlineSpansAreMatches(s, pos + 1);
      } else {
        InlineSpansAreMatches(s, pos + 1);
      }
    }
  }

  /** The spans come in order without overlapping. */
  lemma {:induction false} InlineSpansInOrder(s: string, pos: nat)
    ensures InOrder(InlineSpans(s, pos))
    decreases |s| - pos
  {
    if pos + 2 <= |s| {
      if InlineOpensAt(s, pos) {
        match FirstInlineClose(s, pos + 3)
        case Some(j) => {
          InlineSpansInOrder(s, j + 1);
          var rest := InlineSpans(s, j + 1);
          var r := [Span(pos + 1, j + 1)] + rest;
          assert InlineSpans(s, pos) == r;
          ConsInOrder(r[0], rest);
        }
        case None => {
          InlineSpansInOrder(s, pos + 1);
          assert InlineSpans(s, pos) == InlineSpans(s, pos + 1);
        }
      } else {
        InlineSpansInOrder(s, pos + 1);
        assert InlineSpans(s, pos) == InlineSpans(s, pos + 1);
      }
    }
  }

  /** The first span is the leftmost match, and the rest is the scan resumed where it ends;
      when there is no span, the pattern matches nowhere. */
  ghost predicate InlineLeftmost(s: string, pos: nat) {
    var r := InlineSpans(s, pos);
    && (r == [] ==> NoInlineMatchBetween(s, pos, |s|))
    && (r != [] ==> NoInlineMatchBetween(s, pos, r[0].start - 1) && r[1..] == InlineSpans(s, r[0].end))
  }

  lemma {:induction false} InlineSpansAreLeftmost(s: string, pos: nat)
    ensures InlineLeftmost(s, pos)
    decreases |s| - pos
  {
    if pos + 2 <= |s| {
      if InlineMatchAt(s, pos) {
        InlineMatchStep(s, pos);
      } else {
        InlineSpansAreLeftmost(s, pos + 1);
        InlineSkipStep(s, pos);
      }
    }
  }

  /** Where the pattern does not match, the scan moves on by one character. */
  lemma {:induction false} InlineSkipStep(s: string, pos: nat)
    requires pos + 2 <= |s| && !InlineMatchAt(s, pos) && InlineLeftmost(s, pos + 1)
    ensures InlineLeftmost(s, pos)
  {
    assert InlineSpans(s, pos) == InlineSpans(s, pos + 1);
  }

  /** A match at the scan position is the first span, and the scan resumes after it. */
  lemma {:induction false} InlineMatchStep(s: string, pos: nat)
    requires InlineMatchAt(s, pos)
    ensures var j := FirstInlineClose(s, pos + 3).value;
      InlineSpans(s, pos) == [Span(pos + 1, j + 1)] + InlineSpans(s, j + 1)
  {
  }

  // ---------------------------------------------------------------------------------------
  // The captured strings, as `re.findall` returns them.

  function Texts(s: string, spans: seq<Span>): (r: seq<string>)
    requires forall i :: 0 <= i < |spans| ==> spans[i].start <= spans[i].end <= |s|
    ensures |r| == |spans|
    ensures forall i :: 0 <= i < |spans| ==> r[i] == s[spans[i].start..spans[i].end]
  {
    if |spans| == 0 then []
    else [s[spans[0].start..spans[0].end]] + Texts(s, spans[1..])
  }

  function DisplayMath(s: string): seq<string> {
    Texts(s, DisplaySpans(s, 0))
  }

  function InlineMath(s: string): seq<string> {
    Texts(s, InlineSpans(s, 0))
  }

  // ---------------------------------------------------------------------------------------
  // re.findall with a compiled pattern.

  /** One of the two compiled patterns; `dotAll` records whether it was compiled with
      `re.DOTALL`. */
  datatype Pattern = DisplayPattern(dotAll: bool) | InlinePattern(dotAll: bool)

  /** The value of `re.DOTALL`. */
  const DOTALL: int := 16

  /** `re.findall(pattern, s, flags)` with a compiled `pattern`: Python's `re` refuses any
      flags other than 0 next to a compiled pattern with `ValueError`, and otherwise returns
      the captured groups of the pattern's matches. Only patterns compiled with DOTALL are
      scanned; neither revision runs another one. */
  function FindAll(p: Pattern, s: string, flags: int): (r: Result<seq<string>>)
    requires flags != 0 || p.dotAll
    ensures r.Err? <==> flags != 0
    ensures r.Err? ==> r.error == ValueError
    ensures r.Ok? && p.DisplayPattern? ==> r.value == DisplayMath(s)
    ensures r.Ok? && p.InlinePattern? ==> r.value == InlineMath(s)
  {
    if flags != 0 then Err(ValueError)
    else if p.DisplayPattern? then Ok(DisplayMath(s))
    else Ok(InlineMath(s))
  }

  // ---------------------------------------------------------------------------------------
  // Properties.

  /** The text of a display span occurs in `s`, starts and ends with `$$`, has at least
      five characters, and its closing `$$` does not follow a backslash. */
  ghost predicate DisplaySegmentOf(s: string, seg: string) {
    && Contains(s, seg) && |seg| >= 5
    && seg[0] == '$' && seg[1] == '$' && seg[|seg| - 2] == '$' && seg[|seg| - 1] == '$'
    && seg[|seg| - 3] != '\\'
  }

  /** The text of an inline span occurs in `s`, starts and ends with `$`, has at least three
      characters, and its closing `$` does not follow a backslash. */
  ghost predicate InlineSegmentOf(s: string, seg: string) {
    && Contains(s, seg) && |seg| >= 3
    && seg[0] == '$' && seg[|seg| - 1] == '$' && seg[|seg| - 2] != '\\'
  }

  lemma {:induction false} DisplaySpanText(s: string, sp: Span)
    requires IsDisplaySpan(s, sp)
    ensures DisplaySegmentOf(s, s[sp.start..sp.end])
  {
    assert OccursAt(s, s[sp.start..sp.end], sp.start);
  }

  lemma {:induction false} InlineSpanText(s: string, sp: Span)
    requires IsInlineSpan(s, sp)
    ensures InlineSegmentOf(s, s[sp.start..sp.end])
  {
    assert OccursAt(s, s[sp.start..sp.end], sp.start);
  }

  /** Every display segment found has the shape of `DisplaySegmentOf`. */
  lemma {:induction false} DisplaySegmentShape(s: string)
    ensures forall seg :: seg in DisplayMath(s) ==> DisplaySegmentOf(s, seg)
  {
    var r := DisplaySpans(s, 0);
    DisplaySpansAreMatches(s, 0);
    forall i | 0 <= i < |r| ensures DisplaySegmentOf(s, DisplayMath(s)[i]) {
      assert r[i] in r;
      DisplaySpanText(s, r[i]);
    }
  }

  /** Every inline segment found has the shape of `InlineSegmentOf`. */
  lemma {:induction false} InlineSegmentShape(s: string)
    ensures forall seg :: seg in InlineMath(s) ==> InlineSegmentOf(s, seg)
  {
    var r := InlineSpans(s, 0);
    InlineSpansAreMatches(s, 0);
    forall i | 0 <= i < |r| ensures InlineSegmentOf(s, InlineMath(s)[i]) {
      assert r[i] in r;
      InlineSpanText(s, r[i]);
    }
  }

  /** findall finds a display segment exactly when the pattern matches somewhere. */
  lemma {:induction false} DisplayFoundIff(s: string)
    ensures DisplayMath(s) != [] <==> exists k :: DisplayMatchAt(s, k)
  {
    var r := DisplaySpans(s, 0);
    DisplaySpansAreMatches(s, 0);
    DisplaySpansAreLeftmost(s, 0);
    if r != [] {
      var sp := r[0];
      assert sp in r;
      assert BareDoubleDollarAt(s, sp.end - 3);
      assert FirstBareDoubleDollar(s, sp.start + 2).Some?;
      assert DisplayMatchAt(s, sp.start - 1);
    }
  }

  /** findall finds an inline segment exactly when the pattern matches somewhere. */
  lemma {:induction false} InlineFoundIff(s: string)
    ensures InlineMath(s) != [] <==> exists k :: InlineMatchAt(s, k)
  {
    var r := InlineSpans(s, 0);
    InlineSpansAreMatches(s, 0);
    InlineSpansAreLeftmost(s, 0);
    if r != [] {
      var sp := r[0];
      assert sp in r;
      assert InlineClosesAt(s, sp.end - 1);
      assert FirstInlineClose(s, sp.start + 2).Some?;
      assert InlineMatchAt(s, sp.start - 1);
    }
  }

  /** Every `$` that opens a segment follows some character, which is not a backslash, and
      for inline math not a `$` either: a `$` at index 0 never opens a segment. */
  lemma {:induction false} OpenersArePreceded(s: string)
    ensures forall sp :: sp in DisplaySpans(s, 0) ==>
      sp.start >= 1 && s[sp.start] == '$' && s[sp.start - 1] != '\\'
    ensures forall sp :: sp in InlineSpans(s, 0) ==>
      sp.start >= 1 && s[sp.start] == '$' && s[sp.start - 1] != '\\' && s[sp.start - 1] != '$'
  {
    DisplaySpansAreMatches(s, 0);
    InlineSpansAreMatches(s, 0);
  }

  /** Escaped dollars never open a segment: in a text where every `$` follows a backslash
      (or stands first), neither pattern finds anything. */
  lemma {:induction false} EscapedDollarsFindNothing(s: string)
    requires forall i :: 1 <= i < |s| && s[i] == '$' ==> s[i - 1] == '\\'
    ensures DisplayMath(s) == [] && InlineMath(s) == []
  {
    OpenersArePreceded(s);
    var d := DisplaySpans(s, 0);
    var n := InlineSpans(s, 0);
  }

  /** Text with fewer than two `$` holds no inline segment. */
  lemma {:induction false} FewDollarsNoInline(s: string)
    requires Count('$', s) < 2
    ensures InlineMath(s) == []
  {
    var r := InlineSpans(s, 0);
    InlineSpansAreMatches(s, 0);
    if r != [] {
      assert r[0] in r;
      CountTwo('$', s, r[0].start, r[0].end - 1);
    }
  }

  // ---------------------------------------------------------------------------------------
  // Examples.

  /** Dollars pair up as the scan meets them, not as the author meant: in `$x_1$ and $y$`
      the first `$` stands at index 0 and cannot open, the `1` before the second `$` opens,
      and the one segment found is the text between the two formulas. */
  lemma {:induction false} InlineMispairedExample(s: string)
    requires s == "$x_1$ and $y$"
    ensures InlineMath(s) == ["$ and $"]
  {
    assert !InlineOpensAt(s, 0) && !InlineOpensAt(s, 1) && !InlineOpensAt(s, 2);
    assert InlineOpensAt(s, 3);
    assert !InlineClosesAt(s, 6) && !InlineClosesAt(s, 7) && !InlineClosesAt(s, 8)
      && !InlineClosesAt(s, 9) && InlineClosesAt(s, 10);
    assert FirstInlineClose(s, 6) == Some(10);
    assert InlineOpensAt(s, 11) && FirstInlineClose(s, 14) == None;
    assert InlineSpans(s, 11) == [] by {
      assert InlineSpans(s, 11) == InlineSpans(s, 12);
    }
    assert InlineSpans(s, 3) == [Span(4, 11)] + InlineSpans(s, 11);
    assert InlineSpans(s, 0) == InlineSpans(s, 1) == InlineSpans(s, 2) == InlineSpans(s, 3);
    assert s[4..11] == "$ and $";
  }

  /** Display math read by the inline pattern: the inline scan of ` $$a$$` opens at the
      first `$` and closes at the next unescaped one, while the display scan takes the
      whole `$$a$$`. */
  lemma {:induction false} DisplayReadAsInlineExample(s: string)
    requires s == " $$a$$"
    ensures InlineMath(s) == ["$$a$"]
    ensures DisplayMath(s) == ["$$a$$"]
  {
    assert InlineOpensAt(s, 0) && !InlineClosesAt(s, 3) && InlineClosesAt(s, 4);
    assert FirstInlineClose(s, 3) == Some(4);
    assert InlineSpans(s, 0) == [Span(1, 5)];
    assert s[1..5] == "$$a$";
    assert BareDoubleDollarAt(s, 0) && BareDoubleDollarAt(s, 3);
    assert FirstBareDoubleDollar(s, 3) == Some(3);
    assert DisplaySpans(s, 0) == [Span(1, 6)];
    assert s[1..6] == "$$a$$";
  }
}
