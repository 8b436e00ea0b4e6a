/** `HugoPreprocessor`, the current revision of the preprocessor that prepares a notebook for
    Hugo: it quotes underscores in LaTeX math (so that Hugo's Markdown renderer does not read
    them as emphasis), fills in default front-matter metadata, and moves emitted resource files
    next to the output document. The quoting replaces the TEXT of each segment it finds across
    the whole cell, so a segment's text that recurs elsewhere is quoted there too, and an
    underscore of a segment can be missed (`RecurringSegmentExample`,
    `RepeatedOutsideExample`); `QuotedBySpans` is the quoting by position that the code
    evidently intends. */
module HugoPreprocessor {
  import opened Py
  import opened PyStr
  import opened Notebook
  import opened MathPatterns

  // =========================================================================================
  // quote_underscores_in_latex

  /** `latex.replace('_', '\_')`. */
  function Escape(latex: string): string {
    Replace(latex, "_", "\\_")
  }

  /** `text.replace(latex, latex.replace('_', '\_'))`: every occurrence of `latex` in `text`,
      found left to right without overlapping, is replaced by its escaped form, and the text
      between occurrences is kept. An empty `latex` leaves `text` as it is, as Python's
      `text.replace('', '')` does. */
  function QuoteUnderscoresInLatex(text: string, latex: string): (r: string)
    ensures latex == [] ==> r == text
    ensures latex != [] ==> r == Join(Split(text, latex), Escape(latex))
  {
    if latex == [] then text
    else
      ReplaceIsJoinSplit(text, latex, Escape(latex));
      Replace(text, latex, Escape(latex))
  }

  /** Escaping puts a backslash before each underscore and changes nothing else: the length
      grows by the number of underscores, deleting the backslashes gives back the same text
      as deleting them from the input, the underscores are the same in number and each one
      now follows a backslash. Without underscores it is the identity. */
  lemma {:induction false} EscapeSpec(latex: string)
    ensures |Escape(latex)| == |latex| + Count('_', latex)
    ensures Without(Escape(latex), '\\') == Without(latex, '\\')
    ensures Count('_', Escape(latex)) == Count('_', latex)
    ensures forall i :: 0 <= i < |Escape(latex)| && Escape(latex)[i] == '_' ==>
      0 < i && Escape(latex)[i - 1] == '\\'
    ensures Count('_', latex) == 0 ==> Escape(latex) == latex
  {
    EscapeCounts(latex);
    EscapeBackslashBefore(latex);
  }

  /** The escaped form of the first character, followed by the escaped rest. */
  lemma {:induction false} EscapeCons(latex: string)
    requires |latex| > 0
    ensures Escape(latex) == EscapeChar(latex[0]) + Escape(latex[1..])
  {
    assert latex[..1] == [latex[0]];
  }

  function EscapeChar(c: char): string {
    if c == '_' then "\\_" else [c]
  }

  /** The length, the backslash-free text and the underscores, as in `EscapeSpec`. */
  lemma {:induction false} EscapeCounts(latex: string)
    ensures |Escape(latex)| == |latex| + Count('_', latex)
    ensures Without(Escape(latex), '\\') == Without(latex, '\\')
    ensures Count('_', Escape(latex)) == Count('_', latex)
    ensures Count('_', latex) == 0 ==> Escape(latex) == latex
  {
    EscapeCount(latex);
    EscapeWithout(latex);
  }

  lemma {:induction false} EscapeCount(latex: string)
    ensures |Escape(latex)| == |latex| + Count('_', latex)
    ensures Count('_', Escape(latex)) == Count('_', latex)
    ensures Count('_', latex) == 0 ==> Escape(latex) == latex
  {
    if |latex| > 0 {
      var rest := latex[1..];
      var c := EscapeChar(latex[0]);
      EscapeCount(rest);
      EscapeCons(latex);
      CountAppend('_', c, Escape(rest));
      HeadTail(latex);
      CountAppend('_', [latex[0]], rest);
    }
  }

  lemma {:induction false} EscapeWithout(latex: string)
    ensures Without(Escape(latex), '\\') == Without(latex, '\\')
  {
    if |latex| > 0 {
      var rest := latex[1..];
      var c := EscapeChar(latex[0]);
      EscapeWithout(rest);
      EscapeCons(latex);
      WithoutAppend(c, Escape(rest), '\\');
      HeadTail(latex);
      WithoutAppend([latex[0]], rest, '\\');
    }
  }

  /** Every underscore of the escaped text follows a backslash. */
  lemma {:induction false} EscapeBackslashBefore(latex: string)
    ensures forall i :: 0 <= i < |Escape(latex)| && Escape(latex)[i] == '_' ==>
      0 < i && Escape(latex)[i - 1] == '\\'
  {
    if |latex| > 0 {
      var rest := latex[1..];
      var c := EscapeChar(latex[0]);
      var e := Escape(latex);
      EscapeBackslashBefore(rest);
      EscapeCons(latex);
      forall i | 0 <= i < |e| && e[i] == '_' ensures 0 < i && e[i - 1] == '\\' {
        if i >= |c| {
          assert e[i] == Escape(rest)[i - |c|];
          if i - |c| > 0 {
            assert e[i - 1] == Escape(rest)[i - 1 - |c|];
          }
        }
      }
    }
  }

  /** Replacing every `\_` by `_` undoes the escaping. */
  lemma {:induction false} UnescapeEscape(latex: string)
    ensures Replace(Escape(latex), "\\_", "_") == latex
  {
    if |latex| > 0 {
      var rest := latex[1..];
      UnescapeEscape(rest);
      EscapeCons(latex);
      SplitsAt(latex, 1);
      assert latex[..1] == [latex[0]];
      if latex[0] == '_' {
        UnescapeUnderscore(Escape(rest), rest);
      } else {
        EscapeBackslashBefore(rest);
        UnescapeOther(latex[0], Escape(rest), rest);
      }
    }
  }

  /** Undoing the escape of an underscore. */
  lemma {:induction false} UnescapeUnderscore(e: string, rest: string)
    requires Replace(e, "\\_", "_") == rest
    ensures Replace("\\_" + e, "\\_", "_") == "_" + rest
  {
    var t := "\\_" + e;
    assert t[..2] == "\\_" && t[2..] == e;
  }

  /** A character other than an underscore, put before an escaped text that cannot start
      with an underscore, is kept by the unescaping. */
  lemma {:induction false} UnescapeOther(c: char, e: string, rest: string)
    requires c != '_' && (|e| > 0 ==> e[0] != '_')
    requires Replace(e, "\\_", "_") == rest
    ensures Replace([c] + e, "\\_", "_") == [c] + rest
  {
    var t := [c] + e;
    assert t[0] == c && t[1..] == e;
    if |t| >= 2 {
      assert t[..2] != "\\_" by {
        assert t[1] == e[0];
      }
    }
  }

  /** Quoting only inserts backslashes: deleting every backslash from the result gives the
      same text as deleting every backslash from the input. */
  lemma {:induction false} QuoteOnlyInsertsBackslashes(text: string, latex: string)
    ensures Without(QuoteUnderscoresInLatex(text, latex), '\\') == Without(text, '\\')
  {
    if latex != [] {
      var parts := Split(text, latex);
      WithoutJoin(parts, Escape(latex), '\\');
      EscapeSpec(latex);
      WithoutJoin(parts, latex, '\\');
      JoinSplit(text, latex);
    }
  }

  /** Quoting changes nothing when `latex` holds no underscore or does not occur in `text`. */
  lemma {:induction false} QuoteIdentity(text: string, latex: string)
    requires Count('_', latex) == 0 || !Contains(text, latex)
    ensures QuoteUnderscoresInLatex(text, latex) == text
  {
    if latex != [] {
      if Count('_', latex) == 0 {
        EscapeSpec(latex);
        JoinSplit(text, latex);
      } else {
        SplitAbsent(text, latex);
      }
    }
  }

  /** Quoting a string within itself, as done for `text/latex` outputs, escapes it whole. */
  lemma {:induction false} QuoteWhole(latex: string)
    ensures QuoteUnderscoresInLatex(latex, latex) == Escape(latex)
  {
    if latex != [] {
      assert latex[..|latex|] == latex && latex[|latex|..] == "";
      assert Split(latex[|latex|..], latex) == [""];
      assert Split(latex, latex) == ["", ""];
      assert ["", ""][1..] == [""];
      assert Join(["", ""], Escape(latex)) == "" + Escape(latex) + "";
    }
  }

  /** The quote is for a single application: quoting a text that already has quoted
      underscores escapes them again. */
  lemma {:induction false} QuoteTwiceDiffers(latex: string)
    requires Count('_', latex) > 0
    ensures var q := QuoteUnderscoresInLatex(latex, latex);
      QuoteUnderscoresInLatex(q, q) != q
  {
    QuoteWhole(latex);
    var q := Escape(latex);
    QuoteWhole(q);
    EscapeSpec(latex);
    EscapeSpec(q);
  }

  // =========================================================================================
  // extract_latex

  /** The inline segments of each block, block after block. */
  function InlineAll(blocks: seq<string>): seq<string> {
    if |blocks| == 0 then []
    else InlineAll(blocks[..|blocks| - 1]) + InlineMath(blocks[|blocks| - 1])
  }

  /** What `extract_latex` returns: the display segments of the whole text, then the inline
      segments of each `'\n\n'`-separated block in order. */
  function LatexSegments(markdown: string): seq<string> {
    DisplayMath(markdown) + InlineAll(Split(markdown, "\n\n"))
  }

  method ExtractLatex(markdown: string) returns (out: seq<string>)
    ensures out == LatexSegments(markdown)
  {
    var display := FindAll(DisplayPattern(true), markdown, 0).value;
    var blocks := Split(markdown, "\n\n");
    var inline: seq<string> := [];
    var i := 0;
    while i < |blocks|
      invariant 0 <= i <= |blocks|
      invariant inline == InlineAll(blocks[..i])
    {
      assert blocks[..i + 1][..i] == blocks[..i];
      inline := inline + FindAll(InlinePattern(true), blocks[i], 0).value;
      i := i + 1;
    }
    assert blocks[..|blocks|] == blocks;
    out := display + inline;
  }

  lemma {:induction false} InlineAllMember(blocks: seq<string>, seg: string)
    requires seg in InlineAll(blocks)
    ensures exists b :: b in blocks && seg in InlineMath(b)
  {
    var n := |blocks|;
    var init := blocks[..n - 1];
    if seg in InlineAll(init) {
      InlineAllMember(init, seg);
      var b :| b in init && seg in InlineMath(b);
      assert b in blocks;
    } else {
      assert blocks[n - 1] in blocks;
    }
  }

  lemma {:induction false} InlineAllEmpty(blocks: seq<string>)
    requires forall b :: b in blocks ==> InlineMath(b) == []
    ensures InlineAll(blocks) == []
  {
    if |blocks| > 0 {
      assert forall b :: b in blocks[..|blocks| - 1] ==> b in blocks;
      InlineAllEmpty(blocks[..|blocks| - 1]);
      assert blocks[|blocks| - 1] in blocks;
    }
  }

  /** Every extracted segment occurs in the text, is at least three characters long, starts
      and ends with `$`, and its closing `$` does not follow a backslash. */
  lemma {:induction false} SegmentShape(markdown: string)
    ensures forall seg :: seg in LatexSegments(markdown) ==>
      && Contains(markdown, seg) && |seg| >= 3
      && seg[0] == '$' && seg[|seg| - 1] == '$' && seg[|seg| - 2] != '\\'
  {
    DisplaySegmentShape(markdown);
    var blocks := Split(markdown, "\n\n");
    SplitPiecesOccur(markdown, "\n\n");
    forall seg | seg in InlineAll(blocks)
      ensures Contains(markdown, seg) && |seg| >= 3
      ensures seg[0] == '$' && seg[|seg| - 1] == '$' && seg[|seg| - 2] != '\\'
    {
      InlineAllMember(blocks, seg);
      var b :| b in blocks && seg in InlineMath(b);
      InlineSegmentShape(b);
      ContainsTrans(markdown, b, seg);
    }
  }

  /** Inline math never spans a blank line: no inline segment contains `"\n\n"`. */
  lemma {:induction false} InlineSegmentsWithinBlocks(markdown: string)
    ensures forall seg :: seg in InlineAll(Split(markdown, "\n\n")) ==> !Contains(seg, "\n\n")
  {
    var blocks := Split(markdown, "\n\n");
    SplitPiecesFree(markdown, "\n\n");
    forall seg | seg in InlineAll(blocks) ensures !Contains(seg, "\n\n") {
      InlineAllMember(blocks, seg);
      var b :| b in blocks && seg in InlineMath(b);
      InlineSegmentShape(b);
      SubstringAvoids(b, seg, "\n\n");
    }
  }

  /** A text in which every `$` follows a backslash (or stands first) has no segment. */
  lemma {:induction false} EscapedDollarsNeverOpen(markdown: string)
    requires forall i :: 1 <= i < |markdown| && markdown[i] == '$' ==> markdown[i - 1] == '\\'
    ensures LatexSegments(markdown) == []
  {
    EscapedDollarsFindNothing(markdown);
    var blocks := Split(markdown, "\n\n");
    SplitPiecesOccur(markdown, "\n\n");
    forall b | b in blocks ensures InlineMath(b) == [] {
      var o: nat :| OccursAt(markdown, b, o);
      forall i | 1 <= i < |b| && b[i] == '$' ensures b[i - 1] == '\\' {
        assert b[i] == markdown[o + i] && b[i - 1] == markdown[o + i - 1];
      }
      EscapedDollarsFindNothing(b);
    }
    InlineAllEmpty(blocks);
  }

  // =========================================================================================
  // preprocess_cell

  /** The source after quoting each segment in turn, each quote applied to the result of the
      previous ones. */
  function QuoteAll(text: string, segments: seq<string>): string
    decreases |segments|
  {
    if |segments| == 0 then text
    else QuoteUnderscoresInLatex(QuoteAll(text, segments[..|segments| - 1]), segments[|segments| - 1])
  }

  /** A code-cell output with its `text/latex` content, when present and non-empty, quoted
      within itself; every other media type is left alone. */
  function QuotedOutput(o: Output): (r: Output)
    ensures o.data.None? ==> r == o
    ensures o.data.Some? ==> r.data.Some? && r.data.value.Keys == o.data.value.Keys
    ensures o.data.Some? ==> forall k :: k in o.data.value && k != LatexMime ==>
      r.data.value[k] == o.data.value[k]
    ensures o.data.Some? && LatexMime in o.data.value ==>
      r.data.value[LatexMime] == Escape(o.data.value[LatexMime])
  {
    match o.data
    case None => o
    case Some(d) =>
      if LatexMime in d && d[LatexMime] != [] then
        QuoteWhole(d[LatexMime]);
        Output(Some(d[LatexMime := QuoteUnderscoresInLatex(d[LatexMime], d[LatexMime])]))
      else
        assert Escape([]) == [];
        o
  }

  function QuotedOutputs(outputs: seq<Output>): (r: seq<Output>)
    ensures |r| == |outputs|
    ensures forall i :: 0 <= i < |outputs| ==> r[i] == QuotedOutput(outputs[i])
  {
    seq(|outputs|, i requires 0 <= i < |outputs| => QuotedOutput(outputs[i]))
  }

  /** What `preprocess_cell` makes of a cell: a markdown source with each extracted segment
      quoted, a code cell with each output quoted, any other cell unchanged. */
  function QuotedCell(cell: Cell): Cell {
    match cell
    case Markdown(source) => Markdown(QuoteAll(source, LatexSegments(source)))
    case Code(outputs) =>
      if outputs.None? then cell else Code(Some(QuotedOutputs(outputs.value)))
    case Other(_, _) => cell
  }

  method PreprocessCell(cell: Cell) returns (c: Cell)
    ensures c == QuotedCell(cell)
  {
    match cell
    case Markdown(source) =>
      var text := QuoteMarkdown(source);
      c := Markdown(text);
    case Code(outputs) =>
      if outputs.None? {
        c := cell;
      } else {
        var outs := QuoteOutputs(outputs.value);
        c := Code(Some(outs));
      }
    case Other(_, _) =>
      c := cell;
  }

  /** The markdown branch of `preprocess_cell`: each extracted segment is quoted in turn. */
  method QuoteMarkdown(source: string) returns (text: string)
    ensures text == QuoteAll(source, LatexSegments(source))
  {
    var segments := ExtractLatex(source);
    text := source;
    var i := 0;
    while i < |segments|
      invariant 0 <= i <= |segments|
      invariant text == QuoteAll(source, segments[..i])
    {
      assert segments[..i + 1][..i] == segments[..i];
      text := QuoteUnderscoresInLatex(text, segments[i]);
      i := i + 1;
    }
    assert segments[..|segments|] == segments;
  }

  /** The code branch of `preprocess_cell`: each output is quoted in turn. */
  method QuoteOutputs(outputs: seq<Output>) returns (outs: seq<Output>)
    ensures outs == QuotedOutputs(outputs)
  {
    ghost var quoted := QuotedOutputs(outputs);
    outs := outputs;
    var i := 0;
    while i < |outs|
      invariant 0 <= i <= |outs| && |outs| == |outputs|
      invariant forall j :: 0 <= j < i ==> outs[j] == quoted[j]
      invariant forall j :: i <= j < |outs| ==> outs[j] == outputs[j]
    {
      var o := QuotedOutput(outs[i]);
      assert o == quoted[i];
      outs := outs[i := o];
      i := i + 1;
    }
    assert outs == quoted;
  }

  lemma {:induction false} QuoteAllOnlyInsertsBackslashes(text: string, segments: seq<string>)
    ensures Without(QuoteAll(text, segments), '\\') == Without(text, '\\')
    decreases |segments|
  {
    if |segments| > 0 {
      QuoteAllOnlyInsertsBackslashes(text, segments[..|segments| - 1]);
      QuoteOnlyInsertsBackslashes(QuoteAll(text, segments[..|segments| - 1]), segments[|segments| - 1]);
    }
  }

  lemma {:induction false} QuoteAllIdentity(text: string, segments: seq<string>)
    requires forall seg :: seg in segments ==> '_' !in seg
    ensures QuoteAll(text, segments) == text
    decreases |segments|
  {
    if |segments| > 0 {
      var last := segments[|segments| - 1];
      assert last in segments;
      assert forall seg :: seg in segments[..|segments| - 1] ==> seg in segments;
      QuoteAllIdentity(text, segments[..|segments| - 1]);
      CountZero('_', last);
      QuoteIdentity(text, last);
    }
  }

  /** Preprocessing a cell keeps its kind and, for code cells, the number and media types of
      its outputs; it only inserts backslashes, so deleting the backslashes from a markdown
      source or a `text/latex` output gives the same text before and after. */
  lemma {:induction false} QuotedCellOnlyInsertsBackslashes(cell: Cell)
    ensures cell.Markdown? ==> (QuotedCell(cell).Markdown?
      && Without(QuotedCell(cell).source, '\\') == Without(cell.source, '\\'))
    ensures cell.Other? ==> QuotedCell(cell) == cell
    ensures cell.Code? && cell.outputs.None? ==> QuotedCell(cell) == cell
    ensures cell.Code? && cell.outputs.Some? ==> (QuotedCell(cell).Code?
      && QuotedCell(cell).outputs.Some?
      && |QuotedCell(cell).outputs.value| == |cell.outputs.value|)
    ensures cell.Code? && cell.outputs.Some? ==>
      forall i :: 0 <= i < |cell.outputs.value| ==>
        var o := cell.outputs.value[i];
        var q := QuotedCell(cell).outputs.value[i];
        && (o.data.None? ==> q == o)
        && (o.data.Some? ==> q.data.Some? && q.data.value.Keys == o.data.value.Keys)
        && (o.data.Some? && LatexMime in o.data.value ==>
            Without(q.data.value[LatexMime], '\\') == Without(o.data.value[LatexMime], '\\'))
  {
    match cell
    case Markdown(source) =>
      QuoteAllOnlyInsertsBackslashes(source, LatexSegments(source));
    case Code(outputs) =>
      if outputs.Some? {
        forall i | 0 <= i < |outputs.value| && outputs.value[i].data.Some?
          && LatexMime in outputs.value[i].data.value
          ensures Without(QuotedOutput(outputs.value[i]).data.value[LatexMime], '\\')
            == Without(outputs.value[i].data.value[LatexMime], '\\')
        {
          EscapeSpec(outputs.value[i].data.value[LatexMime]);
        }
      }
    case Other(_, _) =>
  }

  /** A markdown cell whose math holds no underscore comes back unchanged. */
  lemma {:induction false} MarkdownWithoutUnderscoresUnchanged(source: string)
    requires forall seg :: seg in LatexSegments(source) ==> '_' !in seg
    ensures QuotedCell(Markdown(source)) == Markdown(source)
  {
    QuoteAllIdentity(source, LatexSegments(source));
  }

  /** In particular a markdown cell where every `$` is escaped, or without any `$`, comes back
      unchanged. */
  lemma {:induction false} EscapedMarkdownUnchanged(source: string)
    requires forall i :: 1 <= i < |source| && source[i] == '$' ==> source[i - 1] == '\\'
    ensures QuotedCell(Markdown(source)) == Markdown(source)
  {
    EscapedDollarsNeverOpen(source);
  }

  /** Quoting never shortens the text, and lengthens it when `latex` holds an underscore and
      occurs in `text`. */
  lemma {:induction false} QuoteGrows(text: string, latex: string)
    ensures |QuoteUnderscoresInLatex(text, latex)| >= |text|
    ensures Contains(text, latex) && '_' in latex ==>
      |QuoteUnderscoresInLatex(text, latex)| > |text|
  {
    if latex != [] {
      EscapeSpec(latex);
      CountZero('_', latex);
      ReplaceGrows(text, latex, Escape(latex));
    }
  }

  lemma {:induction false} QuoteAllGrows(text: string, segments: seq<string>)
    ensures |QuoteAll(text, segments)| >= |text|
    decreases |segments|
  {
    if |segments| > 0 {
      var init := segments[..|segments| - 1];
      QuoteAllGrows(text, init);
      QuoteGrows(QuoteAll(text, init), segments[|segments| - 1]);
    }
  }

  /** When the first segment holding an underscore occurs in the text, quoting the segments
      in turn lengthens the text: the segments before it leave the text as it is, it inserts
      a backslash, and no later step shortens the text. */
  lemma {:induction false} QuoteAllGrowsAt(text: string, segments: seq<string>, k: nat)
    requires k < |segments| && '_' in segments[k] && Contains(text, segments[k])
    requires forall j :: 0 <= j < k ==> '_' !in segments[j]
    ensures |QuoteAll(text, segments)| > |text|
    decreases |segments|
  {
    var n := |segments|;
    var init := segments[..n - 1];
    if k == n - 1 {
      forall seg | seg in init ensures '_' !in seg {
        var j :| 0 <= j < |init| && init[j] == seg;
        assert segments[j] == seg;
      }
      QuoteAllIdentity(text, init);
      QuoteGrows(text, segments[k]);
    } else {
      assert init[k] == segments[k];
      QuoteAllGrowsAt(text, init, k);
      QuoteGrows(QuoteAll(text, init), segments[n - 1]);
    }
  }

  /** The index of the first segment that holds an underscore. */
  lemma {:induction false} FirstWithUnderscore(segments: seq<string>) returns (k: nat)
    requires exists j :: 0 <= j < |segments| && '_' in segments[j]
    ensures k < |segments| && '_' in segments[k]
    ensures forall j :: 0 <= j < k ==> '_' !in segments[j]
    decreases |segments|
  {
    if '_' in segments[0] {
      k := 0;
    } else {
      var j :| 0 <= j < |segments| && '_' in segments[j];
      assert segments[1..][j - 1] == segments[j];
      var t := FirstWithUnderscore(segments[1..]);
      k := t + 1;
      assert forall i :: 1 <= i < k ==> segments[i] == segments[1..][i - 1];
    }
  }

  /** The converse of `MarkdownWithoutUnderscoresUnchanged`: a markdown cell with an
      underscore in some extracted segment comes back longer. So a markdown cell is left
      unchanged exactly when none of its segments holds an underscore. */
  lemma {:induction false} MarkdownWithUnderscoresQuoted(source: string)
    ensures (exists k :: 0 <= k < |LatexSegments(source)| && '_' in LatexSegments(source)[k])
      ==> |QuotedCell(Markdown(source)).source| > |source|
    ensures QuotedCell(Markdown(source)) == Markdown(source) <==>
      forall seg :: seg in LatexSegments(source) ==> '_' !in seg
  {
    var segs := LatexSegments(source);
    if exists k :: 0 <= k < |segs| && '_' in segs[k] {
      var k := FirstWithUnderscore(segs);
      SegmentShape(source);
      assert segs[k] in segs;
      QuoteAllGrowsAt(source, segs, k);
    } else {
      MarkdownWithoutUnderscoresUnchanged(source);
    }
  }

  /** A markdown cell end to end: the emphasis outside the math is left alone and the
      subscript inside it is quoted. */
  lemma {:induction false} QuotedCellExample(s: string)
    requires s == "_Title_: $a_1$"
    ensures QuotedCell(Markdown(s)) == Markdown("_Title_: $a\\_1$")
  {
    var pat := "$a_1$";
    LatexSegmentsExample(s);
    QuoteExample(s, pat);
    var segs: seq<string> := [pat];
    assert segs[..0] == [];
    assert QuoteAll(s, segs) == QuoteUnderscoresInLatex(s, pat);
  }

  /** Quoting by text, not by position, misses a segment that an earlier replacement changed:
      in `x$a_1$ y$b_2\$a_1$` the segments are `$a_1$` and `$b_2\$a_1$`; quoting the first
      also rewrites its copy inside the second, so the second no longer occurs and the `_`
      of `b_2`, inside a found segment, stays unquoted. */
  lemma {:induction false} RecurringSegmentExample(s: string)
    requires s == "x$a_1$ y$b_2\\$a_1$"
    ensures LatexSegments(s) == ["$a_1$", "$b_2\\$a_1$"]
    ensures QuotedCell(Markdown(s)) == Markdown("x$a\\_1$ y$b_2\\$a\\_1$")
  {
    var a, b := "$a_1$", "$b_2\\$a_1$";
    RecurringSegmentsFound(s);
    var q := "x$a\\_1$ y$b_2\\$a\\_1$";
    RecurringFirstQuote(s, a);
    RecurringSecondAbsent(q, b);
    QuoteIdentity(q, b);
    QuoteAllTwo(s, a, b);
  }

  /** Two segments are quoted one after the other. */
  lemma {:induction false} QuoteAllTwo(s: string, a: string, b: string)
    ensures QuoteAll(s, [a, b]) == QuoteUnderscoresInLatex(QuoteUnderscoresInLatex(s, a), b)
  {
    var segs: seq<string> := [a, b];
    var one: seq<string> := [a];
    assert one[..0] == [];
    assert QuoteAll(s, one) == QuoteUnderscoresInLatex(s, a);
    assert segs[..1] == one;
  }

  lemma {:induction false} RecurringSegmentsFound(s: string)
    requires s == "x$a_1$ y$b_2\\$a_1$"
    ensures LatexSegments(s) == ["$a_1$", "$b_2\\$a_1$"]
  {
    RecurringNoDisplay(s);
    OneBlockInline(s);
    RecurringInline(s);
  }

  lemma {:induction false} RecurringNoDisplay(s: string)
    requires s == "x$a_1$ y$b_2\\$a_1$"
    ensures DisplayMath(s) == []
  {
    NoDoubleDollar(s);
  }

  /** A text without a newline is a single block, so its inline segments are those of the
      whole text. */
  lemma {:induction false} OneBlockInline(s: string)
    requires '\n' !in s
    ensures InlineAll(Split(s, "\n\n")) == InlineMath(s)
  {
    NoBlankLine(s);
    SplitAbsent(s, "\n\n");
    var blocks: seq<string> := [s];
    assert blocks[..0] == [];
  }

  lemma {:induction false} RecurringInline(s: string)
    requires s == "x$a_1$ y$b_2\\$a_1$"
    ensures InlineSpans(s, 0) == [Span(1, 6), Span(8, 18)]
    ensures InlineMath(s) == ["$a_1$", "$b_2\\$a_1$"]
  {
    assert InlineOpensAt(s, 0) && !InlineClosesAt(s, 3) && !InlineClosesAt(s, 4) && InlineClosesAt(s, 5);
    assert FirstInlineClose(s, 3) == Some(5);
    RecurringInlineSecond(s);
    assert InlineSpans(s, 0) == [Span(1, 6)] + InlineSpans(s, 6);
    assert s[1..6] == "$a_1$" && s[8..18] == "$b_2\\$a_1$";
  }

  lemma {:induction false} RecurringInlineSecond(s: string)
    requires s == "x$a_1$ y$b_2\\$a_1$"
    ensures InlineSpans(s, 6) == [Span(8, 18)]
  {
    assert !InlineOpensAt(s, 6) && InlineOpensAt(s, 7);
    assert FirstInlineClose(s, 10) == Some(17) by {
      assert !InlineClosesAt(s, 10) && !InlineClosesAt(s, 11) && !InlineClosesAt(s, 12)
        && !InlineClosesAt(s, 13) && !InlineClosesAt(s, 14) && !InlineClosesAt(s, 15)
        && !InlineClosesAt(s, 16) && InlineClosesAt(s, 17);
    }
    assert InlineSpans(s, 7) == [Span(8, 18)] + InlineSpans(s, 18);
  }

  lemma {:induction false} RecurringFirstQuote(s: string, a: string)
    requires s == "x$a_1$ y$b_2\\$a_1$" && a == "$a_1$"
    ensures QuoteUnderscoresInLatex(s, a) == "x$a\\_1$ y$b_2\\$a\\_1$"
  {
    RecurringPieces(s);
    RecurringQuoteByPieces(s, a);
  }

  lemma {:induction false} RecurringQuoteByPieces(s: string, a: string)
    requires |s| == 18 && s[..1] == "x" && s[1..6] == a && s[6..8] == " y" && s[8..18] == "$b_2\\$a_1$"
    requires a == "$a_1$"
    ensures QuoteUnderscoresInLatex(s, a) == "x$a\\_1$ y$b_2\\$a\\_1$"
  {
    var rep := "$a\\_1$";
    var t := s[8..18];
    var u := s[1..];
    assert t == "$b_2\\" + a;
    assert s == "x" + u by { SplitsAt(s, 1); }
    assert u == a + " y" + t by {
      assert u[..5] == s[1..6] && u[5..7] == s[6..8] && u[7..] == t;
      SplitsAt(u, 5);
      SplitsAt(u[5..], 2);
    }
    RecurringReplaceAll(s, u, a, t, rep);
    RecurringQuoted("x" + rep + " y$b_2\\" + rep);
    EscapeExample(a);
    QuoteByReplace(s, a, rep);
  }

  lemma {:induction false} RecurringQuoted(r: string)
    requires r == "x" + "$a\\_1$" + " y$b_2\\" + "$a\\_1$"
    ensures r == "x$a\\_1$ y$b_2\\$a\\_1$"
  {
  }

  /** With the escaped form known, quoting is the replacement by it. */
  lemma {:induction false} QuoteByReplace(text: string, latex: string, rep: string)
    requires latex != [] && Escape(latex) == rep
    ensures QuoteUnderscoresInLatex(text, latex) == Replace(text, latex, rep)
  {
  }

  lemma {:induction false} RecurringReplaceAll(s: string, u: string, a: string, t: string, rep: string)
    requires a == "$a_1$" && t == "$b_2\\" + a && u == a + " y" + t && s == "x" + u
    ensures Replace(s, a, rep) == "x" + rep + " y$b_2\\" + rep
  {
    RecurringReplace(u, a, t, rep);
    ReplaceFreePrefix("x", u, a, rep);
  }

  lemma {:induction false} RecurringReplace(u: string, a: string, t: string, rep: string)
    requires a == "$a_1$" && t == "$b_2\\" + a && u == a + " y" + t
    ensures Replace(u, a, rep) == rep + " y$b_2\\" + rep
  {
    QuoteExampleTail(t, a, rep);
    QuoteExampleHead(u, a, " y" + t, rep);
    ReplaceFreePrefix(" y", t, a, rep);
  }

  /** `$b_2\$a_1$`: the `$` of `$b_2` does not start `$a_1$`, and the rest holds it once. */
  lemma {:induction false} QuoteExampleTail(t: string, a: string, rep: string)
    requires a == "$a_1$" && t == "$b_2\\" + a
    ensures Replace(t, a, rep) == "$b_2\\" + rep
  {
    assert t[..|a|] != a by { assert t[1] != a[1]; }
    assert t[1..] == "b_2\\" + a;
    ReplaceFreePrefix("b_2\\", a, a, rep);
    ReplaceWhole(a, rep);
  }

  /** A text that starts with the pattern: the pattern is replaced, then the rest. */
  lemma {:induction false} QuoteExampleHead(u: string, a: string, rest: string, rep: string)
    requires a != [] && u == a + rest
    ensures Replace(u, a, rep) == rep + Replace(rest, a, rep)
  {
    assert u[..|a|] == a && u[|a|..] == rest;
  }

  /** The pattern alone is replaced whole. */
  lemma {:induction false} ReplaceWhole(a: string, rep: string)
    requires a != []
    ensures Replace(a, a, rep) == rep
  {
    assert a[..|a|] == a && a[|a|..] == "";
  }

  lemma {:induction false} RecurringSecondAbsent(q: string, b: string)
    requires q == "x$a\\_1$ y$b_2\\$a\\_1$" && b == "$b_2\\$a_1$"
    ensures !Contains(q, b)
  {
    forall i: nat | i + |b| <= |q| ensures !OccursAt(q, b, i) {
      assert q[i..i + |b|][0] == q[i] && q[i..i + |b|][7] == q[i + 7];
    }
  }

  /** Quoting by text also changes text outside every segment that repeats one: the only
      segment of `x$a_1$ \$a_1$` is the first `$a_1$`, yet the escaped `\$a_1$`, which no
      pattern matched, gets a backslash too. */
  lemma {:induction false} RepeatedOutsideExample(s: string)
    requires s == "x$a_1$ \\$a_1$"
    ensures InlineSpans(s, 0) == [Span(1, 6)] && DisplaySpans(s, 0) == []
    ensures LatexSegments(s) == ["$a_1$"]
    ensures QuotedCell(Markdown(s)) == Markdown("x$a\\_1$ \\$a\\_1$")
  {
    var a := "$a_1$";
    RepeatedOutsideFound(s);
    RepeatedOutsideQuote(s, a);
    var segs: seq<string> := [a];
    assert segs[..0] == [];
    assert QuoteAll(s, segs) == QuoteUnderscoresInLatex(s, a);
  }

  lemma {:induction false} RepeatedOutsideQuote(s: string, a: string)
    requires s == "x$a_1$ \\$a_1$" && a == "$a_1$"
    ensures QuoteUnderscoresInLatex(s, a) == "x$a\\_1$ \\$a\\_1$"
  {
    var rep := "$a\\_1$";
    var u := a + " \\" + a;
    assert u == "$a_1$ \\$a_1$";
    assert s == "x" + u;
    RepeatedOutsideReplace(s, u, a, rep);
    assert Replace(s, a, rep) == "x$a\\_1$ \\$a\\_1$";
    EscapeExample(a);
    QuoteByReplace(s, a, rep);
  }

  lemma {:induction false} RepeatedOutsideReplace(s: string, u: string, a: string, rep: string)
    requires a == "$a_1$" && u == a + " \\" + a && s == "x" + u
    ensures Replace(s, a, rep) == "x" + rep + " \\" + rep
  {
    ReplaceWhole(a, rep);
    ReplaceFreePrefix(" \\", a, a, rep);
    QuoteExampleHead(u, a, " \\" + a, rep);
    ReplaceFreePrefix("x", u, a, rep);
  }

  lemma {:induction false} RepeatedOutsideFound(s: string)
    requires s == "x$a_1$ \\$a_1$"
    ensures InlineSpans(s, 0) == [Span(1, 6)] && DisplaySpans(s, 0) == []
    ensures LatexSegments(s) == ["$a_1$"]
  {
    NoDoubleDollar(s);
    OneBlockInline(s);
    RepeatedOutsideInline(s);
  }

  lemma {:induction false} RepeatedOutsideInline(s: string)
    requires s == "x$a_1$ \\$a_1$"
    ensures InlineSpans(s, 0) == [Span(1, 6)]
    ensures InlineMath(s) == ["$a_1$"]
  {
    assert InlineOpensAt(s, 0) && !InlineClosesAt(s, 3) && !InlineClosesAt(s, 4) && InlineClosesAt(s, 5);
    assert FirstInlineClose(s, 3) == Some(5);
    assert InlineOpensAt(s, 11) && FirstInlineClose(s, 14) == None;
    assert InlineSpans(s, 11) == [] by {
      assert InlineSpans(s, 11) == InlineSpans(s, 12);
    }
    assert !InlineOpensAt(s, 6) && !InlineOpensAt(s, 7) && !InlineOpensAt(s, 8)
      && !InlineOpensAt(s, 9) && !InlineOpensAt(s, 10);
    assert InlineSpans(s, 6) == InlineSpans(s, 7) == InlineSpans(s, 8) == InlineSpans(s, 9)
      == InlineSpans(s, 10) == InlineSpans(s, 11);
    assert InlineSpans(s, 0) == [Span(1, 6)] + InlineSpans(s, 6);
    assert s[1..6] == "$a_1$";
  }

  /** A text without `$$` holds no display segment. */
  lemma {:induction false} NoDoubleDollar(s: string)
    requires forall i :: 0 <= i < |s| - 1 ==> !(s[i] == '$' && s[i + 1] == '$')
    ensures DisplaySpans(s, 0) == [] && DisplayMath(s) == []
  {
    assert forall k :: !BareDoubleDollarAt(s, k);
    DisplayFoundIff(s);
  }

  /** A text without a newline holds no blank line. */
  lemma {:induction false} NoBlankLine(s: string)
    requires '\n' !in s
    ensures !Contains(s, "\n\n")
  {
    forall i: nat | i + 2 <= |s| ensures !OccursAt(s, "\n\n", i) {
      assert s[i..i + 2][0] == s[i];
    }
  }

  lemma {:induction false} QuoteExample(s: string, latex: string)
    requires s == "_Title_: $a_1$" && latex == "$a_1$"
    ensures QuoteUnderscoresInLatex(s, latex) == "_Title_: $a\\_1$"
  {
    var rep := "$a\\_1$";
    EscapeExample(latex);
    assert s == "_Title_: " + latex;
    ReplaceFreePrefix("_Title_: ", latex, latex, rep);
    assert latex[..|latex|] == latex && latex[|latex|..] == "";
  }

  /** The only segment of `_Title_: $a_1$` is its formula. */
  lemma {:induction false} LatexSegmentsExample(s: string)
    requires s == "_Title_: $a_1$"
    ensures LatexSegments(s) == ["$a_1$"]
  {
    NoDisplayExample(s);
    NoBlankLineExample(s);
    SplitAbsent(s, "\n\n");
    var blocks: seq<string> := [s];
    assert blocks[..0] == [];
    assert InlineAll(blocks) == InlineMath(s);
    InlineExample(s);
  }

  lemma {:induction false} NoDisplayExample(s: string)
    requires s == "_Title_: $a_1$"
    ensures DisplayMath(s) == []
  {
    assert forall k :: !BareDoubleDollarAt(s, k);
    DisplayFoundIff(s);
  }

  lemma {:induction false} NoBlankLineExample(s: string)
    requires s == "_Title_: $a_1$"
    ensures !Contains(s, "\n\n")
  {
    forall i: nat | i + 2 <= |s| ensures !OccursAt(s, "\n\n", i) {
      assert s[i..i + 2][0] == s[i];
    }
  }

  lemma {:induction false} InlineExample(s: string)
    requires s == "_Title_: $a_1$"
    ensures InlineMath(s) == ["$a_1$"]
  {
    assert forall k :: 0 <= k < 8 ==> !InlineOpensAt(s, k);
    assert !InlineClosesAt(s, 11) && !InlineClosesAt(s, 12) && InlineClosesAt(s, 13);
    assert InlineOpensAt(s, 8) && FirstInlineClose(s, 11) == Some(13);
    assert InlineSpans(s, 8) == [Span(9, 14)] + InlineSpans(s, 14);
    assert InlineSpans(s, 0) == InlineSpans(s, 1) == InlineSpans(s, 2) == InlineSpans(s, 3)
      == InlineSpans(s, 4) == InlineSpans(s, 5) == InlineSpans(s, 6) == InlineSpans(s, 7)
      == InlineSpans(s, 8);
    assert s[9..14] == "$a_1$";
  }

  lemma {:induction false} EscapeExample(latex: string)
    requires latex == "$a_1$"
    ensures Escape(latex) == "$a\\_1$"
  {
    var u, b := "_", "\\_";
    assert Replace(latex[5..], u, b) == "";
    assert latex[4..][1..] == latex[5..] && latex[4..][..1] == ['$'];
    assert Replace(latex[4..], u, b) == "$";
    assert latex[3..][1..] == latex[4..] && latex[3..][..1] == ['1'];
    assert Replace(latex[3..], u, b) == "1$";
    assert latex[2..][1..] == latex[3..] && latex[2..][..1] == ['_'];
    assert Replace(latex[2..], u, b) == "\\_1$";
    assert latex[1..][1..] == latex[2..] && latex[1..][..1] == ['a'];
    assert Replace(latex[1..], u, b) == "a\\_1$";
    assert latex[..1] == ['$'];
  }

  // =========================================================================================
  // Quoting by position

  /* The docstring of `preprocess_cell` promises that every `_` in the LaTeX of a markdown
     cell ends up preceded by a backslash, and `quote_underscores_in_latex` documents its
     result as a copy in which only the underscores inside `latex` are replaced
     (nbhugoexporter/hugopreprocessor.py:24, 30-31), which leaves the text outside the math
     alone. Quoting each segment by `str.replace` over the whole cell keeps
     neither promise when a segment's text recurs (`RecurringSegmentExample`,
     `RepeatedOutsideExample`). `QuotedBySpans` quotes at the positions where the segments
     were found instead, and keeps both. */

  /** The spans of `s` that `extract_latex` finds, as positions in `s`: the display spans,
      then the inline spans of each `'\n\n'`-separated block moved by the block's offset. */
  function LatexSpans(s: string): seq<Span> {
    DisplaySpans(s, 0) + BlockSpans(Split(s, "\n\n"))
  }

  /** `spans`, each moved `d` places on. */
  function Shift(spans: seq<Span>, d: nat): (r: seq<Span>)
    ensures |r| == |spans|
    ensures forall i :: 0 <= i < |spans| ==> r[i] == Span(spans[i].start + d, spans[i].end + d)
  {
    seq(|spans|, i requires 0 <= i < |spans| => Span(spans[i].start + d, spans[i].end + d))
  }

  /** The inline spans of each block, as positions in the blocks joined by `'\n\n'`. */
  function BlockSpans(blocks: seq<string>): seq<Span> {
    if |blocks| == 0 then []
    else if |blocks| == 1 then InlineSpans(blocks[0], 0)
    else
      var init := blocks[..|blocks| - 1];
      BlockSpans(init) + Shift(InlineSpans(blocks[|blocks| - 1], 0), |Join(init, "\n\n")| + 2)
  }

  /** Position `i` lies inside one of `spans`. */
  predicate InSpans(spans: seq<Span>, i: nat) {
    exists k :: 0 <= k < |spans| && spans[k].start <= i < spans[k].end
  }

  /** `s[i]` as quoting by position writes it: `\_` for an underscore inside a span. */
  function QuoteCharAt(s: string, spans: seq<Span>, i: nat): string
    requires i < |s|
  {
    if s[i] == '_' && InSpans(spans, i) then "\\_" else [s[i]]
  }

  /** `s[lo..hi]` with every underscore inside a span preceded by a backslash. */
  function QuoteRange(s: string, spans: seq<Span>, lo: nat, hi: nat): string
    requires lo <= hi <= |s|
    decreases hi - lo
  {
    if lo == hi then "" else QuoteRange(s, spans, lo, hi - 1) + QuoteCharAt(s, spans, hi - 1)
  }

  /** The place in the quoted text where `s[i]`, or the backslash put before it, lands. */
  function Offset(s: string, spans: seq<Span>, i: nat): nat
    requires i <= |s|
  {
    |QuoteRange(s, spans, 0, i)|
  }

  /** A markdown cell quoted as `preprocess_cell` evidently intends: every underscore inside
      a segment that `extract_latex` found is quoted where it was found. */
  function QuotedBySpans(source: string): string {
    QuoteRange(source, LatexSpans(source), 0, |source|)
  }

  /** `spans` pick `segs` out of `t`: one span per segment, in order, each within `t` and
      spanning its segment. */
  ghost predicate SpansPick(t: string, spans: seq<Span>, segs: seq<string>) {
    && |spans| == |segs|
    && forall k :: 0 <= k < |spans| ==>
      spans[k].start <= spans[k].end <= |t| && t[spans[k].start..spans[k].end] == segs[k]
  }

  /** The spans are where the segments of `extract_latex` were found: there is one per
      segment, in the same order, and each one's text is that segment. */
  lemma {:induction false} LatexSpansAreSegments(s: string)
    ensures |LatexSpans(s)| == |LatexSegments(s)|
    ensures forall k :: 0 <= k < |LatexSpans(s)| ==>
      LatexSpans(s)[k].start <= LatexSpans(s)[k].end <= |s|
      && s[LatexSpans(s)[k].start..LatexSpans(s)[k].end] == LatexSegments(s)[k]
  {
    var blocks := Split(s, "\n\n");
    JoinSplit(s, "\n\n");
    BlockSpansTexts(blocks);
    SpansPickFound(s, true);
    SpansPickAppend(s, DisplaySpans(s, 0), DisplayMath(s), BlockSpans(blocks), InlineAll(blocks));
  }

  /** Two lists of spans of the same text, and their segments, taken one after the other. */
  lemma {:induction false} SpansPickAppend(t: string, a: seq<Span>, sa: seq<string>, b: seq<Span>, sb: seq<string>)
    requires SpansPick(t, a, sa) && SpansPick(t, b, sb)
    ensures SpansPick(t, a + b, sa + sb)
  {
    forall k | |a| <= k < |a| + |b| ensures (a + b)[k] == b[k - |a|] && (sa + sb)[k] == sb[k - |a|] {
    }
  }

  /** The spans of either scan pick out the segments `re.findall` returns. */
  lemma {:induction false} SpansPickFound(b: string, display: bool)
    ensures display ==> SpansPick(b, DisplaySpans(b, 0), DisplayMath(b))
    ensures !display ==> SpansPick(b, InlineSpans(b, 0), InlineMath(b))
  {
    var l := if display then DisplaySpans(b, 0) else InlineSpans(b, 0);
    forall j | 0 <= j < |l| ensures l[j].end <= |b| {
      assert l[j] in l;
    }
  }

  /** Spans of the last of the joined parts, moved past the text before it. */
  lemma {:induction false} SpansPickShift(t0: string, sep: string, last: string, l: seq<Span>, segs: seq<string>)
    requires SpansPick(last, l, segs)
    ensures SpansPick(t0 + sep + last, Shift(l, |t0| + |sep|), segs)
  {
    var t, d := t0 + sep + last, |t0| + |sep|;
    forall j | 0 <= j < |l| ensures t[l[j].start + d..l[j].end + d] == last[l[j].start..l[j].end] {
      SliceOfSuffix(t0 + sep, last, l[j].start, l[j].end);
    }
  }

  /** Spans of a text are spans of the text with something after it. */
  lemma {:induction false} SpansPickPrefix(t0: string, rest: string, l: seq<Span>, segs: seq<string>)
    requires SpansPick(t0, l, segs)
    ensures SpansPick(t0 + rest, l, segs)
  {
    forall j | 0 <= j < |l| ensures (t0 + rest)[l[j].start..l[j].end] == t0[l[j].start..l[j].end] {
      SliceOfPrefix(t0, rest, l[j].start, l[j].end);
    }
  }

  /** Each block's spans, moved by the block's offset, pick out its inline segments in the
      joined text. */
  lemma {:induction false} BlockSpansTexts(blocks: seq<string>)
    ensures SpansPick(Join(blocks, "\n\n"), BlockSpans(blocks), InlineAll(blocks))
    decreases |blocks|
  {
    var n := |blocks|;
    if n == 1 {
      BlockSpansOne(blocks);
    } else if n >= 2 {
      BlockSpansTexts(blocks[..n - 1]);
      BlockSpansStep(blocks);
    }
  }

  /** A single block's spans are its inline spans. */
  lemma {:induction false} BlockSpansOne(blocks: seq<string>)
    requires |blocks| == 1
    ensures SpansPick(Join(blocks, "\n\n"), BlockSpans(blocks), InlineAll(blocks))
  {
    assert blocks[..0] == [];
    assert InlineAll(blocks) == InlineMath(blocks[0]);
    SpansPickFound(blocks[0], false);
  }

  /** The step of `BlockSpansTexts` for the last block. */
  lemma {:induction false} BlockSpansStep(blocks: seq<string>)
    requires |blocks| >= 2
    requires SpansPick(Join(blocks[..|blocks| - 1], "\n\n"), BlockSpans(blocks[..|blocks| - 1]),
      InlineAll(blocks[..|blocks| - 1]))
    ensures SpansPick(Join(blocks, "\n\n"), BlockSpans(blocks), InlineAll(blocks))
  {
    var n := |blocks|;
    var init, last := blocks[..n - 1], blocks[n - 1];
    BlockSpansUnfold(blocks);
    SpansPickLast(Join(init, "\n\n"), last, BlockSpans(init), InlineAll(init));
  }

  /** The last block's spans come after the others, moved past the text before it. */
  lemma {:induction false} BlockSpansUnfold(blocks: seq<string>)
    requires |blocks| >= 2
    ensures var init, last := blocks[..|blocks| - 1], blocks[|blocks| - 1];
      var t0 := Join(init, "\n\n");
      && Join(blocks, "\n\n") == t0 + "\n\n" + last
      && BlockSpans(blocks) == BlockSpans(init) + Shift(InlineSpans(last, 0), |t0| + 2)
      && InlineAll(blocks) == InlineAll(init) + InlineMath(last)
  {
    JoinLast(blocks, "\n\n");
  }

  /** Spans of the text before a separator and a last block, followed by the last block's
      own spans, moved past the separator. */
  lemma {:induction false} SpansPickLast(t0: string, last: string, a: seq<Span>, sa: seq<string>)
    requires SpansPick(t0, a, sa)
    ensures SpansPick(t0 + "\n\n" + last, a + Shift(InlineSpans(last, 0), |t0| + 2), sa + InlineMath(last))
  {
    var t := t0 + "\n\n" + last;
    SpansPickFound(last, false);
    SpansPickPrefix(t0, "\n\n" + last, a, sa);
    assert t0 + ("\n\n" + last) == t;
    SpansPickShift(t0, "\n\n", last, InlineSpans(last, 0), InlineMath(last));
    SpansPickAppend(t, a, sa, Shift(InlineSpans(last, 0), |t0| + 2), InlineMath(last));
  }

  lemma {:induction false} SliceOfPrefix(a: string, b: string, lo: nat, hi: nat)
    requires lo <= hi <= |a|
    ensures (a + b)[lo..hi] == a[lo..hi]
  {
  }

  lemma {:induction false} SliceOfSuffix(a: string, b: string, lo: nat, hi: nat)
    requires lo <= hi <= |b|
    ensures (a + b)[lo + |a|..hi + |a|] == b[lo..hi]
  {
  }

  /** Quoting a range is quoting its two halves. */
  lemma {:induction false} QuoteRangeSplit(s: string, spans: seq<Span>, lo: nat, m: nat, hi: nat)
    requires lo <= m <= hi <= |s|
    ensures QuoteRange(s, spans, lo, hi) == QuoteRange(s, spans, lo, m) + QuoteRange(s, spans, m, hi)
    decreases hi - m
  {
    if hi > m {
      QuoteRangeSplit(s, spans, lo, m, hi - 1);
      AppendAssoc(QuoteRange(s, spans, lo, m), QuoteRange(s, spans, m, hi - 1), QuoteCharAt(s, spans, hi - 1));
    }
  }

  /** The step of `QuoteRangeInside` for the last character of the range. */
  lemma {:induction false} QuoteRangeInsideStep(s: string, spans: seq<Span>, lo: nat, hi: nat)
    requires lo < hi <= |s| && InSpans(spans, hi - 1)
    requires QuoteRange(s, spans, lo, hi - 1) == Escape(s[lo..hi - 1])
    ensures QuoteRange(s, spans, lo, hi) == Escape(s[lo..hi])
  {
    var c := [s[hi - 1]];
    assert QuoteRange(s, spans, lo, hi) == QuoteRange(s, spans, lo, hi - 1) + QuoteCharAt(s, spans, hi - 1);
    EscapeCons(c);
    assert c[1..] == [];
    SliceSnoc(s, lo, hi);
    EscapeSnoc(s[lo..hi], s[lo..hi - 1], c);
  }

  /** Escaping a string that ends in a given piece. */
  lemma {:induction false} EscapeSnoc(t: string, x: string, y: string)
    requires t == x + y
    ensures Escape(t) == Escape(x) + Escape(y)
  {
    EscapeAppend(x, y);
  }

  /** A range that no span meets is kept as it is. */
  lemma {:induction false} QuoteRangeOutside(s: string, spans: seq<Span>, lo: nat, hi: nat)
    requires lo <= hi <= |s|
    requires forall i :: lo <= i < hi ==> !InSpans(spans, i)
    ensures QuoteRange(s, spans, lo, hi) == s[lo..hi]
    decreases hi - lo
  {
    if hi > lo {
      QuoteRangeOutside(s, spans, lo, hi - 1);
      assert s[lo..hi] == s[lo..hi - 1] + [s[hi - 1]];
    }
  }

  /** A range that lies inside the spans is escaped whole. */
  lemma {:induction false} QuoteRangeInside(s: string, spans: seq<Span>, lo: nat, hi: nat)
    requires lo <= hi <= |s|
    requires forall i :: lo <= i < hi ==> InSpans(spans, i)
    ensures QuoteRange(s, spans, lo, hi) == Escape(s[lo..hi])
    decreases hi - lo
  {
    if hi > lo {
      QuoteRangeInside(s, spans, lo, hi - 1);
      QuoteRangeInsideStep(s, spans, lo, hi);
    } else {
      assert s[lo..hi] == [];
    }
  }

  /** Escaping distributes over concatenation. */
  lemma {:induction false} EscapeAppend(a: string, b: string)
    ensures Escape(a + b) == Escape(a) + Escape(b)
  {
    if |a| > 0 {
      EscapeAppend(a[1..], b);
      EscapeCons(a);
      EscapeCons(a + b);
      TailAppend(a, b);
      AppendAssoc(EscapeChar(a[0]), Escape(a[1..]), Escape(b));
    } else {
      assert a + b == b;
    }
  }

  /** Quoting a range only inserts backslashes. */
  lemma {:induction false} QuoteRangeWithout(s: string, spans: seq<Span>, lo: nat, hi: nat)
    requires lo <= hi <= |s|
    ensures Without(QuoteRange(s, spans, lo, hi), '\\') == Without(s[lo..hi], '\\')
    decreases hi - lo
  {
    if hi > lo {
      QuoteRangeWithout(s, spans, lo, hi - 1);
      QuoteRangeWithoutStep(s, spans, lo, hi);
    }
  }

  /** The step of `QuoteRangeWithout` for the last character of the range. */
  lemma {:induction false} QuoteRangeWithoutStep(s: string, spans: seq<Span>, lo: nat, hi: nat)
    requires lo < hi <= |s|
    requires Without(QuoteRange(s, spans, lo, hi - 1), '\\') == Without(s[lo..hi - 1], '\\')
    ensures Without(QuoteRange(s, spans, lo, hi), '\\') == Without(s[lo..hi], '\\')
  {
    var q, c := QuoteRange(s, spans, lo, hi - 1), QuoteCharAt(s, spans, hi - 1);
    assert QuoteRange(s, spans, lo, hi) == q + c;
    QuoteCharWithout(s, spans, hi - 1);
    SliceSnoc(s, lo, hi);
    WithoutBoth(QuoteRange(s, spans, lo, hi), q, c, s[lo..hi], s[lo..hi - 1], [s[hi - 1]], '\\');
  }

  /** Two texts with the same characters but `c` followed by two such texts. */
  lemma {:induction false} WithoutBoth(r: string, q: string, c: string, t: string, x: string, y: string, ch: char)
    requires r == q + c && t == x + y
    requires Without(q, ch) == Without(x, ch) && Without(c, ch) == Without(y, ch)
    ensures Without(r, ch) == Without(t, ch)
  {
    WithoutAppend(q, c, ch);
    WithoutAppend(x, y, ch);
  }

  /** Quoting one character only inserts a backslash. */
  lemma {:induction false} QuoteCharWithout(s: string, spans: seq<Span>, i: nat)
    requires i < |s|
    ensures Without(QuoteCharAt(s, spans, i), '\\') == Without([s[i]], '\\')
  {
    if s[i] == '_' && InSpans(spans, i) {
      assert QuoteCharAt(s, spans, i) == "\\_";
      assert "\\_"[1..] == "_" && "_"[1..] == [];
    }
  }

  /** A slice is the slice one shorter followed by its last character. */
  lemma {:induction false} SliceSnoc(s: string, lo: nat, hi: nat)
    requires lo < hi <= |s|
    ensures s[lo..hi] == s[lo..hi - 1] + [s[hi - 1]]
  {
  }

  /** Every character of the cell lands at its offset: an underscore inside a found segment
      as `\_`, and every other character as itself. */
  lemma {:induction false} QuotedBySpansAt(source: string, i: nat)
    requires i < |source|
    ensures var spans := LatexSpans(source); var r := QuotedBySpans(source);
      var p := Offset(source, spans, i);
      && (source[i] == '_' && InSpans(spans, i) ==> p + 1 < |r| && r[p] == '\\' && r[p + 1] == '_')
      && (!(source[i] == '_' && InSpans(spans, i)) ==> p < |r| && r[p] == source[i])
  {
    var spans := LatexSpans(source);
    QuoteRangeSplit(source, spans, 0, i, |source|);
    QuoteRangeSplit(source, spans, i, i + 1, |source|);
    assert QuoteRange(source, spans, i, i + 1) == QuoteCharAt(source, spans, i);
  }

  /** Text that lies outside every found segment is copied unchanged, at its offset. */
  lemma {:induction false} QuotedBySpansOutside(source: string, lo: nat, hi: nat)
    requires lo <= hi <= |source|
    requires forall i :: lo <= i < hi ==> !InSpans(LatexSpans(source), i)
    ensures OccursAt(QuotedBySpans(source), source[lo..hi], Offset(source, LatexSpans(source), lo))
  {
    var spans := LatexSpans(source);
    QuoteRangeSplit(source, spans, 0, lo, |source|);
    QuoteRangeSplit(source, spans, lo, hi, |source|);
    QuoteRangeOutside(source, spans, lo, hi);
    OccursInMiddle(QuotedBySpans(source), QuoteRange(source, spans, 0, lo), QuoteRange(source, spans, lo, |source|),
      source[lo..hi], QuoteRange(source, spans, hi, |source|));
  }

  /** A piece between a prefix and a suffix occurs right after the prefix. */
  lemma {:induction false} OccursInMiddle(r: string, x: string, rest: string, m: string, y: string)
    requires r == x + rest && rest == m + y
    ensures OccursAt(r, m, |x|)
  {
    assert r[|x|..|x| + |m|] == m;
  }

  /** Each segment that `extract_latex` found appears escaped where it was found. */
  lemma {:induction false} QuotedBySpansSegment(source: string, k: nat)
    requires k < |LatexSegments(source)|
    ensures var spans := LatexSpans(source);
      k < |spans| && spans[k].start <= |source|
      && OccursAt(QuotedBySpans(source), Escape(LatexSegments(source)[k]), Offset(source, spans, spans[k].start))
  {
    var spans := LatexSpans(source);
    LatexSpansAreSegments(source);
    var lo, hi := spans[k].start, spans[k].end;
    QuoteRangeSplit(source, spans, 0, lo, |source|);
    QuoteRangeSplit(source, spans, lo, hi, |source|);
    forall i | lo <= i < hi ensures InSpans(spans, i) {
      assert spans[k].start <= i < spans[k].end;
    }
    QuoteRangeInside(source, spans, lo, hi);
    OccursInMiddle(QuotedBySpans(source), QuoteRange(source, spans, 0, lo), QuoteRange(source, spans, lo, |source|),
      Escape(LatexSegments(source)[k]), QuoteRange(source, spans, hi, |source|));
  }

  /** Quoting by position only inserts backslashes, and a cell without segments is kept. */
  lemma {:induction false} QuotedBySpansOnlyInsertsBackslashes(source: string)
    ensures Without(QuotedBySpans(source), '\\') == Without(source, '\\')
    ensures LatexSegments(source) == [] ==> QuotedBySpans(source) == source
  {
    var spans := LatexSpans(source);
    QuoteRangeWithout(source, spans, 0, |source|);
    assert source[0..|source|] == source;
    if LatexSegments(source) == [] {
      LatexSpansAreSegments(source);
      QuoteRangeOutside(source, spans, 0, |source|);
    }
  }

  /** Quoting by position on `x$a_1$ y$b_2\$a_1$`: both segments are quoted whole, the `_`
      of `b_2` included. */
  lemma {:induction false} RecurringSegmentBySpans(s: string)
    requires s == "x$a_1$ y$b_2\\$a_1$"
    ensures QuotedBySpans(s) == "x$a\\_1$ y$b\\_2\\$a\\_1$"
  {
    RecurringSpans(s);
    RecurringPieces(s);
    RecurringByPieces(s);
  }

  lemma {:induction false} RecurringPieces(s: string)
    requires s == "x$a_1$ y$b_2\\$a_1$"
    ensures |s| == 18 && s[..1] == "x" && s[1..6] == "$a_1$" && s[6..8] == " y"
      && s[8..18] == "$b_2\\$a_1$" && s[18..] == ""
  {
    assert s[..1] == "x";
    assert s[1..6] == "$a_1$";
    assert s[6..8] == " y";
    assert s[8..18] == "$b_2\\$a_1$";
  }

  lemma {:induction false} RecurringByPieces(s: string)
    requires |s| == 18 && LatexSpans(s) == [Span(1, 6), Span(8, 18)]
    requires s[..1] == "x" && s[1..6] == "$a_1$" && s[6..8] == " y"
      && s[8..18] == "$b_2\\$a_1$" && s[18..] == ""
    ensures QuotedBySpans(s) == "x$a\\_1$ y$b\\_2\\$a\\_1$"
  {
    QuotedTwoSpans(s, 1, 6, 8, 18);
    EscapeExample(s[1..6]);
    EscapeRecurringExample(s[8..18]);
    RecurringAssemble(QuotedBySpans(s), s[..1], Escape(s[1..6]), s[6..8], Escape(s[8..18]), s[18..]);
  }

  lemma {:induction false} RecurringAssemble(r: string, p: string, e1: string, m: string, e2: string, t: string)
    requires r == p + e1 + m + e2 + t
    requires p == "x" && e1 == "$a\\_1$" && m == " y" && e2 == "$b\\_2\\$a\\_1$" && t == ""
    ensures r == "x$a\\_1$ y$b\\_2\\$a\\_1$"
  {
  }

  lemma {:induction false} RecurringSpans(s: string)
    requires s == "x$a_1$ y$b_2\\$a_1$"
    ensures LatexSpans(s) == [Span(1, 6), Span(8, 18)]
  {
    RecurringInline(s);
    NoDoubleDollar(s);
    NoBlankLine(s);
    OneBlockSpans(s);
  }

  /** A text without display math or blank lines has its inline spans and no others. */
  lemma {:induction false} OneBlockSpans(s: string)
    requires DisplaySpans(s, 0) == [] && !Contains(s, "\n\n")
    ensures LatexSpans(s) == InlineSpans(s, 0)
  {
    SplitAbsent(s, "\n\n");
  }

  lemma {:induction false} EscapeRecurringExample(latex: string)
    requires latex == "$b_2\\$a_1$"
    ensures Escape(latex) == "$b\\_2\\$a\\_1$"
  {
    var x, y := latex[..5], latex[5..];
    assert x == "$b_2\\" && y == "$a_1$";
    assert latex == x + y;
    EscapeSnoc(latex, x, y);
    EscapeExample(y);
    EscapeRecurringHead(x);
  }

  lemma {:induction false} EscapeRecurringHead(latex: string)
    requires latex == "$b_2\\"
    ensures Escape(latex) == "$b\\_2\\"
  {
    var u, b := "_", "\\_";
    assert latex[4..][1..] == [] && latex[4..][..1] == ['\\'];
    assert Replace(latex[4..], u, b) == "\\";
    assert latex[3..][1..] == latex[4..] && latex[3..][..1] == ['2'];
    assert Replace(latex[3..], u, b) == "2\\";
    assert latex[2..][1..] == latex[3..] && latex[2..][..1] == ['_'];
    assert Replace(latex[2..], u, b) == "\\_2\\";
    assert latex[1..][1..] == latex[2..] && latex[1..][..1] == ['b'];
    assert Replace(latex[1..], u, b) == "b\\_2\\";
    assert latex[..1] == ['$'];
  }


  /** Quoting by position on `x$a_1$ \$a_1$`: the segment is quoted, and the escaped copy
      after it, outside every segment, is kept. */
  lemma {:induction false} RepeatedOutsideBySpans(s: string)
    requires s == "x$a_1$ \\$a_1$"
    ensures QuotedBySpans(s) == "x$a\\_1$ \\$a_1$"
  {
    RepeatedOutsideSpans(s);
    assert s[1..6] == "$a_1$";
    QuotedOneSpan(s, 1, 6);
    EscapeExample(s[1..6]);
    assert s[..1] == "x" && s[6..] == " \\$a_1$";
  }

  lemma {:induction false} RepeatedOutsideSpans(s: string)
    requires s == "x$a_1$ \\$a_1$"
    ensures LatexSpans(s) == [Span(1, 6)]
  {
    RepeatedOutsideFound(s);
    NoBlankLine(s);
    OneBlockSpans(s);
  }

  /** A cell with one span: the text before it, the span escaped, the text after it. */
  lemma {:induction false} QuotedOneSpan(s: string, lo: nat, hi: nat)
    requires lo <= hi <= |s| && LatexSpans(s) == [Span(lo, hi)]
    ensures QuotedBySpans(s) == s[..lo] + Escape(s[lo..hi]) + s[hi..]
  {
    var spans := LatexSpans(s);
    forall i | 0 <= i < |s| && (i < lo || hi <= i) ensures !InSpans(spans, i) {
      NotInOneSpan(spans, lo, hi, i);
    }
    QuoteRangeAround(s, spans, 0, 0, lo, hi, |s|);
    QuoteRangeOutside(s, spans, hi, |s|);
    assert s[0..lo] == s[..lo] && s[hi..|s|] == s[hi..];
  }

  lemma {:induction false} NotInOneSpan(spans: seq<Span>, lo: nat, hi: nat, i: nat)
    requires spans == [Span(lo, hi)] && (i < lo || hi <= i)
    ensures !InSpans(spans, i)
  {
  }

  /** A cell with two spans in order: the text around them kept, the spans escaped. */
  lemma {:induction false} QuotedTwoSpans(s: string, a: nat, b: nat, c: nat, d: nat)
    requires a <= b <= c <= d <= |s| && LatexSpans(s) == [Span(a, b), Span(c, d)]
    ensures QuotedBySpans(s) == s[..a] + Escape(s[a..b]) + s[b..c] + Escape(s[c..d]) + s[d..]
  {
    var spans := LatexSpans(s);
    forall i | 0 <= i < a ensures !InSpans(spans, i) {
      NotInTwoSpans(spans, i);
    }
    forall i | b <= i < c ensures !InSpans(spans, i) {
      NotInTwoSpans(spans, i);
    }
    forall i | d <= i < |s| ensures !InSpans(spans, i) {
      NotInTwoSpans(spans, i);
    }
    QuoteRangeAround(s, spans, 0, 0, a, b, |s|);
    QuoteRangeAround(s, spans, 1, b, c, d, |s|);
    QuoteRangeOutside(s, spans, d, |s|);
    var p, e1, m, e2, t := s[..a], Escape(s[a..b]), s[b..c], Escape(s[c..d]), s[d..];
    assert s[0..a] == p && s[d..|s|] == t;
    assert QuoteRange(s, spans, b, |s|) == m + e2 + t;
    assert QuotedBySpans(s) == p + e1 + (m + e2 + t);
    AppendAssoc(p + e1, m + e2, t);
    AppendAssoc(p + e1, m, e2);
  }

  lemma {:induction false} NotInTwoSpans(spans: seq<Span>, i: nat)
    requires |spans| == 2
    requires !(spans[0].start <= i < spans[0].end) && !(spans[1].start <= i < spans[1].end)
    ensures !InSpans(spans, i)
  {
  }

  /** A range made of unquoted text, then the whole of span `k`, then the rest. */
  lemma {:induction false} QuoteRangeAround(s: string, spans: seq<Span>, k: nat, lo: nat, a: nat, b: nat, hi: nat)
    requires lo <= a <= b <= hi <= |s|
    requires k < |spans| && spans[k] == Span(a, b)
    requires forall i :: lo <= i < a ==> !InSpans(spans, i)
    ensures QuoteRange(s, spans, lo, hi) == s[lo..a] + Escape(s[a..b]) + QuoteRange(s, spans, b, hi)
  {
    QuoteRangeSplit(s, spans, lo, a, hi);
    QuoteRangeSplit(s, spans, a, b, hi);
    QuoteRangeOutside(s, spans, lo, a);
    forall i | a <= i < b ensures InSpans(spans, i) {
      assert spans[k].start <= i < spans[k].end;
    }
    QuoteRangeInside(s, spans, a, b);
  }

  // =========================================================================================
  // preprocess: default front matter

  /** `if metadata.get('hugo') is None: metadata['hugo'] = {}`. */
  function WithHugo(metadata: map<string, Value>): (md: map<string, Value>)
    ensures md.Keys == metadata.Keys + {"hugo"}
    ensures Get(metadata, "hugo") == VNone ==> md["hugo"] == VDict(map[])
    ensures Get(metadata, "hugo") != VNone ==> md == metadata
    ensures forall k :: k in metadata && k != "hugo" ==> md[k] == metadata[k]
  {
    if Get(metadata, "hugo") == VNone then metadata["hugo" := VDict(map[])] else metadata
  }

  /** `os.path.join(path, name + '.ipynb')`. */
  function NotebookFile(path: string, name: string): string {
    PathJoin(path, name + ".ipynb")
  }

  /** The notebook file is `name.ipynb`, inside `path` unless it starts with `/`: `path`,
      one `/` unless `path` is empty or already ends with one, then `name.ipynb`. */
  lemma {:induction false} NotebookFileSpec(path: string, name: string)
    ensures var file := NotebookFile(path, name);
      && |name| + 6 <= |file| && file[|file| - |name| - 6..] == name + ".ipynb"
      && (|name| > 0 && name[0] == '/' ==> file == name + ".ipynb")
      && (!(|name| > 0 && name[0] == '/') ==> |path| <= |file| && file[..|path|] == path)
      && (!(|name| > 0 && name[0] == '/') && (|path| == 0 || path[|path| - 1] == '/') ==>
        |file| == |path| + |name| + 6)
      && (!(|name| > 0 && name[0] == '/') && |path| > 0 && path[|path| - 1] != '/' ==>
        |file| == |path| + 1 + |name| + 6 && file[|path|] == '/')
  {
    var b := name + ".ipynb";
    assert |name| > 0 ==> b[0] == name[0];
  }

  /** `date[:-2] + ':' + date[-2:]`: a colon before the last two characters (before all of
      them when there are fewer than two), turning the `%z` offset `+HHMM` into `+HH:MM`. */
  function InsertColon(date: string): string {
    var k := if |date| >= 2 then |date| - 2 else 0;
    date[..k] + ":" + date[k..]
  }

  /** The colon is the one character added: removing it gives back the date, and it is
      followed by the last two characters (by all of them when there are fewer). */
  lemma {:induction false} InsertColonSpec(date: string)
    ensures var r := InsertColon(date);
      var k := if |date| >= 2 then |date| - 2 else 0;
      && |r| == |date| + 1 && r[k] == ':' && r[..k] + r[k + 1..] == date
      && |r[k + 1..]| == if |date| >= 2 then 2 else |date|
  {
    var k := if |date| >= 2 then |date| - 2 else 0;
    var r := InsertColon(date);
    assert r[..k] == date[..k] && r[k + 1..] == date[k..];
    assert date == date[..k] + date[k..];
  }

  lemma {:induction false} InsertColonExample()
    ensures InsertColon("2018-02-05T10:30:00-0800") == "2018-02-05T10:30:00-08:00"
  {
  }

  function CapitalizeEach(words: seq<string>): (r: seq<string>)
    ensures |r| == |words|
    ensures forall i :: 0 <= i < |words| ==> r[i] == Capitalize(words[i])
  {
    if |words| == 0 then [] else [Capitalize(words[0])] + CapitalizeEach(words[1..])
  }

  /** `' '.join(w.capitalize() for w in name.split('_'))`. */
  function Title(name: string): string {
    Join(CapitalizeEach(Split(name, "_")), " ")
  }

  /** The title character by character: each `_` becomes a space; a character that starts
      the name (when `atStart`) or follows an `_` goes to upper case, every other one to
      lower case. */
  function TitleFrom(s: string, atStart: bool): (r: string)
    ensures |r| == |s|
  {
    if |s| == 0 then []
    else if s[0] == '_' then " " + TitleFrom(s[1..], true)
    else [if atStart then Upper(s[0]) else Lower(s[0])] + TitleFrom(s[1..], false)
  }

  /** Character `i` of the title: `_` becomes a space; the character that starts the text
      (when `atStart`) or follows an `_` goes to upper case, every other one to lower case. */
  function TitleChar(s: string, atStart: bool, i: nat): char
    requires i < |s|
  {
    if s[i] == '_' then ' '
    else if (if i == 0 then atStart else s[i - 1] == '_') then Upper(s[i])
    else Lower(s[i])
  }

  lemma {:induction false} TitleFromSpec(s: string, atStart: bool)
    ensures forall i :: 0 <= i < |s| ==> TitleFrom(s, atStart)[i] == TitleChar(s, atStart, i)
  {
    if |s| > 0 {
      var b := s[0] == '_';
      TitleFromSpec(s[1..], b);
      var head := if b then ' ' else if atStart then Upper(s[0]) else Lower(s[0]);
      assert TitleFrom(s, atStart) == [head] + TitleFrom(s[1..], b);
      forall i | 1 <= i < |s|
        ensures TitleChar(s, atStart, i) == TitleChar(s[1..], b, i - 1)
      {
      }
    }
  }

  function FirstWord(w: string, atStart: bool): string {
    if atStart then Capitalize(w) else LowerAll(w)
  }

  lemma {:induction false} TitleJoin(s: string, atStart: bool)
    ensures var words := Split(s, "_");
      Join([FirstWord(words[0], atStart)] + CapitalizeEach(words[1..]), " ") == TitleFrom(s, atStart)
    decreases |s|
  {
    var words := Split(s, "_");
    if |s| == 0 {
      assert words == [""];
    } else {
      var rest := Split(s[1..], "_");
      SplitAtUnderscore(s);
      if s[0] == '_' {
        TitleJoin(s[1..], true);
        TitleUnderscoreStep(atStart, rest);
        assert words[0] == "" && words[1..] == rest;
      } else {
        TitleJoin(s[1..], false);
        TitleLetterStep(s[0], atStart, rest);
        assert words[0] == [s[0]] + rest[0] && words[1..] == rest[1..];
      }
    }
  }

  /** The first step of `Split(s, "_")`. */
  lemma {:induction false} SplitAtUnderscore(s: string)
    requires |s| > 0
    ensures var rest := Split(s[1..], "_");
      && (s[0] == '_' ==> Split(s, "_") == [""] + rest)
      && (s[0] != '_' ==> Split(s, "_") == [[s[0]] + rest[0]] + rest[1..])
  {
    if s[0] == '_' {
      assert s[..1] == "_";
    } else {
      assert s[..1] != "_";
    }
  }

  /** A leading `_` contributes a space and starts the next word. */
  lemma {:induction false} TitleUnderscoreStep(atStart: bool, rest: seq<string>)
    requires |rest| > 0
    ensures Join([FirstWord("", atStart)] + CapitalizeEach(rest), " ")
         == " " + Join([FirstWord(rest[0], true)] + CapitalizeEach(rest[1..]), " ")
  {
    var words := CapitalizeEach(rest);
    assert words == [FirstWord(rest[0], true)] + CapitalizeEach(rest[1..]);
    assert FirstWord("", atStart) == "";
    JoinCons("", words, " ");
    assert "" + " " + Join(words, " ") == " " + Join(words, " ");
  }

  /** A leading letter is capitalised at the start of a word and lowered inside one. */
  lemma {:induction false} TitleLetterStep(c0: char, atStart: bool, rest: seq<string>)
    requires |rest| > 0
    ensures Join([FirstWord([c0] + rest[0], atStart)] + CapitalizeEach(rest[1..]), " ")
         == [if atStart then Upper(c0) else Lower(c0)]
            + Join([FirstWord(rest[0], false)] + CapitalizeEach(rest[1..]), " ")
  {
    var w := [c0] + rest[0];
    assert w[1..] == rest[0];
    var c := if atStart then Upper(c0) else Lower(c0);
    assert FirstWord(w, atStart) == [c] + FirstWord(rest[0], false);
    var tail := [FirstWord(rest[0], false)] + CapitalizeEach(rest[1..]);
    JoinAddFirst(c, tail, " ");
    assert [[c] + tail[0]] + tail[1..] == [FirstWord(w, atStart)] + CapitalizeEach(rest[1..]);
  }

  /** The default title has the name's length; `_` turns into a space, the first letter of
      each word goes to upper case and the others to lower case (`TitleChar`). */
  lemma {:induction false} TitleSpec(name: string)
    ensures Title(name) == TitleFrom(name, true)
    ensures |Title(name)| == |name|
    ensures forall i :: 0 <= i < |name| ==> Title(name)[i] == TitleChar(name, true, i)
  {
    var words := Split(name, "_");
    TitleJoin(name, true);
    TitleFromSpec(name, true);
    assert CapitalizeEach(words) == [FirstWord(words[0], true)] + CapitalizeEach(words[1..]);
  }

  lemma {:induction false} TitleExample(name: string)
    requires name == "my_great_post"
    ensures Title(name) == "My Great Post"
  {
    TitleSpec(name);
    TitleExampleChars(name, Title(name));
  }

  lemma {:induction false} TitleExampleChars(name: string, t: string)
    requires name == "my_great_post"
    requires |t| == |name| && forall i :: 0 <= i < |name| ==> t[i] == TitleChar(name, true, i)
    ensures t == "My Great Post"
  {
  }

  /** `hugo[k] = hugo.get(k) or default` for `date`, `title` and `draft`, in that order. */
  function HugoDefaults(hugo: map<string, Value>, date: Value, title: string): (h: map<string, Value>)
    ensures h.Keys == hugo.Keys + {"date", "title", "draft"}
    ensures forall k :: k in hugo && k != "date" && k != "title" && k != "draft" ==> h[k] == hugo[k]
    ensures h["date"] == if Truthy(Get(hugo, "date")) then hugo["date"] else date
    ensures h["title"] == if Truthy(Get(hugo, "title")) then hugo["title"] else VStr(title)
    ensures h["draft"] == if Truthy(Get(hugo, "draft")) then hugo["draft"] else VBool(true)
    ensures Truthy(h["draft"])
  {
    hugo["date" := Or(Get(hugo, "date"), date)]
        ["title" := Or(Get(hugo, "title"), VStr(title))]
        ["draft" := Or(Get(hugo, "draft"), VBool(true))]
  }

  /** Defaults that are themselves truthy are filled in once and for all: running the
      defaulting again, with whatever date and title, changes nothing. */
  lemma {:induction false} HugoDefaultsStable(hugo: map<string, Value>, date: Value, title: string, date2: Value, title2: string)
    requires Truthy(date) && title != ""
    ensures HugoDefaults(HugoDefaults(hugo, date, title), date2, title2) == HugoDefaults(hugo, date, title)
  {
  }

  /** The three assignments to `hugo[...]`, on the `hugo` dictionary of the metadata, with
      `date` as the fallback date and the title made from `name`. Only the `hugo` entry
      changes. */
  function SetDefaults(md: map<string, Value>, date: Value): (r: map<string, Value>)
    requires "hugo" in md && md["hugo"].VDict? && "name" in md && md["name"].VStr?
    ensures r.Keys == md.Keys
    ensures forall k :: k in md && k != "hugo" ==> r[k] == md[k]
    ensures r["hugo"].VDict?
  {
    md["hugo" := VDict(HugoDefaults(md["hugo"].d, date, Title(md["name"].s)))]
  }

  /** The metadata after `preprocess` has set the defaults, or the exception it raises first:
      `KeyError` for a missing `path` or `name`, `TypeError` for a non-string one,
      `FileNotFoundError` when the notebook file has no modification time, `AttributeError`
      when `hugo` is not a dictionary. `mtime` stands for `os.path.getmtime` and `strftime`
      for the local-time formatting with `'%Y-%m-%dT%H:%M:%S%z'`. */
  function FrontMatter(metadata: map<string, Value>, mtime: string -> Option<real>, strftime: real -> string)
    : Result<map<string, Value>>
  {
    var md := WithHugo(metadata);
    if "path" !in md then Err(KeyError("path"))
    else if "name" !in md then Err(KeyError("name"))
    else if !md["name"].VStr? || !md["path"].VStr? then Err(TypeError)
    else
      match mtime(NotebookFile(md["path"].s, md["name"].s))
      case None => Err(FileNotFoundError(NotebookFile(md["path"].s, md["name"].s)))
      case Some(t) =>
        if !md["hugo"].VDict? then Err(AttributeError)
        else Ok(SetDefaults(md, VStr(InsertColon(strftime(t)))))
  }

  /** `preprocess` first raises `KeyError` for a missing `path`, then for a missing `name`,
      then `TypeError` when one of them is not a string. */
  lemma {:induction false} FrontMatterKeyErrors(metadata: map<string, Value>, mtime: string -> Option<real>, strftime: real -> string)
    ensures var r := FrontMatter(metadata, mtime, strftime);
      && ("path" !in metadata ==> r == Err(KeyError("path")))
      && ("path" in metadata && "name" !in metadata ==> r == Err(KeyError("name")))
      && ("path" in metadata && "name" in metadata && !(metadata["path"].VStr? && metadata["name"].VStr?)
          ==> r == Err(TypeError))
  {
    var md := WithHugo(metadata);
    assert ("path" in md <==> "path" in metadata) && ("name" in md <==> "name" in metadata);
  }

  /** With string `path` and `name`, `preprocess` raises `FileNotFoundError` when the
      notebook file has no modification time, then `AttributeError` when `hugo` is not a
      dictionary; and it succeeds exactly when neither applies. */
  lemma {:induction false} FrontMatterErrors(metadata: map<string, Value>, mtime: string -> Option<real>, strftime: real -> string)
    requires "path" in metadata && "name" in metadata && metadata["path"].VStr? && metadata["name"].VStr?
    ensures var r := FrontMatter(metadata, mtime, strftime);
      var file := NotebookFile(metadata["path"].s, metadata["name"].s);
      && (mtime(file).None? ==> r == Err(FileNotFoundError(file)))
      && (mtime(file).Some? && !WithHugo(metadata)["hugo"].VDict? ==> r == Err(AttributeError))
      && (mtime(file).Some? && WithHugo(metadata)["hugo"].VDict? ==> r.Ok?)
  {
    var md := WithHugo(metadata);
    assert md["path"] == metadata["path"] && md["name"] == metadata["name"];
  }

  /** On success, the metadata is the input with a `hugo` dictionary (an empty one when there
      was none) given its defaults, the default date being the modification time formatted
      with a colon in the offset. */
  lemma {:induction false} FrontMatterDefaults(metadata: map<string, Value>, mtime: string -> Option<real>, strftime: real -> string)
    requires FrontMatter(metadata, mtime, strftime).Ok?
    ensures var md := WithHugo(metadata);
      && "name" in md && md["name"].VStr? && "path" in md && md["path"].VStr? && md["hugo"].VDict?
      && var t := mtime(NotebookFile(md["path"].s, md["name"].s));
      && t.Some?
      && FrontMatter(metadata, mtime, strftime).value == SetDefaults(md, VStr(InsertColon(strftime(t.value))))
  {
  }

  /** What the defaults leave: only the `hugo` entry changes; in it a truthy `date` or
      `title` is kept, a missing or falsy one is replaced by the given date or the title made
      from `name`, `draft` is truthy, and every other entry is kept. */
  lemma {:induction false} SetDefaultsSpec(md: map<string, Value>, date: Value)
    requires "hugo" in md && md["hugo"].VDict? && "name" in md && md["name"].VStr?
    ensures var before := md["hugo"].d;
      var after := SetDefaults(md, date)["hugo"].d;
      && after.Keys == before.Keys + {"date", "title", "draft"}
      && (forall k :: k in before && k != "date" && k != "title" && k != "draft" ==> after[k] == before[k])
      && after["date"] == (if Truthy(Get(before, "date")) then before["date"] else date)
      && after["title"] == (if Truthy(Get(before, "title")) then before["title"]
                            else VStr(Title(md["name"].s)))
      && Truthy(after["draft"])
  {
  }

  // =========================================================================================
  // preprocess: resource outputs

  /** `'./' + path.split('/')[-1]`. */
  function NewPath(path: string): string {
    var parts := Split(path, "/");
    "./" + parts[|parts| - 1]
  }

  /** The new path is `./` followed by the base name of `path`: its part after the last `/`,
      or all of it when it has no `/`. */
  lemma {:induction false} NewPathSpec(path: string)
    ensures var r := NewPath(path); var base := r[2..];
      && |r| >= 2 && r[..2] == "./" && '/' !in base
      && |base| <= |path| && path[|path| - |base|..] == base
      && ('/' !in path ==> base == path)
      && (|base| < |path| ==> path[|path| - |base| - 1] == '/')
  {
    var parts := Split(path, "/");
    var base := parts[|parts| - 1];
    assert NewPath(path)[2..] == base;
    LastPieceIsSuffix(path, "/");
    SplitPiecesFree(path, "/");
    assert base in parts;
    ContainsChar(base, '/');
    if '/' !in path {
      ContainsChar(path, '/');
      SplitAbsent(path, "/");
    }
    if |base| < |path| {
      var k := |path| - |base| - 1;
      assert path[k..k + 1] == "/";
      assert path[k] == path[k..k + 1][0];
    }
  }

  /** A path already of the form `./name` is its own new path. */
  lemma {:induction false} NewPathIdempotent(path: string)
    ensures NewPath(NewPath(path)) == NewPath(path)
  {
    NewPathSpec(path);
    var p := NewPath(path);
    var base := p[2..];
    assert p == "./" + base;
    ContainsChar(base, '/');
    SplitAbsent(base, "/");
    assert p[0] == '.' && p[..1] == "." && p[1..] == "/" + base;
    assert (p[1..])[..1] == "/" && (p[1..])[1..] == base;
    assert Split(p[1..], "/") == ["", base];
    assert [p[0]] + "" == ".";
    assert Split(p, "/") == [".", base];
  }

  /** The tail of distinct keys is distinct and misses the head; a step for the relocation
      proofs. */
  lemma {:induction false} DistinctRest(ks: seq<string>)
    requires |ks| > 0 && Distinct(ks)
    ensures Distinct(ks[1..]) && ks[0] !in ks[1..]
  {
  }

  /** The renaming loop run over the keys `paths`, one after the other: each entry is popped
      and stored again under `rename` of its key, replacing any entry already there. A key
      that is no longer present is passed over, where Python's `pop` would raise `KeyError`;
      that is a value for a case the model never reaches, since the loop over a dictionary's
      own distinct keys never meets one (`RelocateKeysKeys`). The loop in `preprocess` renames with `NewPath`. */
  function RelocateKeys<V>(d: seq<Entry<V>>, paths: seq<string>, rename: string -> string): seq<Entry<V>>
    decreases |paths|
  {
    if |paths| == 0 then d
    else
      match Lookup(d, paths[0])
      case None => RelocateKeys(d, paths[1..], rename)
      case Some(file) => RelocateKeys(Put(Pop(d, paths[0]), rename(paths[0]), file), paths[1..], rename)
  }

  /** The outputs after the renaming loop of `preprocess`, run over the keys the dictionary
      held when the loop began. */
  function Relocated<V>(d: seq<Entry<V>>): seq<Entry<V>> {
    RelocateKeys(d, KeysOf(d), NewPath)
  }

  /** Every entry under its new name, in the original order. */
  function Renamed<V>(d: seq<Entry<V>>, rename: string -> string): (r: seq<Entry<V>>)
    ensures |r| == |d|
    ensures forall i :: 0 <= i < |d| ==> r[i] == Entry(rename(d[i].key), d[i].value)
  {
    seq(|d|, i requires 0 <= i < |d| => Entry(rename(d[i].key), d[i].value))
  }

  /** No two entries get the same new name. */
  ghost predicate NoCollision<V>(d: seq<Entry<V>>, rename: string -> string) {
    forall i, j :: 0 <= i < |d| && 0 <= j < |d| && i != j ==> rename(d[i].key) != rename(d[j].key)
  }

  ghost predicate Idempotent(rename: string -> string) {
    forall x :: rename(rename(x)) == rename(x)
  }

  lemma {:induction false} NewPathIsIdempotent()
    ensures Idempotent(NewPath)
  {
    forall x ensures NewPath(NewPath(x)) == NewPath(x) {
      NewPathIdempotent(x);
    }
  }

  /** One turn of the loop over distinct keys of the dictionary: the dictionary stays one,
      and the keys still to visit are distinct and still present. */
  lemma {:induction false} RelocateTurn<V>(d: seq<Entry<V>>, paths: seq<string>, rename: string -> string)
    requires IsDict(d) && |paths| > 0 && Distinct(paths)
    requires forall k :: k in paths ==> k in KeysOf(d)
    ensures var d2 := Put(Pop(d, paths[0]), rename(paths[0]), Lookup(d, paths[0]).value);
      && RelocateKeys(d, paths, rename) == RelocateKeys(d2, paths[1..], rename)
      && IsDict(d2) && Distinct(paths[1..])
      && forall k :: k in paths[1..] ==> k in KeysOf(d2)
  {
    var path := paths[0];
    var file := Lookup(d, path).value;
    assert path in paths;
    PopSpec(d, path);
    PutSpec(Pop(d, path), rename(path), file);
    DistinctRest(paths);
    forall k | k in paths[1..] ensures k in KeysOf(Put(Pop(d, path), rename(path), file)) {
      assert k in paths;
    }
  }

  /** After the loop the keys are exactly the new names of the visited keys, together with
      the keys not visited. */
  lemma {:induction false} RelocateKeysKeys<V>(d: seq<Entry<V>>, paths: seq<string>, rename: string -> string)
    requires IsDict(d) && Distinct(paths) && Idempotent(rename)
    requires forall k :: k in paths ==> k in KeysOf(d)
    ensures IsDict(RelocateKeys(d, paths, rename)) && |RelocateKeys(d, paths, rename)| <= |d|
    ensures forall x :: x in KeysOf(RelocateKeys(d, paths, rename)) <==>
      (x in KeysOf(d) && x !in paths) || (exists k :: k in paths && rename(k) == x)
    decreases |paths|
  {
    if |paths| > 0 {
      var path := paths[0];
      var file := Lookup(d, path).value;
      var d2 := Put(Pop(d, path), rename(path), file);
      RelocateTurn(d, paths, rename);
      PopSpec(d, path);
      PutSpec(Pop(d, path), rename(path), file);
      RelocateKeysKeys(d2, paths[1..], rename);
      var r := RelocateKeys(d, paths, rename);
      assert r == RelocateKeys(d2, paths[1..], rename);
      forall x ensures x in KeysOf(r) <==>
        (x in KeysOf(d) && x !in paths) || (exists k :: k in paths && rename(k) == x)
      {
        if x == rename(path) {
          assert path in paths;
        }
        if exists k :: k in paths[1..] && rename(k) == x {
          var k :| k in paths[1..] && rename(k) == x;
          assert k in paths;
        }
        if exists k :: k in paths && rename(k) == x {
          var k :| k in paths && rename(k) == x;
          if k != path {
            assert k in paths[1..];
          }
        }
      }
    }
  }

  /** After the loop of `preprocess` the keys are exactly the new paths of the old keys, each
      of them its own new path, and there are no more entries than before. */
  lemma {:induction false} RelocatedKeys<V>(d: seq<Entry<V>>)
    requires IsDict(d)
    ensures IsDict(Relocated(d)) && |Relocated(d)| <= |d|
    ensures forall x :: x in KeysOf(Relocated(d)) <==> exists k :: k in KeysOf(d) && NewPath(k) == x
    ensures forall x :: x in KeysOf(Relocated(d)) ==> NewPath(x) == x
  {
    NewPathIsIdempotent();
    RelocateKeysKeys(d, KeysOf(d), NewPath);
  }

  /** The first turn of the loop moves the first entry, renamed, to the end. */
  lemma {:induction false} FirstMove<V>(a: seq<Entry<V>>, b: seq<Entry<V>>, rename: string -> string)
    requires |a| > 0 && rename(a[0].key) !in KeysOf(a[1..] + b)
    ensures RelocateKeys(a + b, KeysOf(a), rename)
      == RelocateKeys(a[1..] + (b + [Entry(rename(a[0].key), a[0].value)]), KeysOf(a[1..]), rename)
  {
    var rest := a[1..] + b;
    var e := Entry(rename(a[0].key), a[0].value);
    ConsAppend(a, b);
    assert KeysOf(a) == [a[0].key] + KeysOf(a[1..]);
    RelocateHead(a[0], rest, KeysOf(a[1..]), rename);
    PutNewKey(rest, e.key, e.value);
    AppendAssoc(a[1..], b, [e]);
  }

  /** One turn of the loop on a dictionary whose first key is the one visited. */
  lemma {:induction false} RelocateHead<V>(first: Entry<V>, rest: seq<Entry<V>>, paths: seq<string>, rename: string -> string)
    ensures RelocateKeys([first] + rest, [first.key] + paths, rename)
      == RelocateKeys(Put(rest, rename(first.key), first.value), paths, rename)
  {
    var d := [first] + rest;
    var ps := [first.key] + paths;
    assert d[0] == first && d[1..] == rest;
    assert ps[0] == first.key && ps[1..] == paths;
  }

  /** No new name of an entry of `a` is the key of another entry of `a` or of `b`. */
  ghost predicate FreshNames<V>(a: seq<Entry<V>>, b: seq<Entry<V>>, rename: string -> string) {
    && (forall i, j :: 0 <= i < |a| && 0 <= j < |a| && i != j ==> rename(a[i].key) != a[j].key)
    && (forall i, j :: 0 <= i < |a| && 0 <= j < |b| ==> rename(a[i].key) != b[j].key)
  }

  /** The conditions of `RenameAppend` hold again after the first move. */
  lemma {:induction false} RenameStep<V>(a: seq<Entry<V>>, b: seq<Entry<V>>, rename: string -> string)
    requires |a| > 0 && IsDict(a + b) && NoCollision(a, rename) && FreshNames(a, b, rename)
    ensures rename(a[0].key) !in KeysOf(a[1..] + b)
    ensures var b2 := b + [Entry(rename(a[0].key), a[0].value)];
      IsDict(a[1..] + b2) && NoCollision(a[1..], rename) && FreshNames(a[1..], b2, rename)
  {
    var x := rename(a[0].key);
    forall j | 0 <= j < |a[1..]| ensures a[1..][j].key != x {
      assert a[1..][j] == a[j + 1];
    }
    NotInKeys(a[1..], x);
    NotInKeys(b, x);
    KeysOfAppend(a[1..], b);
    DropFirstAppend(a, b, Entry(x, a[0].value));
    RenameStepShift(a, b, rename);
  }

  lemma {:induction false} RenameStepShift<V>(a: seq<Entry<V>>, b: seq<Entry<V>>, rename: string -> string)
    requires |a| > 0 && NoCollision(a, rename) && FreshNames(a, b, rename)
    ensures var b2 := b + [Entry(rename(a[0].key), a[0].value)];
      NoCollision(a[1..], rename) && FreshNames(a[1..], b2, rename)
  {
    var a2 := a[1..];
    var e := Entry(rename(a[0].key), a[0].value);
    var b2 := b + [e];
    forall i, j | 0 <= i < |a2| && 0 <= j < |a2| && i != j
      ensures rename(a2[i].key) != rename(a2[j].key) && rename(a2[i].key) != a2[j].key
    {
      assert a2[i] == a[i + 1] && a2[j] == a[j + 1];
    }
    forall i, j | 0 <= i < |a2| && 0 <= j < |b2| ensures rename(a2[i].key) != b2[j].key {
      assert a2[i] == a[i + 1];
      if j < |b| {
        assert b2[j] == b[j];
      } else {
        assert b2[j] == e;
      }
    }
  }

  /** Running the loop over the keys of `a`, with the already renamed entries `b` behind
      them, renames each entry of `a` in order and moves it behind `b`. */
  lemma {:induction false} RenameAppend<V>(a: seq<Entry<V>>, b: seq<Entry<V>>, rename: string -> string)
    requires IsDict(a + b) && NoCollision(a, rename) && FreshNames(a, b, rename)
    ensures RelocateKeys(a + b, KeysOf(a), rename) == b + Renamed(a, rename)
    decreases |a|
  {
    if |a| == 0 {
      assert a + b == b && b + Renamed(a, rename) == b;
    } else {
      var e := Entry(rename(a[0].key), a[0].value);
      RenameStep(a, b, rename);
      FirstMove(a, b, rename);
      RenameAppend(a[1..], b + [e], rename);
      RenamedCons(a, rename);
      AppendAssoc(b, [e], Renamed(a[1..], rename));
    }
  }

  lemma {:induction false} RenamedCons<V>(a: seq<Entry<V>>, rename: string -> string)
    requires |a| > 0
    ensures Renamed(a, rename) == [Entry(rename(a[0].key), a[0].value)] + Renamed(a[1..], rename)
  {
  }

  /** Without two outputs sharing a base name, the loop renames each entry and keeps the
      order: file `p` ends up under `./` followed by the base name of `p`. */
  lemma {:induction false} RelocatedNoCollision<V>(d: seq<Entry<V>>)
    requires IsDict(d) && NoCollision(d, NewPath)
    ensures Relocated(d) == Renamed(d, NewPath)
  {
    forall i, j | 0 <= i < |d| && 0 <= j < |d| && i != j ensures NewPath(d[i].key) != d[j].key {
      NewPathIdempotent(d[i].key);
    }
    assert d + [] == d;
    RenameAppend(d, [], NewPath);
  }

  /** Relocating twice is relocating once. */
  lemma {:induction false} RelocatedIdempotent<V>(d: seq<Entry<V>>)
    requires IsDict(d)
    ensures Relocated(Relocated(d)) == Relocated(d)
  {
    var r := Relocated(d);
    RelocatedKeys(d);
    assert forall i :: 0 <= i < |r| ==> r[i].key in KeysOf(r);
    RelocatedNoCollision(r);
    assert Renamed(r, NewPath) == r;
  }

  /** The renaming loop over `resources['outputs']`, run over the keys held when it began. */
  method RelocateOutputs(res: Resources)
    requires res.Valid()
    modifies res`outputs
    ensures res.Valid()
    ensures res.outputs == Relocated(old(res.outputs))
  {
    RelocatedKeys(res.outputs);
    var paths := KeysOf(res.outputs);
    var i := 0;
    while i < |paths|
      invariant 0 <= i <= |paths|
      invariant IsDict(res.outputs) && Distinct(paths[i..])
      invariant forall k :: k in paths[i..] ==> k in KeysOf(res.outputs)
      invariant RelocateKeys(res.outputs, paths[i..], NewPath) == Relocated(old(res.outputs))
    {
      var path := paths[i];
      assert path in paths[i..];
      var file := Lookup(res.outputs, path).value;
      RelocateTurn(res.outputs, paths[i..], NewPath);
      assert paths[i..][1..] == paths[i + 1..];
      res.outputs := Pop(res.outputs, path);
      res.outputs := Put(res.outputs, NewPath(path), file);
      i := i + 1;
    }
  }

  // =========================================================================================
  // preprocess

  function QuotedCells(cells: seq<Cell>): (r: seq<Cell>)
    ensures |r| == |cells|
    ensures forall i :: 0 <= i < |cells| ==> r[i] == QuotedCell(cells[i])
  {
    seq(|cells|, i requires 0 <= i < |cells| => QuotedCell(cells[i]))
  }

  /** `preprocess(nb, resources)`: on success the metadata holds the defaults, every cell is
      quoted in place and the outputs are relocated; on an exception only the `hugo` entry
      may have been created. */
  method Preprocess(nb: array<Cell>, res: Resources, mtime: string -> Option<real>, strftime: real -> string)
    returns (r: Result<()>)
    requires res.Valid()
    modifies nb, res
    ensures res.Valid()
    ensures var front := FrontMatter(old(res.metadata), mtime, strftime);
      && (r.Ok? <==> front.Ok?)
      && (front.Err? ==> (r == Err(front.error) && res.metadata == WithHugo(old(res.metadata))
            && nb[..] == old(nb[..]) && res.outputs == old(res.outputs)))
      && (front.Ok? ==> (res.metadata == front.value && nb[..] == QuotedCells(old(nb[..]))
            && res.outputs == Relocated(old(res.outputs))))
  {
    var front := FrontMatter(res.metadata, mtime, strftime);
    res.metadata := WithHugo(res.metadata);
    if front.Err? {
      return Err(front.error);
    }
    res.metadata := front.value;
    PreprocessCells(nb);
    RelocateOutputs(res);
    r := Ok(());
  }

  /** `for index, cell in enumerate(nb.cells): nb.cells[index], resources = ...`: every cell
      is replaced in place by its preprocessed form. */
  method PreprocessCells(nb: array<Cell>)
    modifies nb
    ensures nb[..] == QuotedCells(old(nb[..]))
  {
    ghost var cells := nb[..];
    ghost var quoted := QuotedCells(cells);
    var i := 0;
    while i < nb.Length
      invariant 0 <= i <= nb.Length
      invariant nb[..i] == quoted[..i] && nb[i..] == cells[i..]
    {
      var c := PreprocessCell(nb[i]);
      assert c == quoted[i];
      nb[i] := c;
      i := i + 1;
    }
    assert nb[..] == nb[..i];
  }
}
