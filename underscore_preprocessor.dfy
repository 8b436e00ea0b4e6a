/** `UnderscorePreprocessor`, the earlier revision of the preprocessor. Its quoting is the
    same code as the current revision's, but `extract_latex` hands `re.DOTALL` to
    `re.findall` together with an already compiled pattern, which Python refuses, so no
    markdown cell can be preprocessed. Its default date is the raw modification time, read
    only when no date is given, and it leaves the resource files where they are. */
module UnderscorePreprocessor {
  import opened Py
  import opened Notebook
  import opened MathPatterns
  import HugoPreprocessor

  // =========================================================================================
  // extract_latex

  /** `re.findall(display_math, markdown, re.DOTALL)` with `display_math` compiled without
      flags: the first call raises, before the inline search is reached. */
  function ExtractLatex(markdown: string): (r: Result<seq<string>>)
    ensures r == Err(ValueError)
  {
    FindAll(DisplayPattern(false), markdown, DOTALL)
  }

  // =========================================================================================
  // preprocess_cell

  /** `preprocess_cell`: a markdown cell raises the exception of `extract_latex`; a code cell
      has its `text/latex` outputs quoted exactly as in the current revision, whose code for
      it is the same; any other cell is returned as it is. */
  method PreprocessCell(cell: Cell) returns (r: Result<Cell>)
    ensures r.Err? <==> cell.Markdown?
    ensures r.Err? ==> r.error == ValueError
    ensures r.Ok? ==> r.value == HugoPreprocessor.QuotedCell(cell)
  {
    match cell
    case Markdown(source) =>
      var found := ExtractLatex(source);
      r := match found
        case Err(e) => Err(e)
        case Ok(segments) => Ok(Markdown(HugoPreprocessor.QuoteAll(source, segments)));
    case _ =>
      var c := HugoPreprocessor.PreprocessCell(cell);
      r := Ok(c);
  }

  // =========================================================================================
  // preprocess: default front matter

  /** The metadata after `preprocess` has set the defaults, or the exception it raises first:
      `KeyError` for a missing `path` or `name`, `TypeError` for a non-string one,
      `AttributeError` when `hugo` is not a dictionary (its `.get('date')` is evaluated
      before anything else of the date), and `FileNotFoundError` when no truthy date is
      given and the notebook file has no modification time. The default date is the
      modification time itself, as a number. `mtime` stands for `os.path.getmtime`. */
  function FrontMatter(metadata: map<string, Value>, mtime: string -> Option<real>)
    : Result<map<string, Value>>
  {
    var md := HugoPreprocessor.WithHugo(metadata);
    if "path" !in md then Err(KeyError("path"))
    else if "name" !in md then Err(KeyError("name"))
    else if !md["name"].VStr? || !md["path"].VStr? then Err(TypeError)
    else if !md["hugo"].VDict? then Err(AttributeError)
    // `hugo.get('date') or os.path.getmtime(file_path)` calls getmtime only for a falsy date
    else if Truthy(Get(md["hugo"].d, "date")) then Ok(HugoPreprocessor.SetDefaults(md, Get(md["hugo"].d, "date")))
    else
      match mtime(HugoPreprocessor.NotebookFile(md["path"].s, md["name"].s))
      case None => Err(FileNotFoundError(HugoPreprocessor.NotebookFile(md["path"].s, md["name"].s)))
      case Some(t) => Ok(HugoPreprocessor.SetDefaults(md, VFloat(t)))
  }

  /** The exceptions, in the order this revision raises them, and success exactly when none
      applies. */
  lemma {:induction false} FrontMatterErrors(metadata: map<string, Value>, mtime: string -> Option<real>)
    ensures var r := FrontMatter(metadata, mtime);
      && ("path" !in metadata ==> r == Err(KeyError("path")))
      && ("path" in metadata && "name" !in metadata ==> r == Err(KeyError("name")))
      && ("path" in metadata && "name" in metadata && !(metadata["path"].VStr? && metadata["name"].VStr?)
          ==> r == Err(TypeError))
    ensures "path" in metadata && "name" in metadata && metadata["path"].VStr? && metadata["name"].VStr? ==>
      var r := FrontMatter(metadata, mtime);
      var hugo := HugoPreprocessor.WithHugo(metadata)["hugo"];
      var file := HugoPreprocessor.NotebookFile(metadata["path"].s, metadata["name"].s);
      && (!hugo.VDict? ==> r == Err(AttributeError))
      && (hugo.VDict? && !Truthy(Get(hugo.d, "date")) && mtime(file).None? ==> r == Err(FileNotFoundError(file)))
      && (hugo.VDict? && (Truthy(Get(hugo.d, "date")) || mtime(file).Some?) ==> r.Ok?)
  {
  }

  /** On success, the metadata is the input with a `hugo` dictionary given its defaults; a
      truthy date is kept, and otherwise the default date is the modification time as a
      number. */
  lemma {:induction false} FrontMatterDefaults(metadata: map<string, Value>, mtime: string -> Option<real>)
    requires FrontMatter(metadata, mtime).Ok?
    ensures var md := HugoPreprocessor.WithHugo(metadata);
      && "name" in md && md["name"].VStr? && "path" in md && md["path"].VStr? && md["hugo"].VDict?
      && var date := Get(md["hugo"].d, "date");
      && var t := mtime(HugoPreprocessor.NotebookFile(md["path"].s, md["name"].s));
      && (Truthy(date) ==> FrontMatter(metadata, mtime).value == HugoPreprocessor.SetDefaults(md, date))
      && (!Truthy(date) ==> t.Some? && FrontMatter(metadata, mtime).value == HugoPreprocessor.SetDefaults(md, VFloat(t.value)))
  {
  }

  /** Two runs of the defaults that differ only in the fallback date give the same metadata
      except, at most, for the `date` of the `hugo` dictionary. */
  lemma {:induction false} SetDefaultsDifferInDate(md: map<string, Value>, date1: Value, date2: Value)
    requires "hugo" in md && md["hugo"].VDict? && "name" in md && md["name"].VStr?
    ensures var r1 := HugoPreprocessor.SetDefaults(md, date1);
      var r2 := HugoPreprocessor.SetDefaults(md, date2);
      && r1.Keys == r2.Keys
      && (forall k :: k in r1 && k != "hugo" ==> r1[k] == r2[k])
      && r1["hugo"].d.Keys == r2["hugo"].d.Keys
      && (forall k :: k in r1["hugo"].d && k != "date" ==> r1["hugo"].d[k] == r2["hugo"].d[k])
  {
    HugoPreprocessor.SetDefaultsSpec(md, date1);
    HugoPreprocessor.SetDefaultsSpec(md, date2);
  }

  /** The two revisions compared: wherever the current one succeeds the earlier one does too,
      with the same front matter except for a defaulted date, which is the formatted time
      there and the raw time here. */
  lemma {:induction false} RevisionsCompared(metadata: map<string, Value>, mtime: string -> Option<real>, strftime: real -> string)
    requires HugoPreprocessor.FrontMatter(metadata, mtime, strftime).Ok?
    ensures FrontMatter(metadata, mtime).Ok?
    ensures var now := HugoPreprocessor.FrontMatter(metadata, mtime, strftime).value;
      var before := FrontMatter(metadata, mtime).value;
      && before.Keys == now.Keys
      && (forall k :: k in now && k != "hugo" ==> before[k] == now[k])
      && before["hugo"].VDict? && now["hugo"].VDict?
      && before["hugo"].d.Keys == now["hugo"].d.Keys
      && (forall k :: k in now["hugo"].d && k != "date" ==> before["hugo"].d[k] == now["hugo"].d[k])
  {
    HugoPreprocessor.FrontMatterDefaults(metadata, mtime, strftime);
    FrontMatterDefaults(metadata, mtime);
    var md := HugoPreprocessor.WithHugo(metadata);
    var t := mtime(HugoPreprocessor.NotebookFile(md["path"].s, md["name"].s));
    var date := Get(md["hugo"].d, "date");
    SetDefaultsDifferInDate(md, if Truthy(date) then date else VFloat(t.value),
                            VStr(HugoPreprocessor.InsertColon(strftime(t.value))));
  }

  /** Given a truthy date, the earlier revision does not look at the notebook file, so it
      succeeds where the current one raises `FileNotFoundError`. */
  lemma {:induction false} GivenDateNeedsNoFile(metadata: map<string, Value>, mtime: string -> Option<real>, strftime: real -> string)
    requires "path" in metadata && "name" in metadata && metadata["path"].VStr? && metadata["name"].VStr?
    requires Get(metadata, "hugo").VDict? && Truthy(Get(Get(metadata, "hugo").d, "date"))
    requires mtime(HugoPreprocessor.NotebookFile(metadata["path"].s, metadata["name"].s)).None?
    ensures HugoPreprocessor.FrontMatter(metadata, mtime, strftime).Err?
    ensures FrontMatter(metadata, mtime).Ok?
  {
  }

  // =========================================================================================
  // preprocess

  /** The index of the first markdown cell, or the number of cells when there is none. */
  function FirstMarkdown(cells: seq<Cell>): (m: nat)
    ensures m <= |cells|
    ensures forall j :: 0 <= j < m ==> !cells[j].Markdown?
    ensures m < |cells| ==> cells[m].Markdown?
  {
    if |cells| == 0 || cells[0].Markdown? then 0 else 1 + FirstMarkdown(cells[1..])
  }

  /** The cell loop of `preprocess`: the cells are preprocessed in order and replaced in
      place until the first markdown cell raises; that cell and the ones after it keep their
      contents. */
  method PreprocessCells(nb: array<Cell>) returns (r: Result<()>)
    modifies nb
    ensures var m := FirstMarkdown(old(nb[..]));
      && (r.Ok? <==> m == nb.Length)
      && (r.Err? ==> r.error == ValueError)
      && nb[..m] == HugoPreprocessor.QuotedCells(old(nb[..m]))
      && nb[m..] == old(nb[m..])
  {
    ghost var cells := nb[..];
    var i := 0;
    while i < nb.Length
      invariant 0 <= i <= nb.Length
      invariant forall j :: 0 <= j < i ==> !cells[j].Markdown? && nb[j] == HugoPreprocessor.QuotedCell(cells[j])
      invariant forall j :: i <= j < nb.Length ==> nb[j] == cells[j]
    {
      var c := PreprocessCell(nb[i]);
      if c.Err? {
        QuotedUpTo(cells, nb[..], i);
        return Err(c.error);
      }
      nb[i] := c.value;
      i := i + 1;
    }
    QuotedUpTo(cells, nb[..], i);
    r := Ok(());
  }

  /** Cells quoted up to the first markdown cell `i` and unchanged from there on are what
      the cell loop leaves. */
  lemma {:induction false} QuotedUpTo(cells: seq<Cell>, now: seq<Cell>, i: nat)
    requires |now| == |cells| && i <= |cells| && (i == |cells| || cells[i].Markdown?)
    requires forall j :: 0 <= j < i ==> !cells[j].Markdown? && now[j] == HugoPreprocessor.QuotedCell(cells[j])
    requires forall j :: i <= j < |cells| ==> now[j] == cells[j]
    ensures FirstMarkdown(cells) == i
    ensures now[..i] == HugoPreprocessor.QuotedCells(cells[..i]) && now[i..] == cells[i..]
  {
  }

  /** `preprocess(nb, resources)`: the defaults are set, or the exception is raised with only
      the `hugo` entry possibly created; then the cell loop runs. The resource files are not
      touched. */
  method Preprocess(nb: array<Cell>, res: Resources, mtime: string -> Option<real>) returns (r: Result<()>)
    modifies nb, res`metadata
    ensures res.outputs == old(res.outputs)
    ensures var front := FrontMatter(old(res.metadata), mtime);
      && (front.Err? ==> (r == Err(front.error) && res.metadata == HugoPreprocessor.WithHugo(old(res.metadata))
            && nb[..] == old(nb[..])))
      && (front.Ok? ==> res.metadata == front.value)
    ensures var front := FrontMatter(old(res.metadata), mtime);
      var m := FirstMarkdown(old(nb[..]));
      front.Ok? ==>
        && (r.Ok? <==> m == nb.Length)
        && (r.Err? ==> r.error == ValueError)
        && nb[..m] == HugoPreprocessor.QuotedCells(old(nb[..m]))
        && nb[m..] == old(nb[m..])
  {
    var front := FrontMatter(res.metadata, mtime);
    res.metadata := HugoPreprocessor.WithHugo(res.metadata);
    if front.Err? {
      return Err(front.error);
    }
    res.metadata := front.value;
    r := PreprocessCells(nb);
  }
}
