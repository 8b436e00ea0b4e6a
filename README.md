# nb_hugo_exporter: the notebook preprocessors, in Dafny

nb_hugo_exporter turns Jupyter notebooks into Markdown pages for the Hugo static site
generator. Its core is a preprocessor that runs over the notebook before it is rendered. It
does three things:

- It quotes underscores as `\_` in the LaTeX segments that its two regular expressions find
  (for `$$…$$` and `$…$`). Otherwise Hugo's Markdown renderer would read the underscores as
  emphasis. The regular expressions are not a parser of math: a `$` at the very start of a
  text never opens a segment, and dollars are paired as the scan meets them, so for
  `$x_1$ and $y$` the one inline segment found is `$ and $`. The quoting works on text, not
  positions: each segment found is looked up and replaced, escaped, everywhere in the cell,
  one segment after the other. So the text of a segment that recurs elsewhere in the cell is
  quoted there too, even outside math, and an underscore of a later segment can be missed
  when an earlier replacement has changed that segment's text (see "Findings"). This is done
  both in markdown cells and in `text/latex` outputs of code cells.
- It fills in default Hugo front matter: `date` (the notebook file's modification time),
  `title` (made from the notebook name) and `draft`.
- It renames the emitted resource files from `path/to/file.ext` to `./file.ext`, so that they
  end up next to the page.

The model covers two revisions of this preprocessor:

- `HugoPreprocessor`, the current revision (`nbhugoexporter/hugopreprocessor.py`).
- `UnderscorePreprocessor`, the earlier one (`nb_hugo_exporter/hugo_exporter.py`). It has
  the same quoting code. Its `extract_latex` passes `re.DOTALL` to `re.findall` together with
  an already compiled pattern, which Python refuses with `ValueError`. So every markdown cell
  raises. Its default date is the raw `getmtime` number, and `getmtime` is read only when no
  truthy date is given. It does not move resource files.

## Modules

| file | module | what it holds |
|---|---|---|
| `py.dfy` | `Py` | Python exceptions as a `Result`, metadata values with Python truthiness, `or` and `dict.get`, and insertion-ordered dictionaries (`pop`, `d[k] = v`) as entry lists with distinct keys |
| `py_str.dfy` | `PyStr` | `str.replace`, `str.split`, `str.join`, `str.capitalize`, `os.path.join` (POSIX, two parts), character counts and deletion, substring facts |
| `notebook.dfy` | `Notebook` | cells, code-cell outputs, and the `Resources` class (metadata and the `outputs` dictionary of resource files) |
| `math_patterns.dfy` | `MathPatterns` | the two regular expressions of `extract_latex`, written as scanners that do what `re.findall` does with them (leftmost match, lazy `.*?`, scan resumed after each match), and `re.findall` on a compiled pattern with its flags check |
| `hugo_preprocessor.dfy` | `HugoPreprocessor` | the current revision: quoting, extraction, the cell loop, the front-matter defaults, output relocation |
| `underscore_preprocessor.dfy` | `UnderscorePreprocessor` | the earlier revision; the parts that are the same code are shared with `HugoPreprocessor` |

### How the source is modelled

- **Imperative parts.** What changes state in the source is a method on an `array` or on the
  `Resources` object. Each method is proved equal to a specification function.
  - The cell loop `nb.cells[index] = …` is `PreprocessCells` on an `array<Cell>`, proved equal
    to `QuotedCells`.
  - The segment loop of `preprocess_cell` is `QuoteMarkdown`, proved equal to `QuoteAll`.
  - The output loop of `preprocess_cell` is `QuoteOutputs`, proved equal to `QuotedOutputs`.
  - The relocation loop over `resources['outputs']` is `RelocateOutputs`, which updates the
    `outputs` field of `Resources` and is proved equal to `Relocated`.
- **Exceptions** are `Err` values: `KeyError`, `TypeError`, `FileNotFoundError`,
  `AttributeError`, `ValueError`. The front-matter functions raise them in the source's order.
- **The environment** is passed in as parameters.
  - `os.path.getmtime` is a function `mtime` from a path to an optional time; `None` means the
    file is missing.
  - The current revision's local-time `strftime('%Y-%m-%dT%H:%M:%S%z')` is a function
    `strftime`. The colon insertion that follows it is modelled exactly (`InsertColon`).

## Model

| member | source | states |
|---|---|---|
| `HugoPreprocessor.QuoteUnderscoresInLatex` | nbhugoexporter/hugopreprocessor.py:22-34 | every non-overlapping occurrence of `latex`, left to right, is replaced by its escaped form, and the text between occurrences is kept (`Join(Split(text, latex), Escape(latex))`); an empty `latex` leaves the text as it is |
| `HugoPreprocessor.EscapeSpec` | nbhugoexporter/hugopreprocessor.py:33 | `latex.replace('_', '\_')` grows by one character per underscore, keeps the number of underscores, and puts a backslash before every underscore; deleting backslashes gives the same text as before; text without underscores is unchanged |
| `HugoPreprocessor.UnescapeEscape` | nbhugoexporter/hugopreprocessor.py:33 | replacing `\_` by `_` in the escaped text gives back the original: escaping loses nothing |
| `HugoPreprocessor.QuoteOnlyInsertsBackslashes` | nbhugoexporter/hugopreprocessor.py:33-34 | quoting only inserts backslashes: deleting every backslash gives the same text before and after |
| `HugoPreprocessor.QuoteIdentity` | nbhugoexporter/hugopreprocessor.py:33-34 | quoting changes nothing when `latex` has no underscore or does not occur in the text |
| `HugoPreprocessor.QuoteWhole` | nbhugoexporter/hugopreprocessor.py:79 | quoting a string within itself, as done for `text/latex` outputs, escapes the whole string |
| `HugoPreprocessor.QuoteTwiceDiffers` | nbhugoexporter/hugopreprocessor.py:79 | quoting is not idempotent: quoting an already quoted `text/latex` string with underscores changes it again |
| `PyStr.ReplaceIsJoinSplit` | nbhugoexporter/hugopreprocessor.py:34 | `s.replace(pat, rep)` is `rep.join(s.split(pat))` |
| `PyStr.JoinSplit` | nbhugoexporter/hugopreprocessor.py:55 | joining the pieces of `s.split(sep)` with `sep` gives back `s` |
| `PyStr.SplitPiecesOccur` | nbhugoexporter/hugopreprocessor.py:55 | every piece of a split occurs in the text |
| `PyStr.SplitPiecesFree` | nbhugoexporter/hugopreprocessor.py:55 | no piece of a split contains the separator |
| `PyStr.SplitAbsent` | nbhugoexporter/hugopreprocessor.py:55 | a text without the separator splits into itself alone |
| `PyStr.ReplaceGrows` | nbhugoexporter/hugopreprocessor.py:34 | `s.replace(pat, rep)` with `rep` at least as long as `pat` never shortens `s`, and lengthens it when `pat` occurs and `rep` is longer |
| `PyStr.Capitalize` | nbhugoexporter/hugopreprocessor.py:102 | `w.capitalize()` has the same length, its first character in upper case, the rest in lower case |
| `PyStr.PathJoin` | nbhugoexporter/hugopreprocessor.py:90 | `os.path.join(a, b)` ends with `b`; it is `b` itself when `b` is absolute, and otherwise starts with `a`; for a relative `b` exactly one `/` lies between them: none is added when `a` is empty or ends with `/`, and otherwise one `/` is inserted right after `a` |
| `MathPatterns.FindAll` | nbhugoexporter/hugopreprocessor.py:49-56 | `re.findall` with a pattern compiled with DOTALL and no flags returns the captured segments of the display or the inline pattern |
| `MathPatterns.DisplaySpansAreMatches` | nbhugoexporter/hugopreprocessor.py:49-50 | each display span is a match of `[^\\](\$\$.*?[^\\]\$\$)`: an opening `$$` not after a backslash, and the first closing `$$` not after a backslash, so the body is the shortest one |
| `MathPatterns.DisplaySpansInOrder` | nbhugoexporter/hugopreprocessor.py:49-50 | display spans come in order without overlapping |
| `MathPatterns.DisplaySpansAreLeftmost` | nbhugoexporter/hugopreprocessor.py:49-50 | the first display span is the leftmost match, and the rest is the scan resumed at its end; when no span is found, the pattern matches nowhere |
| `MathPatterns.DisplayFoundIff` | nbhugoexporter/hugopreprocessor.py:49-50 | a display segment is found exactly when the display pattern matches somewhere |
| `MathPatterns.DisplaySegmentShape` | nbhugoexporter/hugopreprocessor.py:49-50 | each display segment occurs in the text, is at least five characters long, starts and ends with `$$`, and its closing `$$` does not follow a backslash |
| `MathPatterns.InlineSpansAreMatches` | nbhugoexporter/hugopreprocessor.py:53-56 | each inline span is a match of `[^\$\\](\$.*?[^\\]\$)` with the shortest body |
| `MathPatterns.InlineSpansInOrder` | nbhugoexporter/hugopreprocessor.py:53-56 | inline spans come in order without overlapping |
| `MathPatterns.InlineSpansAreLeftmost` | nbhugoexporter/hugopreprocessor.py:53-56 | the first inline span is the leftmost match, and the rest is the scan resumed at its end; when none is found, the pattern matches nowhere |
| `MathPatterns.InlineFoundIff` | nbhugoexporter/hugopreprocessor.py:53-56 | an inline segment is found exactly when the inline pattern matches somewhere |
| `MathPatterns.InlineSegmentShape` | nbhugoexporter/hugopreprocessor.py:53-56 | each inline segment occurs in the text, is at least three characters long, starts and ends with `$`, and its closing `$` does not follow a backslash |
| `MathPatterns.OpenersArePreceded` | nbhugoexporter/hugopreprocessor.py:48-53 | the `$` that opens a segment always follows a character that is not a backslash (nor a `$`, for inline math); a `$` at index 0 never opens one |
| `MathPatterns.EscapedDollarsFindNothing` | nbhugoexporter/hugopreprocessor.py:48-53 | in a text where every `$` follows a backslash, neither pattern finds anything |
| `MathPatterns.FewDollarsNoInline` | nbhugoexporter/hugopreprocessor.py:53-56 | text with fewer than two `$` has no inline segment |
| `MathPatterns.InlineMispairedExample` | nbhugoexporter/hugopreprocessor.py:53-56 | for `$x_1$ and $y$` the inline pattern finds only `$ and $`: the `$` at index 0 cannot open, and the text between the two formulas is taken as one |
| `MathPatterns.DisplayReadAsInlineExample` | nbhugoexporter/hugopreprocessor.py:48-56 | for ` $$a$$` the inline pattern finds `$$a$` while the display pattern finds `$$a$$` |
| `HugoPreprocessor.ExtractLatex` | nbhugoexporter/hugopreprocessor.py:37-58 | the loop returns the display segments of the whole text, then the inline segments of each `'\n\n'` block in order (`LatexSegments`) |
| `HugoPreprocessor.SegmentShape` | nbhugoexporter/hugopreprocessor.py:37-58 | every extracted segment occurs in the markdown, has at least three characters, starts and ends with `$`, and its last `$` does not follow a backslash |
| `HugoPreprocessor.InlineSegmentsWithinBlocks` | nbhugoexporter/hugopreprocessor.py:54-56 | inline math never spans a blank line: no inline segment contains `'\n\n'` |
| `HugoPreprocessor.EscapedDollarsNeverOpen` | nbhugoexporter/hugopreprocessor.py:37-58 | a markdown text in which every `$` is escaped yields no segment |
| `HugoPreprocessor.QuotedOutput` | nbhugoexporter/hugopreprocessor.py:76-79 | an output keeps its media types; a `text/latex` entry is escaped in full, and every other entry, or an output without `data`, is unchanged |
| `HugoPreprocessor.QuotedOutputs` | nbhugoexporter/hugopreprocessor.py:76-79 | every output of a code cell is quoted, in place and in order |
| `HugoPreprocessor.PreprocessCell` | nbhugoexporter/hugopreprocessor.py:61-80 | the cell becomes its quoted form (`QuotedCell`): markdown with each segment quoted in turn, code with each output quoted, other cells unchanged |
| `HugoPreprocessor.QuoteMarkdown` | nbhugoexporter/hugopreprocessor.py:70-73 | the segment loop quotes each extracted segment in turn, each quote applied to the result of the previous ones (`QuoteAll`) |
| `HugoPreprocessor.QuoteOutputs` | nbhugoexporter/hugopreprocessor.py:75-79 | the output loop replaces every output by its quoted form (`QuotedOutputs`) |
| `HugoPreprocessor.QuoteAllOnlyInsertsBackslashes` | nbhugoexporter/hugopreprocessor.py:72-73 | quoting every segment in turn only inserts backslashes |
| `HugoPreprocessor.QuoteAllIdentity` | nbhugoexporter/hugopreprocessor.py:72-73 | segments without underscores leave the source unchanged |
| `HugoPreprocessor.QuotedCellOnlyInsertsBackslashes` | nbhugoexporter/hugopreprocessor.py:61-80 | preprocessing keeps the kind of a cell and, for code cells, the number and media types of the outputs; deleting backslashes from a markdown source or a `text/latex` output gives the same text before and after; other cells, and code cells without outputs, are unchanged |
| `HugoPreprocessor.MarkdownWithoutUnderscoresUnchanged` | nbhugoexporter/hugopreprocessor.py:70-73 | a markdown cell whose math has no underscore comes back unchanged |
| `HugoPreprocessor.EscapedMarkdownUnchanged` | nbhugoexporter/hugopreprocessor.py:70-73 | a markdown cell in which every `$` is escaped, or which has no `$`, comes back unchanged |
| `HugoPreprocessor.MarkdownWithUnderscoresQuoted` | nbhugoexporter/hugopreprocessor.py:61-73 | the converse: a markdown cell with an underscore in some extracted segment comes back longer, so a markdown cell is unchanged exactly when none of its segments holds an underscore |
| `HugoPreprocessor.QuoteGrows` | nbhugoexporter/hugopreprocessor.py:33-34 | quoting never shortens the text, and it lengthens it when the segment holds an underscore and occurs in the text |
| `HugoPreprocessor.QuoteAllGrows` | nbhugoexporter/hugopreprocessor.py:71-73 | quoting the segments in turn never shortens the markdown source |
| `HugoPreprocessor.RecurringSegmentExample` | nbhugoexporter/hugopreprocessor.py:61-73 | for the cell `x$a_1$ y$b_2\$a_1$` the segments are `$a_1$` and `$b_2\$a_1$`, and the cell becomes `x$a\_1$ y$b_2\$a\_1$`: quoting the first segment's text inside the second changes the second, which is then no longer found, so the `_` of `b_2` stays unquoted |
| `HugoPreprocessor.RepeatedOutsideExample` | nbhugoexporter/hugopreprocessor.py:61-73 | for the cell `x$a_1$ \$a_1$` the only segment is `$a_1$` (the escaped `\$a_1$` is not math), yet the cell becomes `x$a\_1$ \$a\_1$`: text outside every segment is changed |
| `HugoPreprocessor.LatexSpansAreSegments` | nbhugoexporter/hugopreprocessor.py:37-58 | the positions of the segments: one span per extracted segment, in the same order, each within the text and covering exactly that segment's text (inline spans shifted by the offset of their `'\n\n'` block) |
| `HugoPreprocessor.QuotedBySpansAt` | nbhugoexporter/hugopreprocessor.py:62-68 | the quoting by position that the docstring promises: every character lands at its offset in the result; an underscore inside a found segment lands as `\_`, every other character as itself |
| `HugoPreprocessor.QuotedBySpansOutside` | nbhugoexporter/hugopreprocessor.py:62-68 | text outside every found segment is copied unchanged, at its offset |
| `HugoPreprocessor.QuotedBySpansSegment` | nbhugoexporter/hugopreprocessor.py:62-73 | every extracted segment appears, escaped, at the offset where it was found |
| `HugoPreprocessor.QuotedBySpansOnlyInsertsBackslashes` | nbhugoexporter/hugopreprocessor.py:62-68 | the quoting by position only inserts backslashes, and a text without segments is unchanged |
| `HugoPreprocessor.RecurringSegmentBySpans` | nbhugoexporter/hugopreprocessor.py:61-73 | quoting by position turns `x$a_1$ y$b_2\$a_1$` into `x$a\_1$ y$b\_2\$a\_1$`: both underscores of the second segment are quoted |
| `HugoPreprocessor.RepeatedOutsideBySpans` | nbhugoexporter/hugopreprocessor.py:61-73 | quoting by position turns `x$a_1$ \$a_1$` into `x$a\_1$ \$a_1$`: the text outside the segment is kept |
| `HugoPreprocessor.QuotedCellExample` | nbhugoexporter/hugopreprocessor.py:69-73 | the markdown cell `_Title_: $a_1$` becomes `_Title_: $a\_1$`: the emphasis outside the math is kept, the subscript inside is quoted |
| `HugoPreprocessor.WithHugo` | nbhugoexporter/hugopreprocessor.py:86-89 | a missing or `None` `hugo` entry becomes an empty dict; any other metadata is untouched |
| `HugoPreprocessor.NotebookFileSpec` | nbhugoexporter/hugopreprocessor.py:90 | the notebook file ends with `name.ipynb`; it is `name.ipynb` itself when the name is absolute, and otherwise lies inside `path`, with one `/` inserted between them unless `path` is empty or already ends with `/` |
| `HugoPreprocessor.InsertColonSpec` | nbhugoexporter/hugopreprocessor.py:99 | `date[:-2] + ':' + date[-2:]` adds one colon before the last two characters (before all of them when there are fewer), and removing the colon gives back the date |
| `HugoPreprocessor.InsertColonExample` | nbhugoexporter/hugopreprocessor.py:94-99 | the offset `-0800` becomes `-08:00`, as Hugo expects |
| `HugoPreprocessor.TitleSpec` | nbhugoexporter/hugopreprocessor.py:102 | the default title has the name's length; each `_` becomes a space, the first letter of each word is upper case and the others lower case |
| `HugoPreprocessor.TitleExample` | nbhugoexporter/hugopreprocessor.py:102 | `my_great_post` gets the title `My Great Post` |
| `HugoPreprocessor.HugoDefaults` | nbhugoexporter/hugopreprocessor.py:100-105 | `date`, `title` and `draft` are present afterwards; a truthy value is kept, a missing or falsy one gets the default; `draft` is always truthy; every other entry is kept |
| `HugoPreprocessor.HugoDefaultsStable` | nbhugoexporter/hugopreprocessor.py:100-105 | with truthy defaults, setting the defaults a second time, with any date and title, changes nothing |
| `HugoPreprocessor.SetDefaults` | nbhugoexporter/hugopreprocessor.py:100-105 | only the `hugo` entry of the metadata changes, and it stays a dict |
| `HugoPreprocessor.SetDefaultsSpec` | nbhugoexporter/hugopreprocessor.py:100-105 | the `hugo` dict afterwards holds its old keys plus `date`, `title`, `draft`; given truthy ones are kept; missing or falsy ones become the fallback date or the title made from `name`; `draft` is truthy |
| `HugoPreprocessor.FrontMatterKeyErrors` | nbhugoexporter/hugopreprocessor.py:90 | a missing `path` raises `KeyError('path')` first, then a missing `name` raises `KeyError('name')`, then a non-string one raises `TypeError` |
| `HugoPreprocessor.FrontMatterErrors` | nbhugoexporter/hugopreprocessor.py:97-100 | with string `path` and `name`: a missing notebook file raises `FileNotFoundError` for that file; otherwise a `hugo` that is not a dict raises `AttributeError`; and only then does the call succeed |
| `HugoPreprocessor.FrontMatterDefaults` | nbhugoexporter/hugopreprocessor.py:86-105 | on success the metadata is the input with its `hugo` dict given the defaults, the default date being the formatted modification time with a colon in the offset |
| `HugoPreprocessor.NewPathSpec` | nbhugoexporter/hugopreprocessor.py:116 | the new path is `./` followed by the base name: the part after the last `/`, or the whole path when it has none |
| `HugoPreprocessor.NewPathIdempotent` | nbhugoexporter/hugopreprocessor.py:116 | a path of the form `./name` is its own new path |
| `HugoPreprocessor.RelocateKeysKeys` | nbhugoexporter/hugopreprocessor.py:113-117 | after renaming any distinct keys of the dict, the keys are the new names of the visited keys plus the keys not visited, with no duplicates and no more entries than before |
| `HugoPreprocessor.RelocatedKeys` | nbhugoexporter/hugopreprocessor.py:113-117 | after relocation the keys are exactly the new paths of the old keys; each is its own new path; there are no more entries than before |
| `HugoPreprocessor.RenameAppend` | nbhugoexporter/hugopreprocessor.py:113-117 | when no new name collides with another key, each visited entry is renamed in order and moved behind the entries already renamed |
| `HugoPreprocessor.RelocatedNoCollision` | nbhugoexporter/hugopreprocessor.py:113-117 | when no two outputs share a base name, relocation renames every file `p` to `./basename(p)`, keeping its content and the order |
| `HugoPreprocessor.RelocatedIdempotent` | nbhugoexporter/hugopreprocessor.py:113-117 | relocating twice is the same as relocating once |
| `HugoPreprocessor.RelocateOutputs` | nbhugoexporter/hugopreprocessor.py:113-117 | the loop of `pop` and store over the keys present when it starts leaves `Relocated` of the old outputs, still a dict |
| `HugoPreprocessor.QuotedCells` | nbhugoexporter/hugopreprocessor.py:107-108 | each cell is replaced by its quoted form, at the same index |
| `HugoPreprocessor.PreprocessCells` | nbhugoexporter/hugopreprocessor.py:107-108 | the array holds the quoted cells after the loop |
| `HugoPreprocessor.Preprocess` | nbhugoexporter/hugopreprocessor.py:83-118 | it succeeds exactly when the front matter does. On success the metadata holds the defaults, every cell is quoted in place and the outputs are relocated. On an exception only the `hugo` entry may have been created, and the cells and outputs are unchanged |
| `UnderscorePreprocessor.ExtractLatex` | nb_hugo_exporter/hugo_exporter.py:32-53 | always raises `ValueError`: `re.findall` is given `re.DOTALL` next to a compiled pattern, and `MathPatterns.FindAll` raises exactly when flags come with a compiled pattern |
| `UnderscorePreprocessor.PreprocessCell` | nb_hugo_exporter/hugo_exporter.py:56-75 | a cell raises `ValueError` exactly when it is markdown; code cells are quoted as in the current revision, and other cells come back as they are. The quoting function (lines 17-29) is the same code as the current one, so it is `HugoPreprocessor.QuoteUnderscoresInLatex` |
| `UnderscorePreprocessor.FrontMatterErrors` | nb_hugo_exporter/hugo_exporter.py:81-88 | the errors come in this revision's order: `KeyError('path')`, `KeyError('name')`, `TypeError`, then `AttributeError` for a non-dict `hugo`, then `FileNotFoundError` only when no truthy date is given; success exactly when none applies |
| `UnderscorePreprocessor.FrontMatterDefaults` | nb_hugo_exporter/hugo_exporter.py:88-91 | on success a truthy date is kept; otherwise the date is the raw modification time as a number; the title and draft defaults are those of the current revision |
| `UnderscorePreprocessor.SetDefaultsDifferInDate` | nb_hugo_exporter/hugo_exporter.py:88-91 | two fallback dates give the same metadata except, at most, for `hugo.date` |
| `UnderscorePreprocessor.RevisionsCompared` | nb_hugo_exporter/hugo_exporter.py:78-91 | wherever the current revision's front matter succeeds, the earlier one succeeds too, with the same metadata except for a defaulted `hugo.date` |
| `UnderscorePreprocessor.GivenDateNeedsNoFile` | nb_hugo_exporter/hugo_exporter.py:88 | with a truthy date and a missing notebook file, the earlier revision succeeds where the current one raises |
| `UnderscorePreprocessor.FirstMarkdown` | nb_hugo_exporter/hugo_exporter.py:93-94 | the index of the first markdown cell: no markdown cell comes before it, and there is one at it unless it is the end |
| `UnderscorePreprocessor.PreprocessCells` | nb_hugo_exporter/hugo_exporter.py:93-94 | the loop quotes the cells before the first markdown cell in place, then raises `ValueError` at that cell and leaves it and the rest unchanged; it succeeds exactly when there is no markdown cell |
| `UnderscorePreprocessor.Preprocess` | nb_hugo_exporter/hugo_exporter.py:78-95 | a front-matter exception leaves only the `hugo` entry possibly created and the cells unchanged; otherwise the defaults are set and the cell loop runs; the resource files are never touched |
| `Py.Or` | nbhugoexporter/hugopreprocessor.py:100-105 | `a or b` is `a` when `a` is truthy and `b` otherwise; the result is truthy exactly when one of them is |
| `Py.Get` | nbhugoexporter/hugopreprocessor.py:87 | `d.get(k)` is `d[k]` when the key is present and `None` otherwise |
| `Py.PopSpec` | nbhugoexporter/hugopreprocessor.py:114 | `pop` removes that key only; every other key keeps its value; keys stay distinct; the size drops by one when the key was there, and nothing changes when it was not. That last case is not Python's behaviour (`d.pop(k)` raises `KeyError` for a missing key); it is a value for a case the relocation loop never reaches, because every key it pops is still present |
| `Py.PutSpec` | nbhugoexporter/hugopreprocessor.py:117 | after `d[k] = v`, `k` maps to `v` and every other key is untouched; the keys are the old ones plus `k` and stay distinct; assigning an existing key keeps the size |
| `Py.PutNewKey` | nbhugoexporter/hugopreprocessor.py:117 | a new key is appended at the end, as in an insertion-ordered dict |

The functions below carry no contract of their own. They are the specification functions
that the lemmas and methods in the table state their properties about:

- `HugoPreprocessor.FrontMatter` (nbhugoexporter/hugopreprocessor.py:86-105):
  `FrontMatterKeyErrors`, `FrontMatterErrors`, `FrontMatterDefaults`, and `Preprocess`.
- `UnderscorePreprocessor.FrontMatter` (nb_hugo_exporter/hugo_exporter.py:81-91):
  `UnderscorePreprocessor.FrontMatterErrors`, `FrontMatterDefaults`, `RevisionsCompared`,
  `GivenDateNeedsNoFile`, and `Preprocess`.
- `HugoPreprocessor.Escape` (line 33): `EscapeSpec`, `UnescapeEscape`, `QuoteWhole`.
- `HugoPreprocessor.LatexSegments` (lines 37-58): `ExtractLatex`, `SegmentShape`,
  `InlineSegmentsWithinBlocks`, `EscapedDollarsNeverOpen`.
- `HugoPreprocessor.QuoteAll` and `HugoPreprocessor.QuotedCell` (lines 69-79): `QuoteMarkdown`,
  `PreprocessCell`, `QuoteAllOnlyInsertsBackslashes`, `QuoteAllIdentity`, `QuoteAllGrows`,
  `QuotedCellOnlyInsertsBackslashes`, `MarkdownWithoutUnderscoresUnchanged`,
  `MarkdownWithUnderscoresQuoted`, `QuotedCellExample`, `RecurringSegmentExample`,
  `RepeatedOutsideExample`.
- `HugoPreprocessor.LatexSpans` and `HugoPreprocessor.QuotedBySpans` (lines 37-68):
  `LatexSpansAreSegments`, `QuotedBySpansAt`, `QuotedBySpansOutside`, `QuotedBySpansSegment`,
  `QuotedBySpansOnlyInsertsBackslashes`, `RecurringSegmentBySpans`, `RepeatedOutsideBySpans`.
- `HugoPreprocessor.InsertColon` (line 99): `InsertColonSpec`, `InsertColonExample`.
- `HugoPreprocessor.Title` (line 102): `TitleSpec`, `TitleExample`.
- `HugoPreprocessor.NewPath` (line 116): `NewPathSpec`, `NewPathIdempotent`.
- `HugoPreprocessor.Relocated` (lines 113-117): `RelocatedKeys`, `RelocatedNoCollision`,
  `RelocatedIdempotent`, `RelocateOutputs`.

## Findings

| source | as written | input that shows it | evidently intended | confidence | as-written member | corrected member |
|---|---|---|---|---|---|---|
| nbhugoexporter/hugopreprocessor.py:61-73 | each extracted segment is replaced by its escaped form by text, everywhere in the cell, one segment after the other | `x$a_1$ y$b_2\$a_1$` becomes `x$a\_1$ y$b_2\$a\_1$` (the `_` of `b_2` is left unquoted); `x$a_1$ \$a_1$` becomes `x$a\_1$ \$a\_1$` (text outside math is changed) | every `_` inside a found segment, and only there, is preceded by `\`, as the docstring of `preprocess_cell` says | high; not executed | `HugoPreprocessor.RecurringSegmentExample`, `HugoPreprocessor.RepeatedOutsideExample` | `HugoPreprocessor.QuotedBySpansAt`, with `QuotedBySpansOutside`, `QuotedBySpansSegment`, `RecurringSegmentBySpans`, `RepeatedOutsideBySpans` |

`QuotedCell`, `PreprocessCell`, `PreprocessCells` and `Preprocess` keep the code's quoting by
text, since that is what the program does. The quoting by position, `QuotedBySpans`, is
defined beside them and its properties are proved on its own.

## Left out

- `HugoPreprocessor.MarkdownWithUnderscoresQuoted`: states only that a cell with an underscore in a segment gets longer, not that every such underscore ends up preceded by `\`. The code as written does not keep that promise (see "Findings"); the promise is proved for `QuotedBySpans` instead.

- `HugoPreprocessor.RelocateOutputs`, `HugoPreprocessor.Preprocess`: relocation iterates over a snapshot of the keys, so `Preprocess` succeeds exactly when the front matter does. The source loops over `resources['outputs']` itself while it pops entries and stores them again (nbhugoexporter/hugopreprocessor.py:113-117). Each `d[new_path] = file` adds an entry behind the iterator's position, so on CPython 3.8 and later the loop never ends normally: for any non-empty `resources['outputs']` the iterator raises `RuntimeError`, "dictionary changed size during iteration" when a new name overwrites another key and otherwise "dictionary keys changed during iteration". So the current revision's `preprocess` raises on every notebook that has a resource file. This follows from how CPython's dict iterator works. The model runs the renaming the loop evidently intends, over the keys present when it starts, and does not raise that exception.
- `HugoPreprocessor.FrontMatterKeyErrors`, `HugoPreprocessor.FrontMatterErrors`, `UnderscorePreprocessor.FrontMatterErrors`: `metadata` is modelled as a plain dict, so a missing `path` or `name` raises `KeyError`. When nbconvert supplies `resources['metadata']` as its `ResourcesDict`, a missing key reads as `''` instead, and `getmtime` is then asked about the path built from that empty string. That case is not modelled.
- `RelocateOutputs`: the source's `resources` is nbconvert's `ResourcesDict`, which supplies a default for a missing key. The model assumes `metadata` and `outputs` are present and that `outputs` is a dict from path to bytes.
- `HugoPreprocessor.FrontMatter`: the local time zone (line 96), `datetime.fromtimestamp` and the `astimezone`/`strftime` formatting are one `strftime` parameter. The clock, the time zone database and a timestamp out of range are not modelled.
- The file system is the `mtime` parameter: `os.path.getmtime` returns a time or, for a missing file, `None`, which stands for `FileNotFoundError`. Other `OSError`s are not modelled.
- The model checks `metadata.get('hugo') is None`, as the code does. A `hugo` entry that is present but falsy, such as `{}` or `False`, is kept as it is, not replaced.
- `PyStr.Capitalize`: case mapping is ASCII only. Python's Unicode case mapping, which can change a string's length, is not modelled.
- Cells, outputs and metadata are values. The aliasing through which the source mutates `cell.source` and `o['data']` in place, and the `metadata`/`hugo` references, is captured only by the arrays and fields the methods write back.
- The order of keys in the metadata and `hugo` dicts is not tracked: they are maps. Only `outputs`, where order matters for relocation, is an insertion-ordered list.
- `MathPatterns.FindAll` scans only the patterns compiled with DOTALL, with flags 0, since those are the only ones either revision scans successfully. The earlier revision's flagged calls are modelled as the `ValueError` Python raises.
- `preprocess_cell` does `o.get('data', {}).get('text/latex')` on outputs. The model gives an output an optional map from media type to string, so non-string `text/latex` contents are not modelled.
- The `HugoExporter` classes, the template path and package setup are not part of this model. They only wire the preprocessors into nbconvert.
