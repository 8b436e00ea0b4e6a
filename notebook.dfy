/** The notebook objects the host conversion framework hands to a preprocessor: cells with
    their outputs, and the resources side-table. */
module Notebook {
  import opened Py

  newtype byte = x: int | 0 <= x < 256

  /** The media type whose content is quoted in code-cell outputs. */
  const LatexMime: string := "text/latex"

  /** One output of a code cell; `data` maps media types to rendered content and is absent
      on outputs such as streams. */
  datatype Output = Output(data: Option<map<string, string>>)

  /** A cell: markdown prose, code with its outputs (`None` when the field holds `None`),
      or a cell of any other type, which the preprocessors return as it is. */
  datatype Cell =
    | Markdown(source: string)
    | Code(outputs: Option<seq<Output>>)
    | Other(cellType: string, source: string)

  /** The resources table: document metadata (with `path`, `name` and, optionally, `hugo`)
      and the emitted resource files, an insertion-ordered dictionary from path to bytes. */
  class Resources {
    var metadata: map<string, Value>
    var outputs: seq<Entry<seq<byte>>>

    ghost predicate Valid()
      reads this
    {
      IsDict(outputs)
    }
  }
}
