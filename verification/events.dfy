/** The Markdown event stream the generator consumes (the parts of
    `pulldown_cmark::Event` it looks at). Parsing Markdown into events is
    not modelled: a post is given directly as its event stream. */
module Events {

  /** How a code block was opened: indented, or fenced with an info string. */
  datatype CodeBlockKind = Indented | Fenced(language: string)

  datatype Tag = CodeBlock(kind: CodeBlockKind) | OtherTag(name: string)

  datatype Event =
    | Start(tag: Tag)
    | End(tag: Tag)
    | Text(text: string)
    | Html(html: string)
    | SoftBreak
    | Rule
    | OtherEvent(name: string)

  /** The event opens or closes a code block. */
  predicate IsCodeBlockTag(e: Event) {
    (e.Start? || e.End?) && e.tag.CodeBlock?
  }
}
