/** Every failure the site generator can report, including the panics of
    `unwrap` and out-of-range indexing, which abort the run just the same. */
module Errors {

  datatype Error =
    // the layout renderer
    | TemplateNotFound(template: string)
    | ArgumentNotFound(argument: string)
    | ArgumentIndexOutOfRange(callee: string, index: nat, count: nat)
    | UnrecognizedFunction(callee: string)
    | InSubTemplate(template: string, cause: Error)
    | FuelExhausted(template: string)
    // the older placeholder engine
    | NamedValueNotFound(name: string)
    | ReusableNotFound(name: string)
    // frontmatter and metadata
    | FrontmatterNotFound
    | MissingColon(line: string)
    | NotCharBoundary(text: string, index: nat)
    | InFrontmatterOf(post: string, cause: Error)
    | MissingField(key: string)
    | MalformedDate(text: string)
    // code-block highlighting
    | UnknownLanguage(language: string)
    | HighlightFailed(code: string)
    // layout store
    | LayoutPathTooShort(path: string)
    // page generation
    | TooFewPosts(count: nat)
    | InAllPostsPage(cause: Error)

  /** True for a failure that is not an `Err` value in the program but a
      panic (a failed `unwrap`, an index or a slice out of range) or, for
      running out of layout-inclusion fuel, the stack overflow of the
      program's unbounded recursion. Either aborts the run, and no context
      is ever attached to it. */
  predicate IsPanic(e: Error) {
    || e.ArgumentIndexOutOfRange? || e.FuelExhausted?
    || e.MissingColon? || e.NotCharBoundary? || e.MissingField? || e.MalformedDate?
    || e.UnknownLanguage? || e.LayoutPathTooShort? || e.TooFewPosts?
  }

  /** anyhow's `context`/`with_context` on a failure `e`: an `Err` value is
      reported as `wrapped` (the context around `e`), while a panic goes
      through unchanged. */
  function InContext(e: Error, wrapped: Error): (r: Error)
    ensures IsPanic(e) ==> r == e
    ensures !IsPanic(e) ==> r == wrapped
  {
    if IsPanic(e) then e else wrapped
  }

  /** True when the failure comes from running out of layout-inclusion fuel,
      which stands for the program's unbounded recursion and, like a panic,
      passes through every sub-template unchanged. */
  predicate IsFuelFailure(e: Error) {
    e.FuelExhausted?
  }
}
