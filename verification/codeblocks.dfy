/** The code-block pass of `render_blog` (`src/main.rs`): the events of a
    post's body are forwarded, except that the text of each code block is
    collected and replaced by one HTML event holding its highlighted form.
    The highlighter itself is a parameter. */
module CodeBlocks {
  import opened Wrappers
  import opened Errors
  import opened Text
  import opened Events

  /** A syntax definition of the highlighter, known by name. */
  datatype Syntax = Syntax(name: string)

  /** The syntax used until a fenced block names another
      (`find_syntax_plain_text`). */
  const PlainText := Syntax("Plain Text")

  /** The highlighting library as the loop uses it: `find` looks a syntax up
      by a fenced block's language (`find_syntax_by_extension`) and `render`
      turns code into highlighted HTML under the fixed theme
      (`highlighted_html_for_string`), either of them possibly failing. */
  datatype Highlighter = Highlighter(find: string -> Option<Syntax>, render: (string, Syntax) -> Option<string>)

  /** The loop's variables: whether a code block is open, the code collected
      so far, the current syntax, and the events passed on. */
  datatype State = State(inBlock: bool, pending: string, syntax: Syntax, out: seq<Event>)

  const Initial := State(false, "", PlainText, [])

  /** Outside a code block no code is pending. */
  predicate Consistent(st: State) {
    !st.inBlock ==> st.pending == ""
  }

  /** One event of the loop. A fenced block's language must be known to the
      highlighter (the `unwrap`); an indented block keeps the current syntax,
      which is whatever the last fenced block chose. */
  function Step(h: Highlighter, st: State, e: Event): (r: Result<State, Error>)
    ensures r.Success? && Consistent(st) ==> Consistent(r.value)
    ensures r.Success? ==> st.out <= r.value.out
  {
    match e
    case Start(CodeBlock(kind)) =>
      if kind.Fenced? then
        (match h.find(kind.language)
         case None => Failure(UnknownLanguage(kind.language))
         case Some(syntax) => Success(st.(inBlock := true, syntax := syntax)))
      else Success(st.(inBlock := true))
    case Text(t) =>
      if st.inBlock then Success(st.(pending := st.pending + t))
      else Success(st.(out := st.out + [e]))
    case End(CodeBlock(_)) =>
      if !st.inBlock then Success(st)
      else
        (match h.render(st.pending, st.syntax)
         case None => Failure(HighlightFailed(st.pending))
         case Some(html) => Success(State(false, "", st.syntax, st.out + [Html(html)])))
    case _ => Success(st.(out := st.out + [e]))
  }

  /** The loop over a sequence of events; the first failure ends it. */
  function Run(h: Highlighter, st: State, events: seq<Event>): Result<State, Error>
    decreases |events|
  {
    if |events| == 0 then Success(st)
    else
      var next :- Step(h, st, events[0]);
      Run(h, next, events[1..])
  }

  /** The events handed on to the HTML renderer. */
  function HighlightCode(h: Highlighter, events: seq<Event>): Result<seq<Event>, Error> {
    var st :- Run(h, Initial, events);
    Success(st.out)
  }

  /** Running over two stretches of events is running over the first and
      then, from where it left off, over the second. */
  lemma {:induction false} RunAppend(h: Highlighter, st: State, a: seq<Event>, b: seq<Event>)
    ensures Run(h, st, a + b) == match Run(h, st, a)
      case Failure(e) => Failure(e)
      case Success(mid) => Run(h, mid, b)
    decreases |a|
  {
    if |a| == 0 {
      assert a + b == b;
    } else {
      assert (a + b)[0] == a[0] && (a + b)[1..] == a[1..] + b;
      var next := Step(h, st, a[0]);
      if next.Success? {
        RunAppend(h, next.value, a[1..], b);
      }
    }
  }

  /** The loop only appends to its output, keeps its variables consistent,
      and never passes a code-block start or end on. */
  lemma {:induction false} RunInvariant(h: Highlighter, st: State, events: seq<Event>)
    requires Consistent(st)
    requires forall k :: 0 <= k < |st.out| ==> !IsCodeBlockTag(st.out[k])
    ensures var r := Run(h, st, events);
      r.Success? ==>
        && Consistent(r.value) && st.out <= r.value.out
        && forall k :: 0 <= k < |r.value.out| ==> !IsCodeBlockTag(r.value.out[k])
    decreases |events|
  {
    if |events| > 0 {
      var next := Step(h, st, events[0]);
      if next.Success? {
        var o := next.value.out;
        assert forall k :: 0 <= k < |o| ==> !IsCodeBlockTag(o[k]) by {
          assert o == st.out || (|o| == |st.out| + 1 && o[..|st.out|] == st.out && !IsCodeBlockTag(o[|st.out|]));
        }
        RunInvariant(h, next.value, events[1..]);
      }
    }
  }

  /** Outside a code block, events other than code-block starts and ends
      pass through unchanged and in order. */
  lemma {:induction false} PassThrough(h: Highlighter, st: State, events: seq<Event>)
    requires !st.inBlock
    requires forall k :: 0 <= k < |events| ==> !IsCodeBlockTag(events[k])
    ensures Run(h, st, events) == Success(st.(out := st.out + events))
    decreases |events|
  {
    if |events| == 0 {
      assert st.out + events == st.out;
    } else {
      var next := st.(out := st.out + [events[0]]);
      assert Step(h, st, events[0]) == Success(next);
      PassThrough(h, next, events[1..]);
      assert next.out + events[1..] == st.out + events;
    }
  }

  /** The end of a code block that was never opened is dropped. */
  lemma StrayEnd(h: Highlighter, st: State, kind: CodeBlockKind)
    requires !st.inBlock
    ensures Step(h, st, End(CodeBlock(kind))) == Success(st)
  {
  }

  /** Text events carrying the given pieces. */
  function Texts(pieces: seq<string>): (r: seq<Event>)
    ensures |r| == |pieces| && forall k :: 0 <= k < |r| ==> r[k] == Text(pieces[k])
  {
    seq(|pieces|, k requires 0 <= k < |pieces| => Text(pieces[k]))
  }

  /** Inside a code block, text is collected and nothing is passed on. */
  lemma {:induction false} CollectTexts(h: Highlighter, st: State, pieces: seq<string>)
    requires st.inBlock
    ensures Run(h, st, Texts(pieces)) == Success(st.(pending := st.pending + Concat(pieces)))
    decreases |pieces|
  {
    if |pieces| == 0 {
      assert st.pending + "" == st.pending;
    } else {
      var next := st.(pending := st.pending + pieces[0]);
      assert Texts(pieces)[1..] == Texts(pieces[1..]);
      CollectTexts(h, next, pieces[1..]);
      assert next.pending + Concat(pieces[1..]) == st.pending + Concat(pieces);
    }
  }

  /** The syntax a code block is highlighted with: the fenced block's own
      language, or the current syntax for an indented block. */
  function BlockSyntax(h: Highlighter, st: State, kind: CodeBlockKind): Option<Syntax> {
    if kind.Fenced? then h.find(kind.language) else Some(st.syntax)
  }

  /** A whole code block becomes one HTML event with its code highlighted;
      an unknown fenced language and a highlighter failure are errors, and
      an empty block is highlighted as empty code. */
  lemma WholeBlock(h: Highlighter, st: State, kind: CodeBlockKind, pieces: seq<string>, endKind: CodeBlockKind)
    requires !st.inBlock && Consistent(st)
    ensures var code := Concat(pieces);
      var syntax := BlockSyntax(h, st, kind);
      Run(h, st, [Start(CodeBlock(kind))] + Texts(pieces) + [End(CodeBlock(endKind))])
        == if syntax.None? then Failure(UnknownLanguage(kind.language))
           else match h.render(code, syntax.value)
             case None => Failure(HighlightFailed(code))
             case Some(html) => Success(State(false, "", syntax.value, st.out + [Html(html)]))
  {
    var syntax := BlockSyntax(h, st, kind);
    var opening := [Start(CodeBlock(kind))];
    RunAppend(h, st, opening + Texts(pieces), [End(CodeBlock(endKind))]);
    RunAppend(h, st, opening, Texts(pieces));
    if syntax.Some? {
      var open := st.(inBlock := true, syntax := syntax.value);
      assert Run(h, st, opening) == Success(open);
      CollectTexts(h, open, pieces);
      assert "" + Concat(pieces) == Concat(pieces);
    }
  }

  /** A code block still open when the events run out is never highlighted:
      its code is silently lost. */
  lemma UnclosedBlock(h: Highlighter, st: State, pieces: seq<string>)
    requires !st.inBlock && Consistent(st)
    ensures var r := Run(h, st, [Start(CodeBlock(Indented))] + Texts(pieces));
      r.Success? && r.value.out == st.out && r.value.pending == Concat(pieces)
  {
    var open := st.(inBlock := true);
    RunAppend(h, st, [Start(CodeBlock(Indented))], Texts(pieces));
    assert Run(h, st, [Start(CodeBlock(Indented))]) == Success(open);
    CollectTexts(h, open, pieces);
    assert "" + Concat(pieces) == Concat(pieces);
  }
}
