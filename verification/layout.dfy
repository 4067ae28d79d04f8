/** The layout renderer: a template store and the `{{fn(args)}}` placeholder
    language with the three functions `val`, `opt` and `layout`. */
module Layout {
  import opened Wrappers
  import opened Errors
  import opened Text
  import opened Splice

  /** `t` is one placeholder: `{{`, a function name, `(`, an argument list,
      `)}}`, each part non-empty and drawn from its character class. */
  predicate IsCallText(t: string, callee: string, argText: string) {
    && t == "{{" + callee + "(" + argText + ")}}"
    && |callee| > 0 && (forall k :: 0 <= k < |callee| ==> InClass(FunctionName, callee[k]))
    && |argText| > 0 && (forall k :: 0 <= k < |argText| ==> InClass(ArgumentList, argText[k]))
  }

  /** One placeholder found in a template: its range, the function name and
      the raw argument list. */
  datatype Call = Call(start: nat, end: nat, callee: string, argText: string) {
    /** The arguments, split at commas (`cap[2].split(',')`). */
    function Args(): seq<string> {
      Split(argText, ',')
    }
  }

  /** The placeholder starting exactly at `i`, if any. Because neither
      character class contains the delimiter that follows it, the greedy run
      is the only candidate, so this decides the regular expression exactly. */
  function MatchAt(s: string, i: nat): (r: Option<Call>)
    requires i <= |s|
    ensures r.Some? ==> r.value.start == i < r.value.end <= |s|
  {
    if i + 2 <= |s| && s[i] == '{' && s[i + 1] == '{' then
      var n := Span(s, i + 2, FunctionName);
      var open := i + 2 + n;
      if n > 0 && open < |s| && s[open] == '(' then
        var a := Span(s, open + 1, ArgumentList);
        var close := open + 1 + a;
        if a > 0 && close + 3 <= |s| && s[close..close + 3] == ")}}" then
          Some(Call(i, close + 3, s[i + 2..open], s[open + 1..close]))
        else None
      else None
    else None
  }

  /** A match found by `MatchAt` really is placeholder text. */
  lemma MatchAtSound(s: string, i: nat)
    requires i <= |s| && MatchAt(s, i).Some?
    ensures var c := MatchAt(s, i).value;
      IsCallText(s[i..c.end], c.callee, c.argText)
  {
    var c := MatchAt(s, i).value;
    var n := Span(s, i + 2, FunctionName);
    var open := i + 2 + n;
    var a := Span(s, open + 1, ArgumentList);
    var close := open + 1 + a;
    var argText := s[open + 1..close];
    assert s[i..c.end] == "{{" + c.callee + "(" + argText + ")}}";
  }

  /** Conversely, placeholder text at `i` is always found there, with exactly
      that name and those arguments. */
  lemma MatchAtComplete(s: string, i: nat, t: string, callee: string, argText: string)
    requires i + |t| <= |s| && s[i..i + |t|] == t
    requires IsCallText(t, callee, argText)
    ensures MatchAt(s, i) == Some(Call(i, i + |t|, callee, argText))
  {
    CallTextSpans(s, i, t, callee, argText);
    MatchAtFromParts(s, i, |callee|, |argText|);
  }

  /** Placeholder text at `i`, described by the two greedy runs it holds. */
  lemma CallTextSpans(s: string, i: nat, t: string, callee: string, argText: string)
    requires i + |t| <= |s| && s[i..i + |t|] == t
    requires IsCallText(t, callee, argText)
    ensures |t| == |callee| + |argText| + 6 && |callee| > 0 && |argText| > 0
    ensures s[i] == '{' && s[i + 1] == '{' && s[i + 2 + |callee|] == '('
    ensures s[i + 2..i + 2 + |callee|] == callee
    ensures s[i + 3 + |callee|..i + 3 + |callee| + |argText|] == argText
    ensures s[i + 3 + |callee| + |argText|..i + |t|] == ")}}"
    ensures Span(s, i + 2, FunctionName) == |callee| && Span(s, i + 3 + |callee|, ArgumentList) == |argText|
  {
    CallTextLayout(s, i, t, callee, argText);
    SpansOfParts(s, i, |callee|, |argText|);
  }

  /** The two greedy runs of placeholder text stop exactly at `(` and `)`. */
  lemma SpansOfParts(s: string, i: nat, n: nat, a: nat)
    requires i + n + a + 6 <= |s|
    requires (forall k :: i + 2 <= k < i + 2 + n ==> InClass(FunctionName, s[k])) && s[i + 2 + n] == '('
    requires forall k :: i + 3 + n <= k < i + 3 + n + a ==> InClass(ArgumentList, s[k])
    requires s[i + 3 + n + a..i + n + a + 6] == ")}}"
    ensures Span(s, i + 2, FunctionName) == n && Span(s, i + 3 + n, ArgumentList) == a
  {
    SpanExact(s, i + 2, i + 2 + n, FunctionName);
    assert s[i + 3 + n + a] == ')' by {
      assert s[i + 3 + n + a..i + n + a + 6][0] == ')';
    }
    SpanExact(s, i + 3 + n, i + 3 + n + a, ArgumentList);
  }

  /** `MatchAt` read off from the lengths of the two runs. */
  lemma MatchAtFromParts(s: string, i: nat, n: nat, a: nat)
    requires i + n + a + 6 <= |s|
    requires s[i] == '{' && s[i + 1] == '{'
    requires n > 0 && Span(s, i + 2, FunctionName) == n && s[i + 2 + n] == '('
    requires a > 0 && Span(s, i + 3 + n, ArgumentList) == a
    requires s[i + 3 + n + a..i + n + a + 6] == ")}}"
    ensures MatchAt(s, i) == Some(Call(i, i + n + a + 6, s[i + 2..i + 2 + n], s[i + 3 + n..i + 3 + n + a]))
  {
  }

  /** Where each part of placeholder text at `i` sits in `s`. */
  lemma CallTextLayout(s: string, i: nat, t: string, callee: string, argText: string)
    requires i + |t| <= |s| && s[i..i + |t|] == t
    requires IsCallText(t, callee, argText)
    ensures |t| == |callee| + |argText| + 6
    ensures s[i] == '{' && s[i + 1] == '{'
    ensures s[i + 2..i + 2 + |callee|] == callee
    ensures forall k :: i + 2 <= k < i + 2 + |callee| ==> InClass(FunctionName, s[k])
    ensures s[i + 2 + |callee|] == '('
    ensures s[i + 3 + |callee|..i + 3 + |callee| + |argText|] == argText
    ensures forall k :: i + 3 + |callee| <= k < i + 3 + |callee| + |argText| ==> InClass(ArgumentList, s[k])
    ensures s[i + 3 + |callee| + |argText|..i + |t|] == ")}}"
  {
    CallTextSlices(s, i, t, callee, argText);
    SliceInClass(s, i + 2, callee, FunctionName);
    SliceInClass(s, i + 3 + |callee|, argText, ArgumentList);
  }

  /** The delimiters and the two parts of placeholder text at `i`, as slices of `s`. */
  lemma CallTextSlices(s: string, i: nat, t: string, callee: string, argText: string)
    requires i + |t| <= |s| && s[i..i + |t|] == t
    requires t == "{{" + callee + "(" + argText + ")}}"
    ensures |t| == |callee| + |argText| + 6
    ensures s[i] == '{' && s[i + 1] == '{'
    ensures s[i + 2..i + 2 + |callee|] == callee
    ensures s[i + 2 + |callee|] == '('
    ensures s[i + 3 + |callee|..i + 3 + |callee| + |argText|] == argText
    ensures s[i + 3 + |callee| + |argText|..i + |t|] == ")}}"
  {
    var u := "{{" + callee;
    var v := u + "(";
    var w := v + argText;
    var a := s[i..i + |t|];
    assert a[0] == s[i] && a[1] == s[i + 1] && a[|u|] == s[i + |u|];
    assert a[..|u|] == u && a[..|v|] == v && a[..|w|] == w;
    assert a[2..|u|] == callee;
    assert a[|v|..|w|] == argText;
    assert a[|w|..] == ")}}";
    SliceOfSlice(s, i, i + |t|, 2, |u|);
    SliceOfSlice(s, i, i + |t|, |v|, |w|);
    SliceOfSlice(s, i, i + |t|, |w|, |t|);
  }

  /** Every character of a slice equal to `x` is in the class of all of `x`'s characters. */
  lemma SliceInClass(s: string, lo: nat, x: string, cc: CharClass)
    requires lo + |x| <= |s| && s[lo..lo + |x|] == x
    requires forall k :: 0 <= k < |x| ==> InClass(cc, x[k])
    ensures forall k :: lo <= k < lo + |x| ==> InClass(cc, s[k])
  {
    forall k | lo <= k < lo + |x|
      ensures InClass(cc, s[k])
    {
      assert s[k] == x[k - lo];
    }
  }

  /** No placeholder starts anywhere in `[a, b)`. */
  predicate NoCallIn(s: string, a: nat, b: nat)
    requires a <= b <= |s|
  {
    forall p :: a <= p < b ==> MatchAt(s, p).None?
  }

  /** `calls` are the leftmost-first, non-overlapping matches in `s` from
      `from` on: each starts at the first position after the previous one
      where a placeholder starts, and none is missed in between. */
  predicate Leftmost(s: string, calls: seq<Call>, from: nat)
    requires from <= |s|
    decreases |calls|
  {
    if |calls| == 0 then NoCallIn(s, from, |s|)
    else
      && from <= calls[0].start <= |s|
      && NoCallIn(s, from, calls[0].start)
      && MatchAt(s, calls[0].start) == Some(calls[0])
      && Leftmost(s, calls[1..], calls[0].end)
  }

  /** The scan of the template (`captures_iter`): try each position in turn,
      take the placeholder that starts there and resume after it. */
  function Scan(s: string, from: nat): (r: seq<Call>)
    requires from <= |s|
    ensures Leftmost(s, r, from)
    decreases |s| - from
  {
    if from == |s| then []
    else match MatchAt(s, from)
      case Some(c) =>
        var rest := Scan(s, c.end);
        LeftmostCons(s, c, rest, from);
        [c] + rest
      case None =>
        var rest := Scan(s, from + 1);
        LeftmostSkip(s, rest, from);
        rest
  }

  /** A match at `from` followed by the matches after it. */
  lemma LeftmostCons(s: string, c: Call, rest: seq<Call>, from: nat)
    requires from <= |s| && MatchAt(s, from) == Some(c)
    requires c.end <= |s| && Leftmost(s, rest, c.end)
    ensures Leftmost(s, [c] + rest, from)
  {
    assert ([c] + rest)[1..] == rest;
  }

  /** No match at `from`: the matches from `from + 1` are those from `from`. */
  lemma LeftmostSkip(s: string, rest: seq<Call>, from: nat)
    requires from < |s| && MatchAt(s, from).None? && Leftmost(s, rest, from + 1)
    ensures Leftmost(s, rest, from)
  {
  }

  /** A placeholder at `p` means the match list has begun by `p`. */
  lemma LeftmostFirst(s: string, calls: seq<Call>, from: nat, p: nat)
    requires from <= p < |s| && Leftmost(s, calls, from) && MatchAt(s, p).Some?
    ensures |calls| > 0 && calls[0].start <= p
  {
  }

  /** There is only one leftmost-first match list, so `Scan` is the scan. */
  lemma {:induction false} LeftmostUnique(s: string, a: seq<Call>, b: seq<Call>, from: nat)
    requires from <= |s|
    requires Leftmost(s, a, from) && Leftmost(s, b, from)
    ensures a == b
    decreases |a|
  {
    if |a| > 0 {
      LeftmostFirst(s, b, from, a[0].start);
    }
    if |b| > 0 {
      LeftmostFirst(s, a, from, b[0].start);
    }
    if |a| > 0 {
      assert a[0] == b[0];
      LeftmostUnique(s, a[1..], b[1..], a[0].end);
      assert a == [a[0]] + a[1..] && b == [b[0]] + b[1..];
    }
  }

  /** Each placeholder's range paired with the text it evaluated to. */
  function EditsOf(calls: seq<Call>, values: seq<string>): (r: seq<Edit>)
    requires |calls| == |values|
    ensures |r| == |calls|
    ensures forall k :: 0 <= k < |r| ==>
      r[k] == Edit(calls[k].start, calls[k].end, values[k])
  {
    seq(|calls|, k requires 0 <= k < |calls| => Edit(calls[k].start, calls[k].end, values[k]))
  }

  lemma {:induction false} LeftmostAscending(s: string, calls: seq<Call>, values: seq<string>, from: nat)
    requires from <= |s| && Leftmost(s, calls, from) && |calls| == |values|
    ensures Ascending(EditsOf(calls, values), from, |s|)
    decreases |calls|
  {
    if |calls| > 0 {
      LeftmostAscending(s, calls[1..], values[1..], calls[0].end);
      assert EditsOf(calls, values)[1..] == EditsOf(calls[1..], values[1..]);
    }
  }

  /** The reverse-order splice of the evaluated values into the template. */
  function SpliceCalls(text: string, calls: seq<Call>, values: seq<string>): string
    requires Leftmost(text, calls, 0) && |calls| == |values|
  {
    LeftmostAscending(text, calls, values, 0);
    SpliceFromRight(text, EditsOf(calls, values))
  }

  /** The `k`-th function argument; indexing past the end panics. */
  function Arg(callee: string, fargs: seq<string>, k: nat): (r: Result<string, Error>)
    ensures k < |fargs| ==> r == Success(fargs[k])
    ensures k >= |fargs| ==> r == Failure(ArgumentIndexOutOfRange(callee, k, |fargs|))
  {
    if k < |fargs| then Success(fargs[k])
    else Failure(ArgumentIndexOutOfRange(callee, k, |fargs|))
  }

  /** Renders the template called `name`: find it, scan it, evaluate every
      placeholder left to right against the same arguments (the first failure
      aborts), then splice the values in from the right. `fuel` bounds how
      deeply `layout` may nest; the program itself has no bound. */
  function Render(templates: map<string, string>, name: string, args: map<string, string>, fuel: nat)
    : Result<string, Error>
    decreases fuel, 2, 0
  {
    if name !in templates then Failure(TemplateNotFound(name))
    else
      var text := templates[name];
      var calls := Scan(text, 0);
      var values :- EvalCalls(templates, calls, args, fuel);
      Success(SpliceCalls(text, calls, values))
  }

  /** Evaluates the placeholders in order; the first failure is the result. */
  function EvalCalls(templates: map<string, string>, calls: seq<Call>, args: map<string, string>, fuel: nat)
    : (r: Result<seq<string>, Error>)
    ensures r.Success? ==> |r.value| == |calls|
    decreases fuel, 1, |calls|
  {
    if |calls| == 0 then Success([])
    else
      var v :- Apply(templates, calls[0].callee, calls[0].Args(), args, fuel);
      var rest :- EvalCalls(templates, calls[1..], args, fuel);
      Success([v] + rest)
  }

  /** One placeholder function applied to its arguments:
      - `val(x)` is the argument `x`, failing when there is none;
      - `opt(f,a,b)` is the literal `a` when argument `f` is `"true"`, else
        the literal `b` (an absent `f` is not `"true"`);
      - `layout(n)` is template `n` rendered with the same arguments;
      - any other name fails. */
  function Apply(templates: map<string, string>, callee: string, fargs: seq<string>,
                 args: map<string, string>, fuel: nat): Result<string, Error>
    decreases fuel, 0, 1
  {
    if callee == "val" then
      var x :- Arg(callee, fargs, 0);
      if x in args then Success(args[x]) else Failure(ArgumentNotFound(x))
    else if callee == "opt" then
      var flag :- Arg(callee, fargs, 0);
      if flag in args && args[flag] == "true" then Arg(callee, fargs, 1) else Arg(callee, fargs, 2)
    else if callee == "layout" then
      var sub :- Arg(callee, fargs, 0);
      Include(templates, sub, args, fuel)
    else Failure(UnrecognizedFunction(callee))
  }

  /** `layout(sub)`: template `sub` rendered one level deeper; an `Err` it
      fails with is reported inside the sub-template's context, a panic
      passes through unchanged. */
  function Include(templates: map<string, string>, sub: string, args: map<string, string>, fuel: nat)
    : Result<string, Error>
    decreases fuel, 0, 0
  {
    if fuel == 0 then Failure(FuelExhausted(sub))
    else
      var r := Render(templates, sub, args, fuel - 1);
      if r.Success? then r else Failure(InContext(r.error, InSubTemplate(sub, r.error)))
  }

  /** A store of templates and the nesting depth allowed for `layout`. */
  datatype Renderer = Renderer(templates: map<string, string>, fuel: nat) {
    function RenderLayout(name: string, args: map<string, string>): Result<string, Error> {
      Render(templates, name, args, fuel)
    }
  }
}
