/** The older placeholder engine of `templating.rs`: `{{name}}` is replaced by
    a named value and `{{reusable:name}}` by a reusable fragment. Every
    placeholder is found first, then they are resolved and spliced in from
    the rightmost to the leftmost, so the first failure met — the one
    reported — is the rightmost. */
module Templating {
  import opened Wrappers
  import opened Errors
  import opened Text
  import opened Splice

  /** `t` is the text of a handlebar placeholder around `body`
      (`\{\{[a-zA-Z0-9: .]+\}\}`). */
  predicate IsHandlebarText(t: string, body: string) {
    && t == "{{" + body + "}}"
    && |body| > 0 && (forall k :: 0 <= k < |body| ==> InClass(Handlebar, body[k]))
  }

  /** The end of the placeholder starting exactly at `i`, if any. The body's
      class holds no `}`, so the greedy run is the only candidate. */
  function HandlebarAt(s: string, i: nat): (r: Option<nat>)
    requires i <= |s|
    ensures r.Some? ==> i + 5 <= r.value <= |s|
  {
    if i + 2 <= |s| && s[i] == '{' && s[i + 1] == '{' then
      var n := Span(s, i + 2, Handlebar);
      var close := i + 2 + n;
      if n > 0 && close + 2 <= |s| && s[close] == '}' && s[close + 1] == '}' then Some(close + 2)
      else None
    else None
  }

  /** A match found by `HandlebarAt` really is placeholder text. */
  lemma HandlebarAtSound(s: string, i: nat)
    requires i <= |s| && HandlebarAt(s, i).Some?
    ensures IsHandlebarText(s[i..HandlebarAt(s, i).value], s[i + 2..HandlebarAt(s, i).value - 2])
  {
    var end := HandlebarAt(s, i).value;
    var body := s[i + 2..end - 2];
    assert s[i..end] == "{{" + body + "}}";
  }

  /** Conversely, placeholder text at `i` is always found there, whole. */
  lemma HandlebarAtComplete(s: string, i: nat, t: string, body: string)
    requires i + |t| <= |s| && s[i..i + |t|] == t
    requires IsHandlebarText(t, body)
    ensures HandlebarAt(s, i) == Some(i + |t|)
  {
    HandlebarTextSpan(s, i, t, body);
  }

  lemma HandlebarTextSpan(s: string, i: nat, t: string, body: string)
    requires i + |t| <= |s| && s[i..i + |t|] == t
    requires IsHandlebarText(t, body)
    ensures |t| == |body| + 4
    ensures s[i] == '{' && s[i + 1] == '{'
    ensures s[i + 2 + |body|] == '}' && s[i + 3 + |body|] == '}'
    ensures Span(s, i + 2, Handlebar) == |body|
  {
    var a := s[i..i + |t|];
    assert a[0] == s[i] && a[1] == s[i + 1];
    assert a[2 + |body|] == s[i + 2 + |body|] && a[3 + |body|] == s[i + 3 + |body|];
    forall k | i + 2 <= k < i + 2 + |body|
      ensures InClass(Handlebar, s[k])
    {
      assert s[k] == a[k - i] == body[k - i - 2];
    }
    SpanExact(s, i + 2, i + 2 + |body|, Handlebar);
  }

  /** What a placeholder stands for. */
  datatype Placeholder = Value(name: string) | Import(name: string)

  const ReusablePrefix := "reusable:"

  /** The placeholder written as `ph` (`to_placeholder`): the braces trimmed
      off, every space removed, and a `reusable:` prefix — as many copies
      of it as there are — marking a reusable fragment. Whatever the text,
      the name holds no space and does not itself start with `reusable:`. */
  function ToPlaceholder(ph: string): (r: Placeholder)
    ensures ' ' !in r.name && !StartsWith(r.name, ReusablePrefix)
  {
    Classify(RemoveChar(TrimEndMatches(TrimStartMatches(ph, "{{"), "}}"), ' '))
  }

  /** The kind of placeholder a space-free inner text names. */
  function Classify(inner: string): (r: Placeholder)
    requires ' ' !in inner
    ensures ' ' !in r.name && !StartsWith(r.name, ReusablePrefix)
  {
    if StartsWith(inner, ReusablePrefix) then
      var name := TrimStartMatches(inner, ReusablePrefix);
      assert forall k :: 0 <= k < |name| ==> name[k] == inner[|inner| - |name| + k];
      Import(name)
    else Value(inner)
  }

  /** How a placeholder is written back as text. */
  function Encode(ph: Placeholder): string {
    match ph
    case Value(name) => "{{" + name + "}}"
    case Import(name) => "{{" + ReusablePrefix + name + "}}"
  }

  /** A name that reads back unchanged: no spaces, no `reusable:` prefix,
      and no brace at either end to be trimmed with the delimiters. */
  predicate PlainName(name: string) {
    && ' ' !in name && !StartsWith(name, ReusablePrefix)
    && (|name| == 0 || (name[0] != '{' && name[|name| - 1] != '}'))
  }

  /** The value a placeholder resolves to (`process_placeholder`). */
  function ProcessPlaceholder(ph: Placeholder, values: map<string, string>, reusables: map<string, string>)
    : (r: Result<string, Error>)
    ensures r.Success? <==> (ph.Value? && ph.name in values) || (ph.Import? && ph.name in reusables)
    ensures r.Success? ==> r.value == if ph.Value? then values[ph.name] else reusables[ph.name]
    ensures r.Failure? ==> r.error == if ph.Value? then NamedValueNotFound(ph.name) else ReusableNotFound(ph.name)
  {
    match ph
    case Value(name) =>
      if name in values then Success(values[name]) else Failure(NamedValueNotFound(name))
    case Import(name) =>
      if name in reusables then Success(reusables[name]) else Failure(ReusableNotFound(name))
  }

  /** The range of one placeholder found in the text. */
  datatype Found = Found(start: nat, end: nat)

  /** The placeholder written in the range `f` of `s`. */
  function PlaceholderOf(s: string, f: Found): Placeholder
    requires f.start <= f.end <= |s|
  {
    ToPlaceholder(s[f.start..f.end])
  }

  /** No placeholder starts anywhere in `[a, b)`. */
  predicate NoneIn(s: string, a: nat, b: nat)
    requires a <= b <= |s|
  {
    forall p :: a <= p < b ==> HandlebarAt(s, p).None?
  }

  /** `found` are the leftmost-first, non-overlapping placeholders of `s`
      from `from` on (`find_iter`). */
  predicate Leftmost(s: string, found: seq<Found>, from: nat)
    requires from <= |s|
    decreases |found|
  {
    if |found| == 0 then NoneIn(s, from, |s|)
    else
      var f := found[0];
      && from <= f.start <= |s|
      && NoneIn(s, from, f.start)
      && HandlebarAt(s, f.start) == Some(f.end)
      && Leftmost(s, found[1..], f.end)
  }

  /** Every range lies within `s`. */
  predicate InText(s: string, found: seq<Found>) {
    forall k :: 0 <= k < |found| ==> found[k].start <= found[k].end <= |s|
  }

  /** Every placeholder of `s` from `from` on, in order. */
  function FindAll(s: string, from: nat): (r: seq<Found>)
    requires from <= |s|
    ensures Leftmost(s, r, from) && InText(s, r)
    decreases |s| - from
  {
    if from == |s| then []
    else match HandlebarAt(s, from)
      case Some(end) =>
        var f := Found(from, end);
        var rest := FindAll(s, end);
        LeftmostCons(s, f, rest, from);
        assert forall k :: 1 <= k < |[f] + rest| ==> ([f] + rest)[k] == rest[k - 1];
        [f] + rest
      case None =>
        var rest := FindAll(s, from + 1);
        LeftmostSkip(s, rest, from);
        rest
  }

  lemma LeftmostCons(s: string, f: Found, rest: seq<Found>, from: nat)
    requires from == f.start < f.end <= |s| && HandlebarAt(s, from) == Some(f.end)
    requires Leftmost(s, rest, f.end)
    ensures Leftmost(s, [f] + rest, from)
  {
    assert ([f] + rest)[1..] == rest;
  }

  lemma LeftmostSkip(s: string, rest: seq<Found>, from: nat)
    requires from < |s| && HandlebarAt(s, from).None? && Leftmost(s, rest, from + 1)
    ensures Leftmost(s, rest, from)
  {
  }

  /** A placeholder at `p` means the list has begun by `p`. */
  lemma LeftmostFirst(s: string, found: seq<Found>, from: nat, p: nat)
    requires from <= p < |s| && Leftmost(s, found, from) && HandlebarAt(s, p).Some?
    ensures |found| > 0 && found[0].start <= p
  {
  }

  /** There is only one leftmost-first list, so `FindAll` is the scan. */
  lemma {:induction false} LeftmostUnique(s: string, a: seq<Found>, b: seq<Found>, from: nat)
    requires from <= |s|
    requires Leftmost(s, a, from) && Leftmost(s, b, from)
    ensures a == b
    decreases |a|
  {
    if |a| > 0 {
      LeftmostFirst(s, b, from, a[0].start);
    }
    if |b| > 0 {
      LeftmostFirst(s, a, from, b[0].start);
    }
    if |a| > 0 {
      assert a[0] == b[0];
      LeftmostUnique(s, a[1..], b[1..], a[0].end);
      assert a == [a[0]] + a[1..] && b == [b[0]] + b[1..];
    }
  }

  /** Each placeholder's range paired with the text it resolved to. */
  function EditsOf(found: seq<Found>, values: seq<string>): (r: seq<Edit>)
    requires |found| == |values|
    ensures |r| == |found|
    ensures forall k :: 0 <= k < |r| ==> r[k] == Edit(found[k].start, found[k].end, values[k])
  {
    seq(|found|, k requires 0 <= k < |found| => Edit(found[k].start, found[k].end, values[k]))
  }

  lemma {:induction false} LeftmostAscending(s: string, found: seq<Found>, values: seq<string>, from: nat)
    requires from <= |s| && Leftmost(s, found, from) && |found| == |values|
    ensures Ascending(EditsOf(found, values), from, |s|)
    decreases |found|
  {
    if |found| > 0 {
      LeftmostAscending(s, found[1..], values[1..], found[0].end);
      assert EditsOf(found, values)[1..] == EditsOf(found[1..], values[1..]);
    }
  }

  /** The value of the placeholder in range `f` of `s`. */
  function Resolve(s: string, f: Found, values: map<string, string>, reusables: map<string, string>)
    : Result<string, Error>
    requires f.start <= f.end <= |s|
  {
    ProcessPlaceholder(PlaceholderOf(s, f), values, reusables)
  }

  /** What each placeholder resolves to, in order. */
  function Outcomes(s: string, found: seq<Found>, values: map<string, string>, reusables: map<string, string>)
    : (r: seq<Result<string, Error>>)
    requires InText(s, found)
    ensures |r| == |found|
    ensures forall k :: 0 <= k < |r| ==> r[k] == Resolve(s, found[k], values, reusables)
  {
    seq(|found|, k requires 0 <= k < |found| => Resolve(s, found[k], values, reusables))
  }

  /** Every placeholder resolves. */
  predicate AllSucceed(outs: seq<Result<string, Error>>) {
    forall k :: 0 <= k < |outs| ==> outs[k].Success?
  }

  /** The values of placeholders that all resolved. */
  function ValuesOf(outs: seq<Result<string, Error>>): (r: seq<string>)
    requires AllSucceed(outs)
    ensures |r| == |outs| && forall k :: 0 <= k < |r| ==> outs[k] == Success(r[k])
  {
    seq(|outs|, k requires 0 <= k < |outs| => outs[k].value)
  }

  /** `e` is the error of a placeholder with none failing to its right. */
  predicate RightmostFailure(outs: seq<Result<string, Error>>, e: Error) {
    exists k :: 0 <= k < |outs| && outs[k] == Failure(e) && forall j :: k < j < |outs| ==> outs[j].Success?
  }

  /** The left-to-right reading of a rewrite: `s` with each placeholder's
      range replaced by its value and all other text kept. */
  function Filled(s: string, found: seq<Found>, values: seq<string>): string
    requires Leftmost(s, found, 0) && |values| == |found|
  {
    LeftmostAscending(s, found, values, 0);
    Woven(s, EditsOf(found, values), 0)
  }

  /** `apply_placeholders`: every placeholder replaced by its value; the
      first one that cannot be resolved, scanning from the right, is the
      error. */
  method ApplyPlaceholders(s: string, values: map<string, string>, reusables: map<string, string>)
    returns (r: Result<string, Error>)
    ensures var outs := Outcomes(s, FindAll(s, 0), values, reusables);
      && (r.Success? <==> AllSucceed(outs))
      && (r.Success? ==> r.value == Filled(s, FindAll(s, 0), ValuesOf(outs)))
      && (r.Failure? ==> RightmostFailure(outs, r.error))
  {
    var found := FindAll(s, 0);
    ghost var outs := Outcomes(s, found, values, reusables);
    var out := s;
    var done: seq<string> := [];
    var i := |found|;
    SpliceStart(s, found);
    while i > 0
      invariant 0 <= i <= |found|
      invariant DoneFrom(outs, i, done)
      invariant Ascending(EditsOf(found[i..], done), 0, |s|)
      invariant out == Woven(s, EditsOf(found[i..], done), 0)
    {
      var f := found[i - 1];
      var processed := Resolve(s, f, values, reusables);
      OutcomeAt(s, found, values, reusables, outs, i - 1);
      if processed.Failure? {
        DoneFailure(outs, i, done, processed.error);
        return Failure(processed.error);
      }
      SpliceStep(s, found, done, i, processed.value, out);
      DoneStep(outs, i, done, processed.value);
      out := ReplaceRange(out, Edit(f.start, f.end, processed.value));
      done := [processed.value] + done;
      i := i - 1;
    }
    DoneAll(outs, done);
    SpliceDone(s, found, done, out);
    return Success(out);
  }

  lemma OutcomeAt(s: string, found: seq<Found>, values: map<string, string>, reusables: map<string, string>,
                  outs: seq<Result<string, Error>>, k: nat)
    requires InText(s, found) && k < |found| && outs == Outcomes(s, found, values, reusables)
    ensures outs[k] == Resolve(s, found[k], values, reusables)
  {
  }

  /** Before the loop no value is spliced and the text is unchanged. */
  lemma SpliceStart(s: string, found: seq<Found>)
    ensures Ascending(EditsOf(found[|found|..], []), 0, |s|)
    ensures s == Woven(s, EditsOf(found[|found|..], []), 0)
  {
    assert EditsOf(found[|found|..], []) == [];
  }

  /** After the loop every value is spliced: the text is the filled one. */
  lemma SpliceDone(s: string, found: seq<Found>, done: seq<string>, out: string)
    requires Leftmost(s, found, 0) && |done| == |found|
    requires Ascending(EditsOf(found[0..], done), 0, |s|)
    requires out == Woven(s, EditsOf(found[0..], done), 0)
    ensures out == Filled(s, found, done)
  {
    assert found[0..] == found;
  }

  /** `done` holds the values of the placeholders from the `i`-th on. */
  predicate DoneFrom(outs: seq<Result<string, Error>>, i: nat, done: seq<string>) {
    && i + |done| == |outs|
    && forall j :: 0 <= j < |done| ==> outs[i + j] == Success(done[j])
  }

  /** The value of placeholder `n - 1` joins those from `n` on. */
  lemma DoneStep(outs: seq<Result<string, Error>>, n: nat, done: seq<string>, v: string)
    requires 0 < n <= |outs| && DoneFrom(outs, n, done) && outs[n - 1] == Success(v)
    ensures DoneFrom(outs, n - 1, [v] + done)
  {
    forall j | 0 < j < |done| + 1
      ensures outs[n - 1 + j] == Success(([v] + done)[j])
    {
      assert outs[n + (j - 1)] == Success(done[j - 1]);
    }
  }

  /** Placeholder `n - 1` failing after all those from `n` on succeeded
      makes its error the rightmost one. */
  lemma DoneFailure(outs: seq<Result<string, Error>>, n: nat, done: seq<string>, e: Error)
    requires 0 < n <= |outs| && DoneFrom(outs, n, done) && outs[n - 1] == Failure(e)
    ensures !AllSucceed(outs) && RightmostFailure(outs, e)
  {
    forall j | n - 1 < j < |outs|
      ensures outs[j].Success?
    {
      assert outs[n + (j - n)] == Success(done[j - n]);
    }
  }

  lemma DoneAll(outs: seq<Result<string, Error>>, done: seq<string>)
    requires DoneFrom(outs, 0, done)
    ensures AllSucceed(outs) && done == ValuesOf(outs)
  {
    forall j | 0 <= j < |outs|
      ensures outs[j] == Success(done[j])
    {
      assert outs[0 + j] == Success(done[j]);
    }
  }

  /** One turn of the loop: splicing value `n - 1` into the text that
      already holds the values from `n` on. */
  lemma SpliceStep(s: string, found: seq<Found>, done: seq<string>, n: nat, v: string, out: string)
    requires Leftmost(s, found, 0) && 0 < n <= |found| && |done| == |found| - n
    requires Ascending(EditsOf(found[n..], done), 0, |s|)
    requires out == Woven(s, EditsOf(found[n..], done), 0)
    ensures found[n - 1].start <= found[n - 1].end <= |out|
    ensures Ascending(EditsOf(found[n - 1..], [v] + done), 0, |s|)
    ensures ReplaceRange(out, Edit(found[n - 1].start, found[n - 1].end, v)) == Woven(s, EditsOf(found[n - 1..], [v] + done), 0)
  {
    var i := n - 1;
    StepEdits(s, found, done, i, v);
    assert i + 1 == n;
    WovenCons(s, Edit(found[i].start, found[i].end, v), EditsOf(found[n..], done));
  }

  /** The edits of the suffix from `i`, one longer than those from `i + 1`. */
  lemma StepEdits(s: string, found: seq<Found>, done: seq<string>, i: nat, v: string)
    requires Leftmost(s, found, 0) && i < |found| && |done| == |found| - i - 1
    ensures EditsOf(found[i..], [v] + done)
            == [Edit(found[i].start, found[i].end, v)] + EditsOf(found[i + 1..], done)
    ensures Ascending(EditsOf(found[i..], [v] + done), 0, |s|)
  {
    EditsCons(found[i..], done, v);
    assert found[i..][1..] == found[i + 1..];
    SuffixAscending(s, found, [v] + done, i);
  }

  lemma EditsCons(found: seq<Found>, done: seq<string>, v: string)
    requires |found| == |done| + 1
    ensures EditsOf(found, [v] + done) == [Edit(found[0].start, found[0].end, v)] + EditsOf(found[1..], done)
  {
  }

  /** The edits of any suffix of a leftmost list are in order. */
  lemma SuffixAscending(s: string, found: seq<Found>, vals: seq<string>, i: nat)
    requires Leftmost(s, found, 0) && i <= |found| && |vals| == |found| - i
    ensures Ascending(EditsOf(found[i..], vals), 0, |s|)
  {
    var from := if i == 0 then 0 else found[i - 1].end;
    LeftmostSuffix(s, found, 0, i);
    LeftmostAscending(s, found[i..], vals, from);
    AscendingLower(EditsOf(found[i..], vals), 0, from, |s|);
  }

  /** A suffix of a leftmost list is leftmost from its own beginning. */
  lemma {:induction false} LeftmostSuffix(s: string, found: seq<Found>, from: nat, i: nat)
    requires from <= |s| && Leftmost(s, found, from) && i <= |found|
    ensures (if i == 0 then from else found[i - 1].end) <= |s|
    ensures Leftmost(s, found[i..], if i == 0 then from else found[i - 1].end)
    decreases i
  {
    if i > 0 {
      LeftmostSuffix(s, found[1..], found[0].end, i - 1);
      assert found[1..][i - 1..] == found[i..];
      if i > 1 {
        assert found[1..][i - 2] == found[i - 1];
      }
    }
  }

  /** Trimming the delimiters of placeholder text gives back exactly its
      body: the body's characters include no brace. */
  lemma Unbrace(body: string)
    requires |body| == 0 || (body[0] != '{' && body[|body| - 1] != '}')
    ensures TrimEndMatches(TrimStartMatches("{{" + body + "}}", "{{"), "}}") == body
  {
    var x := body + "}}";
    assert "{{" + body + "}}" == "{{" + x;
    assert !StartsWith(x, "{{") by {
      if |body| == 0 {
        assert x == "}}";
      } else {
        assert x[0] == body[0];
      }
    }
    TrimStartOnce("{{", x);
    assert !(2 <= |body| && body[|body| - 2..] == "}}") by {
      if 2 <= |body| {
        assert body[|body| - 2..][1] == body[|body| - 1];
      }
    }
    TrimEndOnce(body, "}}");
  }

  /** A placeholder in the text stands for its body with the spaces
      removed, read as a reusable fragment when it starts `reusable:`. */
  lemma ToPlaceholderOfText(t: string, body: string)
    requires IsHandlebarText(t, body)
    ensures ToPlaceholder(t) == Classify(RemoveChar(body, ' '))
  {
    assert InClass(Handlebar, body[0]) && InClass(Handlebar, body[|body| - 1]);
    Unbrace(body);
  }

  /** Spaces inside the braces do not matter: `{{ a b }}` and `{{ab}}` are
      the same placeholder. */
  lemma SpacesIgnored(t1: string, b1: string, t2: string, b2: string)
    requires IsHandlebarText(t1, b1) && IsHandlebarText(t2, b2)
    requires RemoveChar(b1, ' ') == RemoveChar(b2, ' ')
    ensures ToPlaceholder(t1) == ToPlaceholder(t2)
  {
    ToPlaceholderOfText(t1, b1);
    ToPlaceholderOfText(t2, b2);
  }

  /** Reading a written placeholder gives it back. */
  lemma ReadEncode(ph: Placeholder)
    requires PlainName(ph.name)
    ensures ToPlaceholder(Encode(ph)) == ph
  {
    match ph
    case Value(name) =>
      Unbrace(name);
      RemoveCharAbsent(name, ' ');
    case Import(name) =>
      ReadImport(name);
  }

  lemma ReadImport(name: string)
    requires PlainName(name)
    ensures ToPlaceholder("{{" + ReusablePrefix + name + "}}") == Import(name)
  {
    var inner := ReusablePrefix + name;
    PrefixedEnds(name);
    Unbrace(inner);
    RemoveCharAbsent(inner, ' ');
    PrefixedName(name);
  }

  /** The written form of a reusable's name, between the braces. */
  lemma PrefixedEnds(name: string)
    requires PlainName(name)
    ensures var inner := ReusablePrefix + name;
      && "{{" + ReusablePrefix + name + "}}" == "{{" + inner + "}}"
      && inner[0] != '{' && inner[|inner| - 1] != '}' && ' ' !in inner
  {
    var inner := ReusablePrefix + name;
    assert inner[0] == 'r';
    if |name| > 0 {
      assert inner[|inner| - 1] == name[|name| - 1];
    }
  }

  lemma PrefixedName(name: string)
    requires ' ' !in name && !StartsWith(name, ReusablePrefix)
    ensures Classify(ReusablePrefix + name) == Import(name)
  {
    var inner := ReusablePrefix + name;
    assert inner[..|ReusablePrefix|] == ReusablePrefix;
    TrimStartOnce(ReusablePrefix, name);
  }

  /** A placeholder written as `{{name}}` resolves to the named value when
      it is among the values, and otherwise fails naming it; the reusables
      play no part. */
  lemma ResolveWrittenValue(name: string, values: map<string, string>, reusables: map<string, string>)
    requires PlainName(name)
    ensures var r := ProcessPlaceholder(ToPlaceholder("{{" + name + "}}"), values, reusables);
      && (r.Success? <==> name in values)
      && (name in values ==> r.value == values[name])
      && (name !in values ==> r.error == NamedValueNotFound(name))
  {
    ReadEncode(Value(name));
  }

  /** A placeholder written as `{{reusable:name}}` resolves to the named
      reusable when there is one, and otherwise fails naming it; the values
      play no part. */
  lemma ResolveWrittenImport(name: string, values: map<string, string>, reusables: map<string, string>)
    requires PlainName(name)
    ensures var r := ProcessPlaceholder(ToPlaceholder("{{" + ReusablePrefix + name + "}}"), values, reusables);
      && (r.Success? <==> name in reusables)
      && (name in reusables ==> r.value == reusables[name])
      && (name !in reusables ==> r.error == ReusableNotFound(name))
  {
    ReadImport(name);
  }
}
