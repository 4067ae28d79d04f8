/** What rendering a layout means, stated against the reference reading of
    a rewrite (`Splice.Woven`) and against each placeholder's own value. */
module LayoutProperties {
  import opened Wrappers
  import opened Errors
  import opened Splice
  import opened Layout

  /** The value of one placeholder. */
  function ValueOf(templates: map<string, string>, c: Call, args: map<string, string>, fuel: nat)
    : Result<string, Error>
  {
    Apply(templates, c.callee, c.Args(), args, fuel)
  }

  /** `val(x)` is the argument named `x`; a missing one fails, naming it. */
  lemma ApplyVal(templates: map<string, string>, fargs: seq<string>, args: map<string, string>, fuel: nat)
    requires |fargs| > 0
    ensures var r := Apply(templates, "val", fargs, args, fuel);
      && (r.Success? <==> fargs[0] in args)
      && (r.Success? ==> r.value == args[fargs[0]])
      && (r.Failure? ==> r.error == ArgumentNotFound(fargs[0]))
  {
  }

  /** `opt(f,a,b)` is the literal `a` when argument `f` is exactly `"true"`
      and the literal `b` otherwise, including when `f` is absent; the
      literal it needs but lacks is an out-of-range index. */
  lemma ApplyOpt(templates: map<string, string>, fargs: seq<string>, args: map<string, string>, fuel: nat)
    requires |fargs| > 0
    ensures var chosen := if fargs[0] in args && args[fargs[0]] == "true" then 1 else 2;
      Apply(templates, "opt", fargs, args, fuel)
        == if chosen < |fargs| then Success(fargs[chosen])
           else Failure(ArgumentIndexOutOfRange("opt", chosen, |fargs|))
  {
  }

  /** `layout(n)` is template `n` rendered with the same arguments, one level
      deeper; an `Err` it fails with is reported inside the sub-template's
      context (`with_context`), while a panic in it passes through as it is. */
  lemma ApplyLayout(templates: map<string, string>, fargs: seq<string>, args: map<string, string>, fuel: nat)
    requires |fargs| > 0 && fuel > 0
    ensures var r := Apply(templates, "layout", fargs, args, fuel);
      var sub := Render(templates, fargs[0], args, fuel - 1);
      && (r.Success? <==> sub.Success?)
      && (r.Success? ==> r.value == sub.value)
      && (r.Failure? && IsPanic(sub.error) ==> r.error == sub.error)
      && (r.Failure? && !IsPanic(sub.error) ==> r.error == InSubTemplate(fargs[0], sub.error))
  {
  }

  /** `layout` with at least one argument includes the template named by the first. */
  lemma ApplyIsInclude(templates: map<string, string>, fargs: seq<string>, args: map<string, string>, fuel: nat)
    requires |fargs| > 0
    ensures Apply(templates, "layout", fargs, args, fuel) == Include(templates, fargs[0], args, fuel)
  {
  }

  /** Any other function name is rejected. */
  lemma ApplyUnknown(templates: map<string, string>, callee: string, fargs: seq<string>,
                     args: map<string, string>, fuel: nat)
    requires callee != "val" && callee != "opt" && callee != "layout"
    ensures Apply(templates, callee, fargs, args, fuel) == Failure(UnrecognizedFunction(callee))
  {
  }

  /** Placeholders are evaluated left to right: evaluation succeeds exactly
      when every placeholder does, yielding their values in order, and
      otherwise fails with the error of the leftmost failing one. */
  lemma EvalCallsMeaning(templates: map<string, string>, calls: seq<Call>,
                         args: map<string, string>, fuel: nat)
    ensures var r := EvalCalls(templates, calls, args, fuel);
      && (r.Success? <==> forall k :: 0 <= k < |calls| ==> ValueOf(templates, calls[k], args, fuel).Success?)
      && (r.Success? ==> forall k :: 0 <= k < |calls| ==> ValueOf(templates, calls[k], args, fuel) == Success(r.value[k]))
      && (r.Failure? ==>
            (exists k :: 0 <= k < |calls|
               && ValueOf(templates, calls[k], args, fuel) == Failure(r.error)
               && forall j :: 0 <= j < k ==> ValueOf(templates, calls[j], args, fuel).Success?))
  {
    var r := EvalCalls(templates, calls, args, fuel);
    if r.Success? {
      EvalCallsValues(templates, calls, args, fuel);
    } else {
      var k := EvalCallsFailure(templates, calls, args, fuel);
      assert ValueOf(templates, calls[k], args, fuel).Failure?;
    }
  }

  /** A successful evaluation holds each placeholder's value in its place. */
  lemma {:induction false} EvalCallsValues(templates: map<string, string>, calls: seq<Call>,
                                           args: map<string, string>, fuel: nat)
    requires EvalCalls(templates, calls, args, fuel).Success?
    ensures forall k :: 0 <= k < |calls| ==>
      ValueOf(templates, calls[k], args, fuel) == Success(EvalCalls(templates, calls, args, fuel).value[k])
    decreases |calls|
  {
    if |calls| > 0 {
      var r := EvalCalls(templates, calls, args, fuel);
      var head := ValueOf(templates, calls[0], args, fuel);
      var rest := EvalCalls(templates, calls[1..], args, fuel);
      assert head.Success? && rest.Success?;
      EvalCallsValues(templates, calls[1..], args, fuel);
      assert r.value == [head.value] + rest.value;
      forall k | 1 <= k < |calls|
        ensures ValueOf(templates, calls[k], args, fuel) == Success(r.value[k])
      {
        assert calls[k] == calls[1..][k - 1];
      }
    }
  }

  /** A failed evaluation is the failure of its leftmost failing placeholder,
      returned as `k`. */
  lemma {:induction false} EvalCallsFailure(templates: map<string, string>, calls: seq<Call>,
                                            args: map<string, string>, fuel: nat) returns (k: nat)
    requires EvalCalls(templates, calls, args, fuel).Failure?
    ensures k < |calls|
    ensures ValueOf(templates, calls[k], args, fuel) == Failure(EvalCalls(templates, calls, args, fuel).error)
    ensures forall j :: 0 <= j < k ==> ValueOf(templates, calls[j], args, fuel).Success?
    decreases |calls|
  {
    var r := EvalCalls(templates, calls, args, fuel);
    var head := ValueOf(templates, calls[0], args, fuel);
    if head.Failure? {
      k := 0;
    } else {
      var rest := EvalCalls(templates, calls[1..], args, fuel);
      assert rest.Failure? && r.error == rest.error;
      var m := EvalCallsFailure(templates, calls[1..], args, fuel);
      k := m + 1;
      assert calls[k] == calls[1..][m];
      forall j | 0 <= j < k ensures ValueOf(templates, calls[j], args, fuel).Success? {
        if j > 0 { assert calls[j] == calls[1..][j - 1]; }
      }
    }
  }

  /** Rendering a template: it fails when the template is unknown; otherwise
      it succeeds exactly when evaluating its placeholders does (failing with
      that error otherwise), and the output is the template read left to
      right with every placeholder replaced by its value and all other text
      kept. The splice works from the right on the original offsets, so no
      substituted value is scanned again. */
  lemma RenderMeaning(templates: map<string, string>, name: string, args: map<string, string>, fuel: nat)
    ensures name !in templates ==> Render(templates, name, args, fuel) == Failure(TemplateNotFound(name))
    ensures name in templates && EvalCalls(templates, Scan(templates[name], 0), args, fuel).Failure? ==>
      Render(templates, name, args, fuel) == Failure(EvalCalls(templates, Scan(templates[name], 0), args, fuel).error)
    ensures name in templates && EvalCalls(templates, Scan(templates[name], 0), args, fuel).Success? ==>
      RenderedAs(templates[name], EvalCalls(templates, Scan(templates[name], 0), args, fuel).value,
                 Render(templates, name, args, fuel))
  {
    if name in templates {
      var text := templates[name];
      var calls := Scan(text, 0);
      var values := EvalCalls(templates, calls, args, fuel);
      if values.Success? {
        var edits := EditsOf(calls, values.value);
        LeftmostAscending(text, calls, values.value, 0);
        SpliceFromRightIsWoven(text, edits);
        assert SpliceCalls(text, calls, values.value) == SpliceFromRight(text, edits);
        assert Render(templates, name, args, fuel) == Success(SpliceCalls(text, calls, values.value));
      }
    }
  }

  /** `r` is the successful rendering of `text` in which the placeholders
      found by the scan were replaced by `values`, read left to right. */
  predicate RenderedAs(text: string, values: seq<string>, r: Result<string, Error>) {
    var calls := Scan(text, 0);
    && |values| == |calls|
    && Ascending(EditsOf(calls, values), 0, |text|)
    && r == Success(Woven(text, EditsOf(calls, values), 0))
  }

  /** A result other than running out of fuel. */
  predicate Settled<T>(r: Result<T, Error>) {
    r.Success? || !IsFuelFailure(r.error)
  }

  /** Fuel only cuts rendering short: a render that did not run out of fuel
      gives the same result with any larger bound. */
  lemma {:induction false} RenderFuelStable(templates: map<string, string>, name: string,
                                            args: map<string, string>, fuel: nat, more: nat)
    requires fuel <= more && Settled(Render(templates, name, args, fuel))
    ensures Render(templates, name, args, more) == Render(templates, name, args, fuel)
    decreases fuel, 2, 0
  {
    if name in templates {
      EvalFuelStable(templates, Scan(templates[name], 0), args, fuel, more);
    }
  }

  lemma {:induction false} EvalFuelStable(templates: map<string, string>, calls: seq<Call>,
                                          args: map<string, string>, fuel: nat, more: nat)
    requires fuel <= more && Settled(EvalCalls(templates, calls, args, fuel))
    ensures EvalCalls(templates, calls, args, more) == EvalCalls(templates, calls, args, fuel)
    decreases fuel, 1, |calls|
  {
    if |calls| > 0 {
      ApplyFuelStable(templates, calls[0].callee, calls[0].Args(), args, fuel, more);
      if Apply(templates, calls[0].callee, calls[0].Args(), args, fuel).Success? {
        EvalFuelStable(templates, calls[1..], args, fuel, more);
      }
    }
  }

  lemma {:induction false} ApplyFuelStable(templates: map<string, string>, callee: string, fargs: seq<string>,
                                           args: map<string, string>, fuel: nat, more: nat)
    requires fuel <= more && Settled(Apply(templates, callee, fargs, args, fuel))
    ensures Apply(templates, callee, fargs, args, more) == Apply(templates, callee, fargs, args, fuel)
    decreases fuel, 0, 1
  {
    if callee == "layout" && |fargs| > 0 {
      IncludeFuelStable(templates, fargs[0], args, fuel, more);
    }
  }

  lemma {:induction false} IncludeFuelStable(templates: map<string, string>, sub: string,
                                             args: map<string, string>, fuel: nat, more: nat)
    requires fuel <= more && Settled(Include(templates, sub, args, fuel))
    ensures Include(templates, sub, args, more) == Include(templates, sub, args, fuel)
    decreases fuel, 0, 0
  {
    if fuel > 0 {
      IncludeSettled(templates, sub, args, fuel);
      RenderFuelStable(templates, sub, args, fuel - 1, more - 1);
    }
  }

  /** An inclusion that did not run out of fuel rendered its sub-template
      without running out either, since running out is never wrapped. */
  lemma IncludeSettled(templates: map<string, string>, sub: string, args: map<string, string>, fuel: nat)
    requires fuel > 0 && Settled(Include(templates, sub, args, fuel))
    ensures Settled(Render(templates, sub, args, fuel - 1))
  {
    var r := Render(templates, sub, args, fuel - 1);
    if r.Failure? {
      assert Include(templates, sub, args, fuel) == Failure(InContext(r.error, InSubTemplate(sub, r.error)));
    }
  }
}

/** The behaviour of the renderer on small templates: the placeholder forms,
    each function, inclusion, and the cases left verbatim. */
module LayoutExamples {
  import opened Wrappers
  import opened Errors
  import opened Text
  import opened Splice
  import opened Layout
  import opened LayoutProperties

  /** A template with exactly one placeholder and no `{` elsewhere scans to
      that one placeholder. */
  lemma {:induction false} ScanSingle(pre: string, t: string, callee: string, argText: string, post: string)
    requires IsCallText(t, callee, argText)
    requires '{' !in pre && '{' !in post
    ensures Scan(pre + t + post, 0) == [Call(|pre|, |pre| + |t|, callee, argText)]
  {
    var s := pre + t + post;
    var c := Call(|pre|, |pre| + |t|, callee, argText);
    assert s[|pre|..|pre| + |t|] == t;
    MatchAtComplete(s, |pre|, t, callee, argText);
    forall p | 0 <= p < |pre|
      ensures MatchAt(s, p).None?
    {
      assert s[p] == pre[p];
    }
    forall p | |pre| + |t| <= p < |s|
      ensures MatchAt(s, p).None?
    {
      assert s[p] == post[p - |pre| - |t|];
    }
    assert Leftmost(s, [c][1..], c.end);
    assert Leftmost(s, [c], 0);
    LeftmostUnique(s, Scan(s, 0), [c], 0);
  }

  /** Text without `{` holds no placeholder. */
  lemma ScanNone(s: string)
    requires '{' !in s
    ensures Scan(s, 0) == []
  {
    forall p | 0 <= p < |s|
      ensures MatchAt(s, p).None?
    {
      assert s[p] != '{';
    }
    ScanEmpty(s);
  }

  /** Text in which no placeholder starts anywhere scans to nothing. */
  lemma ScanEmpty(s: string)
    requires forall p :: 0 <= p < |s| ==> MatchAt(s, p).None?
    ensures Scan(s, 0) == []
  {
    assert Leftmost(s, [], 0);
    LeftmostUnique(s, Scan(s, 0), [], 0);
  }

  /** A template whose scan is one placeholder renders to that placeholder's
      value between the text before and after it. */
  lemma RenderOneCall(templates: map<string, string>, name: string, args: map<string, string>, fuel: nat, c: Call)
    requires name in templates && Scan(templates[name], 0) == [c]
    requires c.start <= c.end <= |templates[name]|
    ensures var v := ValueOf(templates, c, args, fuel);
      var text := templates[name];
      Render(templates, name, args, fuel)
        == if v.Success? then Success(text[..c.start] + v.value + text[c.end..]) else Failure(v.error)
  {
    var text := templates[name];
    var v := ValueOf(templates, c, args, fuel);
    EvalSingle(templates, c, args, fuel);
    RenderMeaning(templates, name, args, fuel);
    if v.Success? {
      var e := Edit(c.start, c.end, v.value);
      assert RenderedAs(text, [v.value], Render(templates, name, args, fuel));
      assert EditsOf([c], [v.value]) == [e];
      assert Woven(text, [e][1..], c.end) == text[c.end..];
    }
  }

  /** A template holding a single placeholder renders to its value in place. */
  lemma {:induction false} RenderSingle(templates: map<string, string>, name: string, args: map<string, string>, fuel: nat,
                                        pre: string, t: string, callee: string, argText: string, post: string)
    requires name in templates && templates[name] == pre + t + post
    requires IsCallText(t, callee, argText)
    requires '{' !in pre && '{' !in post
    ensures var v := Apply(templates, callee, Split(argText, ','), args, fuel);
      Render(templates, name, args, fuel) == if v.Success? then Success(pre + v.value + post) else Failure(v.error)
  {
    var s := pre + t + post;
    var c := Call(|pre|, |pre| + |t|, callee, argText);
    ScanSingle(pre, t, callee, argText, post);
    RenderOneCall(templates, name, args, fuel, c);
    assert s[..|pre|] == pre && s[|pre| + |t|..] == post;
  }

  lemma EvalSingle(templates: map<string, string>, c: Call, args: map<string, string>, fuel: nat)
    ensures var v := ValueOf(templates, c, args, fuel);
      EvalCalls(templates, [c], args, fuel) == if v.Success? then Success([v.value]) else Failure(v.error)
  {
    var v := ValueOf(templates, c, args, fuel);
    assert [c][0] == c && [c][1..] == [];
    assert EvalCalls(templates, [c][1..], args, fuel) == Success([]);
    if v.Success? {
      assert EvalCalls(templates, [c], args, fuel) == Success([v.value] + []);
      assert [v.value] + [] == [v.value];
    }
  }

  /** `"Hello {{val(name)}}!"` with `name = "World"` is `"Hello World!"`. */
  lemma HelloWorld(fuel: nat)
    ensures Render(map["greeting" := "Hello {{val(name)}}!"], "greeting", map["name" := "World"], fuel)
            == Success("Hello World!")
  {
    var templates := map["greeting" := "Hello {{val(name)}}!"];
    var args := map["name" := "World"];
    HelloParts();
    ApplyVal(templates, ["name"], args, fuel);
    RenderSingle(templates, "greeting", args, fuel, "Hello ", "{{val(name)}}", "val", "name", "!");
  }

  lemma HelloParts()
    ensures IsCallText("{{val(name)}}", "val", "name")
    ensures "Hello {{val(name)}}!" == "Hello " + "{{val(name)}}" + "!"
    ensures '{' !in "Hello " && '{' !in "!"
    ensures Split("name", ',') == ["name"]
    ensures "Hello " + "World" + "!" == "Hello World!"
  {
    NameSplit();
    HelloPieces();
    HelloJoin();
    ValName();
    NameArgText();
  }

  lemma NameSplit()
    ensures Split("name", ',') == ["name"]
  {
    SplitJoin(["name"], ',');
  }

  lemma HelloPieces()
    ensures "Hello {{val(name)}}!" == "Hello " + "{{val(name)}}" + "!"
    ensures "Hello " + "World" + "!" == "Hello World!"
  {
  }

  lemma HelloJoin()
    ensures "{{val(name)}}" == "{{" + "val" + "(" + "name" + ")}}"
  {
  }

  lemma NameArgText()
    ensures forall k :: 0 <= k < |"name"| ==> InClass(ArgumentList, "name"[k])
  {
  }

  /** A template without `{` has no placeholders and renders unchanged. */
  lemma RenderVerbatim(templates: map<string, string>, name: string, args: map<string, string>, fuel: nat)
    requires name in templates && '{' !in templates[name]
    ensures Render(templates, name, args, fuel) == Success(templates[name])
  {
    ScanNone(templates[name]);
    RenderMeaning(templates, name, args, fuel);
    assert EditsOf([], []) == [];
  }

  /** `opt` picks its second literal when the flag is `"true"` and its third
      when the flag is anything else or absent. */
  lemma OptExample(templates: map<string, string>, args: map<string, string>, fuel: nat)
    requires "nav" in templates && templates["nav"] == "{{opt(sel,on,off)}}"
    ensures Render(templates, "nav", args, fuel)
            == Success(if "sel" in args && args["sel"] == "true" then "on" else "off")
  {
    var chosen := if "sel" in args && args["sel"] == "true" then "on" else "off";
    OptRenders(templates, args, fuel, chosen);
  }

  lemma OptRenders(templates: map<string, string>, args: map<string, string>, fuel: nat, chosen: string)
    requires "nav" in templates && templates["nav"] == "{{opt(sel,on,off)}}"
    requires chosen == if "sel" in args && args["sel"] == "true" then "on" else "off"
    ensures Render(templates, "nav", args, fuel) == Success(chosen)
  {
    assert Apply(templates, "opt", Split("sel,on,off", ','), args, fuel) == Success(chosen) by {
      OptValue(templates, args, fuel);
    }
    Bare(chosen);
    OptCall();
    RenderSingle(templates, "nav", args, fuel, "", "{{opt(sel,on,off)}}", "opt", "sel,on,off", "");
  }

  lemma Bare(x: string)
    ensures "" + x + "" == x
  {
  }

  lemma OptValue(templates: map<string, string>, args: map<string, string>, fuel: nat)
    ensures Apply(templates, "opt", Split("sel,on,off", ','), args, fuel)
            == Success(if "sel" in args && args["sel"] == "true" then "on" else "off")
  {
    OptSplit();
    ApplyOpt(templates, ["sel", "on", "off"], args, fuel);
  }

  lemma OptCall()
    ensures IsCallText("{{opt(sel,on,off)}}", "opt", "sel,on,off")
    ensures "{{opt(sel,on,off)}}" == "" + "{{opt(sel,on,off)}}" + ""
  {
    OptJoin();
    OptName();
    OptArgText();
  }

  lemma OptJoin()
    ensures "{{opt(sel,on,off)}}" == "{{" + "opt" + "(" + "sel,on,off" + ")}}"
  {
  }

  lemma OptName()
    ensures forall k :: 0 <= k < |"opt"| ==> InClass(FunctionName, "opt"[k])
  {
  }

  lemma OptArgText()
    ensures forall k :: 0 <= k < |"sel,on,off"| ==> InClass(ArgumentList, "sel,on,off"[k])
  {
  }

  lemma OptSplit()
    ensures Split("sel,on,off", ',') == ["sel", "on", "off"]
  {
    assert JoinWith(["off"], ',') == "off";
    assert JoinWith(["on", "off"], ',') == "on,off";
    assert JoinWith(["sel", "on", "off"], ',') == "sel,on,off";
    SplitJoin(["sel", "on", "off"], ',');
  }

  /** A missing argument is reported by name. */
  lemma MissingArgument(fuel: nat)
    ensures Render(map["p" := "{{val(missing)}}"], "p", map[], fuel) == Failure(ArgumentNotFound("missing"))
  {
    var templates := map["p" := "{{val(missing)}}"];
    MissingParts();
    ApplyVal(templates, ["missing"], map[], fuel);
    RenderSingle(templates, "p", map[], fuel, "", "{{val(missing)}}", "val", "missing", "");
  }

  lemma MissingParts()
    ensures IsCallText("{{val(missing)}}", "val", "missing")
    ensures "{{val(missing)}}" == "" + "{{val(missing)}}" + ""
    ensures Split("missing", ',') == ["missing"]
  {
    MissingSplit();
    MissingJoin();
    ValName();
    MissingArgText();
  }

  lemma MissingJoin()
    ensures "{{val(missing)}}" == "{{" + "val" + "(" + "missing" + ")}}"
  {
  }

  lemma ValName()
    ensures forall k :: 0 <= k < |"val"| ==> InClass(FunctionName, "val"[k])
  {
  }

  lemma MissingArgText()
    ensures forall k :: 0 <= k < |"missing"| ==> InClass(ArgumentList, "missing"[k])
  {
  }

  lemma MissingSplit()
    ensures Split("missing", ',') == ["missing"]
  {
    SplitJoin(["missing"], ',');
  }

  /** A template that includes itself fails for every nesting bound, and the
      failure is the nesting bound running out: the program's endless
      recursion. */
  lemma {:induction false} SelfInclusion(templates: map<string, string>, fuel: nat)
    requires "a" in templates && templates["a"] == "{{layout(a)}}"
    ensures Render(templates, "a", map[], fuel) == Failure(FuelExhausted("a"))
  {
    var e := FuelExhausted("a");
    SelfRender(templates, fuel);
    if fuel == 0 {
      IncludeWithoutFuel(templates, "a", map[]);
    } else {
      SelfInclusion(templates, fuel - 1);
      IncludeKeepsPanic(templates, "a", map[], fuel, e);
    }
    SelfFails(templates, fuel, e);
  }

  lemma IncludeWithoutFuel(templates: map<string, string>, sub: string, args: map<string, string>)
    ensures Include(templates, sub, args, 0) == Failure(FuelExhausted(sub))
  {
  }

  /** A panic of the included template is the inclusion's own failure. */
  lemma IncludeKeepsPanic(templates: map<string, string>, sub: string, args: map<string, string>, fuel: nat, e: Error)
    requires fuel > 0 && IsPanic(e) && Render(templates, sub, args, fuel - 1) == Failure(e)
    ensures Include(templates, sub, args, fuel) == Failure(e)
  {
  }

  lemma SelfFails(templates: map<string, string>, fuel: nat, e: Error)
    requires Include(templates, "a", map[], fuel) == Failure(e)
    requires var v := Include(templates, "a", map[], fuel);
      Render(templates, "a", map[], fuel) == if v.Success? then Success("" + v.value + "") else v
    ensures Render(templates, "a", map[], fuel) == Failure(e)
  {
  }

  /** The self-including template renders as its own inclusion. */
  lemma SelfRender(templates: map<string, string>, fuel: nat)
    requires "a" in templates && templates["a"] == "{{layout(a)}}"
    ensures var v := Include(templates, "a", map[], fuel);
      Render(templates, "a", map[], fuel) == if v.Success? then Success("" + v.value + "") else v
  {
    assert IsCallText("{{layout(a)}}", "layout", "a");
    assert "{{layout(a)}}" == "" + "{{layout(a)}}" + "";
    assert Split("a", ',') == ["a"] by { SplitJoin(["a"], ','); }
    RenderSingle(templates, "a", map[], fuel, "", "{{layout(a)}}", "layout", "a", "");
    ApplyIsInclude(templates, ["a"], map[], fuel);
  }

  /** `layout(header)` splices the header, rendered one level deeper with
      the page's own arguments, into the page. */
  lemma PageRenders(templates: map<string, string>, args: map<string, string>, fuel: nat, header: string)
    requires fuel > 0 && "page" in templates && templates["page"] == "{{layout(header)}}!"
    requires Render(templates, "header", args, fuel - 1) == Success(header)
    ensures Render(templates, "page", args, fuel) == Success(header + "!")
  {
    PageValue(templates, args, fuel, header);
    PageFromValue(templates, args, fuel, header);
  }

  lemma PageFromValue(templates: map<string, string>, args: map<string, string>, fuel: nat, header: string)
    requires "page" in templates && templates["page"] == "{{layout(header)}}!"
    requires Apply(templates, "layout", Split("header", ','), args, fuel) == Success(header)
    ensures Render(templates, "page", args, fuel) == Success(header + "!")
  {
    PageText();
    RenderSingleValue(templates, "page", args, fuel, "", "{{layout(header)}}", "layout", "header", "!", header);
    EmptyPrefix(header);
  }

  /** The page's text is one `layout(header)` call followed by `!`. */
  lemma PageText()
    ensures IsCallText("{{layout(header)}}", "layout", "header")
    ensures "{{layout(header)}}!" == "" + "{{layout(header)}}" + "!"
  {
  }

  lemma EmptyPrefix(s: string)
    ensures "" + s == s
  {
  }

  lemma RenderSingleValue(templates: map<string, string>, name: string, args: map<string, string>, fuel: nat,
                          pre: string, t: string, callee: string, argText: string, post: string, value: string)
    requires name in templates && templates[name] == pre + t + post
    requires IsCallText(t, callee, argText)
    requires '{' !in pre && '{' !in post
    requires Apply(templates, callee, Split(argText, ','), args, fuel) == Success(value)
    ensures Render(templates, name, args, fuel) == Success(pre + value + post)
  {
    RenderSingle(templates, name, args, fuel, pre, t, callee, argText, post);
  }

  lemma PageValue(templates: map<string, string>, args: map<string, string>, fuel: nat, header: string)
    requires fuel > 0 && Render(templates, "header", args, fuel - 1) == Success(header)
    ensures Apply(templates, "layout", Split("header", ','), args, fuel) == Success(header)
  {
    assert Split("header", ',') == ["header"] by { SplitJoin(["header"], ','); }
    ApplyIsInclude(templates, ["header"], args, fuel);
  }

  /** A panic inside an included template is not put in the sub-template's
      context: `{{opt(x)}}` without an argument `x` indexes its missing third
      argument, and a page including it fails with that same index panic. */
  lemma PanicThroughInclusion(templates: map<string, string>, fuel: nat)
    requires fuel > 0 && "p" in templates && templates["p"] == "{{layout(q)}}"
    requires "q" in templates && templates["q"] == "{{opt(x)}}"
    ensures Render(templates, "p", map[], fuel) == Failure(ArgumentIndexOutOfRange("opt", 2, 1))
  {
    var e := ArgumentIndexOutOfRange("opt", 2, 1);
    OptPanics(templates, fuel - 1, e);
    PanicPage(templates, fuel, e);
  }

  /** A page that includes `q` fails with the panic `q` fails with. */
  lemma PanicPage(templates: map<string, string>, fuel: nat, e: Error)
    requires fuel > 0 && "p" in templates && templates["p"] == "{{layout(q)}}"
    requires IsPanic(e) && Render(templates, "q", map[], fuel - 1) == Failure(e)
    ensures Render(templates, "p", map[], fuel) == Failure(e)
  {
    IncludePanic(templates, fuel, e);
    IncludingText();
    RenderSingleFailure(templates, "p", map[], fuel, "", "{{layout(q)}}", "layout", "q", "", e);
  }

  /** The page's text is one `layout(q)` call with nothing around it. */
  lemma IncludingText()
    ensures IsCallText("{{layout(q)}}", "layout", "q")
    ensures "{{layout(q)}}" == "" + "{{layout(q)}}" + ""
  {
  }

  lemma RenderSingleFailure(templates: map<string, string>, name: string, args: map<string, string>, fuel: nat,
                            pre: string, t: string, callee: string, argText: string, post: string, e: Error)
    requires name in templates && templates[name] == pre + t + post
    requires IsCallText(t, callee, argText)
    requires '{' !in pre && '{' !in post
    requires Apply(templates, callee, Split(argText, ','), args, fuel) == Failure(e)
    ensures Render(templates, name, args, fuel) == Failure(e)
  {
    RenderSingle(templates, name, args, fuel, pre, t, callee, argText, post);
  }

  lemma OptPanics(templates: map<string, string>, fuel: nat, e: Error)
    requires "q" in templates && templates["q"] == "{{opt(x)}}"
    requires e == ArgumentIndexOutOfRange("opt", 2, 1)
    ensures Render(templates, "q", map[], fuel) == Failure(e)
  {
    SplitJoin(["x"], ',');
    ApplyOpt(templates, ["x"], map[], fuel);
    assert IsCallText("{{opt(x)}}", "opt", "x");
    assert "{{opt(x)}}" == "" + "{{opt(x)}}" + "";
    RenderSingleFailure(templates, "q", map[], fuel, "", "{{opt(x)}}", "opt", "x", "", e);
  }

  lemma IncludePanic(templates: map<string, string>, fuel: nat, e: Error)
    requires fuel > 0 && IsPanic(e) && Render(templates, "q", map[], fuel - 1) == Failure(e)
    ensures Apply(templates, "layout", Split("q", ','), map[], fuel) == Failure(e)
  {
    SplitJoin(["q"], ',');
    ApplyLayout(templates, ["q"], map[], fuel);
  }

  /** Braces that do not form a placeholder stay as they are: a bare name
      without parentheses, and a function name with a capital letter. */
  lemma BareName()
    ensures Scan("{{name}}", 0) == []
  {
    var s := "{{name}}";
    assert MatchAt(s, 0).None? by {
      SpanExact(s, 2, 6, FunctionName);
    }
    forall p | 1 <= p < |s|
      ensures MatchAt(s, p).None?
    {
      if p + 1 < |s| {
        assert s[p + 1] != '{';
      }
    }
    ScanEmpty(s);
  }

  lemma CapitalName()
    ensures Scan("{{Val(x)}}", 0) == []
  {
    var s := "{{Val(x)}}";
    assert MatchAt(s, 0).None? by {
      assert !InClass(FunctionName, s[2]);
    }
    forall p | 1 <= p < |s|
      ensures MatchAt(s, p).None?
    {
      if p + 1 < |s| {
        assert s[p + 1] != '{';
      }
    }
    ScanEmpty(s);
  }
}
