/** The two-phase rewrite both placeholder engines use: every match is found
    and evaluated against the unmodified text, then the replacements are
    applied from the rightmost to the leftmost so that the offsets of the
    ones still pending stay valid. */
module Splice {

  /** Replace the characters `[start, end)` of the original text by `text`. */
  datatype Edit = Edit(start: nat, end: nat, text: string)

  /** Edits in left-to-right order, non-overlapping, all at or after `from`
      and within the first `bound` characters. */
  predicate Ascending(edits: seq<Edit>, from: nat, bound: nat) {
    if |edits| == 0 then from <= bound
    else from <= edits[0].start <= edits[0].end <= bound
         && Ascending(edits[1..], edits[0].end, bound)
  }

  /** Rust's `String::replace_range`. */
  function ReplaceRange(s: string, e: Edit): (r: string)
    requires e.start <= e.end <= |s|
    ensures |r| >= e.start
  {
    s[..e.start] + e.text + s[e.end..]
  }

  /** The replacements applied to the text one after another, the last
      (rightmost) first: the `reverse()` of the match list followed by the
      `replace_range` loop. Each step leaves the text before the edited
      range alone, so the offsets of the edits still to come stay valid. */
  function SpliceFromRight(s: string, edits: seq<Edit>): string
    requires Ascending(edits, 0, |s|)
    decreases |edits|
  {
    if |edits| == 0 then s
    else
      var last := edits[|edits| - 1];
      var init := edits[..|edits| - 1];
      assert edits == init + [last];
      AscendingSnoc(init, last, 0, |s|);
      var s' := ReplaceRange(s, last);
      AscendingWeaken(init, 0, last.start, |s'|);
      SpliceFromRight(s', init)
  }

  /** The reference meaning of a rewrite, read left to right: the original
      text from `from` onward with each edited range replaced by its text
      and everything between edited ranges kept. */
  function Woven(s: string, edits: seq<Edit>, from: nat): string
    requires Ascending(edits, from, |s|)
    decreases |edits|
  {
    if |edits| == 0 then s[from..]
    else s[from..edits[0].start] + edits[0].text + Woven(s, edits[1..], edits[0].end)
  }

  lemma {:induction false} AscendingSnoc(init: seq<Edit>, last: Edit, from: nat, bound: nat)
    requires Ascending(init + [last], from, bound)
    ensures Ascending(init, from, last.start)
    ensures from <= last.start <= last.end <= bound
    decreases |init|
  {
    if |init| > 0 {
      assert (init + [last])[1..] == init[1..] + [last];
      AscendingSnoc(init[1..], last, init[0].end, bound);
    }
  }

  lemma {:induction false} AscendingWeaken(edits: seq<Edit>, from: nat, b: nat, b': nat)
    requires Ascending(edits, from, b) && b <= b'
    ensures Ascending(edits, from, b')
    decreases |edits|
  {
    if |edits| > 0 {
      AscendingWeaken(edits[1..], edits[0].end, b, b');
    }
  }

  /** Text appended after the last edited range passes through unchanged. */
  lemma {:induction false} WovenAppend(p: string, x: string, edits: seq<Edit>, from: nat)
    requires Ascending(edits, from, |p|)
    ensures Ascending(edits, from, |p + x|)
    ensures Woven(p + x, edits, from) == Woven(p, edits, from) + x
    decreases |edits|
  {
    AscendingWeaken(edits, from, |p|, |p + x|);
    if |edits| == 0 {
      assert (p + x)[from..] == p[from..] + x;
    } else {
      assert (p + x)[from..edits[0].start] == p[from..edits[0].start];
      WovenAppend(p, x, edits[1..], edits[0].end);
    }
  }

  /** Peeling the last edit off a left-to-right rewrite. */
  lemma {:induction false} WovenSnoc(s: string, init: seq<Edit>, last: Edit, from: nat)
    requires Ascending(init + [last], from, |s|)
    ensures from <= last.start <= last.end <= |s|
    ensures Ascending(init, from, |s[..last.start]|)
    ensures Woven(s, init + [last], from)
            == Woven(s[..last.start], init, from) + last.text + s[last.end..]
    decreases |init|
  {
    AscendingSnoc(init, last, from, |s|);
    var p := s[..last.start];
    if |init| == 0 {
      assert init + [last] == [last];
      assert p[from..] == s[from..last.start];
    } else {
      var e := init[0];
      assert (init + [last])[1..] == init[1..] + [last];
      assert (init + [last])[0] == e;
      WovenSnoc(s, init[1..], last, e.end);
      assert Ascending(init, from, last.start);
      assert from <= e.start <= e.end <= last.start;
      assert |p| == last.start;
      assert p[from..e.start] == s[from..e.start];
      var head := s[from..e.start] + e.text;
      var middle := Woven(p, init[1..], e.end);
      var tail := last.text + s[last.end..];
      assert Woven(s, init + [last], from) == head + Woven(s, init[1..] + [last], e.end);
      assert Woven(s, init[1..] + [last], e.end) == middle + tail;
      assert Woven(p, init, from) == head + middle;
      Associate(head, middle, tail);
    }
  }

  /** The central property of the reverse-order splice: applying the
      replacements rightmost first to the original text gives exactly the
      left-to-right reading, in which the text between matches is kept and
      substituted text is never looked at again. */
  lemma {:induction false} SpliceFromRightIsWoven(s: string, edits: seq<Edit>)
    requires Ascending(edits, 0, |s|)
    ensures SpliceFromRight(s, edits) == Woven(s, edits, 0)
    decreases |edits|
  {
    if |edits| > 0 {
      var last := edits[|edits| - 1];
      var init := edits[..|edits| - 1];
      assert edits == init + [last];
      WovenSnoc(s, init, last, 0);
      var p := s[..last.start];
      var x := last.text + s[last.end..];
      var s' := ReplaceRange(s, last);
      assert s' == p + x;
      AscendingWeaken(init, 0, last.start, |s'|);
      SpliceFromRightIsWoven(s', init);
      WovenAppend(p, x, init, 0);
      assert SpliceFromRight(s, edits) == SpliceFromRight(s', init);
      Associate(Woven(p, init, 0), last.text, s[last.end..]);
    }
  }

  /** Replacing every matched range by its own original text changes nothing:
      only the edited ranges differ between input and output. */
  lemma {:induction false} WovenIdentity(s: string, edits: seq<Edit>, from: nat)
    requires Ascending(edits, from, |s|)
    requires forall k :: 0 <= k < |edits| ==>
      edits[k].start <= edits[k].end <= |s| && edits[k].text == s[edits[k].start..edits[k].end]
    ensures Woven(s, edits, from) == s[from..]
    decreases |edits|
  {
    if |edits| > 0 {
      assert edits[0].text == s[edits[0].start..edits[0].end];
      WovenIdentity(s, edits[1..], edits[0].end);
      assert s[from..] == s[from..edits[0].start] + s[edits[0].start..edits[0].end] + s[edits[0].end..];
    }
  }

  /** Edits that all lie after `from` also lie after any earlier position. */
  lemma AscendingLower(edits: seq<Edit>, lo: nat, from: nat, bound: nat)
    requires lo <= from && Ascending(edits, from, bound)
    ensures Ascending(edits, lo, bound)
  {
  }

  /** Text before the first edited range is kept as it is, wherever the
      reading starts. */
  lemma WovenFrom(s: string, edits: seq<Edit>, from: nat, m: nat)
    requires from <= m && Ascending(edits, m, |s|)
    ensures Ascending(edits, from, |s|)
    ensures Woven(s, edits, from) == s[from..m] + Woven(s, edits, m)
  {
    if |edits| == 0 {
      assert s[from..] == s[from..m] + s[m..];
    } else {
      WovenFromFirst(s, edits[0], edits[1..], from, m);
      assert edits == [edits[0]] + edits[1..];
    }
  }

  lemma WovenFromFirst(s: string, e: Edit, rest: seq<Edit>, from: nat, m: nat)
    requires from <= m <= e.start <= e.end <= |s| && Ascending(rest, e.end, |s|)
    ensures Ascending([e] + rest, from, |s|) && Ascending([e] + rest, m, |s|)
    ensures Woven(s, [e] + rest, from) == s[from..m] + Woven(s, [e] + rest, m)
  {
    assert ([e] + rest)[1..] == rest;
    var w := e.text + Woven(s, rest, e.end);
    assert Woven(s, [e] + rest, m) == s[m..e.start] + w;
    assert Woven(s, [e] + rest, from) == s[from..e.start] + w;
    Associate(s[from..m], s[m..e.start], w);
  }

  lemma Associate(a: string, b: string, c: string)
    ensures (a + b) + c == a + (b + c)
  {
  }

  /** The loop's step: one more replacement to the left of those already
      made, applied with `replace_range` to the partly rewritten text. */
  lemma WovenCons(s: string, e: Edit, edits: seq<Edit>)
    requires Ascending([e] + edits, 0, |s|)
    ensures Ascending(edits, 0, |s|)
    ensures e.start <= e.end <= |Woven(s, edits, 0)|
    ensures Woven(s, [e] + edits, 0) == ReplaceRange(Woven(s, edits, 0), e)
  {
    assert ([e] + edits)[1..] == edits;
    WovenFrom(s, edits, 0, e.end);
    var w := Woven(s, edits, e.end);
    var x := s[..e.end] + w;
    assert x[..e.start] == s[..e.start];
    assert x[e.end..] == w;
  }
}
