/** String helpers with the semantics of the Rust standard-library methods
    the generator calls (`split`, `trim`, `trim_start_matches`, `replace`,
    `starts_with`, `position`). Strings are sequences of characters. */
module Text {
  import opened Wrappers

  predicate StartsWith(s: string, p: string) {
    |p| <= |s| && s[..|p|] == p
  }

  /** The index of the first occurrence of `c` (`chars().position`). */
  function IndexOf(s: string, c: char): (r: Option<nat>)
    ensures r.Some? ==> r.value < |s| && s[r.value] == c && c !in s[..r.value]
    ensures r.None? <==> c !in s
  {
    if |s| == 0 then None
    else if s[0] == c then Some(0)
    else match IndexOf(s[1..], c)
      case None => None
      case Some(k) => assert s[..k + 1] == [s[0]] + s[1..][..k]; Some(k + 1)
  }

  /** The character classes of the placeholder regular expressions:
      `[a-z_]` (function names), `[a-z\\,_]` (argument lists) and
      `[a-zA-Z0-9: .]` (the older engine's `{{...}}` contents). */
  datatype CharClass = FunctionName | ArgumentList | Handlebar

  predicate InClass(cc: CharClass, c: char) {
    match cc
    case FunctionName => 'a' <= c <= 'z' || c == '_'
    case ArgumentList => 'a' <= c <= 'z' || c == '\\' || c == ',' || c == '_'
    case Handlebar =>
      'a' <= c <= 'z' || 'A' <= c <= 'Z' || '0' <= c <= '9' || c == ':' || c == ' ' || c == '.'
  }

  /** The length of the longest run of characters of class `cc` starting at
      `i`: the greedy repetition `[...]+` of a regular expression. */
  function Span(s: string, i: nat, cc: CharClass): (n: nat)
    requires i <= |s|
    ensures i + n <= |s|
    ensures forall k :: i <= k < i + n ==> InClass(cc, s[k])
    ensures i + n == |s| || !InClass(cc, s[i + n])
    decreases |s| - i
  {
    if i == |s| || !InClass(cc, s[i]) then 0 else 1 + Span(s, i + 1, cc)
  }

  /** A run of class characters ended by another character has exactly that
      length. */
  lemma SpanExact(s: string, i: nat, j: nat, cc: CharClass)
    requires i <= j < |s|
    requires forall k :: i <= k < j ==> InClass(cc, s[k])
    requires !InClass(cc, s[j])
    ensures Span(s, i, cc) == j - i
  {
  }

  /** The pieces of `s` between occurrences of `sep` (Rust's `split`):
      never empty, and `"a,"` gives `["a", ""]`. */
  function Split(s: string, sep: char): (r: seq<string>)
    ensures |r| >= 1
    ensures forall k :: 0 <= k < |r| ==> sep !in r[k]
    ensures JoinWith(r, sep) == s
    decreases |s|
  {
    match IndexOf(s, sep)
    case None => [s]
    case Some(k) =>
      var rest := Split(s[k + 1..], sep);
      assert s == s[..k] + [sep] + s[k + 1..];
      [s[..k]] + rest
  }

  /** The pieces joined back together with `sep` between them. */
  function JoinWith(pieces: seq<string>, sep: char): string {
    if |pieces| == 0 then ""
    else if |pieces| == 1 then pieces[0]
    else pieces[0] + [sep] + JoinWith(pieces[1..], sep)
  }

  /** All strings concatenated in order. */
  function Concat(ss: seq<string>): string {
    if |ss| == 0 then "" else ss[0] + Concat(ss[1..])
  }

  lemma {:induction false} ConcatAppend(a: seq<string>, b: seq<string>)
    ensures Concat(a + b) == Concat(a) + Concat(b)
  {
    if |a| == 0 {
      assert a + b == b;
    } else {
      assert (a + b)[1..] == a[1..] + b;
      ConcatAppend(a[1..], b);
    }
  }

  lemma SliceOfSlice(s: string, i: nat, j: nat, a: nat, b: nat)
    requires i <= j <= |s| && a <= b <= j - i
    ensures s[i..j][a..b] == s[i + a..i + b]
  {
    assert forall k :: 0 <= k < b - a ==> s[i..j][a..b][k] == s[i + a + k];
  }

  /** Unicode `White_Space`, as tested by Rust's `char::is_whitespace`. */
  predicate IsWhitespace(c: char) {
    var u := c as int;
    (0x09 <= u <= 0x0D) || u == 0x20 || u == 0x85 || u == 0xA0 || u == 0x1680
    || (0x2000 <= u <= 0x200A) || u == 0x2028 || u == 0x2029 || u == 0x202F
    || u == 0x205F || u == 0x3000
  }

  /** `s` without its leading whitespace. */
  function TrimStart(s: string): (r: string)
    ensures |r| <= |s| && r == s[|s| - |r|..]
    ensures forall k :: 0 <= k < |s| - |r| ==> IsWhitespace(s[k])
    ensures |r| == 0 || !IsWhitespace(r[0])
  {
    if |s| > 0 && IsWhitespace(s[0]) then TrimStart(s[1..]) else s
  }

  /** `s` without its trailing whitespace. */
  function TrimEnd(s: string): (r: string)
    ensures |r| <= |s| && r == s[..|r|]
    ensures forall k :: |r| <= k < |s| ==> IsWhitespace(s[k])
    ensures |r| == 0 || !IsWhitespace(r[|r| - 1])
  {
    if |s| > 0 && IsWhitespace(s[|s| - 1]) then TrimEnd(s[..|s| - 1]) else s
  }

  /** Rust's `str::trim`: whitespace removed from both ends. */
  function Trim(s: string): string {
    TrimEnd(TrimStart(s))
  }

  /** `k` copies of `p` in a row. */
  function Repeat(p: string, k: nat): string {
    if k == 0 then "" else p + Repeat(p, k - 1)
  }

  /** Rust's `trim_start_matches` for a non-empty literal: every leading
      copy of `p` removed. */
  function TrimStartMatches(s: string, p: string): (r: string)
    requires |p| > 0
    ensures |r| <= |s| && r == s[|s| - |r|..]
    ensures !StartsWith(r, p)
    decreases |s|
  {
    if StartsWith(s, p) then TrimStartMatches(s[|p|..], p) else s
  }

  /** Rust's `trim_end_matches` for a non-empty literal: every trailing
      copy of `p` removed. */
  function TrimEndMatches(s: string, p: string): (r: string)
    requires |p| > 0
    ensures |r| <= |s| && r == s[..|r|]
    ensures !(|p| <= |r| && r[|r| - |p|..] == p)
    decreases |s|
  {
    if |p| <= |s| && s[|s| - |p|..] == p then TrimEndMatches(s[..|s| - |p|], p) else s
  }

  /** What `TrimStartMatches` removes is a run of whole copies of `p`. */
  lemma {:induction false} TrimStartMatchesCopies(s: string, p: string)
    requires |p| > 0
    ensures exists k: nat :: s == Repeat(p, k) + TrimStartMatches(s, p)
    decreases |s|
  {
    if StartsWith(s, p) {
      var t := s[|p|..];
      TrimStartMatchesCopies(t, p);
      var k: nat :| t == Repeat(p, k) + TrimStartMatches(t, p);
      PrefixThen(s, p, Repeat(p, k), TrimStartMatches(t, p));
      assert Repeat(p, k + 1) == p + Repeat(p, k);
    } else {
      assert s == Repeat(p, 0) + TrimStartMatches(s, p);
    }
  }

  /** A string that starts with `p` followed by `a + b` is `(p + a) + b`. */
  lemma PrefixThen(s: string, p: string, a: string, b: string)
    requires StartsWith(s, p) && s[|p|..] == a + b
    ensures s == (p + a) + b
  {
    assert s == s[..|p|] + s[|p|..];
  }

  /** What `TrimEndMatches` removes is a run of whole copies of `p`. */
  lemma {:induction false} TrimEndMatchesCopies(s: string, p: string)
    requires |p| > 0
    ensures exists k: nat :: s == TrimEndMatches(s, p) + Repeat(p, k)
    decreases |s|
  {
    if |p| <= |s| && s[|s| - |p|..] == p {
      var init := s[..|s| - |p|];
      TrimEndMatchesCopies(init, p);
      var k: nat :| init == TrimEndMatches(init, p) + Repeat(p, k);
      ThenSuffix(s, p, TrimEndMatches(init, p), Repeat(p, k));
      RepeatSnoc(p, k);
    } else {
      assert s == TrimEndMatches(s, p) + Repeat(p, 0);
    }
  }

  /** A string that ends with `p` after `a + b` is `a + (b + p)`. */
  lemma ThenSuffix(s: string, p: string, a: string, b: string)
    requires |p| <= |s| && s[|s| - |p|..] == p && s[..|s| - |p|] == a + b
    ensures s == a + (b + p)
  {
    assert s == s[..|s| - |p|] + s[|s| - |p|..];
  }

  lemma {:induction false} RepeatSnoc(p: string, k: nat)
    ensures Repeat(p, k + 1) == Repeat(p, k) + p
  {
    if k > 0 {
      RepeatSnoc(p, k - 1);
    }
  }

  /** Rust's `s.replace(p, "")`: the non-overlapping occurrences of `p`,
      found left to right, deleted. */
  function DeleteAll(s: string, p: string): (r: string)
    requires |p| > 0
    ensures |r| <= |s|
    decreases |s|
  {
    if |s| == 0 then ""
    else if StartsWith(s, p) then DeleteAll(s[|p|..], p)
    else [s[0]] + DeleteAll(s[1..], p)
  }

  /** A string in which `p` starts nowhere is left as it is. */
  lemma {:induction false} DeleteNone(s: string, p: string)
    requires |p| > 0 && forall i :: 0 <= i < |s| ==> !StartsWith(s[i..], p)
    ensures DeleteAll(s, p) == s
    decreases |s|
  {
    if |s| > 0 {
      assert s[0..] == s;
      forall i | 0 <= i < |s[1..]|
        ensures !StartsWith(s[1..][i..], p)
      {
        assert s[1..][i..] == s[i + 1..];
      }
      DeleteNone(s[1..], p);
      assert s == [s[0]] + s[1..];
    }
  }

  /** The leftmost occurrence of `p` is deleted whole, what precedes it is
      kept, and the scan resumes after it without looking back: no
      occurrence that overlaps the deleted one is removed. */
  lemma {:induction false} DeleteFirst(x: string, p: string, y: string)
    requires |p| > 0 && forall i :: 0 <= i < |x| ==> !StartsWith((x + p + y)[i..], p)
    ensures DeleteAll(x + p + y, p) == x + DeleteAll(y, p)
    decreases |x|
  {
    if |x| == 0 {
      assert x + p + y == p + y;
      assert (p + y)[..|p|] == p && (p + y)[|p|..] == y;
    } else {
      assert (x + p + y)[0..] == x + p + y;
      assert (x + p + y)[1..] == x[1..] + p + y;
      forall i | 0 <= i < |x[1..]|
        ensures !StartsWith((x[1..] + p + y)[i..], p)
      {
        assert (x[1..] + p + y)[i..] == (x + p + y)[i + 1..];
      }
      DeleteFirst(x[1..], p, y);
      assert x == [x[0]] + x[1..];
    }
  }

  /** `s` with every `c` removed (`replace(" ", "")` for one character). */
  function RemoveChar(s: string, c: char): (r: string)
    ensures c !in r
  {
    if |s| == 0 then "" else if s[0] == c then RemoveChar(s[1..], c) else [s[0]] + RemoveChar(s[1..], c)
  }

  /** Removing `c` keeps every other character, as often as it occurred. */
  lemma {:induction false} RemoveCharKeeps(s: string, c: char)
    ensures forall x :: x != c ==> multiset(RemoveChar(s, c))[x] == multiset(s)[x]
  {
    if |s| > 0 {
      assert s == [s[0]] + s[1..];
      RemoveCharKeeps(s[1..], c);
    }
  }

  /** Removing `c` works piece by piece, so the characters kept stay in the
      order they had: removing from two joined strings is joining what is
      kept of each. */
  lemma {:induction false} RemoveCharAppend(a: string, b: string, c: char)
    ensures RemoveChar(a + b, c) == RemoveChar(a, c) + RemoveChar(b, c)
    decreases |a|
  {
    if |a| > 0 {
      assert (a + b)[1..] == a[1..] + b;
      RemoveCharAppend(a[1..], b, c);
    } else {
      assert a + b == b;
    }
  }

  /** Splitting and joining are inverse: joining the pieces of `s` with the
      separator restores it, and splitting a join of separator-free pieces
      restores the pieces. */
  lemma {:induction false} SplitJoin(pieces: seq<string>, sep: char)
    requires |pieces| >= 1
    requires forall k :: 0 <= k < |pieces| ==> sep !in pieces[k]
    ensures Split(JoinWith(pieces, sep), sep) == pieces
  {
    if |pieces| == 1 {
      assert IndexOf(pieces[0], sep).None?;
    } else {
      var h, rest := pieces[0], pieces[1..];
      assert sep !in h;
      assert forall k :: 0 <= k < |rest| ==> sep !in rest[k] by {
        forall k | 0 <= k < |rest| ensures sep !in rest[k] {
          assert rest[k] == pieces[k + 1];
        }
      }
      var tail := JoinWith(rest, sep);
      var t := [sep] + tail;
      assert JoinWith(pieces, sep) == h + t;
      SplitJoin(rest, sep);
      SplitPiece(h, tail, sep);
      assert pieces == [h] + rest;
    }
  }

  /** Splitting a separator-free piece followed by the separator. */
  lemma SplitPiece(h: string, tail: string, sep: char)
    requires sep !in h
    ensures Split(h + ([sep] + tail), sep) == [h] + Split(tail, sep)
  {
    var s := h + ([sep] + tail);
    IndexOfAfterFree(h, [sep] + tail, sep);
    assert s[..|h|] == h;
    assert s[|h| + 1..] == tail;
    SplitAt(s, sep, |h|);
  }

  /** One step of `Split`: the piece before the first separator, then the
      pieces of what follows it. */
  lemma SplitAt(s: string, sep: char, k: nat)
    requires IndexOf(s, sep) == Some(k)
    ensures Split(s, sep) == [s[..k]] + Split(s[k + 1..], sep)
  {
  }

  lemma {:induction false} IndexOfAfterFree(h: string, t: string, c: char)
    requires c !in h && |t| > 0 && t[0] == c
    ensures IndexOf(h + t, c) == Some(|h|)
    decreases |h|
  {
    if |h| == 0 {
      assert h + t == t;
    } else {
      assert (h + t)[1..] == h[1..] + t;
      IndexOfAfterFree(h[1..], t, c);
    }
  }

  /** One leading copy of `p` is trimmed when no second copy follows it. */
  lemma TrimStartOnce(p: string, x: string)
    requires |p| > 0 && !StartsWith(x, p)
    ensures TrimStartMatches(p + x, p) == x
  {
    assert (p + x)[..|p|] == p;
    assert (p + x)[|p|..] == x;
  }

  /** One trailing copy of `p` is trimmed when no second copy precedes it. */
  lemma TrimEndOnce(x: string, p: string)
    requires |p| > 0 && !(|p| <= |x| && x[|x| - |p|..] == p)
    ensures TrimEndMatches(x + p, p) == x
  {
    assert (x + p)[|x + p| - |p|..] == p;
    assert (x + p)[..|x + p| - |p|] == x;
  }

  /** Removing a character that does not occur changes nothing. */
  lemma {:induction false} RemoveCharAbsent(s: string, c: char)
    requires c !in s
    ensures RemoveChar(s, c) == s
  {
    if |s| > 0 {
      assert c !in s[1..];
      RemoveCharAbsent(s[1..], c);
      assert s == [s[0]] + s[1..];
    }
  }
}
