/** The UTF-8 encoding lengths of text, for the places where Rust indexes a
    string by bytes: a byte offset that falls inside a character, or past
    the end, makes slicing panic. */
module Utf8 {
  import opened Wrappers

  /** The number of bytes UTF-8 uses for `c`. */
  function Width(c: char): (n: nat)
    ensures 1 <= n <= 4
    ensures n == 1 <==> c as int < 0x80
  {
    if c as int < 0x80 then 1
    else if c as int < 0x800 then 2
    else if c as int < 0x1_0000 then 3
    else 4
  }

  /** The number of bytes of `s` in UTF-8 (Rust's `str::len`). */
  function ByteLength(s: string): (n: nat)
    ensures n >= |s|
  {
    if |s| == 0 then 0 else Width(s[0]) + ByteLength(s[1..])
  }

  /** Every character of `s` is ASCII. */
  predicate Ascii(s: string) {
    forall k :: 0 <= k < |s| ==> s[k] as int < 0x80
  }

  lemma ByteLengthCons(s: string, k: nat)
    requires 0 < k <= |s|
    ensures ByteLength(s[..k]) == Width(s[0]) + ByteLength(s[1..][..k - 1])
  {
    assert s[..k][0] == s[0];
    assert s[..k][1..] == s[1..][..k - 1];
  }

  /** How many characters the first `n` bytes of `s` hold, or `None` when
      byte `n` is not a character boundary of `s` (the panic of `&s[..n]`). */
  function CharsInBytes(s: string, n: nat): (r: Option<nat>)
    ensures r.Some? ==> r.value <= |s|
    decreases |s|
  {
    if n == 0 then Some(0)
    else if |s| == 0 then None
    else if Width(s[0]) > n then None
    else
      match CharsInBytes(s[1..], n - Width(s[0]))
      case None => None
      case Some(j) => Some(j + 1)
  }

  /** The characters `CharsInBytes` counts take exactly `n` bytes. */
  lemma {:induction false} CharsInBytesSome(s: string, n: nat)
    requires CharsInBytes(s, n).Some?
    ensures ByteLength(s[..CharsInBytes(s, n).value]) == n
    decreases |s|
  {
    if n == 0 {
      assert s[..0] == "";
    } else {
      var j := CharsInBytes(s[1..], n - Width(s[0])).value;
      CharsInBytesSome(s[1..], n - Width(s[0]));
      ByteLengthCons(s, j + 1);
    }
  }

  /** `CharsInBytes` fails only when no prefix of `s` is `n` bytes long. */
  lemma {:induction false} CharsInBytesNone(s: string, n: nat)
    requires CharsInBytes(s, n).None?
    ensures forall k :: 0 <= k <= |s| ==> ByteLength(s[..k]) != n
    decreases |s|
  {
    if |s| == 0 {
      assert forall k :: 0 <= k <= |s| ==> s[..k] == "";
    } else if Width(s[0]) > n {
      NoPrefixBelow(s, n);
    } else {
      CharsInBytesNone(s[1..], n - Width(s[0]));
      forall k | 0 <= k <= |s| ensures ByteLength(s[..k]) != n {
        if k == 0 { assert s[..0] == ""; } else { ByteLengthCons(s, k); }
      }
    }
  }

  /** No non-empty prefix is shorter in bytes than the first character. */
  lemma NoPrefixBelow(s: string, n: nat)
    requires |s| > 0 && 0 < n < Width(s[0])
    ensures forall k :: 0 <= k <= |s| ==> ByteLength(s[..k]) != n
  {
    forall k | 0 <= k <= |s| ensures ByteLength(s[..k]) != n {
      if k == 0 { assert s[..0] == ""; } else { ByteLengthCons(s, k); }
    }
  }

  /** In ASCII text bytes and characters coincide. */
  lemma {:induction false} AsciiBytes(s: string, n: nat)
    requires Ascii(s) && n <= |s|
    ensures CharsInBytes(s, n) == Some(n)
    decreases |s|
  {
    if n > 0 {
      assert Width(s[0]) == 1;
      assert Ascii(s[1..]) by {
        forall k | 0 <= k < |s[1..]| ensures s[1..][k] as int < 0x80 {
          assert s[1..][k] == s[k + 1];
        }
      }
      AsciiBytes(s[1..], n - 1);
    }
  }

  lemma {:induction false} ByteLengthAppend(a: string, b: string)
    ensures ByteLength(a + b) == ByteLength(a) + ByteLength(b)
    decreases |a|
  {
    if |a| == 0 {
      assert a + b == b;
    } else {
      assert (a + b)[0] == a[0] && (a + b)[1..] == a[1..] + b;
      ByteLengthAppend(a[1..], b);
    }
  }

  /** Text with a character beyond ASCII takes more bytes than characters. */
  lemma {:induction false} NonAsciiLonger(s: string)
    requires !Ascii(s)
    ensures ByteLength(s) > |s|
    decreases |s|
  {
    if s[0] as int < 0x80 {
      assert !Ascii(s[1..]) by {
        var k :| 0 <= k < |s| && s[k] as int >= 0x80;
        assert s[1..][k - 1] == s[k];
      }
      NonAsciiLonger(s[1..]);
    }
  }
}
