/** Bytes, C strings and the positional view of a text that the other modules share. */
module Bytes {

  type byte = n: int | 0 <= n < 256
  type bytes = seq<byte>

  const TAB: byte := 9
  const NEWLINE: byte := 10
  const SPACE: byte := 32
  const QUOTE: byte := 34
  const COMMA: byte := 44
  const MINUS: byte := 45
  const COLON: byte := 58
  const LBRACKET: byte := 91
  const BACKSLASH: byte := 92
  const RBRACKET: byte := 93
  const LOWER_U: byte := 117
  const LBRACE: byte := 123
  const RBRACE: byte := 125

  const INT_MAX := 0x7FFF_FFFF
  const INT_MIN := -0x8000_0000

  datatype Option<+T> = None | Some(value: T)

  /** What a C string function sees of a block: everything before its first NUL. */
  function CString(s: bytes): (r: bytes)
    ensures 0 !in r
    ensures r <= s
    ensures |r| < |s| ==> s[|r|] == 0
  {
    if s == [] || s[0] == 0 then [] else [s[0]] + CString(s[1..])
  }

  /** A NUL-free text is its own C string. */
  lemma CStringNulFree(s: bytes)
    requires 0 !in s
    ensures CString(s) == s
  {
    if s != [] {
      CStringNulFree(s[1..]);
    }
  }

  /** What follows a NUL does not matter. */
  lemma {:induction false} CStringOfPrefix(t: bytes, r: bytes)
    requires r != [] && r[0] == 0
    ensures CString(t + r) == CString(t)
    decreases |t|
  {
    if t == [] {
      assert t + r == r;
    } else {
      assert (t + r)[1..] == t[1..] + r;
      CStringOfPrefix(t[1..], r);
    }
  }

  /** The bytes of an ASCII text. */
  function Ascii(s: string): (r: bytes)
    ensures |r| == |s|
  {
    seq(|s|, i requires 0 <= i < |s| => s[i] as int % 128)
  }

  /** Four texts in a row. */
  lemma Reassociate(a: bytes, b: bytes, c: bytes, d: bytes)
    ensures a + b + c + d == a + (b + c + d) && a + (b + c + d) == a + b + (c + d)
    ensures a + b + c == a + (b + c)
  {
  }

  /** The text `t` stands in `s` at position `off`. */
  predicate At(s: bytes, off: nat, t: bytes) {
    off + |t| <= |s| && s[off..off + |t|] == t
  }

  /** A text stands at a position exactly when its two halves stand one after the other. */
  lemma AtSplit(s: bytes, off: nat, a: bytes, b: bytes)
    ensures At(s, off, a + b) <==> At(s, off, a) && At(s, off + |a|, b)
    ensures At(s, off, a + b) ==> off + |a| + |b| <= |s|
  {
    var n := off + |a| + |b|;
    if n <= |s| {
      assert s[off..n] == s[off..off + |a|] + s[off + |a|..n];
    }
    if At(s, off, a + b) {
      assert a == s[off..n][..|a|];
      assert b == s[off..n][|a|..];
    }
  }

  lemma AtBounds(s: bytes, off: nat, t: bytes)
    requires At(s, off, t)
    ensures off + |t| <= |s|
  {
  }

  lemma AtIndex(s: bytes, off: nat, t: bytes, i: nat)
    requires At(s, off, t) && i < |t|
    ensures off + i < |s| && s[off + i] == t[i]
  {
    assert s[off..off + |t|][i] == s[off + i];
  }

  function Repeat(c: byte, n: nat): (r: bytes)
    ensures |r| == n
    ensures forall i :: 0 <= i < n ==> r[i] == c
  {
    seq(n, _ => c)
  }
}
