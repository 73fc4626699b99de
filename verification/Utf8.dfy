/** Decoding of `\uXXXX` escapes and their UTF-8 encoding. */
module Utf8 {
  import opened Bytes

  // ---------------------------------------------------------------- reference definitions

  /** A Unicode scalar value: a code point that is not a surrogate. */
  predicate IsScalar(c: int) {
    0 <= c <= 0x10FFFF && !(0xD800 <= c <= 0xDFFF)
  }

  predicate IsHigh(u: int) { 0xD800 <= u <= 0xDBFF }

  predicate IsLow(u: int) { 0xDC00 <= u <= 0xDFFF }

  /** UTF-16 code units of a scalar value, section 2.1 of RFC 2781. */
  function Utf16Units(c: int): seq<int>
    requires IsScalar(c)
  {
    if c < 0x10000 then [c] else [0xD800 + (c - 0x10000) / 0x400, 0xDC00 + (c - 0x10000) % 0x400]
  }

  predicate IsTail(b: byte) { 0x80 <= b < 0xC0 }

  /** A strict UTF-8 decoder after the table of section 3 of RFC 3629: overlong forms,
      surrogates and values above 0x10FFFF are refused. */
  function DecodeUtf8(b: bytes): Option<int> {
    var c: int :=
      if |b| == 1 && b[0] < 0x80 then b[0]
      else if |b| == 2 && 0xC0 <= b[0] < 0xE0 && IsTail(b[1]) then
        (b[0] as int - 0xC0) * 64 + (b[1] as int - 0x80)
      else if |b| == 3 && 0xE0 <= b[0] < 0xF0 && IsTail(b[1]) && IsTail(b[2]) then
        ((b[0] as int - 0xE0) * 64 + (b[1] as int - 0x80)) * 64 + (b[2] as int - 0x80)
      else if |b| == 4 && 0xF0 <= b[0] < 0xF8 && IsTail(b[1]) && IsTail(b[2]) && IsTail(b[3]) then
        (((b[0] as int - 0xF0) * 64 + (b[1] as int - 0x80)) * 64 + (b[2] as int - 0x80)) * 64 + (b[3] as int - 0x80)
      else -1;
    if IsScalar(c) && |b| == Utf8Length(c) then Some(c) else None
  }

  // ---------------------------------------------------------------- what the code computes

  /** Number of UTF-8 bytes chosen for a code point. */
  function Utf8Length(c: int): (n: int)
    ensures 1 <= n <= 4
  {
    if c < 0x80 then 1 else if c < 0x800 then 2 else if c < 0x10000 then 3 else 4
  }

  function EncodeUtf8(c: nat): (r: bytes)
    requires c <= 0x10FFFF
    ensures |r| == Utf8Length(c)
  {
    if c < 0x80 then [c]
    else if c < 0x800 then [0xC0 + c / 64, 0x80 + c % 64]
    else if c < 0x10000 then [0xE0 + c / 64 / 64, 0x80 + c / 64 % 64, 0x80 + c % 64]
    else [0xF0 + c / 64 / 64 / 64, 0x80 + c / 64 / 64 % 64, 0x80 + c / 64 % 64, 0x80 + c % 64]
  }

  /** The strict decoder inverts the encoder on every scalar value, and the bytes written for a
      scalar value are the only bytes that decode to it. */
  lemma Utf8RoundTrip(c: int, b: bytes)
    requires IsScalar(c)
    ensures DecodeUtf8(EncodeUtf8(c)) == Some(c)
    ensures DecodeUtf8(b) == Some(c) <==> b == EncodeUtf8(c)
  {
    EncodeThenDecode(c);
    if DecodeUtf8(b) == Some(c) {
      DecodeThenEncode(b, c);
    }
  }

  lemma EncodeThenDecode(c: int)
    requires IsScalar(c)
    ensures DecodeUtf8(EncodeUtf8(c)) == Some(c)
  {
  }

  lemma DecodeThenEncode(b: bytes, c: int)
    requires IsScalar(c) && DecodeUtf8(b) == Some(c)
    ensures b == EncodeUtf8(c)
  {
    if |b| == 1 {
    } else if |b| == 2 {
      Base64Digit(b[0] - 0xC0, b[1] - 0x80);
    } else if |b| == 3 {
      Base64Digit(b[0] - 0xE0, b[1] - 0x80);
      Base64Digit((b[0] - 0xE0) as int * 64 + (b[1] - 0x80), b[2] - 0x80);
    } else {
      DecodeThenEncodeLong(b, c);
    }
  }

  lemma DecodeThenEncodeLong(b: bytes, c: int)
    requires IsScalar(c) && DecodeUtf8(b) == Some(c) && |b| == 4
    ensures b == EncodeUtf8(c)
  {
    var top := (b[0] - 0xF0) as int * 64 + (b[1] - 0x80);
    var mid := top * 64 + (b[2] - 0x80);
    assert c == mid * 64 + (b[3] - 0x80);
    Base64Digit(b[0] - 0xF0, b[1] - 0x80);
    Base64Digit(top, b[2] - 0x80);
    Base64Digit(mid, b[3] - 0x80);
  }

  lemma Base64Digit(high: nat, low: nat)
    requires low < 64
    ensures (high * 64 + low) / 64 == high && (high * 64 + low) % 64 == low
  {
  }

  function HexValue(c: byte): (v: Option<int>)
    ensures v.Some? ==> 0 <= v.value < 16
  {
    if 48 <= c <= 57 then Some(c - 48)
    else if 65 <= c <= 70 then Some(10 + c - 65)
    else if 97 <= c <= 102 then Some(10 + c - 97)
    else None
  }

  predicate WellFormedHex(s: bytes, p: nat) {
    p + 4 <= |s| && forall i :: p <= i < p + 4 ==> HexValue(s[i]).Some?
  }

  /** Value of four hexadecimal digits; malformed digits read as 0. */
  function Hex4(s: bytes, p: nat): (h: nat)
    requires p + 4 <= |s|
    ensures h <= 0xFFFF
  {
    if WellFormedHex(s, p) then
      ((HexValue(s[p]).value * 16 + HexValue(s[p + 1]).value) * 16 + HexValue(s[p + 2]).value) * 16
        + HexValue(s[p + 3]).value
    else 0
  }

  // ---------------------------------------------------------------- spellings of four digits

  const LOWER_HEX := "0123456789abcdef"
  const UPPER_HEX := "0123456789ABCDEF"

  function Hex(d: int, upper: bool): byte
    requires 0 <= d < 16
  {
    (if upper then UPPER_HEX[d] else LOWER_HEX[d]) as int % 128
  }

  /** Four digits to the base 16, most significant first. */
  function HexText(u: int, upper: seq<bool>): (r: bytes)
    requires 0 <= u < 0x10000 && |upper| == 4
    ensures |r| == 4
  {
    [Hex(u / 4096, upper[0]), Hex(u / 256 % 16, upper[1]), Hex(u / 16 % 16, upper[2]), Hex(u % 16, upper[3])]
  }

  predicate IsHex(b: byte) {
    b in Ascii(LOWER_HEX) || b in Ascii(UPPER_HEX)
  }

  lemma HexDigitValue(d: int, upper: bool)
    requires 0 <= d < 16
    ensures HexValue(Hex(d, upper)) == Some(d)
  {
  }

  lemma HexOfValue(b: byte)
    ensures HexValue(b).Some? <==> IsHex(b)
    ensures HexValue(b).Some? ==> exists upper :: Hex(HexValue(b).value, upper) == b
  {
    assert HexValue(b).Some? ==> Hex(HexValue(b).value, b < 97) == b;
    if HexValue(b).Some? {
      var v := HexValue(b).value;
      assert Ascii(LOWER_HEX)[v] == b || Ascii(UPPER_HEX)[v] == b;
    }
    if IsHex(b) {
      if i :| 0 <= i < 16 && Ascii(LOWER_HEX)[i] == b {
        HexDigitValue(i, false);
      }
      if i :| 0 <= i < 16 && Ascii(UPPER_HEX)[i] == b {
        HexDigitValue(i, true);
      }
    }
  }

  /** Every spelling of a code unit, with each digit in either case, reads as that unit. */
  lemma HexSpelling(s: bytes, p: nat, u: int, upper: seq<bool>)
    requires 0 <= u < 0x10000 && |upper| == 4 && At(s, p, HexText(u, upper))
    ensures WellFormedHex(s, p) && Hex4(s, p) == u
  {
    hide HexValue, Hex, At;
    var t := HexText(u, upper);
    AtBounds(s, p, t);
    HexDigitValue(u / 4096, upper[0]);
    HexDigitValue(u / 256 % 16, upper[1]);
    HexDigitValue(u / 16 % 16, upper[2]);
    HexDigitValue(u % 16, upper[3]);
    AtIndex(s, p, t, 0);
    AtIndex(s, p, t, 1);
    AtIndex(s, p, t, 2);
    AtIndex(s, p, t, 3);
    FourDigits(u);
  }

  lemma FourDigits(u: int)
    requires 0 <= u < 0x10000
    ensures ((u / 4096 * 16 + u / 256 % 16) * 16 + u / 16 % 16) * 16 + u % 16 == u
  {
  }

  /** And digits that read as a unit are one of its spellings. */
  lemma HexIsSpelling(s: bytes, p: nat) returns (upper: seq<bool>)
    requires WellFormedHex(s, p)
    ensures |upper| == 4 && s[p..p + 4] == HexText(Hex4(s, p), upper)
  {
    hide HexValue, Hex, Ascii;
    HexOfValue(s[p]);
    HexOfValue(s[p + 1]);
    HexOfValue(s[p + 2]);
    HexOfValue(s[p + 3]);
    var a: bool :| Hex(HexValue(s[p]).value, a) == s[p];
    var b: bool :| Hex(HexValue(s[p + 1]).value, b) == s[p + 1];
    var c: bool :| Hex(HexValue(s[p + 2]).value, c) == s[p + 2];
    var d: bool :| Hex(HexValue(s[p + 3]).value, d) == s[p + 3];
    upper := [a, b, c, d];
    DigitsOf(HexValue(s[p]).value, HexValue(s[p + 1]).value, HexValue(s[p + 2]).value, HexValue(s[p + 3]).value);
    assert s[p..p + 4] == [s[p], s[p + 1], s[p + 2], s[p + 3]];
  }

  lemma DigitsOf(a: int, b: int, c: int, d: int)
    requires 0 <= a < 16 && 0 <= b < 16 && 0 <= c < 16 && 0 <= d < 16
    ensures var u := ((a * 16 + b) * 16 + c) * 16 + d;
      u / 4096 == a && u / 256 % 16 == b && u / 16 % 16 == c && u % 16 == d
  {
  }

  // ---------------------------------------------------------------- escapes

  /** Code point and consumed length of the escape at `p`, None where the code fails. `e` is the end
      of the string literal. */
  function Utf16Literal(s: bytes, p: nat, e: nat): (r: Option<(nat, nat)>)
    requires e <= |s|
    ensures r.Some? ==> r.value.1 in {6, 12} && p + r.value.1 <= e && r.value.0 <= 0x10FFFF
    ensures r.Some? && r.value.1 == 6 ==> r.value.0 < 0x10000
    ensures r.Some? ==> IsScalar(r.value.0)
  {
    if e - p < 6 then None else
      var first := Hex4(s, p + 2);
      if IsLow(first) then None
      else if IsHigh(first) then
        if e - (p + 6) < 6 then None
        else if s[p + 6] != BACKSLASH || s[p + 7] != LOWER_U then None
        else
          var second := Hex4(s, p + 8);
          if !IsLow(second) then None
          else Some((0x10000 + first % 0x400 * 0x400 + second % 0x400, 12))
      else Some((first, 6))
  }

  /** The escape of one code unit stands at `p`. */
  ghost predicate UnitAt(s: bytes, p: nat, e: nat, u: int) {
    p + 6 <= e <= |s| && s[p] == BACKSLASH && s[p + 1] == LOWER_U && WellFormedHex(s, p + 2)
    && Hex4(s, p + 2) == u
  }

  ghost predicate UnitsAt(s: bytes, p: nat, e: nat, c: int)
    requires IsScalar(c)
  {
    var us := Utf16Units(c);
    UnitAt(s, p, e, us[0]) && (|us| == 2 ==> UnitAt(s, p + 6, e, us[1]))
  }

  /** The literal decoder accepts exactly the UTF-16 spellings of scalar values, and returns that
      value, whatever follows them. Only the digits of the first escape have to be well-formed: the
      code reads malformed ones as the value 0. */
  lemma Utf16LiteralCorrect(s: bytes, p: nat, e: nat, c: int)
    requires e <= |s| && IsScalar(c)
    requires p + 6 <= e && s[p] == BACKSLASH && s[p + 1] == LOWER_U && WellFormedHex(s, p + 2)
    ensures UnitsAt(s, p, e, c) <==> Utf16Literal(s, p, e) == Some((c, 6 * |Utf16Units(c)|))
  {
    var first := Hex4(s, p + 2);
    if IsHigh(first) && p + 12 <= e && IsLow(Hex4(s, p + 8)) {
      SurrogatePair(first, Hex4(s, p + 8), c);
    }
  }

  lemma SurrogatePair(high: int, low: int, c: int)
    requires IsHigh(high) && IsLow(low) && IsScalar(c)
    ensures Utf16Units(c) == [high, low] <==> c == 0x10000 + high % 0x400 * 0x400 + low % 0x400
  {
  }

  /** Lone surrogates are refused: a low one first, or a high one that no low one follows. */
  lemma LoneSurrogateRejected(s: bytes, p: nat, e: nat, u: int)
    requires UnitAt(s, p, e, u)
    requires IsLow(u) || (IsHigh(u) && forall w | IsLow(w) :: !UnitAt(s, p + 6, e, w))
    ensures Utf16Literal(s, p, e) == None
  {
    if IsHigh(u) && p + 12 <= e {
      var w := Hex4(s, p + 8);
      assert IsLow(w) ==> !UnitAt(s, p + 6, e, w);
    }
  }

  /** The bit operations of the C code are the arithmetic used here; `h` is a value of up to three
      hexadecimal digits, shifted before the next one is added. */
  lemma BitOperations(c: bv32, first: bv32, second: bv32, h: bv32)
    ensures (c | 0x80) & 0xBF == 0x80 + (c & 0x3F)
    ensures c >> 6 == c / 64 && c & 0x3F == c % 64
    ensures ((first & 0x3FF) << 10) | (second & 0x3FF) == (first & 0x3FF) * 0x400 + (second & 0x3FF)
    ensures c < 0x20 ==> (c | 0xC0) & 0xFF == 0xC0 + c
    ensures c < 0x10 ==> (c | 0xE0) & 0xFF == 0xE0 + c
    ensures c < 0x08 ==> (c | 0xF0) & 0xFF == 0xF0 + c
    ensures c & 0x7F == c % 128 && first & 0x3FF == first % 0x400
    ensures h < 0x1000 ==> h << 4 == h * 16 && (h << 4) as int == (h as int) * 16
  {
  }

  // ---------------------------------------------------------------- the imperative code

  lemma SpellingsRead(s: bytes, p: nat)
    requires p + 4 <= |s|
    ensures forall u, upper: seq<bool> ::
      0 <= u < 0x10000 && |upper| == 4 && s[p..p + 4] == HexText(u, upper) ==> Hex4(s, p) == u
    ensures (exists k :: p <= k < p + 4 && !IsHex(s[k])) ==> Hex4(s, p) == 0
  {
    hide HexText, HexValue, IsHex;
    forall u, upper: seq<bool> | 0 <= u < 0x10000 && |upper| == 4 && s[p..p + 4] == HexText(u, upper)
      ensures Hex4(s, p) == u
    {
      HexSpelling(s, p, u, upper);
    }
    if k :| p <= k < p + 4 && !IsHex(s[k]) {
      HexOfValue(s[k]);
    }
  }

  /** The digit loop of `parse_hex4`. */
  method ParseHex4(s: bytes, p: nat) returns (h: nat)
    requires p + 4 <= |s|
    ensures h == Hex4(s, p)
    ensures forall u, upper: seq<bool> :: 0 <= u < 0x10000 && |upper| == 4 && s[p..p + 4] == HexText(u, upper) ==> h == u
    ensures (exists k :: p <= k < p + 4 && !IsHex(s[k])) ==> h == 0
  {
    SpellingsRead(s, p);
    h := 0;
    var i := 0;
    while i < 4
      invariant 0 <= i <= 4
      invariant forall k :: p <= k < p + i ==> HexValue(s[k]).Some?
      invariant i == 0 ==> h == 0
      invariant i == 1 ==> h == HexValue(s[p]).value * 16
      invariant i == 2 ==> h == (HexValue(s[p]).value * 16 + HexValue(s[p + 1]).value) * 16
      invariant i == 3 ==>
        h == ((HexValue(s[p]).value * 16 + HexValue(s[p + 1]).value) * 16 + HexValue(s[p + 2]).value) * 16
      invariant i == 4 ==> h == Hex4(s, p)
    {
      var d := HexValue(s[p + i]);
      if d == None {
        return 0;
      }
      h := h + d.value;
      if i < 3 {
        h := h * 16;
      }
      i := i + 1;
    }
  }

  /** `utf16_literal_to_utf8`: decodes the escape at `p`, writes its UTF-8 bytes at `out[at..]` from
      the last byte to the first, and returns how much input it consumed (0 for failure). */
  method WriteUtf16Literal(s: bytes, p: nat, e: nat, out: array<byte>, at: nat) returns (n: nat, written: nat)
    requires e <= |s|
    requires Utf16Literal(s, p, e).Some? ==> at + Utf8Length(Utf16Literal(s, p, e).value.0) <= out.Length
    modifies out
    ensures Utf16Literal(s, p, e) == None <==> n == 0
    ensures n == 0 ==> written == 0 && out[..] == old(out[..])
    ensures n != 0 ==>
      var (c, len) := Utf16Literal(s, p, e).value;
      n == len && written == Utf8Length(c) && out[at..at + written] == EncodeUtf8(c)
    ensures forall i :: 0 <= i < out.Length && !(at <= i < at + written) ==> out[i] == old(out[i])
  {
    hide HexText, IsHex, HexValue, WellFormedHex, EncodeUtf8;
    n, written := 0, 0;
    if e < p + 6 {
      return;
    }
    var codepoint := ParseHex4(s, p + 2);
    var len := 6;
    if IsLow(codepoint) {
      return;
    }
    if IsHigh(codepoint) {
      len := 12;
      if e < p + 12 || s[p + 6] != BACKSLASH || s[p + 7] != LOWER_U {
        return;
      }
      var second := ParseHex4(s, p + 8);
      if !IsLow(second) {
        return;
      }
      codepoint := 0x10000 + codepoint % 0x400 * 0x400 + second % 0x400;
    }
    WriteUtf8(codepoint, out, at);
    n, written := len, Utf8Length(codepoint);
  }

  method WriteUtf8(c: nat, out: array<byte>, at: nat)
    requires c <= 0x10FFFF && at + Utf8Length(c) <= out.Length
    modifies out
    ensures out[at..at + Utf8Length(c)] == EncodeUtf8(c)
    ensures forall i :: 0 <= i < out.Length && !(at <= i < at + Utf8Length(c)) ==> out[i] == old(out[i])
  {
    hide EncodeUtf8;
    var length := Utf8Length(c);
    var mark := if length == 1 then 0 else if length == 2 then 0xC0 else if length == 3 then 0xE0 else 0xF0;
    var rest, k := c, length - 1;
    while k > 0
      invariant 0 <= k < length
      invariant rest == Shift(c, length - 1 - k)
      invariant forall j :: k < j < length ==> out[at + j] == EncodeUtf8(c)[j]
      invariant forall i :: 0 <= i < out.Length && !(at + k < i < at + length) ==> out[i] == old(out[i])
    {
      TailByte(c, k);
      out[at + k] := 0x80 + rest % 64;
      rest := rest / 64;
      k := k - 1;
    }
    FirstByte(c);
    out[at] := if length > 1 then mark + rest else rest % 128;
    assert forall j :: 0 <= j < length ==> out[at..at + length][j] == EncodeUtf8(c)[j];
  }

  lemma FirstByte(c: nat)
    requires c <= 0x10FFFF
    ensures Utf8Length(c) == 1 ==> EncodeUtf8(c)[0] == Shift(c, 0) % 128
    ensures Utf8Length(c) > 1 ==>
      EncodeUtf8(c)[0]
        == (if Utf8Length(c) == 2 then 0xC0 else if Utf8Length(c) == 3 then 0xE0 else 0xF0)
          + Shift(c, Utf8Length(c) - 1)
  {
    assert Shift(c, 1) == c / 64;
    assert Shift(c, 2) == c / 64 / 64;
    assert Shift(c, 3) == c / 64 / 64 / 64;
  }

  lemma TailByte(c: nat, k: nat)
    requires c <= 0x10FFFF && 0 < k < Utf8Length(c)
    ensures EncodeUtf8(c)[k] == 0x80 + Shift(c, Utf8Length(c) - 1 - k) % 64
  {
    assert Shift(c, 1) == c / 64;
    assert Shift(c, 2) == c / 64 / 64;
  }

  /** `c` shifted right by `k` groups of six bits. */
  function Shift(c: nat, k: nat): nat {
    if k == 0 then c else Shift(c, k - 1) / 64
  }
}
