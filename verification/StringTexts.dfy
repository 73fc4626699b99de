/** The string literals of section 7 of RFC 8259, spelled out without the parser or the printer, and
    what the parser makes of them. */
module StringTexts {
  import opened Bytes
  import opened Utf8
  import opened Strings

  // ---------------------------------------------------------------- spellings

  /** The letters of the two-character escapes, and the byte that each stands for. */
  const LETTERS := "\"\\/bfnrt"
  const ESCAPED: bytes := [0x22, 0x5C, 0x2F, 0x08, 0x0C, 0x0A, 0x0D, 0x09]

  /** One character of a literal as it is written: a byte of its own, a two-character escape, a scalar
      value as one or two `\u` escapes with each hexadecimal digit in either case, or a `\u` escape with
      digits that are none, which the parser takes for U+0000. */
  datatype Char =
    | Plain(b: byte)
    | Short(k: nat)
    | Unicode(c: int, upper: seq<bool>)
    | Junk(four: bytes)

  function UnitText(u: int, upper: seq<bool>): (r: bytes)
    requires 0 <= u < 0x10000 && |upper| == 4
    ensures |r| == 6
  {
    Ascii("\\u") + HexText(u, upper)
  }

  /** How the character may be written by section 7 of RFC 8259. Bytes above 127 belong to characters
      that stand for themselves. */
  predicate StrictChar(ch: Char) {
    match ch
    case Plain(b) => b >= 0x20 && b != 0x22 && b != 0x5C
    case Short(k) => k < 8
    case Unicode(c, upper) => IsScalar(c) && |upper| == 4 * |Utf16Units(c)|
    case Junk(_) => false
  }

  /** What the parser takes beyond that: any byte but a backslash as it is, and four bytes that are not
      all hexadecimal digits. */
  predicate LenientChar(ch: Char) {
    match ch
    case Plain(b) => b != 0x5C
    case Junk(four) => |four| == 4 && exists i :: 0 <= i < 4 && !IsHex(four[i])
    case _ => StrictChar(ch)
  }

  function CharText(ch: Char): (r: bytes)
    requires LenientChar(ch)
    ensures r != []
  {
    match ch
    case Plain(b) => [b]
    case Short(k) => Ascii("\\") + [Ascii(LETTERS)[k]]
    case Unicode(c, upper) =>
      UnitsInRange(c);
      var units := Utf16Units(c);
      if |units| == 1 then UnitText(units[0], upper) else UnitText(units[0], upper[..4]) + UnitText(units[1], upper[4..])
    case Junk(four) => Ascii("\\u") + four
  }

  lemma UnitsInRange(c: int)
    requires IsScalar(c)
    ensures forall i :: 0 <= i < |Utf16Units(c)| ==> 0 <= Utf16Units(c)[i] < 0x10000
  {
  }

  /** The bytes it stands for; the character of a `\u` escape in UTF-8. */
  function CharMeaning(ch: Char): (r: bytes)
    requires LenientChar(ch)
    ensures r != []
  {
    match ch
    case Plain(b) => [b]
    case Short(k) => [ESCAPED[k]]
    case Unicode(c, _) => EncodeUtf8(c)
    case Junk(_) => [0]
  }

  predicate Lenient(chars: seq<Char>) {
    forall i :: 0 <= i < |chars| ==> LenientChar(chars[i])
  }

  predicate Strict(chars: seq<Char>) {
    forall i :: 0 <= i < |chars| ==> StrictChar(chars[i])
  }

  function CharsText(chars: seq<Char>): bytes
    requires Lenient(chars)
  {
    if chars == [] then [] else CharText(chars[0]) + CharsText(chars[1..])
  }

  function CharsMeaning(chars: seq<Char>): bytes
    requires Lenient(chars)
  {
    if chars == [] then [] else CharMeaning(chars[0]) + CharsMeaning(chars[1..])
  }

  /** A literal; one that is not closed properly ends in an escaped quote which the parser counts as
      the closing one. */
  function LiteralText(chars: seq<Char>, closed: bool): bytes
    requires Lenient(chars)
  {
    [0x22] + CharsText(chars) + if closed then [0x22] else []
  }

  // ---------------------------------------------------------------- one character

  lemma UnitReads(s: bytes, p: nat, u: int, upper: seq<bool>)
    requires 0 <= u < 0x10000 && |upper| == 4 && At(s, p, UnitText(u, upper))
    ensures p + 6 <= |s| && s[p] == BACKSLASH && s[p + 1] == LOWER_U && WellFormedHex(s, p + 2) && Hex4(s, p + 2) == u
  {
    hide At, Hex4, WellFormedHex, HexText;
    AtBounds(s, p, UnitText(u, upper));
    AtSplit(s, p, Ascii("\\u"), HexText(u, upper));
    AtIndex(s, p, Ascii("\\u"), 0);
    AtIndex(s, p, Ascii("\\u"), 1);
    HexSpelling(s, p + 2, u, upper);
  }

  lemma UnicodeReads(s: bytes, p: nat, e: nat, c: int, upper: seq<bool>)
    requires StrictChar(Unicode(c, upper)) && At(s, p, CharText(Unicode(c, upper)))
    requires p + |CharText(Unicode(c, upper))| <= e < |s|
    ensures Utf16Literal(s, p, e) == Some((c, |CharText(Unicode(c, upper))|))
    ensures s[p] == BACKSLASH && s[p + 1] == LOWER_U
  {
    hide At, Hex4, WellFormedHex, UnitText, Utf16Literal;
    UnitsInRange(c);
    var units := Utf16Units(c);
    if |units| == 1 {
      UnitReads(s, p, units[0], upper);
    } else {
      AtSplit(s, p, UnitText(units[0], upper[..4]), UnitText(units[1], upper[4..]));
      UnitReads(s, p, units[0], upper[..4]);
      UnitReads(s, p + 6, units[1], upper[4..]);
    }
    Utf16LiteralCorrect(s, p, e, c);
  }

  lemma JunkReads(s: bytes, p: nat, e: nat, four: bytes)
    requires LenientChar(Junk(four)) && At(s, p, CharText(Junk(four))) && p + 6 <= e < |s|
    ensures Utf16Literal(s, p, e) == Some((0 as nat, 6 as nat)) && s[p] == BACKSLASH && s[p + 1] == LOWER_U
  {
    hide At, HexValue, Ascii;
    AtSplit(s, p, Ascii("\\u"), four);
    SlashU();
    AtIndex(s, p, Ascii("\\u"), 0);
    AtIndex(s, p, Ascii("\\u"), 1);
    var i :| 0 <= i < 4 && !IsHex(four[i]);
    AtIndex(s, p + 2, four, i);
    HexOfValue(four[i]);
  }

  lemma SlashU()
    ensures Ascii("\\u") == [BACKSLASH, LOWER_U]
  {
  }

  lemma ShortReads(s: bytes, p: nat, k: nat)
    requires k < 8 && At(s, p, CharText(Short(k)))
    ensures p + 2 <= |s| && s[p] == BACKSLASH && s[p + 1] != LOWER_U && SimpleEscape(s[p + 1]) == Some(ESCAPED[k])
  {
    hide At;
    AtBounds(s, p, CharText(Short(k)));
    AtIndex(s, p, CharText(Short(k)), 0);
    AtIndex(s, p, CharText(Short(k)), 1);
  }

  /** The second pass turns a character into the bytes it stands for. */
  lemma CharDecodes(s: bytes, p: nat, e: nat, ch: Char)
    requires LenientChar(ch) && At(s, p, CharText(ch)) && p + |CharText(ch)| <= e < |s|
    ensures var rest := Decode(s, p + |CharText(ch)|, e);
      Decode(s, p, e) == rest.(out := CharMeaning(ch) + rest.out)
  {
    hide At, Decode, EscapeAt;
    AtBounds(s, p, CharText(ch));
    AtIndex(s, p, CharText(ch), 0);
    DecodeStep(s, p, e);
    if !ch.Plain? {
      EscapeReads(s, p, e, ch);
    }
  }

  lemma EscapeReads(s: bytes, p: nat, e: nat, ch: Char)
    requires LenientChar(ch) && !ch.Plain? && At(s, p, CharText(ch)) && p + |CharText(ch)| <= e < |s|
    ensures s[p] == BACKSLASH && EscapeAt(s, p, e) == Some((CharMeaning(ch), |CharText(ch)|))
  {
    hide At, Utf16Literal, EncodeUtf8, UnitText, SimpleEscape, IsHex;
    match ch
    case Short(k) =>
      AtIndex(s, p, CharText(ch), 0);
      ShortReads(s, p, k);
    case Unicode(c, upper) => UnicodeReads(s, p, e, c, upper);
    case Junk(four) =>
      JunkReads(s, p, e, four);
      EncodeAscii(0);
  }

  lemma UnitIsText(s: bytes, p: nat, e: nat, u: int) returns (upper: seq<bool>)
    requires UnitAt(s, p, e, u)
    ensures |upper| == 4 && 0 <= u < 0x10000 && At(s, p, UnitText(u, upper))
  {
    hide Hex4, WellFormedHex, HexText, At;
    upper := HexIsSpelling(s, p + 2);
    SlashU();
    assert At(s, p, Ascii("\\u")) by { TwoBytes(s, p); }
    assert At(s, p + 2, HexText(u, upper)) by { AtSlice(s, p + 2, 4); }
    AtSplit(s, p, Ascii("\\u"), HexText(u, upper));
  }

  lemma AtSlice(s: bytes, p: nat, n: nat)
    requires p + n <= |s|
    ensures At(s, p, s[p..p + n])
  {
  }

  lemma TwoBytes(s: bytes, p: nat)
    requires p + 2 <= |s|
    ensures At(s, p, [s[p], s[p + 1]])
  {
  }

  lemma EscapeIsUnicode(s: bytes, p: nat, e: nat) returns (ch: Char)
    requires p + 6 <= e < |s| && s[p] == BACKSLASH && s[p + 1] == LOWER_U && Utf16Literal(s, p, e).Some?
    ensures LenientChar(ch) && At(s, p, CharText(ch)) && (ch.Unicode? || ch.Junk?)
    ensures Utf16Literal(s, p, e).value.1 == |CharText(ch)| && CharMeaning(ch) == EncodeUtf8(Utf16Literal(s, p, e).value.0)
  {
    hide At, EncodeUtf8, UnitText, HexValue;
    var (c, n) := Utf16Literal(s, p, e).value;
    if WellFormedHex(s, p + 2) {
      assert UnitsAt(s, p, e, c) by { Utf16LiteralCorrect(s, p, e, c); }
      ch := UnitsAreText(s, p, e, c);
    } else {
      ch := EscapeIsJunk(s, p);
      EncodeAscii(0);
    }
  }

  lemma EscapeIsJunk(s: bytes, p: nat) returns (ch: Char)
    requires p + 6 <= |s| && s[p] == BACKSLASH && s[p + 1] == LOWER_U && !WellFormedHex(s, p + 2)
    ensures LenientChar(ch) && ch.Junk? && At(s, p, CharText(ch)) && |CharText(ch)| == 6
  {
    hide At, HexValue, Ascii, IsHex;
    ch := Junk(s[p + 2..p + 6]);
    var i :| p + 2 <= i < p + 6 && HexValue(s[i]) == None;
    HexOfValue(s[i]);
    assert ch.four[i - p - 2] == s[i];
    SlashU();
    TwoBytes(s, p);
    AtSlice(s, p + 2, 4);
    AtSplit(s, p, Ascii("\\u"), ch.four);
  }

  lemma UnitsAreText(s: bytes, p: nat, e: nat, c: int) returns (ch: Char)
    requires IsScalar(c) && UnitsAt(s, p, e, c)
    ensures StrictChar(ch) && ch.Unicode? && ch.c == c && At(s, p, CharText(ch))
    ensures |CharText(ch)| == 6 * |Utf16Units(c)|
  {
    hide At, UnitText, Hex4, WellFormedHex, EncodeUtf8;
    var units := Utf16Units(c);
    UnitsInRange(c);
    var upper := UnitIsText(s, p, e, units[0]);
    if |units| == 2 {
      var more := UnitIsText(s, p + 6, e, units[1]);
      assert (upper + more)[..4] == upper && (upper + more)[4..] == more;
      AtSplit(s, p, UnitText(units[0], upper), UnitText(units[1], more));
      upper := upper + more;
    }
    ch := Unicode(c, upper);
  }

  lemma EscapeIsShort(s: bytes, p: nat) returns (ch: Char)
    requires p + 2 <= |s| && s[p] == BACKSLASH && SimpleEscape(s[p + 1]).Some?
    ensures StrictChar(ch) && ch.Short? && At(s, p, CharText(ch)) && |CharText(ch)| == 2
    ensures CharMeaning(ch) == [SimpleEscape(s[p + 1]).value] && (s[p + 1] == QUOTE ==> ch == Short(0))
  {
    var b := s[p + 1];
    var k := if b == 34 then 0 else if b == 92 then 1 else if b == 47 then 2 else if b == 98 then 3
             else if b == 102 then 4 else if b == 110 then 5 else if b == 114 then 6 else 7;
    ch := Short(k);
    TwoBytes(s, p);
    assert CharText(ch) == [s[p], b];
  }

  /** A step of the second pass that goes through is one character of a literal; only an escaped quote
      can reach behind the end. */
  lemma DecodesChar(s: bytes, p: nat, e: nat) returns (ch: Char)
    requires p < e < |s| && s[e] == QUOTE
    requires s[p] == BACKSLASH ==> EscapeAt(s, p, e).Some?
    ensures LenientChar(ch) && At(s, p, CharText(ch))
    ensures p + |CharText(ch)| <= e || (ch == Short(0) && p + |CharText(ch)| == e + 1)
    ensures var rest := Decode(s, p + |CharText(ch)|, e);
      Decode(s, p, e) == rest.(out := CharMeaning(ch) + rest.out)
  {
    hide At, Decode, Utf16Literal, EncodeUtf8, UnitText, SimpleEscape;
    DecodeStep(s, p, e);
    if s[p] != BACKSLASH {
      ch := Plain(s[p]);
      AtSlice(s, p, 1);
      assert s[p..p + 1] == [s[p]];
    } else if s[p + 1] == LOWER_U {
      ch := EscapeIsUnicode(s, p, e);
    } else {
      ch := EscapeIsShort(s, p);
    }
  }

  // ---------------------------------------------------------------- where a literal ends

  /** The number of backslashes directly before position `k`, looking back no further than `p`. */
  function Slashes(s: bytes, p: nat, k: nat): nat
    requires k <= |s|
  {
    if k > p && s[k - 1] == 0x5C then 1 + Slashes(s, p, k - 1) else 0
  }

  /** A quote that no backslash escapes, in a literal whose first character is at `p`. */
  predicate Unescaped(s: bytes, p: nat, k: nat)
    requires k < |s|
  {
    s[k] == 0x22 && Slashes(s, p, k) % 2 == 0
  }

  /** The literal that begins before `p` ends at `e`. */
  predicate EndsAt(s: bytes, p: nat, e: nat) {
    p <= e < |s| && Unescaped(s, p, e) && forall k :: p <= k < e ==> !Unescaped(s, p, k)
  }

  lemma {:induction false} SlashesFrom(s: bytes, p: nat, q: nat, k: nat)
    requires p < q <= k <= |s| && q == if s[p] == 0x5C then p + 2 else p + 1
    ensures Slashes(s, p, k) % 2 == Slashes(s, q, k) % 2
    decreases k
  {
    if k > q {
      SlashesFrom(s, p, q, k - 1);
    } else {
      assert Slashes(s, p, p) == 0 && Slashes(s, p, p + 1) == if s[p] == 0x5C then 1 else 0;
    }
  }

  /** The first pass finds the first quote that no backslash escapes, whatever else stands there. */
  lemma {:induction false} ScanFinds(s: bytes, p: nat)
    ensures Scan(s, p).Some? ==> EndsAt(s, p, Scan(s, p).value.0)
    ensures forall e :: EndsAt(s, p, e) ==> Scan(s, p).Some? && Scan(s, p).value.0 == e
    decreases |s| - p
  {
    if p < |s| && s[p] != QUOTE {
      var q := if s[p] == BACKSLASH then p + 2 else p + 1;
      forall k | q <= k < |s| ensures Unescaped(s, p, k) <==> Unescaped(s, q, k) {
        SlashesFrom(s, p, q, k);
      }
      assert !Unescaped(s, p, p);
      assert s[p] == BACKSLASH && p + 1 < |s| ==> Slashes(s, p, p + 1) == 1 + Slashes(s, p, p);
      ScanFinds(s, q);
      forall e ensures EndsAt(s, p, e) <==> EndsAt(s, q, e) {
        EndsLater(s, p, q, e);
      }
    } else if p < |s| {
      assert Unescaped(s, p, p);
    }
  }

  lemma EndsLater(s: bytes, p: nat, q: nat, e: nat)
    requires p < q && p < |s| && forall k :: p <= k < q && k < |s| ==> !Unescaped(s, p, k)
    requires forall k :: q <= k < |s| ==> (Unescaped(s, p, k) <==> Unescaped(s, q, k))
    ensures EndsAt(s, p, e) <==> EndsAt(s, q, e)
  {
    hide Unescaped;
  }

  // ---------------------------------------------------------------- whole literals

  lemma {:induction false} CharsDecode(s: bytes, p: nat, chars: seq<Char>)
    requires Lenient(chars) && At(s, p, CharsText(chars)) && p + |CharsText(chars)| < |s|
    ensures Decode(s, p, p + |CharsText(chars)|) == Decoding(CharsMeaning(chars), None)
    decreases |chars|
  {
    hide At, Decode, CharText, CharMeaning;
    var e := p + |CharsText(chars)|;
    if chars == [] {
      DecodeAtEnd(s, p, p);
    } else {
      AtSplit(s, p, CharText(chars[0]), CharsText(chars[1..]));
      CharsDecode(s, p + |CharText(chars[0])|, chars[1..]);
      CharDecodes(s, p, e, chars[0]);
    }
  }

  lemma {:induction false} DecodesChars(s: bytes, p: nat, e: nat) returns (chars: seq<Char>)
    requires p <= e < |s| && s[e] == QUOTE && Decode(s, p, e).failedAt == None
    ensures Lenient(chars) && At(s, p, CharsText(chars)) && Decode(s, p, e).out == CharsMeaning(chars)
    ensures var n := p + |CharsText(chars)|; n == e || (n == e + 1 && chars != [] && chars[|chars| - 1] == Short(0))
    decreases |s| - p
  {
    hide At, Decode, CharText, CharMeaning, EscapeAt;
    if p == e {
      chars := [];
      DecodeAtEnd(s, p, e);
      AtSlice(s, p, 0);
    } else {
      DecodeStep(s, p, e);
      var ch := DecodesChar(s, p, e);
      var n := p + |CharText(ch)|;
      AtBounds(s, p, CharText(ch));
      if n <= e {
        var rest := DecodesChars(s, n, e);
        chars := [ch] + rest;
        assert chars[1..] == rest;
        AtSplit(s, p, CharText(ch), CharsText(rest));
      } else {
        chars := [ch];
        DecodeAtEnd(s, n, e);
        OneChar(ch);
      }
    }
  }

  lemma OneChar(ch: Char)
    requires LenientChar(ch)
    ensures CharsText([ch]) == CharText(ch) && CharsMeaning([ch]) == CharMeaning(ch)
  {
    hide CharText, CharMeaning;
    assert [ch][1..] == [];
  }

  // ---------------------------------------------------------------- strict literals

  lemma UnitText6(s: bytes, p: nat, u: int, upper: seq<bool>)
    requires 0 <= u < 0x10000 && |upper| == 4 && At(s, p, UnitText(u, upper)) && Scan(s, p + 6).Some?
    ensures Scan(s, p).Some? && Scan(s, p).value.0 == Scan(s, p + 6).value.0
  {
    hide At, HexText, Scan, HexValue, Hex4;
    AtBounds(s, p, UnitText(u, upper));
    UnitReads(s, p, u, upper);
    HexVisible(s, p + 2);
    ScanStep(s, p + 5);
    ScanStep(s, p + 4);
    ScanStep(s, p + 3);
    ScanStep(s, p + 2);
    ScanStep(s, p);
  }

  lemma HexVisible(s: bytes, p: nat)
    requires WellFormedHex(s, p)
    ensures forall i :: p <= i < p + 4 ==> s[i] != QUOTE && s[i] != BACKSLASH
  {
    forall i | p <= i < p + 4 ensures s[i] != QUOTE && s[i] != BACKSLASH {
      assert HexValue(s[i]).Some?;
    }
  }

  lemma CharScans(s: bytes, p: nat, ch: Char)
    requires StrictChar(ch) && At(s, p, CharText(ch)) && Scan(s, p + |CharText(ch)|).Some?
    ensures Scan(s, p).Some? && Scan(s, p).value.0 == Scan(s, p + |CharText(ch)|).value.0
  {
    hide At, Scan, UnitText;
    AtBounds(s, p, CharText(ch));
    AtIndex(s, p, CharText(ch), 0);
    match ch
    case Plain(b) => ScanStep(s, p);
    case Short(k) => ScanStep(s, p);
    case Unicode(c, upper) =>
      UnitsInRange(c);
      var units := Utf16Units(c);
      if |units| == 1 {
        UnitText6(s, p, units[0], upper);
      } else {
        AtSplit(s, p, UnitText(units[0], upper[..4]), UnitText(units[1], upper[4..]));
        UnitText6(s, p + 6, units[1], upper[4..]);
        UnitText6(s, p, units[0], upper[..4]);
      }
  }

  lemma {:induction false} CharsScan(s: bytes, p: nat, chars: seq<Char>)
    requires Strict(chars) && At(s, p, CharsText(chars))
    requires p + |CharsText(chars)| < |s| && s[p + |CharsText(chars)|] == QUOTE
    ensures Scan(s, p).Some? && Scan(s, p).value.0 == p + |CharsText(chars)|
    decreases |chars|
  {
    hide At, Scan, CharText;
    if chars == [] {
      ScanAtQuote(s, p);
    } else {
      AtSplit(s, p, CharText(chars[0]), CharsText(chars[1..]));
      CharsScan(s, p + |CharText(chars[0])|, chars[1..]);
      CharScans(s, p, chars[0]);
    }
  }

  /** The literal stands at `off` and ends where the parser takes it to end. */
  ghost predicate LiteralAt(s: bytes, off: nat, chars: seq<Char>, closed: bool) {
    && Lenient(chars) && At(s, off, LiteralText(chars, closed))
    && (!closed ==> chars != [] && chars[|chars| - 1] == Short(0))
    && EndsAt(s, off + 1, off + |LiteralText(chars, closed)| - 1)
  }

  /** What is read as a string is a literal, up to control bytes, bytes after `\u` that are no digits,
      and what those do to the pairing of backslashes at the end; it stands for the bytes read, and it
      ends at the first quote that no backslash escapes. */
  lemma ReadsLiteral(s: bytes, off: nat) returns (chars: seq<Char>, closed: bool)
    requires off < |s| && StringAt(s, off).Parsed?
    ensures LiteralAt(s, off, chars, closed)
    ensures StringAt(s, off) == Parsed(CharsMeaning(chars), off + |LiteralText(chars, closed)|)
  {
    hide At, CharsText, CharsMeaning, Scan, Decode, EndsAt;
    var e := Scan(s, off + 1).value.0;
    ScanFinds(s, off + 1);
    chars := DecodesChars(s, off + 1, e);
    closed := off + 1 + |CharsText(chars)| == e;
    AtSlice(s, off, 1);
    assert s[off..off + 1] == [0x22];
    AtSplit(s, off, [0x22], CharsText(chars));
    if closed {
      AtSlice(s, e, 1);
      assert s[e..e + 1] == [0x22];
      AtSplit(s, off, [0x22] + CharsText(chars), [0x22]);
    } else {
      assert [0x22] + CharsText(chars) + [] == [0x22] + CharsText(chars);
    }
  }

  /** And every such literal is read. */
  lemma LenientReads(s: bytes, off: nat, chars: seq<Char>, closed: bool)
    requires LiteralAt(s, off, chars, closed)
    ensures StringAt(s, off) == Parsed(CharsMeaning(chars), off + |LiteralText(chars, closed)|)
  {
    hide At, CharsText, CharsMeaning, Scan, Decode, EndsAt;
    AtBounds(s, off, LiteralText(chars, closed));
    ScanFinds(s, off + 1);
    if closed {
      AtSplit(s, off, [0x22] + CharsText(chars), [0x22]);
      AtSplit(s, off, [0x22], CharsText(chars));
      AtIndex(s, off, [0x22], 0);
      CharsDecode(s, off + 1, chars);
    } else {
      assert [0x22] + CharsText(chars) + [] == [0x22] + CharsText(chars);
      AtSplit(s, off, [0x22], CharsText(chars));
      AtIndex(s, off, [0x22], 0);
      OvershootDecodes(s, off + 1, chars);
    }
  }

  lemma {:induction false} OvershootDecodes(s: bytes, p: nat, chars: seq<Char>)
    requires Lenient(chars) && At(s, p, CharsText(chars)) && chars != [] && chars[|chars| - 1] == Short(0)
    ensures |CharsText(chars)| > 1
    ensures Decode(s, p, p + |CharsText(chars)| - 1) == Decoding(CharsMeaning(chars), None)
    decreases |chars|
  {
    hide At, Decode, CharText, CharMeaning, EscapeAt;
    AtBounds(s, p, CharsText(chars));
    if |chars| == 1 {
      assert chars == [Short(0)];
      OneChar(Short(0));
      LastQuote(s, p);
    } else {
      AtSplit(s, p, CharText(chars[0]), CharsText(chars[1..]));
      OvershootDecodes(s, p + |CharText(chars[0])|, chars[1..]);
      CharDecodes(s, p, p + |CharsText(chars)| - 1, chars[0]);
    }
  }

  lemma LastQuote(s: bytes, p: nat)
    requires At(s, p, CharText(Short(0)))
    ensures |CharText(Short(0))| == 2 && Decode(s, p, p + 1) == Decoding(CharMeaning(Short(0)), None)
  {
    hide At, Decode;
    ShortReads(s, p, 0);
    DecodeStep(s, p, p + 1);
    DecodeAtEnd(s, p + 2, p + 1);
  }

  /** A literal of RFC 8259 ends at its own closing quote. */
  lemma StrictLiteral(s: bytes, off: nat, chars: seq<Char>)
    requires Strict(chars) && At(s, off, LiteralText(chars, true))
    ensures LiteralAt(s, off, chars, true)
  {
    hide At, CharsText, Scan, EndsAt;
    AtBounds(s, off, LiteralText(chars, true));
    AtSplit(s, off, [QUOTE] + CharsText(chars), [QUOTE]);
    AtSplit(s, off, [QUOTE], CharsText(chars));
    AtIndex(s, off + |[QUOTE] + CharsText(chars)|, [QUOTE], 0);
    CharsScan(s, off + 1, chars);
    ScanFinds(s, off + 1);
  }

  /** Every literal of RFC 8259 is read, wherever it stands, as the bytes its characters stand for:
      whichever of its spellings each character has, in either case of its digits. */
  lemma LiteralReads(s: bytes, off: nat, chars: seq<Char>)
    requires Strict(chars) && At(s, off, LiteralText(chars, true))
    ensures StringAt(s, off) == Parsed(CharsMeaning(chars), off + |LiteralText(chars, true)|)
  {
    hide At, LiteralAt, LiteralText, StringAt, CharsMeaning;
    StrictLiteral(s, off, chars);
    LenientReads(s, off, chars, true);
  }

  // ---------------------------------------------------------------- literals by themselves

  /** A literal that the parser reads as it is written. */
  predicate GoodLiteral(chars: seq<Char>, closed: bool) {
    && Lenient(chars) && (!closed ==> chars != [] && chars[|chars| - 1] == Short(0))
    && EndsAt(LiteralText(chars, closed), 1, |LiteralText(chars, closed)| - 1)
  }

  lemma {:induction false} SlashesMoved(s: bytes, off: nat, w: bytes, k: nat)
    requires off + |w| <= |s| && s[off..off + |w|] == w && 1 <= k <= |w|
    ensures Slashes(s, off + 1, off + k) == Slashes(w, 1, k)
    decreases k
  {
    if k > 1 {
      assert w[k - 1] == s[off + k - 1];
      SlashesMoved(s, off, w, k - 1);
    }
  }

  lemma EndsMoved(s: bytes, off: nat, w: bytes)
    requires At(s, off, w) && |w| >= 2
    ensures EndsAt(w, 1, |w| - 1) <==> EndsAt(s, off + 1, off + |w| - 1)
  {
    forall k | 1 <= k < |w| ensures Unescaped(w, 1, k) <==> Unescaped(s, off + 1, off + k) {
      SlashesMoved(s, off, w, k);
    }
    if EndsAt(w, 1, |w| - 1) {
      var p := off + 1;
      forall k | p <= k < off + |w| - 1 ensures !Unescaped(s, p, k) {
        assert !Unescaped(w, 1, k - off);
      }
    }
    if EndsAt(s, off + 1, off + |w| - 1) {
      forall k | 1 <= k < |w| - 1 ensures !Unescaped(w, 1, k) {
        assert !Unescaped(s, off + 1, off + k);
      }
    }
  }

  lemma LiteralLength(chars: seq<Char>, closed: bool)
    requires Lenient(chars) && (closed || chars != [])
    ensures |LiteralText(chars, closed)| >= 2 && LiteralText(chars, closed)[0] == 0x22
  {
    hide CharText;
    if chars != [] {
      assert |CharsText(chars)| >= |CharText(chars[0])|;
    }
  }

  /** Being read does not depend on the place. */
  lemma LiteralAnywhere(s: bytes, off: nat, chars: seq<Char>, closed: bool)
    ensures LiteralAt(s, off, chars, closed) <==> GoodLiteral(chars, closed) && At(s, off, LiteralText(chars, closed))
  {
    hide At, EndsAt, LiteralText;
    if Lenient(chars) && (!closed ==> chars != []) && At(s, off, LiteralText(chars, closed)) {
      LiteralLength(chars, closed);
      EndsMoved(s, off, LiteralText(chars, closed));
    }
  }

  lemma StrictGood(chars: seq<Char>)
    requires Strict(chars)
    ensures GoodLiteral(chars, true)
  {
    hide EndsAt, LiteralText;
    var w := LiteralText(chars, true);
    AtSlice(w, 0, |w|);
    assert w[0..|w|] == w;
    StrictLiteral(w, 0, chars);
    LiteralAnywhere(w, 0, chars, true);
  }
}
