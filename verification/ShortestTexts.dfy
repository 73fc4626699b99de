/** Unformatted printing: among the texts of RFC 8259 for a tree, with whole numbers written out, the
    printed one is the shortest, and the only one of its length but for the case of hexadecimal digits. */
module ShortestTexts {
  import opened Bytes
  import opened JsonTree
  import opened Utf8
  import opened Strings
  import opened Numbers
  import opened StringTexts
  import opened NumberTexts
  import opened JsonTexts
  import opened PrintedTexts

  // ---------------------------------------------------------------- what is compared

  predicate LowerChar(ch: Char) {
    ch.Unicode? ==> forall i :: 0 <= i < |ch.upper| ==> !ch.upper[i]
  }

  predicate LowerChars(chars: seq<Char>) {
    forall i :: 0 <= i < |chars| ==> LowerChar(chars[i])
  }

  /** All `\u` escapes are written in lower case. */
  predicate Lower(x: Text) {
    match x
    case Str(lit) => LowerChars(lit.chars)
    case Arr(_, items) => LowerItems(items)
    case Obj(_, pairs) => LowerPairs(pairs)
    case _ => true
  }

  predicate LowerItems(items: seq<Item>) {
    items == [] || (Lower(items[0].value) && LowerItems(items[1..]))
  }

  predicate LowerPairs(pairs: seq<Pair>) {
    pairs == [] || (LowerChars(pairs[0].key.chars) && Lower(pairs[0].value) && LowerPairs(pairs[1..]))
  }

  /** No number has a fraction or an exponent. */
  predicate Whole(x: Text) {
    match x
    case Num(n) => n.frac == None && n.exp == Absent
    case Arr(_, items) => WholeItems(items)
    case Obj(_, pairs) => WholePairs(pairs)
    case _ => true
  }

  predicate WholeItems(items: seq<Item>) {
    items == [] || (Whole(items[0].value) && WholeItems(items[1..]))
  }

  predicate WholePairs(pairs: seq<Pair>) {
    pairs == [] || (Whole(pairs[0].value) && WholePairs(pairs[1..]))
  }

  /** `t` is no longer than `u`, and the same if just as long, where the case of digits is the same. */
  predicate NoLonger(t: bytes, u: bytes, lower: bool) {
    |t| <= |u| && (|t| == |u| && lower ==> t == u)
  }

  lemma TwoParts(t: bytes, t': bytes, u: bytes, u': bytes, lower: bool)
    requires NoLonger(t, u, lower) && NoLonger(t', u', lower)
    ensures NoLonger(t + t', u + u', lower)
  {
  }

  lemma Weaken(t: bytes, u: bytes, lower: bool, lower': bool)
    requires NoLonger(t, u, lower) && (lower' ==> lower)
    ensures NoLonger(t, u, lower')
  {
  }

  // ---------------------------------------------------------------- strings

  lemma {:induction false} EscapeConcat(a: bytes, b: bytes)
    ensures Escape(a + b) == Escape(a) + Escape(b)
  {
    hide EscapeByte;
    if a == [] {
      assert a + b == b;
    } else {
      assert (a + b)[1..] == a[1..] + b;
      EscapeConcat(a[1..], b);
    }
  }

  lemma {:induction false} EscapeHigh(t: bytes)
    requires forall i :: 0 <= i < |t| ==> t[i] >= 128
    ensures Escape(t) == t
  {
    if t != [] {
      EscapeHigh(t[1..]);
    }
  }

  lemma EscapeOne(c: byte)
    ensures Escape([c]) == EscapeByte(c)
  {
    assert [c][1..] == [];
  }

  lemma EncodedHigh(c: int)
    requires IsScalar(c) && c >= 128
    ensures forall i :: 0 <= i < |EncodeUtf8(c)| ==> EncodeUtf8(c)[i] >= 128
  {
  }

  lemma CharShortest(ch: Char)
    requires StrictChar(ch)
    ensures NoLonger(Escape(CharMeaning(ch)), CharText(ch), LowerChar(ch))
  {
    match ch
    case Plain(b) => EscapeOne(b);
    case Short(k) => ShortShortest(k);
    case Unicode(c, upper) =>
      if c >= 128 {
        EncodedHigh(c);
        EscapeHigh(EncodeUtf8(c));
        UnitsInRange(c);
      } else {
        EncodeAscii(c);
        EscapeOne(c);
        ControlShortest(c, upper);
      }
  }

  lemma ShortShortest(k: nat)
    requires k < 8
    ensures NoLonger(Escape([ESCAPED[k]]), CharText(Short(k)), true)
  {
    EscapeOne(ESCAPED[k]);
  }

  lemma ControlShortest(c: byte, upper: seq<bool>)
    requires c < 128 && |upper| == 4
    ensures Utf16Units(c) == [c] && StrictChar(Unicode(c, upper))
    ensures NoLonger(EscapeByte(c), CharText(Unicode(c, upper)), LowerChar(Unicode(c, upper)))
  {
    if |EscapeByte(c)| == 6 && LowerChar(Unicode(c, upper)) {
      assert upper == [false, false, false, false];
      CharOfByte(c);
    }
  }

  lemma {:induction false} CharsShortest(chars: seq<Char>)
    requires Strict(chars)
    ensures NoLonger(Escape(CharsMeaning(chars)), CharsText(chars), LowerChars(chars))
  {
    hide CharText, CharMeaning, Escape, LowerChar, NoLonger;
    if chars == [] {
      NothingEscaped();
    } else {
      CharShortest(chars[0]);
      CharsShortest(chars[1..]);
      EscapeConcat(CharMeaning(chars[0]), CharsMeaning(chars[1..]));
      Weaken(Escape(CharMeaning(chars[0])), CharText(chars[0]), LowerChar(chars[0]), LowerChars(chars));
      Weaken(Escape(CharsMeaning(chars[1..])), CharsText(chars[1..]), LowerChars(chars[1..]), LowerChars(chars));
      TwoParts(Escape(CharMeaning(chars[0])), Escape(CharsMeaning(chars[1..])), CharText(chars[0]), CharsText(chars[1..]),
               LowerChars(chars));
    }
  }

  lemma NothingEscaped()
    ensures NoLonger(Escape([]), [], true)
  {
  }

  lemma LiteralShortest(lit: Literal)
    requires GoodLit(lit, true)
    ensures NoLonger(RenderString(CharsMeaning(lit.chars)), LitText(lit), LowerChars(lit.chars))
  {
    hide CharsMeaning, CharsText, Escape, GoodLiteral;
    StrictLit(lit);
    CharsShortest(lit.chars);
  }

  // ---------------------------------------------------------------- numbers

  lemma NumberShortest(n: NumberText)
    requires StrictNumber(n) && n.frac == None && n.exp == Absent
    ensures NumMeaning(n).Floor as real == NumMeaning(n)
    ensures NoLonger(Decimal(NumMeaning(n).Floor), NumText(n), true)
  {
    hide NatOf, NumMeaning, NumText, Digits;
    PlainNumber(n.negative, n.whole);
    PlainText(n.negative, n.whole);
    assert n == NumberText(n.negative, n.whole, None, Absent);
    DigitsUnique(n.whole);
    assert n.negative && NatOf(n.whole) == 0 ==> |Digits(0)| == 1 by { ZeroDigits(); }
  }

  lemma ZeroDigits()
    ensures |Digits(0)| == 1
  {
  }

  // ---------------------------------------------------------------- values

  /** What the theorem says of a text. */
  ghost predicate Shortest(x: Text, depth: nat)
    requires Good(x, false)
  {
    && Printable(Meaning(x)) && RawFree(Meaning(x))
    && NoLonger(Render(Meaning(x), false, depth), Spell(x), Lower(x))
  }

  lemma {:induction false} ValueShortest(x: Text, depth: nat)
    requires Good(x, true) && Good(x, false) && Whole(x) && Printable(Meaning(x))
    ensures Shortest(x, depth)
    decreases x, 1
  {
    hide Ascii, GoodItems, GoodPairs, SpellItems, SpellPairs, RenderItems, RenderMembers, NumText, LiteralText, GoodLiteral;
    hide MeaningItems, MeaningPairs, NumMeaning, Decimal, RenderString, CharsMeaning, Strict, LowerChars;
    Words();
    match x
    case Num(n) => NumberShortest(n);
    case Str(lit) => LiteralShortest(lit);
    case Arr(inner, items) => ArrayShortest(x, depth);
    case Obj(inner, pairs) => ObjectShortest(x, depth);
    case _ =>
  }

  lemma {:induction false} ArrayShortest(x: Text, depth: nat)
    requires x.Arr? && Good(x, true) && Good(x, false) && Whole(x) && Printable(Meaning(x))
    ensures Shortest(x, depth)
    decreases x, 0
  {
    hide Ascii, GoodItems, SpellItems, RenderItems, Blanks;
    Words();
    Nothing();
    NoneRendered(false, depth);
    Brackets(RenderItems(Meaning(x).items, false, depth + 1));
    if x.items != [] {
      ItemsShortest(x.items, depth + 1);
      var t := RenderItems(Meaning(x).items, false, depth + 1);
      assert [LBRACKET] + (t + [RBRACKET]) == [LBRACKET] + t + [RBRACKET];
    }
  }

  lemma {:induction false} ItemsShortest(items: seq<Item>, depth: nat)
    requires items != [] && GoodItems(items, true) && GoodItems(items, false) && WholeItems(items)
    requires PrintableItems(MeaningItems(items))
    ensures RawFreeItems(MeaningItems(items))
    ensures NoLonger(RenderItems(MeaningItems(items), false, depth) + [RBRACKET], SpellItems(items), LowerItems(items))
    decreases items, 0
  {
    hide Ascii, Good, Spell, Render, Meaning, Blanks, Whole, Lower, NoLonger;
    Words();
    Nothing();
    var i := items[0];
    assert GoodItem(i, true) && GoodItem(i, false);
    var vs := MeaningItems(items);
    assert vs[0] == Meaning(i.value) && vs[1..] == MeaningItems(items[1..]);
    ValueShortest(i.value, depth);
    Weaken(Render(vs[0], false, depth), Spell(i.value), Lower(i.value), LowerItems(items));
    Padded(Render(vs[0], false, depth), i.before, Spell(i.value), i.after, LowerItems(items));
    var t := Render(vs[0], false, depth);
    if items[1..] == [] {
      Same([RBRACKET]);
      TwoParts(t, [RBRACKET], SpellItem(i), [RBRACKET], LowerItems(items));
      assert t + [] + [] == t;
    } else {
      ItemsShortest(items[1..], depth);
      var rest := RenderItems(vs[1..], false, depth);
      Weaken(rest + [RBRACKET], SpellItems(items[1..]), LowerItems(items[1..]), LowerItems(items));
      Same([COMMA]);
      TwoParts([COMMA], rest + [RBRACKET], [COMMA], SpellItems(items[1..]), LowerItems(items));
      TwoParts(t, [COMMA] + (rest + [RBRACKET]), SpellItem(i), [COMMA] + SpellItems(items[1..]), LowerItems(items));
      assert t + ([COMMA] + (rest + [RBRACKET])) == t + [COMMA] + rest + [RBRACKET];
    }
  }

  lemma Same(t: bytes)
    ensures NoLonger(t, t, true) && NoLonger(t, t, false)
  {
  }

  /** Blanks only make a text longer. */
  lemma Padded(t: bytes, before: bytes, u: bytes, after: bytes, lower: bool)
    requires NoLonger(t, u, lower)
    ensures NoLonger(t, before + u + after, lower)
  {
  }

  lemma {:induction false} ObjectShortest(x: Text, depth: nat)
    requires x.Obj? && Good(x, true) && Good(x, false) && Whole(x) && Printable(Meaning(x))
    ensures Shortest(x, depth)
    decreases x, 0
  {
    hide Ascii, GoodPairs, SpellPairs, RenderMembers, Blanks;
    Words();
    Nothing();
    NoPairs(false, depth);
    var t := RenderMembers(Meaning(x).members, false, depth + 1);
    assert [LBRACE] + (t + [RBRACE]) == [LBRACE] + t + ([] + [RBRACE]);
    if x.pairs != [] {
      PairsShortest(x.pairs, depth + 1);
    }
  }

  lemma {:induction false} PairsShortest(pairs: seq<Pair>, depth: nat)
    requires pairs != [] && GoodPairs(pairs, true) && GoodPairs(pairs, false) && WholePairs(pairs)
    requires PrintableMembers(MeaningPairs(pairs))
    ensures RawFreeMembers(MeaningPairs(pairs))
    ensures NoLonger(RenderMembers(MeaningPairs(pairs), false, depth) + [RBRACE], SpellPairs(pairs), LowerPairs(pairs))
    decreases pairs, 0
  {
    hide Ascii, Good, Spell, Render, Meaning, Blanks, Whole, Lower, NoLonger, LitText, RenderString, GoodLit, LowerChars;
    hide CharsMeaning, SpellPair;
    Words();
    Nothing();
    var i := pairs[0];
    assert GoodPair(i, true) && GoodPair(i, false);
    LenientKey(i.key);
    var ms := MeaningPairs(pairs);
    assert ms[0] == Member(CharsMeaning(i.key.chars), Meaning(i.value)) && ms[1..] == MeaningPairs(pairs[1..]);
    ValueShortest(i.value, depth);
    PairShortest(i, depth, LowerPairs(pairs));
    var t := RenderString(ms[0].key) + [COLON] + Render(ms[0].value, false, depth);
    if pairs[1..] == [] {
      Same([RBRACE]);
      TwoParts(t, [RBRACE], SpellPair(i), [RBRACE], LowerPairs(pairs));
      assert [] + RenderString(ms[0].key) + [COLON] + Render(ms[0].value, false, depth) + ([] + []) + [] == t;
    } else {
      PairsShortest(pairs[1..], depth);
      var rest := RenderMembers(ms[1..], false, depth);
      Weaken(rest + [RBRACE], SpellPairs(pairs[1..]), LowerPairs(pairs[1..]), LowerPairs(pairs));
      Same([COMMA]);
      TwoParts([COMMA], rest + [RBRACE], [COMMA], SpellPairs(pairs[1..]), LowerPairs(pairs));
      TwoParts(t, [COMMA] + (rest + [RBRACE]), SpellPair(i), [COMMA] + SpellPairs(pairs[1..]), LowerPairs(pairs));
      Comma(RenderString(ms[0].key), Render(ms[0].value, false, depth), rest);
    }
  }

  lemma Comma(key: bytes, value: bytes, rest: bytes)
    ensures key + [COLON] + value + ([COMMA] + (rest + [RBRACE]))
      == [] + key + [COLON] + value + ([COMMA] + []) + rest + [RBRACE]
  {
  }

  lemma LenientKey(lit: Literal)
    requires GoodLit(lit, false)
    ensures Lenient(lit.chars)
  {
  }

  lemma PairShortest(i: Pair, depth: nat, lower: bool)
    requires GoodPair(i, true) && GoodPair(i, false) && Lenient(i.key.chars) && Shortest(i.value, depth)
    requires lower ==> LowerChars(i.key.chars) && Lower(i.value)
    ensures NoLonger(RenderString(CharsMeaning(i.key.chars)) + [COLON] + Render(Meaning(i.value), false, depth),
                     SpellPair(i), lower)
  {
    hide Good, Spell, Render, Meaning, Blanks, Lower, NoLonger, LitText, RenderString, GoodLit, LowerChars, CharsMeaning, Ascii;
    Words();
    LiteralShortest(i.key);
    var key, value := RenderString(CharsMeaning(i.key.chars)), Render(Meaning(i.value), false, depth);
    Weaken(key, LitText(i.key), LowerChars(i.key.chars), lower);
    Weaken(value, Spell(i.value), Lower(i.value), lower);
    Padded(key, i.before, LitText(i.key), [], lower);
    Same([COLON]);
    Padded([COLON], i.mid, [COLON], i.start, lower);
    Padded(value, [], Spell(i.value), i.after, lower);
    TwoParts(key, [COLON], i.before + LitText(i.key) + [], i.mid + [COLON] + i.start, lower);
    TwoParts(key + [COLON], value, i.before + LitText(i.key) + [] + (i.mid + [COLON] + i.start), [] + Spell(i.value) + i.after, lower);
    Parts(i.before, LitText(i.key), i.mid + [COLON] + i.start, Spell(i.value), i.after);
  }

  lemma Parts(before: bytes, key: bytes, mid: bytes, value: bytes, after: bytes)
    ensures before + key + [] + mid + ([] + value + after) == before + key + mid + value + after
  {
  }

  /** The unformatted text of a tree is the shortest of its texts by RFC 8259 in which whole numbers are
      written without fraction and exponent, and the only one of that length with `\u` escapes in lower
      case. */
  lemma UnformattedShortest(x: Text)
    requires Good(x, true) && Whole(x)
    ensures Good(x, false)
    ensures Printable(Meaning(x)) ==>
      && |Render(Meaning(x), false, 0)| <= |Spell(x)|
      && (|Render(Meaning(x), false, 0)| == |Spell(x)| && Lower(x) ==> Spell(x) == Render(Meaning(x), false, 0))
  {
    hide Good, Whole, Meaning, Render, Spell, Lower;
    StrictIsGood(x);
    if Printable(Meaning(x)) {
      ValueShortest(x, 0);
    }
  }
}
