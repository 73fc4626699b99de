/** What the printer owes is a text of RFC 8259 for the tree, spelled out. */
module PrintedTexts {
  import opened Bytes
  import opened JsonTree
  import opened Utf8
  import opened Strings
  import opened Numbers
  import opened StringTexts
  import opened NumberTexts
  import opened JsonTexts

  // ---------------------------------------------------------------- strings

  /** How the printer spells a byte. */
  function CharOf(c: byte): Char {
    if c == 34 then Short(0)
    else if c == 92 then Short(1)
    else if c == 8 then Short(3)
    else if c == 12 then Short(4)
    else if c == 10 then Short(5)
    else if c == 13 then Short(6)
    else if c == 9 then Short(7)
    else if c < 32 then Unicode(c, [false, false, false, false])
    else Plain(c)
  }

  lemma CharOfByte(c: byte)
    ensures StrictChar(CharOf(c)) && CharText(CharOf(c)) == EscapeByte(c) && CharMeaning(CharOf(c)) == [c]
  {
    hide EncodeUtf8, UnitText;
    if CharOf(c).Unicode? {
      ControlOfByte(c);
    }
  }

  lemma ControlOfByte(c: byte)
    requires c < 32
    ensures Utf16Units(c) == [c] && EncodeUtf8(c) == [c]
    ensures UnitText(c, [false, false, false, false]) == [BACKSLASH, LOWER_U, 48, 48, HexDigit(c / 16), HexDigit(c % 16)]
  {
    hide Ascii;
    EncodeAscii(c);
    SlashU();
  }

  function CharsOf(t: bytes): (r: seq<Char>) {
    if t == [] then [] else [CharOf(t[0])] + CharsOf(t[1..])
  }

  lemma {:induction false} EscapeIsText(t: bytes)
    ensures Strict(CharsOf(t)) && CharsText(CharsOf(t)) == Escape(t) && CharsMeaning(CharsOf(t)) == t
  {
    hide CharText, CharMeaning, EscapeByte, CharOf, StrictChar;
    if t != [] {
      CharOfByte(t[0]);
      EscapeIsText(t[1..]);
      assert CharsOf(t)[1..] == CharsOf(t[1..]);
      assert t == [t[0]] + t[1..];
    }
  }

  function LiteralOf(t: bytes): Literal {
    Literal(CharsOf(t), true)
  }

  lemma LiteralIsText(t: bytes)
    ensures GoodLit(LiteralOf(t), true) && LitText(LiteralOf(t)) == RenderString(t)
    ensures Lenient(LiteralOf(t).chars) && CharsMeaning(LiteralOf(t).chars) == t
  {
    hide EndsAt, CharsText, CharsMeaning, StrictChar, LenientChar;
    EscapeIsText(t);
    StrictGood(CharsOf(t));
    StrictLit(LiteralOf(t));
  }

  // ---------------------------------------------------------------- numbers

  function NumberOf(n: int): NumberText {
    NumberText(n < 0, DigitsIn(Digits(if n < 0 then -n else n)), None, Absent)
  }

  lemma NumberIsText(n: int)
    ensures StrictNumber(NumberOf(n)) && NumText(NumberOf(n)) == Decimal(n) && NumMeaning(NumberOf(n)) == n as real
  {
    hide Digits, NatOf, DigitsValue, NumMeaning, NumText;
    var m := if n < 0 then -n else n;
    var ds := DigitsIn(Digits(m));
    assert ds != [] && DigitsText(ds) == Digits(m);
    assert Digits(m)[0] == 48 + ds[0];
    DigitsNoZero(m);
    PlainText(n < 0, ds);
    PlainNumber(n < 0, ds);
    DigitsTextValue(ds);
    DigitsAreValue(m);
  }

  // ---------------------------------------------------------------- values

  /** What stands before a member, and before the closing brace. */
  function Break(format: bool, depth: nat): bytes {
    Line(format) + Indent(format, depth)
  }

  function Line(format: bool): bytes {
    if format then [NEWLINE] else []
  }

  function Gap(format: bool): bytes {
    if format then [SPACE] else []
  }

  function Stop(format: bool): bytes {
    if format then [TAB] else []
  }

  /** The text the printer spells, with its blanks. */
  function TextOf(v: Json, format: bool, depth: nat): Text
    requires Printable(v) && RawFree(v)
    decreases v
  {
    match v
    case Null => NullWord
    case Bool(b) => if b then TrueWord else FalseWord
    case Number(d) => Num(NumberOf(d.Floor))
    case String(s) => Str(LiteralOf(s))
    case Array(items) => Arr([], ItemsOf(items, format, depth + 1, []))
    case Object(members) => Obj(Break(format, depth), PairsOf(members, format, depth + 1))
  }

  function ItemsOf(items: seq<Json>, format: bool, depth: nat, before: bytes): seq<Item>
    requires PrintableItems(items) && RawFreeItems(items)
    decreases items
  {
    if items == [] then []
    else [Item(before, TextOf(items[0], format, depth), [])] + ItemsOf(items[1..], format, depth, Gap(format))
  }

  function PairsOf(members: seq<Member>, format: bool, depth: nat): seq<Pair>
    requires PrintableMembers(members) && RawFreeMembers(members) && depth > 0
    decreases members
  {
    if members == [] then []
    else
      var m := members[0];
      var after := if members[1..] == [] then Break(format, depth - 1) else [];
      [Pair(Break(format, depth), LiteralOf(m.key), [], Stop(format), TextOf(m.value, format, depth), after)]
      + PairsOf(members[1..], format, depth)
  }

  lemma BreaksBlank(format: bool, depth: nat)
    ensures Blanks(Break(format, depth), true) && Blanks(Gap(format), true) && Blanks(Stop(format), true) && Blanks([], true)
  {
  }

  /** The printed text is a text of RFC 8259, for the tree that was printed, in the order it has, nested
      as deep, and with no number of more than 11 bytes. */
  lemma {:induction false} PrintedText(v: Json, format: bool, depth: nat)
    requires Printable(v) && RawFree(v)
    ensures var x := TextOf(v, format, depth);
      && Good(x, true) && Good(x, false) && Spell(x) == Render(v, format, depth) && Meaning(x) == v
      && ShortNumbers(x) && Levels(x) == Nesting(v)
    decreases v, 1
  {
    hide Ascii, GoodItems, GoodPairs, SpellItems, SpellPairs, RenderItems, RenderMembers, NumText, LiteralText, GoodLiteral;
    hide ItemsOf, PairsOf, MeaningItems, MeaningPairs, NumMeaning, Decimal, RenderString, CharsMeaning, Strict;
    Words();
    match v
    case Number(d) =>
      NumberIsText(d.Floor);
      DecimalShort(d.Floor);
    case String(s) => LiteralIsText(s);
    case Array(items) =>
      PrintedArray(v, format, depth);
    case Object(members) =>
      PrintedObject(v, format, depth);
    case _ =>
  }

  lemma Words()
    ensures Ascii("null") == NULL_TEXT && Ascii("false") == FALSE_TEXT && Ascii("true") == TRUE_TEXT
    ensures Ascii("[") == [LBRACKET] && Ascii("]") == [RBRACKET] && Ascii("{") == [LBRACE] && Ascii("}") == [RBRACE]
    ensures Ascii(",") == [COMMA] && Ascii(":") == [COLON]
  {
  }

  lemma Nothing()
    ensures GoodItems([], true) && GoodItems([], false) && MeaningItems([]) == [] && ShortItems([])
    ensures GoodPairs([], true) && GoodPairs([], false) && MeaningPairs([]) == [] && ShortPairs([])
    ensures LevelsItems([]) == 0 && LevelsPairs([]) == 0
  {
  }

  lemma {:induction false} PrintedArray(v: Json, format: bool, depth: nat)
    requires v.Array? && Printable(v) && RawFree(v)
    ensures var x := TextOf(v, format, depth);
      && Good(x, true) && Good(x, false) && Spell(x) == Render(v, format, depth) && Meaning(x) == v
      && ShortNumbers(x) && Levels(x) == Nesting(v)
    decreases v, 0
  {
    hide Ascii, GoodItems, SpellItems, RenderItems, Blanks, ItemsOf, MeaningItems, ShortItems, LevelsItems, NestingItems;
    Words();
    BreaksBlank(format, depth);
    BlankEither([]);
    Brackets(RenderItems(v.items, format, depth + 1));
    NoneRendered(format, depth);
    if v.items != [] {
      PrintedItems(v.items, format, depth + 1, []);
    } else {
      Nothing();
    }
  }

  lemma Brackets(t: bytes)
    ensures [LBRACKET] + ([] + t + [RBRACKET]) == [LBRACKET] + t + [RBRACKET]
    ensures [LBRACKET] + ([] + [RBRACKET]) == [LBRACKET] + [] + [RBRACKET]
  {
  }

  lemma NoneRendered(format: bool, depth: nat)
    ensures RenderItems([], format, depth + 1) == [] && ItemsOf([], format, depth + 1, []) == []
    ensures NestingItems([]) == 0 && NestingMembers([]) == 0
  {
  }

  lemma {:induction false} PrintedItems(items: seq<Json>, format: bool, depth: nat, before: bytes)
    requires items != [] && PrintableItems(items) && RawFreeItems(items) && Blanks(before, true)
    ensures var r := ItemsOf(items, format, depth, before);
      && r != [] && GoodItems(r, true) && GoodItems(r, false)
      && SpellItems(r) == before + RenderItems(items, format, depth) + [RBRACKET] && MeaningItems(r) == items
      && ShortItems(r) && LevelsItems(r) == NestingItems(items)
    decreases items, 0
  {
    hide Ascii, Good, Spell, Render, Meaning, Blanks, ShortNumbers, Levels, Nesting, TextOf, GoodItem, SpellItem;
    hide SpellItems, GoodItems, MeaningItems, ShortItems, LevelsItems, RenderItems, Gap;
    Nothing();
    Rendered(items, format, depth);
    BreaksBlank(format, depth);
    var r, rest := ItemsOf(items, format, depth, before), ItemsOf(items[1..], format, depth, Gap(format));
    var x := TextOf(items[0], format, depth);
    PrintedText(items[0], format, depth);
    assert r == [Item(before, x, [])] + rest && r[1..] == rest;
    ItemIsGood(r[0]);
    if items[1..] != [] {
      PrintedItems(items[1..], format, depth, Gap(format));
      Commas(before, Spell(x), Gap(format), RenderItems(items[1..], format, depth));
    } else {
      assert items == [items[0]];
    }
    ItemsUnfold(r);
  }

  lemma Rendered(items: seq<Json>, format: bool, depth: nat)
    requires items != [] && PrintableItems(items)
    ensures RenderItems([], format, depth) == []
    ensures RenderItems(items, format, depth) == Render(items[0], format, depth)
      + (if items[1..] == [] then [] else [COMMA] + Gap(format)) + RenderItems(items[1..], format, depth)
  {
    hide Render;
    assert [COMMA] + Gap(format) == ItemEnd(format, false);
  }

  /** A list of elements by its first. */
  lemma ItemsUnfold(r: seq<Item>)
    requires r != [] && GoodItem(r[0], true) && GoodItem(r[0], false)
    requires GoodItems(r[1..], true) && GoodItems(r[1..], false) && Good(r[0].value, false)
    ensures GoodItems(r, true) && GoodItems(r, false)
    ensures SpellItems(r) == SpellItem(r[0]) + if r[1..] == [] then [RBRACKET] else [COMMA] + SpellItems(r[1..])
    ensures MeaningItems(r) == [Meaning(r[0].value)] + MeaningItems(r[1..])
    ensures ShortItems(r) <==> ShortNumbers(r[0].value) && ShortItems(r[1..])
    ensures LevelsItems(r) == Max(Levels(r[0].value), LevelsItems(r[1..]))
  {
    hide Ascii, Good, Spell, Meaning, Blanks, ShortNumbers, Levels, GoodItem, SpellItem;
    Words();
  }

  lemma ItemIsGood(i: Item)
    requires Blanks(i.before, true) && i.after == [] && Good(i.value, true) && Good(i.value, false)
    ensures GoodItem(i, true) && GoodItem(i, false) && SpellItem(i) == i.before + Spell(i.value)
  {
    hide Good, Spell;
  }

  lemma BlankEither(t: bytes)
    requires Blanks(t, true)
    ensures Blanks(t, false)
  {
  }

  lemma Commas(before: bytes, t: bytes, gap: bytes, rest: bytes)
    ensures before + t + ([COMMA] + (gap + rest + [RBRACKET])) == before + (t + ([COMMA] + gap) + rest) + [RBRACKET]
  {
  }

  lemma {:induction false} PrintedObject(v: Json, format: bool, depth: nat)
    requires v.Object? && Printable(v) && RawFree(v)
    ensures var x := TextOf(v, format, depth);
      && Good(x, true) && Good(x, false) && Spell(x) == Render(v, format, depth) && Meaning(x) == v
      && ShortNumbers(x) && Levels(x) == Nesting(v)
    decreases v, 0
  {
    hide Ascii, GoodPairs, SpellPairs, RenderMembers, Indent, Blanks, PairsOf, MeaningPairs, ShortPairs, LevelsPairs;
    hide NestingMembers;
    Words();
    BreaksBlank(format, depth);
    BlankEither(Break(format, depth));
    NoPairs(format, depth);
    NoneRendered(format, depth);
    Braces([LBRACE], Line(format), RenderMembers(v.members, format, depth + 1), Indent(format, depth), [RBRACE]);
    if v.members == [] {
      Nothing();
    } else {
      PrintedPairs(v.members, format, depth + 1);
    }
  }

  lemma NoPairs(format: bool, depth: nat)
    ensures PairsOf([], format, depth + 1) == [] && RenderMembers([], format, depth + 1) == []
  {
  }

  lemma Braces(a: bytes, line: bytes, t: bytes, i: bytes, z: bytes)
    ensures a + (line + t + (i + z)) == (a + line) + t + (i + z)
    ensures a + ((line + i) + z) == (a + line) + [] + (i + z)
  {
  }

  lemma {:induction false} PrintedPairs(members: seq<Member>, format: bool, depth: nat)
    requires members != [] && PrintableMembers(members) && RawFreeMembers(members) && depth > 0
    ensures var r := PairsOf(members, format, depth);
      && r != [] && GoodPairs(r, true) && GoodPairs(r, false)
      && SpellPairs(r) == Line(format) + RenderMembers(members, format, depth) + (Indent(format, depth - 1) + [RBRACE])
      && MeaningPairs(r) == members && ShortPairs(r) && LevelsPairs(r) == NestingMembers(members)
    decreases members, 0
  {
    hide Ascii, Good, Spell, Render, Meaning, Blanks, ShortNumbers, Levels, Nesting, TextOf, Indent, RenderString, LitText;
    hide GoodLit, CharsMeaning, GoodPair, SpellPairs, GoodPairs, MeaningPairs, ShortPairs, LevelsPairs, RenderMembers, Lenient;
    Nothing();
    var m, last := members[0], members[1..] == [];
    var r, rest := PairsOf(members, format, depth), PairsOf(members[1..], format, depth);
    var x := TextOf(m.value, format, depth);
    PrintedText(m.value, format, depth);
    var after := if last then Break(format, depth - 1) else [];
    var i := Pair(Break(format, depth), LiteralOf(m.key), [], Stop(format), x, after);
    assert r == [i] + rest && r[1..] == rest && r[0] == i;
    PairIsGood(i, m.key, format, depth);
    if !last {
      PrintedPairs(members[1..], format, depth);
    } else {
      assert members == [m];
    }
    PairsUnfold(r);
    PairSpelled(members, format, depth);
  }

  /** A list of members by its first. */
  lemma PairsUnfold(r: seq<Pair>)
    requires r != [] && GoodPair(r[0], true) && GoodPair(r[0], false) && Lenient(r[0].key.chars)
    requires GoodPairs(r[1..], true) && GoodPairs(r[1..], false) && Good(r[0].value, false)
    ensures GoodPairs(r, true) && GoodPairs(r, false)
    ensures MeaningPairs(r) == [Member(CharsMeaning(r[0].key.chars), Meaning(r[0].value))] + MeaningPairs(r[1..])
    ensures ShortPairs(r) <==> ShortNumbers(r[0].value) && ShortPairs(r[1..])
    ensures LevelsPairs(r) == Max(Levels(r[0].value), LevelsPairs(r[1..]))
  {
    hide Good, Spell, Meaning, Blanks, ShortNumbers, Levels, GoodPair, CharsMeaning, Lenient;
  }

  lemma PairIsGood(i: Pair, key: bytes, format: bool, depth: nat)
    requires depth > 0 && i.before == Break(format, depth) && i.key == LiteralOf(key) && i.mid == [] && i.start == Stop(format)
    requires Good(i.value, true) && Good(i.value, false) && i.after in [Break(format, depth - 1), []]
    ensures GoodPair(i, true) && GoodPair(i, false) && Lenient(i.key.chars)
    ensures LitText(i.key) == RenderString(key) && CharsMeaning(i.key.chars) == key
  {
    hide Good, Blanks, GoodLiteral, Break, LiteralText, Strict, CharsMeaning, CharsOf;
    LiteralIsText(key);
    BreaksBlank(format, depth);
    BreaksBlank(format, depth - 1);
    BlankEither(i.before);
    BlankEither(i.start);
    BlankEither([]);
    BlankEither(i.after);
  }

  /** One member and the text behind it. */
  lemma {:induction false} PairSpelled(members: seq<Member>, format: bool, depth: nat)
    requires members != [] && PrintableMembers(members) && RawFreeMembers(members) && depth > 0
    requires var r := PairsOf(members, format, depth);
      && r != [] && GoodPairs(r, false) && GoodPair(r[0], false) && Lenient(r[0].key.chars)
      && LitText(r[0].key) == RenderString(members[0].key)
      && Spell(r[0].value) == Render(members[0].value, format, depth)
      && (members[1..] != [] ==>
            && r[1..] != [] && GoodPairs(r[1..], false)
            && SpellPairs(r[1..])
               == Line(format) + RenderMembers(members[1..], format, depth) + (Indent(format, depth - 1) + [RBRACE]))
    ensures SpellPairs(PairsOf(members, format, depth))
      == Line(format) + RenderMembers(members, format, depth) + (Indent(format, depth - 1) + [RBRACE])
  {
    hide Ascii, Good, GoodPairs, Spell, Render, Meaning, Blanks, Levels, Nesting, TextOf, Indent, RenderString, LitText, GoodLit;
    Words();
    var r := PairsOf(members, format, depth);
    var line, tabs, key, end := Line(format), Indent(format, depth), RenderString(members[0].key), KeyEnd(format);
    var value, back := Render(members[0].value, format, depth), Indent(format, depth - 1);
    assert [] + [COLON] + Stop(format) == end;
    if members[1..] == [] {
      assert r[1..] == [];
      LastPair(line, tabs, key, end, value, back, [RBRACE]);
      NoPairs(format, depth - 1);
    } else {
      var rest := RenderMembers(members[1..], format, depth);
      assert SpellPair(r[0]) == line + tabs + key + end + value;
      MorePairs(line, tabs, key, end, value, rest, back + [RBRACE]);
    }
  }

  lemma LastPair(line: bytes, tabs: bytes, key: bytes, end: bytes, value: bytes, back: bytes, z: bytes)
    ensures line + tabs + key + end + value + (line + back) + z
      == line + (tabs + key + end + value + ([] + line) + []) + (back + z)
  {
  }

  lemma MorePairs(line: bytes, tabs: bytes, key: bytes, end: bytes, value: bytes, rest: bytes, close: bytes)
    ensures line + tabs + key + end + value + ([COMMA] + (line + rest + close))
      == line + (tabs + key + end + value + ([COMMA] + line) + rest) + close
  {
  }

  lemma {:induction false} PrintableNulFree(v: Json)
    requires Printable(v)
    ensures NulFree(v)
    decreases v
  {
    match v
    case Array(items) => PrintableNulFreeItems(items);
    case Object(members) => PrintableNulFreeMembers(members);
    case _ =>
  }

  lemma {:induction false} PrintableNulFreeItems(items: seq<Json>)
    requires PrintableItems(items)
    ensures NulFreeItems(items)
    decreases items
  {
    if items != [] {
      PrintableNulFree(items[0]);
      PrintableNulFreeItems(items[1..]);
    }
  }

  lemma {:induction false} PrintableNulFreeMembers(members: seq<Member>)
    requires PrintableMembers(members)
    ensures NulFreeMembers(members)
    decreases members
  {
    if members != [] {
      PrintableNulFree(members[0].value);
      PrintableNulFreeMembers(members[1..]);
    }
  }
}
