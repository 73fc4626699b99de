/** The parser accepts exactly the texts of `JsonTexts`, for what they stand for. */
module AcceptedTexts {
  import opened Bytes
  import opened JsonTree
  import opened Strings
  import opened Numbers
  import opened Grammar
  import opened ParseFacts
  import opened StringTexts
  import opened NumberTexts
  import opened JsonTexts

  /** The tree as the parser stores it: its strings are C strings. */
  function Stored(x: Text): Json
    requires Good(x, false)
  {
    Cut(Meaning(x))
  }

  // ---------------------------------------------------------------- single tokens

  lemma Marks()
    ensures Ascii("[") == [LBRACKET] && Ascii("]") == [RBRACKET] && Ascii("{") == [LBRACE] && Ascii("}") == [RBRACE]
    ensures Ascii(",") == [COMMA] && Ascii(":") == [COLON]
    ensures Ascii("null") == NULL_TEXT && Ascii("false") == FALSE_TEXT && Ascii("true") == TRUE_TEXT
  {
  }

  /** First byte of a text. */
  predicate Leads(x: Text, b: byte) {
    match x
    case NullWord => b == 110
    case FalseWord => b == 102
    case TrueWord => b == 116
    case Num(_) => b == MINUS || IsDigit(b)
    case Str(_) => b == QUOTE
    case Arr(_, _) => b == LBRACKET
    case Obj(_, _) => b == LBRACE
  }

  lemma TextLeads(x: Text)
    requires Good(x, false)
    ensures Leads(x, Spell(x)[0]) && Spell(x)[0] > 32 && Spell(x)[0] !in [RBRACKET, RBRACE, COMMA]
  {
    hide Ascii, NumText, LiteralText, SpellItems, SpellPairs, GoodLiteral;
    Marks();
    match x
    case Num(n) => NumTextBytes(n);
    case Str(lit) =>
      assert GoodLiteral(lit.chars, lit.closed);
      assert Lenient(lit.chars) && (!lit.closed ==> lit.chars != []) by { LitShape(lit); }
      LiteralLength(lit.chars, lit.closed);
    case _ =>
  }

  lemma LitShape(lit: Literal)
    requires GoodLit(lit, false)
    ensures Lenient(lit.chars) && (!lit.closed ==> lit.chars != [])
  {
  }

  lemma LitReads(s: bytes, off: nat, lit: Literal)
    requires GoodLit(lit, false) && At(s, off, LitText(lit))
    ensures off < |s| && StringAt(s, off) == Parsed(CharsMeaning(lit.chars), off + |LitText(lit)|)
    ensures s[off] == QUOTE
  {
    hide At, LiteralAt, LiteralText, StringAt, GoodLiteral;
    LitShape(lit);
    LiteralLength(lit.chars, lit.closed);
    AtBounds(s, off, LitText(lit));
    AtIndex(s, off, LitText(lit), 0);
    LiteralAnywhere(s, off, lit.chars, lit.closed);
    LenientReads(s, off, lit.chars, lit.closed);
  }

  lemma WordReads(s: bytes, off: nat, depth: int, x: Text)
    requires x.NullWord? || x.FalseWord? || x.TrueWord?
    requires At(s, off, Spell(x))
    ensures ValueAt(s, off, depth) == Ok(Meaning(x), off + |Spell(x)|)
  {
    hide Ascii;
    Marks();
    AtIndex(s, off, Spell(x), 0);
    if At(s, off, NULL_TEXT) { AtIndex(s, off, NULL_TEXT, 0); }
    if At(s, off, FALSE_TEXT) { AtIndex(s, off, FALSE_TEXT, 0); }
  }

  /** Blanks from `a` up to the visible byte at `b`. */
  lemma SkipOver(s: bytes, a: nat, q: nat, t: bytes)
    requires At(s, a, t) && Blanks(t, false) && a <= q <= a + |t| < |s| && s[a + |t|] > 32
    ensures Skip(s, q) == a + |t|
  {
    BlankText(s, a, t);
    SkipTo(s, q, a + |t|);
  }

  // ---------------------------------------------------------------- elements and members

  /** No number byte, hence the end of any number, and visible or blank as the parser sees it. */
  lemma AfterValue(s: bytes, b: nat, t: bytes)
    requires At(s, b, t) && Blanks(t, false) && b + |t| < |s| && s[b + |t|] in {COMMA, RBRACKET, RBRACE, COLON}
    ensures Follow(s, b) && Skip(s, b) == b + |t|
  {
    SkipOver(s, b, b, t);
    if t != [] {
      AtIndex(s, b, t, 0);
    }
  }

  lemma GoodParts(items: seq<Item>, pairs: seq<Pair>)
    requires GoodItems(items, false) && GoodPairs(pairs, false)
    ensures items != [] ==> GoodItem(items[0], false) && GoodItems(items[1..], false)
    ensures pairs != [] ==> GoodPair(pairs[0], false) && GoodPairs(pairs[1..], false)
  {
  }

  /** Where the parts of an element stand: its value at `a`, the blanks behind it at `b`, and the comma
      or bracket at `c`. */
  lemma ItemPlaces(s: bytes, p: nat, items: seq<Item>) returns (a: nat, b: nat, c: nat)
    requires items != [] && GoodItems(items, false) && At(s, p, SpellItems(items))
    ensures GoodItem(items[0], false) && GoodItems(items[1..], false)
    ensures a == p + |items[0].before| && b == a + |Spell(items[0].value)| && c == b + |items[0].after|
    ensures At(s, p, items[0].before) && At(s, a, Spell(items[0].value)) && c < |s| && Follow(s, b) && Skip(s, b) == c
    ensures a < |s| && s[a] > 32 && Leads(items[0].value, s[a]) && s[a] != RBRACKET
    ensures p + |SpellItems(items)| == if items[1..] == [] then c + 1 else c + 1 + |SpellItems(items[1..])|
    ensures if items[1..] == [] then s[c] == RBRACKET else s[c] == COMMA && At(s, c + 1, SpellItems(items[1..]))
  {
    hide At, Spell, Good, GoodItems, Ascii, Skip, Blanks, Leads;
    GoodParts(items, []);
    var i := items[0];
    Marks();
    a := p + |i.before|;
    b := a + |Spell(i.value)|;
    c := b + |i.after|;
    AtSplit(s, p, i.before + Spell(i.value) + i.after, if items[1..] == [] then [RBRACKET] else [COMMA] + SpellItems(items[1..]));
    AtSplit(s, p, i.before + Spell(i.value), i.after);
    AtSplit(s, p, i.before, Spell(i.value));
    if items[1..] == [] {
      AtIndex(s, c, [RBRACKET], 0);
    } else {
      AtSplit(s, c, [COMMA], SpellItems(items[1..]));
      AtIndex(s, c, [COMMA], 0);
    }
    AfterValue(s, b, i.after);
    TextLeads(i.value);
    AtIndex(s, a, Spell(i.value), 0);
  }

  lemma SixParts(s: bytes, p: nat, t0: bytes, t1: bytes, t2: bytes, t3: bytes, t4: bytes, t5: bytes)
    requires At(s, p, t0 + t1 + t2 + t3 + t4 + t5)
    ensures At(s, p, t0) && At(s, p + |t0|, t1) && At(s, p + |t0| + |t1|, t2) && At(s, p + |t0| + |t1| + |t2|, t3)
    ensures At(s, p + |t0| + |t1| + |t2| + |t3|, t4) && At(s, p + |t0| + |t1| + |t2| + |t3| + |t4|, t5)
  {
    hide At;
    AtSplit(s, p, t0 + t1 + t2 + t3 + t4, t5);
    AtSplit(s, p, t0 + t1 + t2 + t3, t4);
    AtSplit(s, p, t0 + t1 + t2, t3);
    AtSplit(s, p, t0 + t1, t2);
    AtSplit(s, p, t0, t1);
  }

  function RestOfPairs(pairs: seq<Pair>): bytes
    requires pairs != [] && GoodPairs(pairs[1..], false)
  {
    if pairs[1..] == [] then [RBRACE] else [COMMA] + SpellPairs(pairs[1..])
  }

  lemma PairSplit(s: bytes, p: nat, pairs: seq<Pair>)
    requires pairs != [] && GoodPair(pairs[0], false) && GoodPairs(pairs[1..], false) && GoodPairs(pairs, false)
    requires Lenient(pairs[0].key.chars) && At(s, p, SpellPairs(pairs))
    ensures var i := pairs[0];
      var k := p + |i.before|;
      var m := k + |LitText(i.key)|;
      var a := m + |i.mid| + 1 + |i.start|;
      var b := a + |Spell(i.value)|;
      var c := b + |i.after|;
      && At(s, p, i.before) && At(s, k, LitText(i.key)) && At(s, m, i.mid + [COLON] + i.start)
      && At(s, a, Spell(i.value)) && At(s, b, i.after) && At(s, c, RestOfPairs(pairs))
      && p + |SpellPairs(pairs)| == c + |RestOfPairs(pairs)|
  {
    hide At, Spell, Good, GoodPairs, Ascii, LitText, GoodLit, Blanks;
    Marks();
    var i := pairs[0];
    SixParts(s, p, i.before, LitText(i.key), i.mid + [COLON] + i.start, Spell(i.value), i.after, RestOfPairs(pairs));
  }

  /** The parts of a member: key at `k`, colon at `o`, value at `a`, blanks at `b`, comma or brace at `c`. */
  lemma PairPlaces(s: bytes, p: nat, pairs: seq<Pair>) returns (k: nat, o: nat, a: nat, b: nat, c: nat)
    requires pairs != [] && GoodPairs(pairs, false) && At(s, p, SpellPairs(pairs))
    ensures GoodPair(pairs[0], false) && GoodPairs(pairs[1..], false) && Lenient(pairs[0].key.chars)
    ensures k == p + |pairs[0].before| && o == k + |LitText(pairs[0].key)| + |pairs[0].mid|
    ensures a == o + 1 + |pairs[0].start| && b == a + |Spell(pairs[0].value)| && c == b + |pairs[0].after|
    ensures At(s, p, pairs[0].before) && At(s, k, LitText(pairs[0].key)) && k < |s| && s[k] == QUOTE
    ensures o < |s| && s[o] == COLON && Skip(s, k + |LitText(pairs[0].key)|) == o && Skip(s, o + 1) == a
    ensures At(s, a, Spell(pairs[0].value)) && c < |s| && Follow(s, b) && Skip(s, b) == c
    ensures p + |SpellPairs(pairs)| == if pairs[1..] == [] then c + 1 else c + 1 + |SpellPairs(pairs[1..])|
    ensures if pairs[1..] == [] then s[c] == RBRACE else s[c] == COMMA && At(s, c + 1, SpellPairs(pairs[1..]))
  {
    hide At, Spell, Good, GoodPairs, Ascii, Skip, Blanks, LitText, GoodLit, Leads, Lenient, SpellPairs, StringAt, CharsMeaning, RestOfPairs;
    GoodParts([], pairs);
    var i := pairs[0];
    LitShape(i.key);
    k := p + |i.before|;
    o := k + |LitText(i.key)| + |i.mid|;
    a := o + 1 + |i.start|;
    b := a + |Spell(i.value)|;
    c := b + |i.after|;
    PairSplit(s, p, pairs);
    RestPlaces(s, c, pairs);
    AfterValue(s, b, i.after);
    LitReads(s, k, i.key);
    TextLeads(i.value);
    AtIndex(s, a, Spell(i.value), 0);
    ColonPlaces(s, k + |LitText(i.key)|, i.mid, i.start);
  }

  lemma RestPlaces(s: bytes, c: nat, pairs: seq<Pair>)
    requires pairs != [] && GoodPairs(pairs[1..], false) && At(s, c, RestOfPairs(pairs))
    ensures c < |s| && if pairs[1..] == [] then s[c] == RBRACE else s[c] == COMMA && At(s, c + 1, SpellPairs(pairs[1..]))
    ensures |RestOfPairs(pairs)| == if pairs[1..] == [] then 1 else 1 + |SpellPairs(pairs[1..])|
  {
    hide At, GoodPairs, SpellPairs;
    AtIndex(s, c, RestOfPairs(pairs), 0);
    if pairs[1..] != [] {
      AtSplit(s, c, [COMMA], SpellPairs(pairs[1..]));
    }
  }

  lemma ColonPlaces(s: bytes, p: nat, mid: bytes, start: bytes)
    requires At(s, p, mid + [COLON] + start) && Blanks(mid, false) && Blanks(start, false)
    requires p + |mid| + 1 + |start| < |s| && s[p + |mid| + 1 + |start|] > 32
    ensures s[p + |mid|] == COLON && Skip(s, p) == p + |mid| && Skip(s, p + |mid| + 1) == p + |mid| + 1 + |start|
  {
    hide At, Skip, Blanks;
    AtSplit(s, p, mid + [COLON], start);
    AtSplit(s, p, mid, [COLON]);
    AtIndex(s, p + |mid|, [COLON], 0);
    SkipOver(s, p, p, mid);
    SkipOver(s, p + |mid| + 1, p + |mid| + 1, start);
  }

  // ---------------------------------------------------------------- a fitting text is accepted

  /** The parser at a text in a buffer: the tree, and the position behind the text. */
  lemma {:induction false} ValueReads(s: bytes, off: nat, depth: int, x: Text)
    requires Good(x, false) && Fits(x, depth) && At(s, off, Spell(x)) && Follow(s, off + |Spell(x)|)
    ensures ValueAt(s, off, depth) == Ok(Stored(x), off + |Spell(x)|)
    decreases x, 1
  {
    hide At, ValueAt, ArrayAt, ObjectAt, StringAt, NumberAt, LiteralText, NumText, SpellItems, SpellPairs, Ascii;
    hide GoodItems, GoodPairs, CString, GoodLiteral;
    TextLeads(x);
    AtBounds(s, off, Spell(x));
    AtIndex(s, off, Spell(x), 0);
    Dispatch(s, off, depth);
    match x {
      case Num(n) => NumberReads(s, off, n);
      case Str(lit) => LitReads(s, off, lit);
      case Arr(inner, items) => ArrayReads(s, off, depth, x);
      case Obj(inner, pairs) => MapReads(s, off, depth, x);
      case _ => WordReads(s, off, depth, x);
    }
  }

  lemma {:induction false} ArrayReads(s: bytes, off: nat, depth: int, x: Text)
    requires x.Arr? && Good(x, false) && Fits(x, depth) && At(s, off, Spell(x))
    ensures ArrayAt(s, off, depth) == Ok(Stored(x), off + |Spell(x)|)
    decreases x, 0
  {
    hide At, ItemsAt, Skip, SpellItems, GoodItems, Ascii, Blanks;
    var q := ArrayOpens(s, off, x);
    if x.items != [] {
      ItemsRead(s, off + 1, q, depth + 1, x.items);
    }
  }

  /** Behind the opening bracket: the closing one, or the first element. */
  lemma ArrayOpens(s: bytes, off: nat, x: Text) returns (q: nat)
    requires x.Arr? && Good(x, false) && At(s, off, Spell(x))
    ensures off + |Spell(x)| <= |s| && off + 1 <= q < |s| && Skip(s, off + 1) == q && Skip(s, q) == q
    ensures x.items == [] ==> s[q] == RBRACKET && q + 1 == off + |Spell(x)|
    ensures x.items != [] ==>
      && s[q] != RBRACKET && At(s, off + 1, SpellItems(x.items)) && q == off + 1 + |x.items[0].before|
      && |Spell(x)| == 1 + |SpellItems(x.items)|
  {
    hide At, Skip, SpellItems, GoodItems, Ascii, Blanks;
    Marks();
    AtBounds(s, off, Spell(x));
    if x.items == [] {
      AtSplit(s, off, [LBRACKET], x.inner + [RBRACKET]);
      AtSplit(s, off + 1, x.inner, [RBRACKET]);
      q := off + 1 + |x.inner|;
      AtIndex(s, q, [RBRACKET], 0);
      SkipOver(s, off + 1, off + 1, x.inner);
      SkipTo(s, q, q);
    } else {
      AtSplit(s, off, [LBRACKET], SpellItems(x.items));
      GoodParts(x.items, []);
      var a, b, c := ItemPlaces(s, off + 1, x.items);
      q := a;
      BlanksOf(x.items[0]);
      SkipOver(s, off + 1, off + 1, x.items[0].before);
      SkipTo(s, q, q);
    }
  }

  lemma BlanksOf(i: Item)
    requires GoodItem(i, false)
    ensures Blanks(i.before, false) && Blanks(i.after, false) && Good(i.value, false)
  {
  }

  lemma {:induction false} ItemsRead(s: bytes, p: nat, q: nat, depth: int, items: seq<Item>)
    requires items != [] && GoodItems(items, false) && ShortItems(items) && depth + LevelsItems(items) <= NESTING_LIMIT
    requires At(s, p, SpellItems(items)) && p <= q <= p + |items[0].before| && q <= |s|
    ensures ItemsAt(s, q, depth) == Ok(CutItems(MeaningItems(items)), p + |SpellItems(items)|)
    decreases items, 0
  {
    hide At, ValueAt, Skip, SpellItems, Spell, Good, GoodItems, Blanks, Cut, Meaning, ShortNumbers, Leads;
    var a, b, c := ItemPlaces(s, p, items);
    var i := items[0];
    BlanksOf(i);
    SkipOver(s, p, q, i.before);
    ItemsFit(items, depth);
    ValueReads(s, a, depth, i.value);
    ItemsTree(items);
    if items[1..] != [] {
      ItemsRead(s, c + 1, c + 1, depth, items[1..]);
    }
  }

  lemma ItemsFit(items: seq<Item>, depth: int)
    requires items != [] && GoodItems(items, false)
    ensures GoodItem(items[0], false) && GoodItems(items[1..], false) && Good(items[0].value, false)
    ensures ShortItems(items) && depth + LevelsItems(items) <= NESTING_LIMIT
      <==> Fits(items[0].value, depth) && ShortItems(items[1..]) && depth + LevelsItems(items[1..]) <= NESTING_LIMIT
  {
    hide Blanks;
    assert GoodItem(items[0], false);
  }

  lemma ItemsTree(items: seq<Item>)
    requires items != [] && GoodItems(items, false)
    ensures GoodItem(items[0], false) && GoodItems(items[1..], false) && Good(items[0].value, false)
    ensures CutItems(MeaningItems(items)) == [Stored(items[0].value)] + CutItems(MeaningItems(items[1..]))
    ensures items[1..] == [] ==> CutItems(MeaningItems(items)) == [Stored(items[0].value)]
  {
    hide Blanks;
    assert GoodItem(items[0], false);
    assert MeaningItems(items)[1..] == MeaningItems(items[1..]);
  }

  lemma {:induction false} MapReads(s: bytes, off: nat, depth: int, x: Text)
    requires x.Obj? && Good(x, false) && Fits(x, depth) && At(s, off, Spell(x))
    ensures ObjectAt(s, off, depth) == Ok(Stored(x), off + |Spell(x)|)
    decreases x, 0
  {
    hide At, MembersAt, Skip, SpellPairs, GoodPairs, Ascii, Blanks;
    var q := ObjectOpens(s, off, x);
    if x.pairs != [] {
      PairsRead(s, off + 1, q - 1, depth + 1, x.pairs);
    }
  }

  /** Behind the opening brace: the closing one, or the first key. */
  lemma ObjectOpens(s: bytes, off: nat, x: Text) returns (q: nat)
    requires x.Obj? && Good(x, false) && At(s, off, Spell(x))
    ensures off + |Spell(x)| <= |s| && off + 1 <= q < |s| && Skip(s, off + 1) == q
    ensures x.pairs == [] ==> s[q] == RBRACE && q + 1 == off + |Spell(x)|
    ensures x.pairs != [] ==>
      && s[q] != RBRACE && At(s, off + 1, SpellPairs(x.pairs)) && q == off + 1 + |x.pairs[0].before|
      && |Spell(x)| == 1 + |SpellPairs(x.pairs)|
  {
    hide At, Skip, SpellPairs, GoodPairs, Ascii, Blanks;
    Marks();
    AtBounds(s, off, Spell(x));
    if x.pairs == [] {
      AtSplit(s, off, [LBRACE], x.inner + [RBRACE]);
      AtSplit(s, off + 1, x.inner, [RBRACE]);
      q := off + 1 + |x.inner|;
      AtIndex(s, q, [RBRACE], 0);
      SkipOver(s, off + 1, off + 1, x.inner);
    } else {
      AtSplit(s, off, [LBRACE], SpellPairs(x.pairs));
      GoodParts([], x.pairs);
      var k, o, a, b, c := PairPlaces(s, off + 1, x.pairs);
      q := k;
      BlanksBefore(x.pairs[0]);
      SkipOver(s, off + 1, off + 1, x.pairs[0].before);
    }
  }

  lemma BlanksBefore(i: Pair)
    requires GoodPair(i, false)
    ensures Blanks(i.before, false) && Good(i.value, false) && GoodLit(i.key, false)
  {
  }

  lemma {:induction false} PairsRead(s: bytes, p: nat, r: nat, depth: int, pairs: seq<Pair>)
    requires pairs != [] && GoodPairs(pairs, false) && ShortPairs(pairs) && depth + LevelsPairs(pairs) <= NESTING_LIMIT
    requires At(s, p, SpellPairs(pairs)) && p <= r + 1 <= p + |pairs[0].before| && r < |s|
    ensures MembersAt(s, r, depth) == Ok(CutMembers(MeaningPairs(pairs)), p + |SpellPairs(pairs)|)
    decreases pairs, 0
  {
    hide At, ValueAt, Skip, SpellPairs, Spell, Good, GoodPairs, Blanks, Cut, Meaning, ShortNumbers, StringAt, LitText, GoodLit;
    hide CharsMeaning, CString, Lenient, MemberAt;
    var k, o, a, b, c := PairPlaces(s, p, pairs);
    var i := pairs[0];
    BlanksBefore(i);
    SkipOver(s, p, r + 1, i.before);
    PairsFit(pairs, depth);
    LitReads(s, k, i.key);
    ValueReads(s, a, depth, i.value);
    PairReads(s, r, depth, k, CharsMeaning(i.key.chars), k + |LitText(i.key)|, o, a, Stored(i.value), b);
    PairsTree(pairs);
    if pairs[1..] != [] {
      PairsRead(s, c + 1, c, depth, pairs[1..]);
    }
  }

  /** One member, put together from what is read at its places. */
  lemma PairReads(s: bytes, r: nat, depth: int, k: nat, key: bytes, n: nat, o: nat, a: nat, v: Json, b: nat)
    requires r + 1 < |s| && Skip(s, r + 1) == k < |s| && StringAt(s, k) == Parsed(key, n) && Skip(s, n) == o
    requires ByteIs(s, o, COLON) && Skip(s, o + 1) == a && ValueAt(s, a, depth) == Ok(v, b)
    ensures MemberAt(s, r, depth) == Ok(Member(CString(key), v), Skip(s, b))
  {
    hide Skip, StringAt, ValueAt, CString;
  }

  lemma PairsFit(pairs: seq<Pair>, depth: int)
    requires pairs != [] && GoodPairs(pairs, false)
    ensures GoodPair(pairs[0], false) && GoodPairs(pairs[1..], false) && Good(pairs[0].value, false)
    ensures ShortPairs(pairs) && depth + LevelsPairs(pairs) <= NESTING_LIMIT
      <==> Fits(pairs[0].value, depth) && ShortPairs(pairs[1..]) && depth + LevelsPairs(pairs[1..]) <= NESTING_LIMIT
  {
    hide Blanks, GoodLit;
    assert GoodPair(pairs[0], false);
  }

  lemma PairsTree(pairs: seq<Pair>)
    requires pairs != [] && GoodPairs(pairs, false)
    ensures GoodPair(pairs[0], false) && GoodPairs(pairs[1..], false) && Good(pairs[0].value, false)
    ensures Lenient(pairs[0].key.chars)
    ensures CutMembers(MeaningPairs(pairs))
      == [Member(CString(CharsMeaning(pairs[0].key.chars)), Stored(pairs[0].value))] + CutMembers(MeaningPairs(pairs[1..]))
    ensures pairs[1..] == [] ==>
      CutMembers(MeaningPairs(pairs)) == [Member(CString(CharsMeaning(pairs[0].key.chars)), Stored(pairs[0].value))]
  {
    hide Blanks, GoodLiteral, CString, CharsMeaning;
    assert GoodPair(pairs[0], false);
    LitShape(pairs[0].key);
    assert MeaningPairs(pairs)[1..] == MeaningPairs(pairs[1..]);
  }

  // ---------------------------------------------------------------- a text that does not fit is not

  /** A number of more than 63 bytes is not read to its end; nothing else that does not fit is read. */
  lemma {:induction false} ValueRefused(s: bytes, off: nat, depth: int, x: Text)
    requires Good(x, false) && !Fits(x, depth) && depth <= NESTING_LIMIT
    requires At(s, off, Spell(x)) && Follow(s, off + |Spell(x)|)
    ensures var r := ValueAt(s, off, depth); r.Fail? || (x.Num? && r.next < |s| && IsNumberByte(s[r.next]))
    ensures ValueAt(s, off, depth).Ok? ==> ValueAt(s, off, depth).next != off + |Spell(x)|
    decreases x, 1
  {
    hide At, ValueAt, ArrayAt, ObjectAt, StringAt, NumberAt, LiteralText, NumText, SpellItems, SpellPairs, Ascii;
    hide GoodItems, GoodPairs, CString, GoodLiteral;
    TextLeads(x);
    AtBounds(s, off, Spell(x));
    AtIndex(s, off, Spell(x), 0);
    Dispatch(s, off, depth);
    match x {
      case Num(n) => NumberReads(s, off, n);
      case Arr(inner, items) => ArrayRefused(s, off, depth, x);
      case Obj(inner, pairs) => MapRefused(s, off, depth, x);
      case _ =>
    }
  }

  lemma {:induction false} ArrayRefused(s: bytes, off: nat, depth: int, x: Text)
    requires x.Arr? && Good(x, false) && !Fits(x, depth) && depth <= NESTING_LIMIT && At(s, off, Spell(x))
    ensures off < |s| && ArrayAt(s, off, depth).Fail?
    decreases x, 0
  {
    hide At, ItemsAt, Skip, SpellItems, GoodItems, Ascii, Blanks;
    var q := ArrayOpens(s, off, x);
    NothingFits(depth);
    if depth < NESTING_LIMIT && x.items != [] {
      ItemsRefused(s, off + 1, q, depth + 1, x.items);
    }
  }

  lemma {:induction false} ItemsRefused(s: bytes, p: nat, q: nat, depth: int, items: seq<Item>)
    requires items != [] && GoodItems(items, false) && depth <= NESTING_LIMIT
    requires !(ShortItems(items) && depth + LevelsItems(items) <= NESTING_LIMIT)
    requires At(s, p, SpellItems(items)) && p <= q <= p + |items[0].before| && q <= |s|
    ensures ItemsAt(s, q, depth).Fail?
    decreases items, 0
  {
    hide At, ValueAt, Skip, SpellItems, Spell, Good, GoodItems, Blanks, Cut, Meaning, ShortNumbers, Leads, Fits, ShortItems;
    hide LevelsItems, IsNumberByte;
    var a, b, c := ItemPlaces(s, p, items);
    var i := items[0];
    BlanksOf(i);
    SkipOver(s, p, q, i.before);
    ItemsFit(items, depth);
    if Fits(i.value, depth) {
      ValueReads(s, a, depth, i.value);
      NothingFits(depth);
      ItemsRefused(s, c + 1, c + 1, depth, items[1..]);
    } else {
      ValueRefused(s, a, depth, i.value);
      if ValueAt(s, a, depth).Ok? {
        NumberStays(s, ValueAt(s, a, depth).next);
      }
    }
  }

  lemma NothingFits(depth: int)
    requires depth <= NESTING_LIMIT
    ensures ShortItems([]) && depth + LevelsItems([]) <= NESTING_LIMIT
    ensures ShortPairs([]) && depth + LevelsPairs([]) <= NESTING_LIMIT
  {
  }

  /** A number byte is no blank, no comma and no bracket. */
  lemma NumberStays(s: bytes, n: nat)
    requires n < |s| && IsNumberByte(s[n])
    ensures Skip(s, n) == n && s[n] !in {COMMA, RBRACKET, RBRACE}
  {
    SkipTo(s, n, n);
  }

  lemma {:induction false} MapRefused(s: bytes, off: nat, depth: int, x: Text)
    requires x.Obj? && Good(x, false) && !Fits(x, depth) && depth <= NESTING_LIMIT && At(s, off, Spell(x))
    ensures off < |s| && ObjectAt(s, off, depth).Fail?
    decreases x, 0
  {
    hide At, MembersAt, Skip, SpellPairs, GoodPairs, Ascii, Blanks;
    var q := ObjectOpens(s, off, x);
    NothingFits(depth);
    if depth < NESTING_LIMIT && x.pairs != [] {
      PairsRefused(s, off + 1, q - 1, depth + 1, x.pairs);
    }
  }

  lemma {:induction false} PairsRefused(s: bytes, p: nat, r: nat, depth: int, pairs: seq<Pair>)
    requires pairs != [] && GoodPairs(pairs, false) && depth <= NESTING_LIMIT
    requires !(ShortPairs(pairs) && depth + LevelsPairs(pairs) <= NESTING_LIMIT)
    requires At(s, p, SpellPairs(pairs)) && p <= r + 1 <= p + |pairs[0].before| && r < |s|
    ensures MembersAt(s, r, depth).Fail?
    decreases pairs, 0
  {
    hide At, ValueAt, Skip, SpellPairs, Spell, Good, GoodPairs, Blanks, Cut, Meaning, ShortNumbers, StringAt, LitText, GoodLit;
    hide CharsMeaning, CString, Lenient, MemberAt, Fits, ShortPairs, LevelsPairs, IsNumberByte;
    var k, o, a, b, c := PairPlaces(s, p, pairs);
    var i := pairs[0];
    BlanksBefore(i);
    SkipOver(s, p, r + 1, i.before);
    PairsFit(pairs, depth);
    LitReads(s, k, i.key);
    var key, n := CharsMeaning(i.key.chars), k + |LitText(i.key)|;
    if Fits(i.value, depth) {
      ValueReads(s, a, depth, i.value);
      PairReads(s, r, depth, k, key, n, o, a, Stored(i.value), b);
      NothingFits(depth);
      PairsRefused(s, c + 1, c, depth, pairs[1..]);
    } else {
      ValueRefused(s, a, depth, i.value);
      if ValueAt(s, a, depth).Ok? {
        var v := ValueAt(s, a, depth);
        PairReads(s, r, depth, k, key, n, o, a, v.value, v.next);
        NumberStays(s, v.next);
      } else {
        PairFails(s, r, depth, k, n, o, a);
      }
    }
  }

  lemma PairFails(s: bytes, r: nat, depth: int, k: nat, n: nat, o: nat, a: nat)
    requires r + 1 < |s| && Skip(s, r + 1) == k < |s| && StringAt(s, k).Parsed? && StringAt(s, k).next == n && Skip(s, n) == o
    requires ByteIs(s, o, COLON) && Skip(s, o + 1) == a && ValueAt(s, a, depth).Fail?
    ensures MemberAt(s, r, depth).Fail?
  {
    hide Skip, StringAt, ValueAt, CString;
  }

  // ---------------------------------------------------------------- what is accepted is such a text

  lemma BlanksBetween(s: bytes, a: nat, b: nat)
    requires a <= b <= |s| && forall i :: a <= i < b ==> s[i] <= 32
    ensures Blanks(s[a..b], false) && At(s, a, s[a..b])
  {
  }

  lemma LitIsRead(s: bytes, k: nat) returns (lit: Literal)
    requires k < |s| && StringAt(s, k).Parsed?
    ensures GoodLit(lit, false) && Lenient(lit.chars) && At(s, k, LitText(lit))
    ensures StringAt(s, k) == Parsed(CharsMeaning(lit.chars), k + |LitText(lit)|)
  {
    hide At, LiteralAt, LiteralText, StringAt, GoodLiteral;
    var chars, closed := ReadsLiteral(s, k);
    LiteralAnywhere(s, k, chars, closed);
    lit := Literal(chars, closed);
    LitShape(lit);
  }

  /** A value the parser accepts is a fitting text, and what is stored is what that stands for. */
  lemma {:induction false} ReadsValue(s: bytes, off: nat, depth: int) returns (x: Text)
    requires off <= |s| && depth <= NESTING_LIMIT && ValueAt(s, off, depth).Ok?
    ensures Good(x, false) && Fits(x, depth) && At(s, off, Spell(x))
    ensures ValueAt(s, off, depth) == Ok(Stored(x), off + |Spell(x)|)
    decreases |s| - off, 3
  {
    hide At, ArrayAt, ObjectAt, StringAt, NumberAt, LiteralText, NumText, SpellItems, SpellPairs, Ascii;
    hide GoodItems, GoodPairs, CString, GoodLiteral;
    Marks();
    if At(s, off, NULL_TEXT) {
      x := NullWord;
    } else if At(s, off, FALSE_TEXT) {
      x := FalseWord;
    } else if At(s, off, TRUE_TEXT) {
      x := TrueWord;
    } else if ByteIs(s, off, QUOTE) {
      var lit := LitIsRead(s, off);
      x := Str(lit);
    } else if s[off] == MINUS || IsDigit(s[off]) {
      var n := ReadsNumberAt(s, off);
      x := Num(n);
    } else if ByteIs(s, off, LBRACKET) {
      x := ReadsArray(s, off, depth);
    } else {
      x := ReadsObject(s, off, depth);
    }
  }

  lemma {:induction false} ReadsArray(s: bytes, off: nat, depth: int) returns (x: Text)
    requires off < |s| && s[off] == LBRACKET && depth <= NESTING_LIMIT && ArrayAt(s, off, depth).Ok?
    ensures x.Arr? && Good(x, false) && Fits(x, depth) && At(s, off, Spell(x))
    ensures ArrayAt(s, off, depth) == Ok(Stored(x), off + |Spell(x)|)
    decreases |s| - off, 2
  {
    hide At, ItemsAt, Skip, SpellItems, GoodItems, Ascii, Blanks;
    var q := Skip(s, off + 1);
    Marks();
    OneByte(s, off);
    if ByteIs(s, q, RBRACKET) {
      x := Arr(s[off + 1..q], []);
      OneByte(s, q);
      BlanksBetween(s, off + 1, q);
      AtSplit(s, off + 1, x.inner, [RBRACKET]);
      AtSplit(s, off, [LBRACKET], x.inner + [RBRACKET]);
      NoItems();
    } else {
      var items := ReadsItems(s, off + 1, q, depth + 1);
      x := Arr([], items);
      AtSplit(s, off, [LBRACKET], SpellItems(items));
      NoBlanks();
    }
  }

  lemma OneByte(s: bytes, p: nat)
    requires p < |s|
    ensures At(s, p, [s[p]])
  {
  }

  lemma NoBlanks()
    ensures Blanks([], false)
  {
  }

  lemma NoItems()
    ensures GoodItems([], false) && GoodPairs([], false)
    ensures CutItems(MeaningItems([])) == [] && CutMembers(MeaningPairs([])) == []
    ensures ShortItems([]) && LevelsItems([]) == 0 && ShortPairs([]) && LevelsPairs([]) == 0
  {
  }

  /** From `p`, with nothing but blanks up to `q`, where the loop stands. */
  lemma {:induction false} ReadsItems(s: bytes, p: nat, q: nat, depth: int) returns (items: seq<Item>)
    requires p <= q <= |s| && depth <= NESTING_LIMIT && ItemsAt(s, q, depth).Ok? && forall i :: p <= i < q ==> s[i] <= 32
    ensures items != [] && GoodItems(items, false) && ShortItems(items) && depth + LevelsItems(items) <= NESTING_LIMIT
    ensures At(s, p, SpellItems(items))
    ensures ItemsAt(s, q, depth) == Ok(CutItems(MeaningItems(items)), p + |SpellItems(items)|)
    decreases |s| - q, 4
  {
    hide At, ValueAt, Skip, SpellItems, Spell, GoodItems, Good, Blanks, Cut, Meaning, ShortNumbers, ShortItems, LevelsItems, Fits;
    hide CutItems, MeaningItems;
    var a := Skip(s, q);
    var x := ReadsValue(s, a, depth);
    var b := a + |Spell(x)|;
    var c := Skip(s, b);
    BlanksBetween(s, p, a);
    BlanksBetween(s, b, c);
    var i := Item(s[p..a], x, s[b..c]);
    var rest: seq<Item> := [];
    NoItems();
    if ByteIs(s, c, COMMA) {
      rest := ReadsItems(s, c + 1, c + 1, depth);
    }
    items := [i] + rest;
    assert items[1..] == rest;
    ItemsBuilt(s, p, items, c);
    ItemsFit(items, depth);
    ItemsTree(items);
  }

  lemma ItemsBuilt(s: bytes, p: nat, items: seq<Item>, c: nat)
    requires items != [] && GoodItem(items[0], false) && GoodItems(items[1..], false)
    requires At(s, p, items[0].before) && At(s, p + |items[0].before|, Spell(items[0].value))
    requires At(s, p + |items[0].before| + |Spell(items[0].value)|, items[0].after)
    requires c == p + |items[0].before| + |Spell(items[0].value)| + |items[0].after| && c < |s|
    requires if items[1..] == [] then s[c] == RBRACKET else s[c] == COMMA && At(s, c + 1, SpellItems(items[1..]))
    ensures GoodItems(items, false) && At(s, p, SpellItems(items))
    ensures |SpellItems(items)| == c - p + 1 + if items[1..] == [] then 0 else |SpellItems(items[1..])|
  {
    hide At, Spell, Good, Ascii, Blanks;
    var i := items[0];
    Marks();
    OneByte(s, c);
    AtSplit(s, p, i.before, Spell(i.value));
    AtSplit(s, p, i.before + Spell(i.value), i.after);
    var rest := if items[1..] == [] then [RBRACKET] else [COMMA] + SpellItems(items[1..]);
    if items[1..] != [] {
      AtSplit(s, c, [COMMA], SpellItems(items[1..]));
    }
    AtSplit(s, p, i.before + Spell(i.value) + i.after, rest);
  }

  lemma {:induction false} ReadsObject(s: bytes, off: nat, depth: int) returns (x: Text)
    requires off < |s| && s[off] == LBRACE && depth <= NESTING_LIMIT && ObjectAt(s, off, depth).Ok?
    ensures x.Obj? && Good(x, false) && Fits(x, depth) && At(s, off, Spell(x))
    ensures ObjectAt(s, off, depth) == Ok(Stored(x), off + |Spell(x)|)
    decreases |s| - off, 2
  {
    hide At, MembersAt, Skip, SpellPairs, GoodPairs, Ascii, Blanks;
    var q := Skip(s, off + 1);
    Marks();
    OneByte(s, off);
    if ByteIs(s, q, RBRACE) {
      x := Obj(s[off + 1..q], []);
      OneByte(s, q);
      BlanksBetween(s, off + 1, q);
      AtSplit(s, off + 1, x.inner, [RBRACE]);
      AtSplit(s, off, [LBRACE], x.inner + [RBRACE]);
      NoItems();
    } else {
      var pairs := ReadsPairs(s, off + 1, q - 1, depth + 1);
      x := Obj([], pairs);
      AtSplit(s, off, [LBRACE], SpellPairs(pairs));
      NoBlanks();
    }
  }

  /** The parts of a member that was read. */
  lemma MemberRead(s: bytes, r: nat, depth: int) returns (k: nat, n: nat, o: nat, a: nat)
    requires r < |s| && MemberAt(s, r, depth).Ok?
    ensures r + 1 < |s| && k == Skip(s, r + 1) && r < k < |s| && StringAt(s, k).Parsed? && n == StringAt(s, k).next
    ensures k < n <= |s| && o == Skip(s, n) && n <= o < |s| && s[o] == COLON && a == Skip(s, o + 1) && o < a <= |s|
    ensures ValueAt(s, a, depth).Ok?
    ensures MemberAt(s, r, depth)
      == Ok(Member(CString(StringAt(s, k).text), ValueAt(s, a, depth).value), Skip(s, ValueAt(s, a, depth).next))
  {
    hide Skip, StringAt, ValueAt, CString;
    k := Skip(s, r + 1);
    n := StringAt(s, k).next;
    o := Skip(s, n);
    a := Skip(s, o + 1);
  }

  /** From `p`, with nothing but blanks up to and with `r`, where the loop stands. */
  lemma {:induction false} ReadsPairs(s: bytes, p: nat, r: nat, depth: int) returns (pairs: seq<Pair>)
    requires p <= r + 1 && r < |s| && depth <= NESTING_LIMIT && MembersAt(s, r, depth).Ok?
    requires forall i :: p <= i < r + 1 ==> s[i] <= 32
    ensures pairs != [] && GoodPairs(pairs, false) && ShortPairs(pairs) && depth + LevelsPairs(pairs) <= NESTING_LIMIT
    ensures At(s, p, SpellPairs(pairs))
    ensures MembersAt(s, r, depth) == Ok(CutMembers(MeaningPairs(pairs)), p + |SpellPairs(pairs)|)
    decreases |s| - r, 1
  {
    hide At, ValueAt, Skip, SpellPairs, Spell, GoodPairs, Good, Blanks, Cut, Meaning, ShortNumbers, ShortPairs, LevelsPairs;
    hide CutMembers, MeaningPairs, StringAt, CString, LitText, GoodLit, Lenient, CharsMeaning, MemberAt, Fits;
    var k, n, o, a := MemberRead(s, r, depth);
    var key := LitIsRead(s, k);
    var x := ReadsValue(s, a, depth);
    var b := a + |Spell(x)|;
    var c := Skip(s, b);
    var i := Pair(s[p..k], key, s[n..o], s[o + 1..a], x, s[b..c]);
    PairBlanks(s, p, k, n, o, a, b, c);
    var rest: seq<Pair> := [];
    NoItems();
    if ByteIs(s, c, COMMA) {
      rest := ReadsPairs(s, c + 1, c, depth);
    }
    pairs := [i] + rest;
    assert pairs[1..] == rest;
    PairsBuilt(s, p, pairs, c);
    PairsFit(pairs, depth);
    PairsTree(pairs);
  }

  lemma PairBlanks(s: bytes, p: nat, k: nat, n: nat, o: nat, a: nat, b: nat, c: nat)
    requires p <= k <= n <= o < a <= b <= c <= |s| && s[o] == COLON
    requires (forall i :: p <= i < k ==> s[i] <= 32) && (forall i :: n <= i < o ==> s[i] <= 32)
    requires (forall i :: o + 1 <= i < a ==> s[i] <= 32) && (forall i :: b <= i < c ==> s[i] <= 32)
    ensures Blanks(s[p..k], false) && At(s, p, s[p..k]) && Blanks(s[n..o], false) && Blanks(s[o + 1..a], false)
    ensures At(s, n, s[n..o] + [COLON] + s[o + 1..a]) && Blanks(s[b..c], false) && At(s, b, s[b..c])
  {
    hide At, Blanks;
    BlanksBetween(s, p, k);
    BlanksBetween(s, n, o);
    BlanksBetween(s, o + 1, a);
    BlanksBetween(s, b, c);
    OneByte(s, o);
    AtSplit(s, n, s[n..o], [COLON]);
    AtSplit(s, n, s[n..o] + [COLON], s[o + 1..a]);
  }

  lemma SixTogether(s: bytes, p: nat, t0: bytes, t1: bytes, t2: bytes, t3: bytes, t4: bytes, t5: bytes)
    requires At(s, p, t0) && At(s, p + |t0|, t1) && At(s, p + |t0| + |t1|, t2) && At(s, p + |t0| + |t1| + |t2|, t3)
    requires At(s, p + |t0| + |t1| + |t2| + |t3|, t4) && At(s, p + |t0| + |t1| + |t2| + |t3| + |t4|, t5)
    ensures At(s, p, t0 + t1 + t2 + t3 + t4 + t5)
  {
    hide At;
    AtSplit(s, p, t0, t1);
    AtSplit(s, p, t0 + t1, t2);
    AtSplit(s, p, t0 + t1 + t2, t3);
    AtSplit(s, p, t0 + t1 + t2 + t3, t4);
    AtSplit(s, p, t0 + t1 + t2 + t3 + t4, t5);
  }

  lemma PairsBuilt(s: bytes, p: nat, pairs: seq<Pair>, c: nat)
    requires pairs != [] && GoodPair(pairs[0], false) && Lenient(pairs[0].key.chars) && GoodPairs(pairs[1..], false)
    requires var i := pairs[0];
      var k := p + |i.before|;
      var n := k + |LitText(i.key)|;
      var a := n + |i.mid| + 1 + |i.start|;
      var b := a + |Spell(i.value)|;
      && At(s, p, i.before) && At(s, k, LitText(i.key)) && At(s, n, i.mid + [COLON] + i.start)
      && At(s, a, Spell(i.value)) && At(s, b, i.after) && c == b + |i.after|
    requires c < |s| && if pairs[1..] == [] then s[c] == RBRACE else s[c] == COMMA && At(s, c + 1, SpellPairs(pairs[1..]))
    ensures GoodPairs(pairs, false) && At(s, p, SpellPairs(pairs))
    ensures |SpellPairs(pairs)| == c - p + 1 + if pairs[1..] == [] then 0 else |SpellPairs(pairs[1..])|
  {
    hide At, Spell, Good, Ascii, Blanks, GoodLit, LitText, Lenient;
    var i := pairs[0];
    Marks();
    OneByte(s, c);
    if pairs[1..] != [] {
      AtSplit(s, c, [COMMA], SpellPairs(pairs[1..]));
    }
    SixTogether(s, p, i.before, LitText(i.key), i.mid + [COLON] + i.start, Spell(i.value), i.after, RestOfPairs(pairs));
  }

  // ---------------------------------------------------------------- documents

  /** The buffer holds a fitting text, perhaps behind a byte order mark, between blanks, and a final
      NUL. */
  ghost predicate Holds(s: bytes, x: Text, lead: bytes, tail: bytes) {
    && Good(x, false) && Fits(x, 0) && Blanks(lead, false) && Blanks(tail, false)
    && s[BomEnd(s)..] == lead + Spell(x) + tail + [0]
  }

  lemma HoldsPlaces(s: bytes, p: nat, x: Text, lead: bytes, tail: bytes) returns (a: nat, b: nat)
    requires Good(x, false) && Blanks(lead, false) && Blanks(tail, false)
    requires p <= |s| && s[p..] == lead + Spell(x) + tail + [0]
    ensures a == p + |lead| && Skip(s, p) == a && At(s, a, Spell(x)) && b == a + |Spell(x)| && Follow(s, b)
    ensures b < |s| && Skip(s, b) == |s| - 1 && s[|s| - 1] == 0
  {
    hide At, Spell, Skip, Blanks;
    a := p + |lead|;
    b := a + |Spell(x)|;
    AtSlice(s, p, |s| - p);
    assert s[p..p + (|s| - p)] == s[p..];
    AtSplit(s, p, lead + Spell(x) + tail, [0]);
    AtSplit(s, p, lead + Spell(x), tail);
    AtSplit(s, p, lead, Spell(x));
    TextLeads(x);
    AtIndex(s, a, Spell(x), 0);
    AtIndex(s, b + |tail|, [0], 0);
    SkipOver(s, p, p, lead);
    TailBlank(s, b, tail);
  }

  lemma TailBlank(s: bytes, b: nat, tail: bytes)
    requires At(s, b, tail) && Blanks(tail, false) && b + |tail| + 1 == |s| && s[|s| - 1] == 0
    ensures Skip(s, b) == |s| - 1 && Follow(s, b)
  {
    BlankText(s, b, tail);
    AllBlankEnd(s, b);
  }

  lemma {:induction false} AllBlankEnd(s: bytes, b: nat)
    requires b <= |s| && forall i :: b <= i < |s| ==> s[i] <= 32
    ensures BlankEnd(s, b) == |s|
    decreases |s| - b
  {
    if b < |s| {
      AllBlankEnd(s, b + 1);
    }
  }

  /** With `require_null_terminated` the parser accepts a buffer exactly if it holds such a text, and
      stores what that stands for. */
  lemma DocumentExact(s: bytes, v: Json, e: nat)
    ensures Document(s, true) == Ok(v, e) <==>
      s != [] && e == |s| - 1 && exists x, lead, tail :: Holds(s, x, lead, tail) && Stored(x) == v
  {
    hide Spell, ValueAt, Skip, Cut, Meaning, Good, Fits, BomEnd, Blanks;
    if Document(s, true) == Ok(v, e) {
      var x, lead, tail := DocumentIsText(s);
    }
    if s != [] && e == |s| - 1 {
      if x, lead, tail :| Holds(s, x, lead, tail) && Stored(x) == v {
        TextIsDocument(s, x, lead, tail);
      }
    }
  }

  lemma TextIsDocument(s: bytes, x: Text, lead: bytes, tail: bytes)
    requires Holds(s, x, lead, tail)
    ensures Document(s, true) == Ok(Stored(x), |s| - 1)
  {
    hide Spell, ValueAt, Skip, Cut, Meaning, Good, Fits, At, Blanks, BomEnd;
    var a, b := HoldsPlaces(s, BomEnd(s), x, lead, tail);
    ValueReads(s, a, 0, x);
  }

  lemma DocumentIsText(s: bytes) returns (x: Text, lead: bytes, tail: bytes)
    requires Document(s, true).Ok?
    ensures Holds(s, x, lead, tail)
    ensures Document(s, true) == Ok(Stored(x), |s| - 1)
  {
    hide Spell, ValueAt, Skip, Cut, Meaning, Good, Fits, Blanks, BomEnd, At;
    var p := BomEnd(s);
    var a := Skip(s, p);
    x := ReadsValue(s, a, 0);
    var b := a + |Spell(x)|;
    var e := Skip(s, b);
    EndIsLast(s, b);
    lead, tail := s[p..a], s[b..e];
    BlanksBetween(s, p, a);
    BlanksBetween(s, b, e);
    AtText(s, a, Spell(x));
    assert s[p..] == s[p..a] + s[a..b] + s[b..e] + s[e..];
  }

  lemma AtText(s: bytes, a: nat, t: bytes)
    requires At(s, a, t)
    ensures a + |t| <= |s| && s[a..a + |t|] == t
  {
  }

  /** Where blanks are skipped up to a NUL, which is a blank itself, the buffer is at its end. */
  lemma EndIsLast(s: bytes, b: nat)
    requires b <= |s| && ByteIs(s, Skip(s, b), 0)
    ensures Skip(s, b) == |s| - 1 && s[|s| - 1..] == [0]
  {
  }

  /** Without it, what the parser takes is the start of the buffer up to the end of such a text, and it
      takes any such text that no number byte follows. */
  lemma PrefixExact(s: bytes, v: Json, n: nat)
    requires s != []
    ensures Document(s, false) == Ok(v, n) ==> exists x, lead :: Starts(s, x, lead, n) && Stored(x) == v
    ensures (exists x, lead :: Starts(s, x, lead, n) && Stored(x) == v) && Follow(s, n) ==> Document(s, false) == Ok(v, n)
  {
    hide Spell, ValueAt, Skip, Cut, Meaning, Good, Fits, BomEnd, Blanks;
    if Document(s, false) == Ok(v, n) {
      var x, lead := StartIsText(s);
    }
    if Follow(s, n) {
      if x, lead :| Starts(s, x, lead, n) && Stored(x) == v {
        TextIsStart(s, x, lead, n);
      }
    }
  }

  /** Up to `n` the buffer is a fitting text behind blanks, and perhaps a mark. */
  ghost predicate Starts(s: bytes, x: Text, lead: bytes, n: nat) {
    && Good(x, false) && Fits(x, 0) && Blanks(lead, false) && BomEnd(s) <= n <= |s|
    && s[BomEnd(s)..n] == lead + Spell(x)
  }

  lemma StartIsText(s: bytes) returns (x: Text, lead: bytes)
    requires Document(s, false).Ok?
    ensures Starts(s, x, lead, Document(s, false).next) && Document(s, false).value == Stored(x)
  {
    hide Spell, ValueAt, Skip, Cut, Meaning, Good, Fits, Blanks, BomEnd, At;
    var p := BomEnd(s);
    var a := Skip(s, p);
    x := ReadsValue(s, a, 0);
    lead := s[p..a];
    BlanksBetween(s, p, a);
    AtText(s, a, Spell(x));
    assert s[p..a + |Spell(x)|] == s[p..a] + s[a..a + |Spell(x)|];
  }

  lemma TextIsStart(s: bytes, x: Text, lead: bytes, n: nat)
    requires s != [] && Starts(s, x, lead, n) && Follow(s, n)
    ensures Document(s, false) == Ok(Stored(x), n)
  {
    hide Spell, ValueAt, Skip, Cut, Meaning, Good, Fits, Blanks, BomEnd, At;
    var p := BomEnd(s);
    AtSlice(s, p, n - p);
    AtSplit(s, p, lead, Spell(x));
    TextLeads(x);
    AtIndex(s, p + |lead|, Spell(x), 0);
    SkipOver(s, p, p, lead);
    ValueReads(s, p + |lead|, 0, x);
  }

  // ---------------------------------------------------------------- RFC 8259

  /** Every text of RFC 8259, with blanks around it and a terminator, is accepted for the tree it stands
      for, exactly if it is nested at most CJSON_NESTING_LIMIT deep, has no number of more than 63 bytes,
      and has no U+0000 in its strings. */
  lemma Rfc8259(x: Text, lead: bytes, tail: bytes)
    requires Good(x, true) && Blanks(lead, true) && Blanks(tail, true)
    ensures Good(x, false)
    ensures var s := lead + Spell(x) + tail + [0];
      Document(s, true) == Ok(Meaning(x), |s| - 1) <==> Fits(x, 0) && NulFree(Meaning(x))
  {
    hide Spell, ValueAt, Skip, Cut, Meaning, Good, Fits, At, BomEnd;
    StrictIsGood(x);
    var s := lead + Spell(x) + tail + [0];
    NoMarkFirst(x, lead, tail);
    assert s[0..] == s;
    var a, b := HoldsPlaces(s, 0, x, lead, tail);
    CutExact(Meaning(x));
    if Fits(x, 0) {
      ValueReads(s, a, 0, x);
    } else {
      ValueRefused(s, a, 0, x);
      var r := ValueAt(s, a, 0);
      if r.Ok? {
        NumberStays(s, r.next);
        NumberIsNoNul(s, r.next);
      }
    }
  }

  lemma NumberIsNoNul(s: bytes, n: nat)
    requires n < |s| && IsNumberByte(s[n])
    ensures s[n] != 0
  {
  }

  lemma NoMarkFirst(x: Text, lead: bytes, tail: bytes)
    requires Good(x, false) && Blanks(lead, false)
    ensures BomEnd(lead + Spell(x) + tail + [0]) == 0
  {
    hide Spell, Good;
    var s := lead + Spell(x) + tail + [0];
    TextLeads(x);
    assert s[0] == if lead == [] then Spell(x)[0] else lead[0];
    assert 3 <= |s| ==> s[..3][0] == s[0];
  }
}
