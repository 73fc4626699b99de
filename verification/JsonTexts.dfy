/** JSON texts as section 2 of RFC 8259 writes them, with the trees they stand for. Nothing here comes
    from the parser or the printer. */
module JsonTexts {
  import opened Bytes
  import opened JsonTree
  import opened StringTexts
  import opened NumberTexts

  // ---------------------------------------------------------------- spellings

  datatype Literal = Literal(chars: seq<Char>, closed: bool)

  /** A text, with the blanks between its tokens; `inner` are those of an empty container. */
  datatype Text =
    | NullWord
    | FalseWord
    | TrueWord
    | Num(n: NumberText)
    | Str(lit: Literal)
    | Arr(inner: bytes, items: seq<Item>)
    | Obj(inner: bytes, pairs: seq<Pair>)

  datatype Item = Item(before: bytes, value: Text, after: bytes)

  datatype Pair = Pair(before: bytes, key: Literal, mid: bytes, start: bytes, value: Text, after: bytes)

  /** The blanks of RFC 8259, or the bytes the parser takes for blanks. */
  predicate Blanks(t: bytes, strict: bool) {
    forall i :: 0 <= i < |t| ==> if strict then t[i] in {0x20, 0x09, 0x0A, 0x0D} else t[i] <= 0x20
  }

  predicate GoodLit(lit: Literal, strict: bool) {
    GoodLiteral(lit.chars, lit.closed) && (strict ==> Strict(lit.chars) && lit.closed)
  }

  /** A strict literal is any closed one with strict characters. */
  lemma StrictLit(lit: Literal)
    ensures GoodLit(lit, true) <==> Strict(lit.chars) && lit.closed
  {
    hide GoodLiteral;
    if Strict(lit.chars) && lit.closed {
      StrictGood(lit.chars);
    }
  }

  /** A text of RFC 8259, or one with what the parser takes beyond that: other blanks, lenient literals
      and lenient numbers. */
  predicate Good(x: Text, strict: bool) {
    match x
    case Num(n) => LenientNumber(n) && (strict ==> StrictNumber(n))
    case Str(lit) => GoodLit(lit, strict)
    case Arr(inner, items) => Blanks(inner, strict) && GoodItems(items, strict)
    case Obj(inner, pairs) => Blanks(inner, strict) && GoodPairs(pairs, strict)
    case _ => true
  }

  predicate GoodItems(items: seq<Item>, strict: bool) {
    items == [] || (GoodItem(items[0], strict) && GoodItems(items[1..], strict))
  }

  predicate GoodItem(i: Item, strict: bool) {
    Blanks(i.before, strict) && Good(i.value, strict) && Blanks(i.after, strict)
  }

  predicate GoodPairs(pairs: seq<Pair>, strict: bool) {
    pairs == [] || (GoodPair(pairs[0], strict) && GoodPairs(pairs[1..], strict))
  }

  predicate GoodPair(p: Pair, strict: bool) {
    && Blanks(p.before, strict) && GoodLit(p.key, strict) && Blanks(p.mid, strict)
    && Blanks(p.start, strict) && Good(p.value, strict) && Blanks(p.after, strict)
  }

  lemma {:induction false} StrictIsGood(x: Text)
    requires Good(x, true)
    ensures Good(x, false)
    decreases x
  {
    match x
    case Arr(inner, items) => StrictItems(items);
    case Obj(inner, pairs) => StrictPairs(pairs);
    case _ =>
  }

  lemma {:induction false} StrictItems(items: seq<Item>)
    requires GoodItems(items, true)
    ensures GoodItems(items, false)
    decreases items
  {
    if items != [] {
      StrictIsGood(items[0].value);
      StrictItems(items[1..]);
    }
  }

  lemma {:induction false} StrictPairs(pairs: seq<Pair>)
    requires GoodPairs(pairs, true)
    ensures GoodPairs(pairs, false)
    decreases pairs
  {
    if pairs != [] {
      StrictIsGood(pairs[0].value);
      StrictPairs(pairs[1..]);
    }
  }

  function LitText(lit: Literal): bytes
    requires Lenient(lit.chars)
  {
    LiteralText(lit.chars, lit.closed)
  }

  function Spell(x: Text): (r: bytes)
    requires Good(x, false)
    ensures r != []
    decreases x
  {
    match x
    case NullWord => Ascii("null")
    case FalseWord => Ascii("false")
    case TrueWord => Ascii("true")
    case Num(n) => NumTextBytes(n); NumText(n)
    case Str(lit) => LitText(lit)
    case Arr(inner, items) => Ascii("[") + (if items == [] then inner + Ascii("]") else SpellItems(items))
    case Obj(inner, pairs) => Ascii("{") + (if pairs == [] then inner + Ascii("}") else SpellPairs(pairs))
  }

  /** The elements with the commas between them and the closing bracket. */
  function SpellItems(items: seq<Item>): (r: bytes)
    requires items != [] && GoodItems(items, false)
    ensures r != []
    decreases items
  {
    SpellItem(items[0]) + if items[1..] == [] then Ascii("]") else Ascii(",") + SpellItems(items[1..])
  }

  function SpellItem(i: Item): bytes
    requires GoodItem(i, false)
    decreases i
  {
    i.before + Spell(i.value) + i.after
  }

  function SpellPairs(pairs: seq<Pair>): (r: bytes)
    requires pairs != [] && GoodPairs(pairs, false)
    ensures r != []
    decreases pairs
  {
    SpellPair(pairs[0]) + if pairs[1..] == [] then Ascii("}") else Ascii(",") + SpellPairs(pairs[1..])
  }

  function SpellPair(p: Pair): bytes
    requires GoodPair(p, false)
    decreases p
  {
    p.before + LitText(p.key) + (p.mid + Ascii(":") + p.start) + Spell(p.value) + p.after
  }

  // ---------------------------------------------------------------- trees

  /** The tree a text stands for, members and elements in their order. */
  function Meaning(x: Text): Json
    requires Good(x, false)
    decreases x
  {
    match x
    case NullWord => Null
    case FalseWord => Bool(false)
    case TrueWord => Bool(true)
    case Num(n) => Number(NumMeaning(n))
    case Str(lit) => String(CharsMeaning(lit.chars))
    case Arr(_, items) => Array(MeaningItems(items))
    case Obj(_, pairs) => Object(MeaningPairs(pairs))
  }

  function MeaningItems(items: seq<Item>): (r: seq<Json>)
    requires GoodItems(items, false)
    ensures |r| == |items|
    decreases items
  {
    if items == [] then []
    else
      assert GoodItem(items[0], false);
      [Meaning(items[0].value)] + MeaningItems(items[1..])
  }

  function MeaningPairs(pairs: seq<Pair>): (r: seq<Member>)
    requires GoodPairs(pairs, false)
    ensures |r| == |pairs|
    decreases pairs
  {
    if pairs == [] then []
    else
      assert GoodPair(pairs[0], false);
      [Member(CharsMeaning(pairs[0].key.chars), Meaning(pairs[0].value))] + MeaningPairs(pairs[1..])
  }

  /** What is left of a tree whose strings are C strings: each one ends at its first NUL. */
  function Cut(v: Json): Json
    decreases v
  {
    match v
    case String(s) => String(CString(s))
    case Array(items) => Array(CutItems(items))
    case Object(members) => Object(CutMembers(members))
    case _ => v
  }

  function CutItems(items: seq<Json>): (r: seq<Json>)
    ensures |r| == |items|
    decreases items
  {
    if items == [] then [] else [Cut(items[0])] + CutItems(items[1..])
  }

  function CutMembers(members: seq<Member>): (r: seq<Member>)
    ensures |r| == |members|
    decreases members
  {
    if members == [] then [] else [Member(CString(members[0].key), Cut(members[0].value))] + CutMembers(members[1..])
  }

  /** No string and no key holds a NUL. */
  predicate NulFree(v: Json)
    decreases v
  {
    match v
    case String(s) => 0 !in s
    case Array(items) => NulFreeItems(items)
    case Object(members) => NulFreeMembers(members)
    case _ => true
  }

  predicate NulFreeItems(items: seq<Json>)
    decreases items
  {
    items == [] || (NulFree(items[0]) && NulFreeItems(items[1..]))
  }

  predicate NulFreeMembers(members: seq<Member>)
    decreases members
  {
    members == [] || (0 !in members[0].key && NulFree(members[0].value) && NulFreeMembers(members[1..]))
  }

  /** Nothing is lost exactly where there is no NUL. */
  lemma {:induction false} CutExact(v: Json)
    ensures Cut(v) == v <==> NulFree(v)
    decreases v
  {
    match v
    case String(s) => CutText(s);
    case Array(items) => CutItemsExact(items);
    case Object(members) => CutMembersExact(members);
    case _ =>
  }

  lemma CutText(s: bytes)
    ensures CString(s) == s <==> 0 !in s
  {
    if 0 !in s {
      CStringNulFree(s);
    }
  }

  lemma {:induction false} CutItemsExact(items: seq<Json>)
    ensures CutItems(items) == items <==> NulFreeItems(items)
    decreases items
  {
    if items != [] {
      CutExact(items[0]);
      CutItemsExact(items[1..]);
      assert items == [items[0]] + items[1..];
      assert CutItems(items)[1..] == CutItems(items[1..]);
    }
  }

  lemma {:induction false} CutMembersExact(members: seq<Member>)
    ensures CutMembers(members) == members <==> NulFreeMembers(members)
    decreases members
  {
    if members != [] {
      CutText(members[0].key);
      CutExact(members[0].value);
      CutMembersExact(members[1..]);
      assert members == [members[0]] + members[1..];
      assert CutMembers(members)[1..] == CutMembers(members[1..]);
      assert CutMembers(members)[0] == Member(CString(members[0].key), Cut(members[0].value));
    }
  }

  // ---------------------------------------------------------------- what fits the parser

  /** All numbers fit the 63 bytes of the parser's copy. */
  predicate ShortNumbers(x: Text)
    requires Good(x, false)
    decreases x
  {
    match x
    case Num(n) => |NumText(n)| <= 63
    case Arr(_, items) => ShortItems(items)
    case Obj(_, pairs) => ShortPairs(pairs)
    case _ => true
  }

  predicate ShortItems(items: seq<Item>)
    requires GoodItems(items, false)
    decreases items
  {
    items == [] || (assert GoodItem(items[0], false); ShortNumbers(items[0].value) && ShortItems(items[1..]))
  }

  predicate ShortPairs(pairs: seq<Pair>)
    requires GoodPairs(pairs, false)
    decreases pairs
  {
    pairs == [] || (assert GoodPair(pairs[0], false); ShortNumbers(pairs[0].value) && ShortPairs(pairs[1..]))
  }

  /** How many containers are open at once at the deepest point. */
  function Levels(x: Text): nat
    decreases x
  {
    match x
    case Arr(_, items) => 1 + LevelsItems(items)
    case Obj(_, pairs) => 1 + LevelsPairs(pairs)
    case _ => 0
  }

  function LevelsItems(items: seq<Item>): nat
    decreases items
  {
    if items == [] then 0 else Max(Levels(items[0].value), LevelsItems(items[1..]))
  }

  function LevelsPairs(pairs: seq<Pair>): nat
    decreases pairs
  {
    if pairs == [] then 0 else Max(Levels(pairs[0].value), LevelsPairs(pairs[1..]))
  }

  predicate Fits(x: Text, depth: int)
    requires Good(x, false)
  {
    ShortNumbers(x) && depth + Levels(x) <= 1000
  }
}
