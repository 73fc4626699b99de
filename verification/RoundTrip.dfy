/** Printing then parsing gives the tree back, formatted or not. */
module RoundTrip {
  import opened Bytes
  import opened JsonTree
  import opened Grammar
  import opened ParseFacts
  import opened StringTexts
  import opened JsonTexts
  import opened AcceptedTexts
  import opened PrintedTexts

  /** First byte of a printed value. */
  function Lead(v: Json): set<byte>
    requires !v.Raw?
  {
    match v
    case Null => {110}
    case Bool(b) => if b then {116} else {102}
    case Number(_) => {MINUS, 48, 49, 50, 51, 52, 53, 54, 55, 56, 57}
    case String(_) => {QUOTE}
    case Array(_) => {LBRACKET}
    case Object(_) => {LBRACE}
  }

  lemma LeadByte(v: Json, f: bool, rd: nat)
    requires Printable(v) && !v.Raw?
    ensures Render(v, f, rd)[0] in Lead(v) && Render(v, f, rd)[0] > 32
  {
  }

  lemma EmptyBody(f: bool, rd: nat)
    ensures RenderItems([], f, rd) == [] && RenderMembers([], f, rd) == []
  {
  }

  lemma ItemParts(items: seq<Json>, f: bool, rd: nat, s: bytes, q: nat) returns (e: nat)
    requires items != [] && PrintableItems(items) && At(s, q, RenderItems(items, f, rd))
    ensures At(s, q, Render(items[0], f, rd)) && e == q + |Render(items[0], f, rd)|
    ensures At(s, e, ItemEnd(f, items[1..] == []))
    ensures At(s, e + |ItemEnd(f, items[1..] == [])|, RenderItems(items[1..], f, rd))
    ensures |RenderItems(items, f, rd)|
      == |Render(items[0], f, rd)| + |ItemEnd(f, items[1..] == [])| + |RenderItems(items[1..], f, rd)|
  {
    hide At, Render, ItemEnd;
    var v, sep, rest := Render(items[0], f, rd), ItemEnd(f, items[1..] == []), RenderItems(items[1..], f, rd);
    AtSplit(s, q, v + sep, rest);
    AtSplit(s, q, v, sep);
    e := q + |v|;
  }

  /** Round trip of one value in the middle of a text: what is printed is a text of RFC 8259. */
  lemma ValueRoundTrip(v: Json, f: bool, rd: nat, s: bytes, off: nat, depth: int)
    requires Printable(v) && RawFree(v) && depth + Nesting(v) <= NESTING_LIMIT
    requires At(s, off, Render(v, f, rd)) && Follow(s, off + |Render(v, f, rd)|)
    ensures ValueAt(s, off, depth) == Ok(v, off + |Render(v, f, rd)|)
  {
    hide At, Render, ValueAt, Spell, Meaning, Good, Cut, NulFree, ShortNumbers, Levels, Follow;
    var x := TextOf(v, f, rd);
    PrintedText(v, f, rd);
    PrintableNulFree(v);
    CutExact(v);
    ValueReads(s, off, depth, x);
  }

  /** Whole documents: for every printable tree without raw text and nested at most
      NESTING_LIMIT deep, the printed text with its terminator parses, is consumed up to the
      terminator, and gives back the same tree with the same member order. */
  lemma DocumentRoundTrip(v: Json, f: bool)
    requires Printable(v) && RawFree(v) && Nesting(v) <= NESTING_LIMIT
    ensures Document(Render(v, f, 0) + [0], true) == Ok(v, |Render(v, f, 0)|)
  {
    hide Render, ValueAt;
    var t := Render(v, f, 0);
    var s := t + [0];
    LeadByte(v, f, 0);
    assert At(s, 0, t);
    SkipTo(s, 0, 0);
    ValueRoundTrip(v, f, 0, s, 0, 0);
    assert BlankEnd(s, |t|) == |t| + 1 by {
      assert BlankEnd(s, |t| + 1) == |t| + 1;
    }
  }

  /** A printable tree comes back from its text exactly when it holds no raw text and is nested at
      most 1000 deep. */
  lemma DocumentRoundTripExact(v: Json, f: bool)
    requires Printable(v)
    ensures Document(Render(v, f, 0) + [0], true) == Ok(v, |Render(v, f, 0)|) <==>
      RawFree(v) && Nesting(v) <= 1000
  {
    hide Render, ValueAt, Skip;
    var s := Render(v, f, 0) + [0];
    if RawFree(v) && Nesting(v) <= 1000 {
      DocumentRoundTrip(v, f);
    } else if ValueAt(s, Skip(s, BomEnd(s)), 0).Ok? {
      ValueNesting(s, Skip(s, BomEnd(s)), 0);
    }
  }

  /** Two trees with the same text are the same tree, however deep they are nested. The grammar may be
      asked from a depth below 0, which leaves room for any nesting. */
  lemma RenderInjective(v: Json, w: Json, f: bool, g: bool)
    requires Printable(v) && RawFree(v) && Printable(w) && RawFree(w)
    requires Render(v, f, 0) == Render(w, g, 0)
    ensures v == w
  {
    hide Render, ValueAt, Skip, At, Follow;
    ReadsBack(v, f, NESTING_LIMIT - Max(Nesting(v), Nesting(w)));
    ReadsBack(w, g, NESTING_LIMIT - Max(Nesting(v), Nesting(w)));
  }

  lemma ReadsBack(v: Json, f: bool, depth: int)
    requires Printable(v) && RawFree(v) && depth + Nesting(v) <= NESTING_LIMIT
    ensures ValueAt(Render(v, f, 0) + [0], 0, depth) == Ok(v, |Render(v, f, 0)|)
  {
    hide Render, ValueAt;
    var t := Render(v, f, 0);
    assert At(t + [0], 0, t);
    ValueRoundTrip(v, f, 0, t + [0], 0, depth);
  }
}
