/** Small facts about the grammar: skipping blanks, and what the first byte of a value decides. */
module ParseFacts {
  import opened Bytes
  import opened JsonTree
  import opened Strings
  import opened Numbers
  import opened Grammar

  /** No number byte follows, so that a number printed up to here ends here. */
  ghost predicate Follow(s: bytes, n: nat) {
    n < |s| ==> !IsNumberByte(s[n])
  }

  lemma {:induction false} BlankEndIs(s: bytes, a: nat, b: nat)
    requires a <= b < |s| && s[b] > 32 && forall i :: a <= i < b ==> s[i] <= 32
    ensures BlankEnd(s, a) == b
    decreases b - a
  {
    if a < b {
      BlankEndIs(s, a + 1, b);
    }
  }

  lemma SkipTo(s: bytes, a: nat, b: nat)
    requires a <= b < |s| && s[b] > 32 && forall i :: a <= i < b ==> s[i] <= 32
    ensures Skip(s, a) == b
  {
    BlankEndIs(s, a, b);
  }

  ghost predicate Blank(s: bytes, a: nat, b: nat) {
    a <= b <= |s| && forall i :: a <= i < b ==> s[i] <= 32
  }

  lemma BlankText(s: bytes, a: nat, t: bytes)
    requires At(s, a, t) && forall i :: 0 <= i < |t| ==> t[i] <= 32
    ensures Blank(s, a, a + |t|)
  {
    forall i | a <= i < a + |t| ensures s[i] <= 32 {
      AtIndex(s, a, t, i - a);
    }
  }

  /** Skipping over two blank stretches to the visible byte behind them. */
  lemma SkipBlanks(s: bytes, a: nat, b: nat, c: nat)
    requires Blank(s, a, b) && Blank(s, b, c) && c < |s| && s[c] > 32
    ensures Skip(s, a) == c
  {
    SkipTo(s, a, c);
  }

  lemma NoLiteral(s: bytes, off: nat)
    requires off < |s| && s[off] !in [110, 102, 116]
    ensures !At(s, off, NULL_TEXT) && !At(s, off, FALSE_TEXT) && !At(s, off, TRUE_TEXT)
  {
    if At(s, off, NULL_TEXT) { AtIndex(s, off, NULL_TEXT, 0); }
    if At(s, off, FALSE_TEXT) { AtIndex(s, off, FALSE_TEXT, 0); }
    if At(s, off, TRUE_TEXT) { AtIndex(s, off, TRUE_TEXT, 0); }
  }

  /** The first byte decides which parser runs. */
  lemma Dispatch(s: bytes, off: nat, depth: int)
    requires off < |s|
    ensures s[off] == LBRACKET ==> ValueAt(s, off, depth) == ArrayAt(s, off, depth)
    ensures s[off] == LBRACE ==> ValueAt(s, off, depth) == ObjectAt(s, off, depth)
    ensures s[off] == QUOTE ==>
      ValueAt(s, off, depth)
        == (var t := StringAt(s, off); if t.Parsed? then Ok(String(CString(t.text)), t.next) else Fail(t.at))
    ensures s[off] == MINUS || IsDigit(s[off]) ==>
      ValueAt(s, off, depth)
        == (var n := NumberAt(s, off); if n == None then Fail(off) else Ok(Number(n.value.0), n.value.1))
  {
    hide At, ArrayAt, ObjectAt, StringAt, NumberAt;
    if s[off] in [LBRACKET, LBRACE, QUOTE, MINUS] || IsDigit(s[off]) {
      NoLiteral(s, off);
    }
  }

  lemma NullReads(s: bytes, off: nat, depth: int)
    requires At(s, off, NULL_TEXT)
    ensures ValueAt(s, off, depth) == Ok(Null, off + 4)
  {
  }

  lemma BoolReads(b: bool, s: bytes, off: nat, depth: int)
    requires At(s, off, if b then TRUE_TEXT else FALSE_TEXT)
    ensures ValueAt(s, off, depth) == Ok(Bool(b), off + if b then 4 else 5)
  {
    AtIndex(s, off, if b then TRUE_TEXT else FALSE_TEXT, 0);
    if At(s, off, NULL_TEXT) { AtIndex(s, off, NULL_TEXT, 0); }
    if At(s, off, FALSE_TEXT) { AtIndex(s, off, FALSE_TEXT, 0); }
  }
}
