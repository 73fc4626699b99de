/** What a byte order mark in front of a text does to parsing. */
module ByteOrderMark {
  import opened Bytes
  import opened JsonTree
  import opened Utf8
  import opened Strings
  import opened Numbers
  import opened Grammar

  // Every function of the grammar looks ahead only, so in a longer buffer `b + s` it does at
  // `|b| + p` what it does in `s` at `p`.

  /** The same result, `n` bytes further on. */
  function Later<T>(r: Result<T>, n: nat): Result<T> {
    if r.Ok? then Ok(r.value, n + r.next) else Fail(n + r.at)
  }

  lemma IndexLater(b: bytes, s: bytes, p: nat)
    ensures p < |s| ==> (b + s)[|b| + p] == s[p]
  {
  }

  // ---------------------------------------------------------------- blanks, literals, numbers

  lemma BlankLater(b: bytes, s: bytes, p: nat)
    requires p <= |s|
    ensures BlankEnd(b + s, |b| + p) == |b| + BlankEnd(s, p)
    decreases |s| - p
  {
    if p < |s| && s[p] <= 32 {
      BlankLater(b, s, p + 1);
    }
  }

  lemma SkipLater(b: bytes, s: bytes, p: nat)
    requires p <= |s|
    ensures Skip(b + s, |b| + p) == |b| + Skip(s, p)
  {
    BlankLater(b, s, p);
  }

  lemma AtLater(b: bytes, s: bytes, p: nat, t: bytes)
    ensures At(b + s, |b| + p, t) <==> At(s, p, t)
  {
    if p + |t| <= |s| {
      assert (b + s)[|b| + p..|b| + p + |t|] == s[p..p + |t|];
    }
  }

  lemma RunLater(b: bytes, s: bytes, p: nat, room: nat)
    requires p <= |s|
    ensures RunEnd(b + s, |b| + p, room) == |b| + RunEnd(s, p, room)
    decreases room
  {
    if p < |s| && IsNumberByte(s[p]) && room > 0 {
      RunLater(b, s, p + 1, room - 1);
    }
  }

  lemma NumberLater(b: bytes, s: bytes, p: nat)
    requires p <= |s|
    ensures var n, m := NumberAt(s, p), NumberAt(b + s, |b| + p);
      if n == None then m == None else m == Some((n.value.0, |b| + n.value.1))
  {
    hide Strtod;
    RunLater(b, s, p, RUN_LIMIT);
    var e := RunEnd(s, p, RUN_LIMIT);
    assert (b + s)[|b| + p..|b| + e] == s[p..e];
  }

  // ---------------------------------------------------------------- strings

  lemma ScanLater(b: bytes, s: bytes, p: nat)
    ensures var r, q := Scan(s, p), Scan(b + s, |b| + p);
      if r == None then q == None else q == Some((|b| + r.value.0, r.value.1))
    decreases |s| - p
  {
    if p < |s| && s[p] != QUOTE {
      ScanLater(b, s, if s[p] == BACKSLASH then p + 2 else p + 1);
    }
  }

  lemma HexLater(b: bytes, s: bytes, p: nat)
    requires p + 4 <= |s|
    ensures Hex4(b + s, |b| + p) == Hex4(s, p)
  {
    hide HexValue;
    var l := b + s;
    forall k | |b| + p <= k < |b| + p + 4 ensures l[k] == s[k - |b|] {
      IndexLater(b, s, k - |b|);
    }
    assert forall i :: p <= i < p + 4 ==> s[i] == l[|b| + i];
    assert WellFormedHex(l, |b| + p) <==> WellFormedHex(s, p);
  }

  lemma LiteralLater(b: bytes, s: bytes, p: nat, e: nat)
    requires e <= |s|
    ensures Utf16Literal(b + s, |b| + p, |b| + e) == Utf16Literal(s, p, e)
  {
    hide Hex4;
    if p + 6 <= e {
      HexLater(b, s, p + 2);
    }
    if p + 12 <= e {
      HexLater(b, s, p + 8);
    }
  }

  lemma EscapeLater(b: bytes, s: bytes, p: nat, e: nat)
    requires p < e < |s|
    ensures EscapeAt(b + s, |b| + p, |b| + e) == EscapeAt(s, p, e)
  {
    hide Utf16Literal, EncodeUtf8, SimpleEscape;
    LiteralLater(b, s, p, e);
    IndexLater(b, s, p + 1);
  }

  lemma DecodeLater(b: bytes, s: bytes, p: nat, e: nat)
    requires e < |s|
    ensures var d := Decode(s, p, e);
      Decode(b + s, |b| + p, |b| + e)
        == Decoding(d.out, if d.failedAt == None then None else Some(|b| + d.failedAt.value))
    decreases |s| - p
  {
    hide EscapeAt;
    if p < e {
      IndexLater(b, s, p);
      if s[p] != BACKSLASH {
        DecodeLater(b, s, p + 1, e);
      } else {
        EscapeLater(b, s, p, e);
        var step := EscapeAt(s, p, e);
        if step.Some? {
          DecodeLater(b, s, p + step.value.1, e);
        }
      }
    }
  }

  lemma StringLater(b: bytes, s: bytes, p: nat)
    requires p < |s|
    ensures var r := StringAt(s, p);
      StringAt(b + s, |b| + p) == if r.Parsed? then Parsed(r.text, |b| + r.next) else Rejected(|b| + r.at)
  {
    hide Scan, Decode;
    IndexLater(b, s, p);
    ScanLater(b, s, p + 1);
    var end := Scan(s, p + 1);
    if end.Some? {
      DecodeLater(b, s, p + 1, end.value.0);
    }
  }

  // ---------------------------------------------------------------- values

  lemma {:induction false} ValueLater(b: bytes, s: bytes, p: nat, depth: int)
    requires p <= |s|
    ensures ValueAt(b + s, |b| + p, depth) == Later(ValueAt(s, p, depth), |b|)
    decreases |s| - p, 3
  {
    hide At, StringAt, NumberAt, ArrayAt, ObjectAt, Skip;
    AtLater(b, s, p, NULL_TEXT);
    AtLater(b, s, p, FALSE_TEXT);
    AtLater(b, s, p, TRUE_TEXT);
    NumberLater(b, s, p);
    if p < |s| {
      IndexLater(b, s, p);
      StringLater(b, s, p);
      ArrayLater(b, s, p, depth);
      ObjectLater(b, s, p, depth);
    }
  }

  lemma {:induction false} ArrayLater(b: bytes, s: bytes, p: nat, depth: int)
    requires p < |s|
    ensures ArrayAt(b + s, |b| + p, depth) == Later(ArrayAt(s, p, depth), |b|)
    decreases |s| - p, 2
  {
    hide ItemsAt, Skip;
    SkipLater(b, s, p + 1);
    var q := Skip(s, p + 1);
    IndexLater(b, s, q);
    ItemsLater(b, s, q, depth + 1);
  }

  lemma {:induction false} ItemsLater(b: bytes, s: bytes, q: nat, depth: int)
    requires q <= |s|
    ensures ItemsAt(b + s, |b| + q, depth) == Later(ItemsAt(s, q, depth), |b|)
    decreases |s| - q, 4
  {
    hide ValueAt, ItemsAt, Skip, Later;
    SkipLater(b, s, q);
    ValueLater(b, s, Skip(s, q), depth);
    var v := ValueAt(s, Skip(s, q), depth);
    if v.Ok? {
      SkipLater(b, s, v.next);
      var e := Skip(s, v.next);
      IndexLater(b, s, e);
      if ByteIs(s, e, COMMA) {
        ItemsLater(b, s, e + 1, depth);
      }
    }
    ItemsTogether(b, s, q, depth);
  }

  /** One item and the rest, put together in both texts. */
  lemma ItemsTogether(b: bytes, s: bytes, q: nat, depth: int)
    requires q <= |s| && Skip(b + s, |b| + q) == |b| + Skip(s, q)
    requires ValueAt(b + s, |b| + Skip(s, q), depth) == Later(ValueAt(s, Skip(s, q), depth), |b|)
    requires var v := ValueAt(s, Skip(s, q), depth); v.Ok? ==>
      var e := Skip(s, v.next);
      && Skip(b + s, |b| + v.next) == |b| + e && (e < |s| ==> (b + s)[|b| + e] == s[e])
      && (ByteIs(s, e, COMMA) ==> ItemsAt(b + s, |b| + (e + 1), depth) == Later(ItemsAt(s, e + 1, depth), |b|))
    ensures ItemsAt(b + s, |b| + q, depth) == Later(ItemsAt(s, q, depth), |b|)
  {
    hide ValueAt, Skip;
  }

  lemma {:induction false} ObjectLater(b: bytes, s: bytes, p: nat, depth: int)
    requires p < |s|
    ensures ObjectAt(b + s, |b| + p, depth) == Later(ObjectAt(s, p, depth), |b|)
    decreases |s| - p, 2
  {
    hide MembersAt, Skip;
    SkipLater(b, s, p + 1);
    var q := Skip(s, p + 1);
    IndexLater(b, s, q);
    if q < |s| {
      MembersLater(b, s, q - 1, depth + 1);
    }
  }

  lemma {:induction false} MembersLater(b: bytes, s: bytes, p: nat, depth: int)
    requires p < |s|
    ensures MembersAt(b + s, |b| + p, depth) == Later(MembersAt(s, p, depth), |b|)
    decreases |s| - p, 1
  {
    hide MemberAt;
    MemberLater(b, s, p, depth);
    var m := MemberAt(s, p, depth);
    if m.Ok? {
      IndexLater(b, s, m.next);
      if ByteIs(s, m.next, COMMA) {
        MembersLater(b, s, m.next, depth);
      }
    }
  }

  lemma {:induction false} MemberLater(b: bytes, s: bytes, p: nat, depth: int)
    requires p < |s|
    ensures MemberAt(b + s, |b| + p, depth) == Later(MemberAt(s, p, depth), |b|)
    decreases |s| - p, 0
  {
    hide ValueAt, Skip, StringAt;
    if p + 1 < |s| {
      SkipLater(b, s, p + 1);
      StringLater(b, s, Skip(s, p + 1));
      var key := StringAt(s, Skip(s, p + 1));
      if key.Parsed? {
        SkipLater(b, s, key.next);
        var c := Skip(s, key.next);
        IndexLater(b, s, c);
        if ByteIs(s, c, COLON) {
          SkipLater(b, s, c + 1);
          ValueLater(b, s, Skip(s, c + 1), depth);
          var v := ValueAt(s, Skip(s, c + 1), depth);
          if v.Ok? {
            SkipLater(b, s, v.next);
          }
        }
      }
    }
  }

  // ---------------------------------------------------------------- documents

  /** A text starting with the mark is no value. */
  lemma MarkIsNoValue(t: bytes)
    requires MARK <= t
    ensures ValueAt(t, Skip(t, 0), 0) == Fail(0)
  {
    assert t[0] == 0xEF;
    assert BlankEnd(t, 0) == 0;
    if At(t, 0, NULL_TEXT) { AtIndex(t, 0, NULL_TEXT, 0); }
    if At(t, 0, FALSE_TEXT) { AtIndex(t, 0, FALSE_TEXT, 0); }
    if At(t, 0, TRUE_TEXT) { AtIndex(t, 0, TRUE_TEXT, 0); }
  }

  /** A text without a mark, read behind one. */
  lemma ReadBehindMark(t: bytes, requireTerminator: bool)
    requires |t| >= 2 && !(MARK <= t)
    ensures var r, m := Document(t, requireTerminator), Document(MARK + t, requireTerminator);
      (m.Ok? <==> r.Ok?) && (m.Ok? ==> m == Later(r, 3))
  {
    hide ValueAt, Skip, BomEnd;
    Marks(t);
    SkipLater(MARK, t, 0);
    var q := Skip(t, 0);
    ValueLater(MARK, t, q, 0);
    var v := ValueAt(t, q, 0);
    if v.Ok? {
      SkipLater(MARK, t, v.next);
      IndexLater(MARK, t, Skip(t, v.next));
    }
  }

  lemma Marks(t: bytes)
    ensures BomEnd(MARK + t) == if |t| >= 2 then 3 else 0
    ensures BomEnd(t) == 0 || MARK <= t
    ensures MARK <= MARK + t
  {
    assert (MARK + t)[..3] == MARK;
  }

  /** A mark in front of a text is ignored: the text is accepted as it is without the mark, with the
      same tree, three bytes further on. The exceptions are exactly the texts of fewer than two
      bytes, for which the code does not look for a mark, and those that have a mark already. */
  lemma MarkIgnored(t: bytes, requireTerminator: bool)
    ensures var r, m := Document(t, requireTerminator), Document(MARK + t, requireTerminator);
      (m.Ok? <==> r.Ok? && |t| >= 2 && !(MARK <= t)) && (m.Ok? ==> m == Later(r, 3))
  {
    hide ValueAt, Skip, BomEnd;
    Marks(t);
    if |t| < 2 {
      MarkIsNoValue(MARK + t);
    } else if MARK <= t {
      MarkIsNoValue(t);
      SkipLater(MARK, t, 0);
      ValueLater(MARK, t, Skip(t, 0), 0);
    } else {
      ReadBehindMark(t, requireTerminator);
    }
  }
}
