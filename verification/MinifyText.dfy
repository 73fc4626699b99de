/** Minifying any text the parser accepts, printed by this program or not. */
module MinifyText {
  import opened Bytes
  import opened JsonTree
  import opened Utf8
  import opened Strings
  import opened Numbers
  import opened Grammar
  import opened ParseFacts
  import opened RoundTrip
  import opened Minifier
  import opened PrintMinify
  import opened MinifyStrings
  import opened ByteOrderMark

  /** Nowhere do two backslashes stand before a quote: the one place where the filter and the parser
      can disagree about the end of a string. */
  predicate Untrapped(t: bytes) {
    forall i :: 0 <= i < |t| - 2 && t[i] == BACKSLASH && t[i + 1] == BACKSLASH ==> t[i + 2] != QUOTE
  }

  /** What is left of the text from `p` on stands in the minified text `m` from `q` on. */
  ghost predicate Kept(t: bytes, m: bytes, p: nat, q: nat) {
    p <= |t| && Rest(m, q, Minify(t[p..]) + [0])
  }

  // ---------------------------------------------------------------- one step

  lemma KeptText(t: bytes, m: bytes, p: nat, q: nat, w: bytes)
    requires Kept(t, m, p, q) && At(t, p, w) && forall i :: 0 <= i < |w| ==> IsPlain(w[i])
    ensures At(m, q, w) && Kept(t, m, p + |w|, q + |w|)
  {
    hide Minify;
    var rest := t[p + |w|..];
    assert t[p..] == w + rest;
    MinifyPlain(w, rest);
    assert w + Minify(rest) + [0] == w + (Minify(rest) + [0]);
    RestSplit(m, q, w, Minify(rest) + [0]);
  }

  lemma KeptByte(t: bytes, m: bytes, p: nat, q: nat)
    requires Kept(t, m, p, q) && p < |t| && IsPlain(t[p])
    ensures q < |m| && m[q] == t[p] && Kept(t, m, p + 1, q + 1)
  {
    hide Minify, Kept;
    KeptText(t, m, p, q, [t[p]]);
    AtIndex(m, q, [t[p]], 0);
  }

  lemma KeptBlank(t: bytes, m: bytes, p: nat, q: nat)
    requires Kept(t, m, p, q) && p < |t| && IsBlank(t[p])
    ensures Kept(t, m, p + 1, q)
  {
    hide Minify;
    assert t[p..] == [t[p]] + t[p + 1..];
    MinifyOne(t[p], t[p + 1..]);
  }

  lemma KeptEnd(t: bytes, m: bytes, q: nat)
    requires Kept(t, m, |t|, q)
    ensures q + 1 == |m| && m[q] == 0
  {
    assert t[|t|..] == [];
    assert Minify([]) + [0] == [0];
    RestFirst(m, q, [0]);
  }

  /** A byte that the parser does not skip and the filter does not drop leads what is left. */
  ghost predicate Visible(t: bytes, p: nat) {
    p < |t| && t[p] > 32 && t[p] != SLASH
  }

  lemma KeptVisible(t: bytes, m: bytes, p: nat, q: nat)
    requires Kept(t, m, p, q) && Visible(t, p)
    ensures q < |m| && m[q] == t[p]
  {
    hide Minify, StringStop, LineStop, CommentStop;
    MinifyUnfold(t[p..]);
    if t[p] == QUOTE {
      TurnQuote(t[p..]);
    }
    RestFirst(m, q, Minify(t[p..]) + [0]);
  }

  /** The parser, skipping blanks in both texts, comes to the same visible byte. */
  lemma {:induction false} KeptSkip(t: bytes, m: bytes, p: nat, q: nat, p': nat) returns (q': nat)
    requires Kept(t, m, p, q) && p <= p' && Visible(t, p') && forall i :: p <= i < p' ==> t[i] <= 32
    ensures Skip(t + [0], p) == p' && q <= q' < |m| && Skip(m, q) == q' && m[q'] == t[p'] && Kept(t, m, p', q')
    decreases p' - p
  {
    hide Minify, Kept;
    var s := t + [0];
    SkipTo(s, p, p');
    if p == p' {
      KeptVisible(t, m, p, q);
      q' := q;
      SkipTo(m, q, q);
    } else if IsBlank(t[p]) {
      KeptBlank(t, m, p, q);
      q' := KeptSkip(t, m, p + 1, q, p');
    } else {
      KeptByte(t, m, p, q);
      q' := KeptSkip(t, m, p + 1, q + 1, p');
      SkipOne(m, q, q');
    }
  }

  lemma SkipOne(m: bytes, q: nat, q': nat)
    requires q + 1 <= q' < |m| && m[q] <= 32 && m[q'] > 32 && Skip(m, q + 1) == q'
    ensures Skip(m, q) == q'
  {
  }

  /** Skipping lands on a byte of the text or on the terminator. */
  lemma SkipLands(t: bytes, p: nat)
    requires p <= |t|
    ensures var e := Skip(t + [0], p);
      && p <= e <= |t| && (forall i :: p <= i < e ==> t[i] <= 32) && (e < |t| ==> t[e] > 32)
  {
    var s := t + [0];
    assert forall i :: 0 <= i < |t| ==> s[i] == t[i];
    if BlankEnd(s, p) == |s| {
      assert s[|t|] == 0;
    }
  }

  /** Nothing but blanks to the end: the parser comes to the terminator in both texts. */
  lemma {:induction false} KeptTail(t: bytes, m: bytes, p: nat, q: nat)
    requires Kept(t, m, p, q) && forall i :: p <= i < |t| ==> t[i] <= 32
    ensures q < |m| && m[|m| - 1] == 0 && forall j :: q <= j < |m| ==> m[j] <= 32
    decreases |t| - p
  {
    hide Minify, Kept;
    KeptBound(t, m, p, q);
    if p == |t| {
      KeptEnd(t, m, q);
    } else if IsBlank(t[p]) {
      KeptBlank(t, m, p, q);
      KeptTail(t, m, p + 1, q);
    } else {
      KeptByte(t, m, p, q);
      KeptTail(t, m, p + 1, q + 1);
    }
  }

  lemma KeptBound(t: bytes, m: bytes, p: nat, q: nat)
    requires Kept(t, m, p, q)
    ensures p <= |t| && q < |m| && (Visible(t, p) ==> q + 1 < |m|)
  {
    hide Minify;
    if Visible(t, p) {
      KeptVisible(t, m, p, q);
      assert m[|m| - 1] == m[q..][|m| - 1 - q] == 0;
    }
  }

  lemma TailSkip(m: bytes, q: nat)
    requires q < |m| && forall j :: q <= j < |m| ==> m[j] <= 32
    ensures Skip(m, q) == |m| - 1
  {
    hide BlankEnd;
    AllBlank(m, q);
  }

  lemma {:induction false} AllBlank(m: bytes, q: nat)
    requires q <= |m| && forall j :: q <= j < |m| ==> m[j] <= 32
    ensures BlankEnd(m, q) == |m|
    decreases |m| - q
  {
    if q < |m| {
      AllBlank(m, q + 1);
    }
  }

  // ---------------------------------------------------------------- strings

  /** Without a trap the filter ends a string where the parser does. */
  lemma {:induction false} StopsAlike(t: bytes, a: nat)
    requires Untrapped(t) && a <= |t| && Scan(t + [0], a).Some?
    ensures a < |t| && StringStop(t, a) == Scan(t + [0], a).value.0 + 1
    decreases |t| - a
  {
    var s := t + [0];
    var b := Scan(s, a).value.0;
    assert b < |t| by {
      assert s[b] == QUOTE && s[|t|] == 0;
    }
    assert forall i :: 0 <= i < |t| ==> s[i] == t[i];
    if s[a] == QUOTE {
    } else if s[a] == BACKSLASH {
      StopsAlike(t, a + 2);
    } else {
      StopsAlike(t, a + 1);
    }
  }

  lemma {:induction false} ScanSame(x: bytes, y: bytes, a: nat)
    requires Scan(x, a).Some? && Scan(x, a).value.0 < |y| && x[..Scan(x, a).value.0 + 1] == y[..Scan(x, a).value.0 + 1]
    ensures Scan(y, a) == Scan(x, a)
    decreases |x| - a
  {
    var e := Scan(x, a).value.0;
    assert forall i :: 0 <= i <= e ==> x[..e + 1][i] == x[i] && y[..e + 1][i] == y[i];
    if x[a] != QUOTE {
      ScanSame(x, y, if x[a] == BACKSLASH then a + 2 else a + 1);
    }
  }

  lemma HexSame(x: bytes, y: bytes, p: nat)
    requires p + 4 <= |x| && p + 4 <= |y| && x[p..p + 4] == y[p..p + 4]
    ensures Hex4(x, p) == Hex4(y, p)
  {
    hide HexValue;
    assert forall i :: p <= i < p + 4 ==> x[i] == x[p..p + 4][i - p];
    assert forall i :: p <= i < p + 4 ==> y[i] == y[p..p + 4][i - p];
    assert WellFormedHex(x, p) <==> WellFormedHex(y, p);
  }

  lemma LiteralSame(x: bytes, y: bytes, p: nat, e: nat)
    requires e < |x| && e < |y| && forall i :: 0 <= i <= e ==> x[i] == y[i]
    ensures Utf16Literal(x, p, e) == Utf16Literal(y, p, e)
  {
    hide Hex4;
    if p + 6 <= e {
      HexSame(x, y, p + 2);
    }
    if p + 12 <= e {
      HexSame(x, y, p + 8);
    }
  }

  lemma {:induction false} DecodeSame(x: bytes, y: bytes, a: nat, e: nat)
    requires e < |x| && e < |y| && forall i :: 0 <= i <= e ==> x[i] == y[i]
    ensures Decode(x, a, e) == Decode(y, a, e)
    decreases |x| - a
  {
    hide Utf16Literal, EncodeUtf8, SimpleEscape;
    if a < e {
      if x[a] != BACKSLASH {
        DecodeSame(x, y, a + 1, e);
      } else {
        LiteralSame(x, y, a, e);
        var step := EscapeAt(x, a, e);
        if step.Some? {
          DecodeSame(x, y, a + step.value.1, e);
        }
      }
    }
  }

  /** What a string token reads as does not depend on what follows it. */
  lemma TokenSame(w: bytes, x: bytes, y: bytes)
    requires w != [] && StringAt(w + x, 0).Parsed? && StringAt(w + x, 0).next == |w|
    ensures StringAt(w + y, 0) == StringAt(w + x, 0)
  {
    hide Scan, Decode;
    var a, b := w + x, w + y;
    var e := Scan(a, 1).value.0;
    assert e + 1 == |w| && a[..e + 1] == w && b[..e + 1] == w;
    ScanSame(a, b, 1);
    DecodeSame(a, b, 1, e);
  }

  /** A string token is kept as it is, and reads the same in the minified text. */
  lemma TokenKept(t: bytes, m: bytes, p: nat, q: nat) returns (q': nat)
    requires Untrapped(t) && Kept(t, m, p, q) && p < |t| && StringAt(t + [0], p).Parsed?
    ensures var r := StringAt(t + [0], p);
      && q < |m| && StringAt(m, q) == Parsed(r.text, q') && r.next <= |t| && Kept(t, m, r.next, q')
  {
    hide Minify, Scan, Decode, StringStop, StringAt;
    var s := t + [0];
    var r := StringAt(s, p);
    var n := r.next;
    TokenEnds(t, p);
    var w, rest := t[p..n], t[n..];
    TokenLeft(t, p, n);
    assert w + Minify(rest) + [0] == w + (Minify(rest) + [0]);
    RestSplit(m, q, w, Minify(rest) + [0]);
    q' := q + |w|;
    var x, y := rest + [0], Minify(rest) + [0];
    assert s == s[..p] + (w + x);
    StringLater(s[..p], w + x, 0);
    TokenSame(w, x, y);
    assert m == m[..q] + (w + y) by {
      assert m[q..] == w + y;
    }
    StringLater(m[..q], w + y, 0);
  }

  lemma TokenEnds(t: bytes, p: nat)
    requires Untrapped(t) && p < |t| && StringAt(t + [0], p).Parsed?
    ensures var n := StringAt(t + [0], p).next; t[p] == QUOTE && p + 2 <= n <= |t| && StringStop(t, p + 1) == n
  {
    hide Scan, Decode, StringStop;
    StopsAlike(t, p + 1);
  }

  /** What the filter makes of a text that starts with a string. */
  lemma TokenLeft(t: bytes, p: nat, n: nat)
    requires p < n <= |t| && t[p] == QUOTE && StringStop(t, p + 1) == n
    ensures Minify(t[p..]) == t[p..n] + Minify(t[n..])
  {
    hide Minify, StringStop, Turn;
    var u := t[p..];
    assert t[..p] + u == t;
    StringStopShift(t[..p], u, p + 1);
    TurnQuote(u);
    MinifyUnfold(u);
    assert u[..n - p] == t[p..n] && u[n - p..] == t[n..];
  }

  // ---------------------------------------------------------------- numbers

  /** Behind blanks comes what may follow a value: a comma, a closing bracket, or the end. */
  ghost predicate Ends(t: bytes, e: nat) {
    e <= |t| && var f := Skip(t + [0], e); f == |t| || (f < |t| && t[f] in {COMMA, RBRACKET, RBRACE})
  }

  lemma {:induction false} RunBytes(s: bytes, p: nat, room: nat)
    requires p <= |s|
    ensures var r := RunEnd(s, p, room);
      && (forall i :: p <= i < r ==> IsNumberByte(s[i]))
      && (r == p + room || r == |s| || !IsNumberByte(s[r]))
    decreases room
  {
    if room > 0 && p < |s| && IsNumberByte(s[p]) {
      RunBytes(s, p + 1, room - 1);
    }
  }

  lemma {:induction false} RunIs(s: bytes, p: nat, room: nat, r: nat)
    requires p <= r <= |s| && r <= p + room && forall i :: p <= i < r ==> IsNumberByte(s[i])
    requires r == p + room || r == |s| || !IsNumberByte(s[r])
    ensures RunEnd(s, p, room) == r
    decreases room
  {
    if p < r {
      RunIs(s, p + 1, room - 1, r);
    }
  }

  /** What is left behind a value does not make a number longer. */
  lemma KeptStops(t: bytes, m: bytes, e: nat, q: nat)
    requires Kept(t, m, e, q) && Ends(t, e)
    ensures q < |m| && !IsNumberByte(m[q])
  {
    hide Minify, Kept, Skip;
    KeptBound(t, m, e, q);
    SkipLands(t, e);
    var f := Skip(t + [0], e);
    if f == |t| {
      KeptTail(t, m, e, q);
    } else {
      var g := KeptSkip(t, m, e, q, f);
      if q < g {
        assert m[q] <= 32;
      }
    }
  }

  lemma NumberKept(t: bytes, m: bytes, p: nat, q: nat) returns (q': nat)
    requires Kept(t, m, p, q) && p < |t| && NumberAt(t + [0], p).Some? && Ends(t, NumberAt(t + [0], p).value.1)
    ensures var (d, e) := NumberAt(t + [0], p).value; NumberAt(m, q) == Some((d, q')) && Kept(t, m, e, q')
  {
    hide Minify, Strtod, Skip, Kept, Ends, NumberAt, RunEnd, At, IsNumberByte;
    var e, w := NumberText(t, p);
    NumberPlain(w);
    KeptText(t, m, p, q, w);
    q' := q + |w|;
    KeptStops(t, m, e, q');
    NumberReads(m, q, w);
  }

  lemma NumberPlain(w: bytes)
    requires forall i :: 0 <= i < |w| ==> IsNumberByte(w[i])
    ensures forall i :: 0 <= i < |w| ==> IsPlain(w[i])
  {
  }

  /** The text of a number: a whole run of number bytes. */
  lemma NumberText(t: bytes, p: nat) returns (e: nat, w: bytes)
    requires p < |t| && NumberAt(t + [0], p).Some? && Ends(t, NumberAt(t + [0], p).value.1)
    ensures e == NumberAt(t + [0], p).value.1 && At(t, p, w) && |w| <= RUN_LIMIT && e == p + |w|
    ensures forall i :: 0 <= i < |w| ==> IsNumberByte(w[i])
    ensures Strtod(w) == Some((NumberAt(t + [0], p).value.0, |w|))
  {
    hide Strtod, Ends, RunEnd, IsNumberByte;
    var s := t + [0];
    e := NumberAt(s, p).value.1;
    RunBytes(s, p, RUN_LIMIT);
    WholeRun(t, e, RunEnd(s, p, RUN_LIMIT));
    EndsWithin(t, e);
    w := t[p..e];
    assert s[p..e] == w;
    assert forall i :: 0 <= i < |w| ==> w[i] == s[p + i];
  }

  lemma EndsWithin(t: bytes, e: nat)
    requires Ends(t, e)
    ensures e <= |t|
  {
  }

  lemma NumberReads(m: bytes, q: nat, w: bytes)
    requires At(m, q, w) && |w| <= RUN_LIMIT && (forall i :: 0 <= i < |w| ==> IsNumberByte(w[i])) && Strtod(w).Some?
    requires q + |w| < |m| && !IsNumberByte(m[q + |w|]) && Strtod(w).value.1 == |w|
    ensures NumberAt(m, q) == Some((Strtod(w).value.0, q + |w|))
  {
    hide Strtod, RunEnd, IsNumberByte;
    forall i | q <= i < q + |w| ensures IsNumberByte(m[i]) {
      AtIndex(m, q, w, i - q);
    }
    RunIs(m, q, RUN_LIMIT, q + |w|);
  }

  /** The conversion has used the whole run, or something else would follow the number. */
  lemma WholeRun(t: bytes, e: nat, r: nat)
    requires e <= r <= |t| + 1 && Ends(t, e) && forall i :: e <= i < r ==> IsNumberByte((t + [0])[i])
    ensures e == r
  {
    hide Skip;
    var s := t + [0];
    if e < r {
      assert IsNumberByte(s[e]);
      if e < |t| {
        SkipTo(s, e, e);
      }
    }
  }

  // ---------------------------------------------------------------- values

  /** A value starts with a visible byte. */
  lemma ValueLead(t: bytes, p: nat, depth: int)
    requires p <= |t| && ValueAt(t + [0], p, depth).Ok?
    ensures Visible(t, p) && (t[p] in {110, 102, 116, QUOTE, MINUS, LBRACKET, LBRACE} || IsDigit(t[p]))
  {
    hide StringAt, NumberAt, ArrayAt, ObjectAt, At;
    var s := t + [0];
    if At(s, p, NULL_TEXT) { AtIndex(s, p, NULL_TEXT, 0); }
    if At(s, p, FALSE_TEXT) { AtIndex(s, p, FALSE_TEXT, 0); }
    if At(s, p, TRUE_TEXT) { AtIndex(s, p, TRUE_TEXT, 0); }
    assert s[p] != 0;
  }

  /** A literal is the same word in both texts. */
  lemma LiteralKept(t: bytes, m: bytes, p: nat, q: nat, w: bytes)
    requires Kept(t, m, p, q) && At(t + [0], p, w) && w in {NULL_TEXT, FALSE_TEXT, TRUE_TEXT}
    ensures p + |w| <= |t| && At(m, q, w) && Kept(t, m, p + |w|, q + |w|)
  {
    hide Minify, Kept;
    var s := t + [0];
    AtIndex(s, p, w, |w| - 1);
    assert w[|w| - 1] != 0 && s[|t|] == 0;
    assert t[p..p + |w|] == s[p..p + |w|];
    KeptText(t, m, p, q, w);
  }

  /** The two results are the same value, and the texts behind it go together. */
  ghost predicate Same<T>(t: bytes, m: bytes, r: Result<T>, r': Result<T>) {
    r.Ok? && r'.Ok? && r'.value == r.value && Kept(t, m, r.next, r'.next)
  }

  lemma {:induction false} ValueKept(t: bytes, m: bytes, p: nat, q: nat, depth: int)
    requires Untrapped(t) && Kept(t, m, p, q) && p <= |t| && q <= |m|
    requires ValueAt(t + [0], p, depth).Ok? && Ends(t, ValueAt(t + [0], p, depth).next)
    ensures Same(t, m, ValueAt(t + [0], p, depth), ValueAt(m, q, depth))
    decreases |t| - p, 3
  {
    hide StringAt, NumberAt, ArrayAt, ObjectAt, At, Kept, Skip;
    var s := t + [0];
    ValueLead(t, p, depth);
    KeptVisible(t, m, p, q) by {
      assert Kept(t, m, p, q);
    }
    Dispatch(s, p, depth);
    Dispatch(m, q, depth);
    if t[p] == QUOTE {
      var q' := TokenKept(t, m, p, q);
    } else if t[p] == MINUS || IsDigit(t[p]) {
      var q' := NumberKept(t, m, p, q);
    } else if t[p] == LBRACKET {
      ArrayKept(t, m, p, q, depth);
    } else if t[p] == LBRACE {
      ObjectKept(t, m, p, q, depth);
    } else {
      WordKept(t, m, p, q, depth);
    }
  }

  lemma WordKept(t: bytes, m: bytes, p: nat, q: nat, depth: int)
    requires Kept(t, m, p, q) && p < |t| && q <= |m| && ValueAt(t + [0], p, depth).Ok? && t[p] in {110, 102, 116}
    ensures Same(t, m, ValueAt(t + [0], p, depth), ValueAt(m, q, depth))
  {
    hide StringAt, NumberAt, ArrayAt, ObjectAt, At, Kept;
    var s := t + [0];
    if At(s, p, NULL_TEXT) {
      LiteralKept(t, m, p, q, NULL_TEXT);
    } else if At(s, p, FALSE_TEXT) {
      AtIndex(s, p, FALSE_TEXT, 0);
      LiteralKept(t, m, p, q, FALSE_TEXT);
      NotWord(m, q, FALSE_TEXT, NULL_TEXT);
    } else {
      LiteralKept(t, m, p, q, TRUE_TEXT);
      NotWord(m, q, TRUE_TEXT, NULL_TEXT);
      NotWord(m, q, TRUE_TEXT, FALSE_TEXT);
    }
  }

  lemma NotWord(m: bytes, q: nat, w: bytes, u: bytes)
    requires At(m, q, w) && w != [] && u != [] && w[0] != u[0]
    ensures !At(m, q, u)
  {
    hide At;
    AtIndex(m, q, w, 0);
    if At(m, q, u) {
      AtIndex(m, q, u, 0);
    }
  }

  lemma {:induction false} ArrayKept(t: bytes, m: bytes, p: nat, q: nat, depth: int)
    requires Untrapped(t) && Kept(t, m, p, q) && p < |t| && t[p] == LBRACKET && q < |m| && m[q] == LBRACKET
    requires ArrayAt(t + [0], p, depth).Ok?
    ensures Same(t, m, ArrayAt(t + [0], p, depth), ArrayAt(m, q, depth))
    decreases |t| - p, 2
  {
    hide ItemsAt, Kept, Skip;
    var s := t + [0];
    KeptByte(t, m, p, q);
    SkipLands(t, p + 1);
    var k := Skip(s, p + 1);
    if !ByteIs(s, k, RBRACKET) {
      ItemsLead(t, k, depth + 1);
    }
    var g := KeptSkip(t, m, p + 1, q + 1, k);
    if ByteIs(s, k, RBRACKET) {
      KeptByte(t, m, k, g);
    } else {
      ItemsKept(t, m, k, g, depth + 1);
    }
  }

  /** Where items begin without blanks. */
  lemma ItemsLead(t: bytes, k: nat, depth: int)
    requires k <= |t| && (k < |t| ==> t[k] > 32) && ItemsAt(t + [0], k, depth).Ok?
    ensures Visible(t, k)
  {
    hide ValueAt, Skip;
    var s := t + [0];
    EndSkip(t);
    if k < |t| {
      SkipTo(s, k, k);
    }
    ValueLead(t, k, depth);
  }

  lemma {:induction false} ItemsKept(t: bytes, m: bytes, p: nat, q: nat, depth: int)
    requires Untrapped(t) && Kept(t, m, p, q) && p <= |t| && q <= |m| && ItemsAt(t + [0], p, depth).Ok?
    ensures Same(t, m, ItemsAt(t + [0], p, depth), ItemsAt(m, q, depth))
    decreases |t| - p, 4
  {
    hide ValueAt, Kept, Skip;
    var s := t + [0];
    SkipLands(t, p);
    var a := Skip(s, p);
    ValueLead(t, a, depth);
    var b := KeptSkip(t, m, p, q, a);
    var v := ValueAt(s, a, depth);
    var e := Skip(s, v.next);
    Within(t, v.next, e);
    ValueKept(t, m, a, b, depth);
    var g := KeptSkip(t, m, v.next, ValueAt(m, b, depth).next, e);
    KeptByte(t, m, e, g);
    if ByteIs(s, e, COMMA) {
      ItemsKept(t, m, e + 1, g + 1, depth);
    }
  }

  /** A comma or bracket behind blanks is a byte of the text. */
  lemma Within(t: bytes, n: nat, e: nat)
    requires n <= |t| + 1 && Skip(t + [0], n) == e && e <= |t| && (t + [0])[e] in {COMMA, RBRACKET, RBRACE, COLON}
    ensures n <= e < |t| && Visible(t, e) && (forall i :: n <= i < e ==> t[i] <= 32)
    ensures t[e] != COLON ==> Ends(t, n)
  {
    hide Skip;
    var s := t + [0];
    assert s[|t|] == 0;
    assert forall i :: 0 <= i < |t| ==> s[i] == t[i];
  }

  lemma {:induction false} ObjectKept(t: bytes, m: bytes, p: nat, q: nat, depth: int)
    requires Untrapped(t) && Kept(t, m, p, q) && p < |t| && t[p] == LBRACE && q < |m| && m[q] == LBRACE
    requires ObjectAt(t + [0], p, depth).Ok?
    ensures Same(t, m, ObjectAt(t + [0], p, depth), ObjectAt(m, q, depth))
    decreases |t| - p, 2
  {
    hide MembersAt, Kept, Skip;
    var s := t + [0];
    KeptByte(t, m, p, q);
    SkipLands(t, p + 1);
    var k := Skip(s, p + 1);
    if !ByteIs(s, k, RBRACE) {
      MembersLead(t, k, depth + 1);
    }
    var g := KeptSkip(t, m, p + 1, q + 1, k);
    if ByteIs(s, k, RBRACE) {
      KeptByte(t, m, k, g);
    } else {
      MembersKept(t, m, k - 1, g - 1, depth + 1);
    }
  }

  lemma EndSkip(t: bytes)
    ensures Skip(t + [0], |t|) == |t|
  {
    TailSkip(t + [0], |t|);
  }

  lemma MembersLead(t: bytes, k: nat, depth: int)
    requires 0 < k <= |t| && (k < |t| ==> t[k] > 32) && MembersAt(t + [0], k - 1, depth).Ok?
    ensures Visible(t, k)
  {
    hide ValueAt, Skip, Scan, Decode;
    var s := t + [0];
    EndSkip(t);
    if k < |t| {
      SkipTo(s, k, k);
    }
  }

  lemma {:induction false} MembersKept(t: bytes, m: bytes, p: nat, q: nat, depth: int)
    requires Untrapped(t) && Kept(t, m, p + 1, q + 1) && p < |t| && q < |m| && MembersAt(t + [0], p, depth).Ok?
    ensures Same(t, m, MembersAt(t + [0], p, depth), MembersAt(m, q, depth))
    decreases |t| - p, 1
  {
    hide MemberAt, Kept;
    var s := t + [0];
    var r := MemberAt(s, p, depth);
    MemberKept(t, m, p, q, depth);
    var g := MemberAt(m, q, depth).next;
    KeptByte(t, m, r.next, g);
    if ByteIs(s, r.next, COMMA) {
      MembersKept(t, m, r.next, g, depth);
    }
  }

  lemma {:induction false} MemberKept(t: bytes, m: bytes, p: nat, q: nat, depth: int)
    requires Untrapped(t) && Kept(t, m, p + 1, q + 1) && p < |t| && q < |m| && MemberAt(t + [0], p, depth).Ok?
    requires var e := MemberAt(t + [0], p, depth).next; ByteIs(t + [0], e, COMMA) || ByteIs(t + [0], e, RBRACE)
    ensures var r, r' := MemberAt(t + [0], p, depth), MemberAt(m, q, depth);
      Same(t, m, r, r') && r.next < |t| && t[r.next] == (t + [0])[r.next] && r'.next < |m| && m[r'.next] == t[r.next]
    decreases |t| - p, 0
  {
    hide ValueAt, StringAt, Kept, Skip;
    var s := t + [0];
    SkipLands(t, p + 1);
    var k := Skip(s, p + 1);
    KeyLead(t, k);
    var g := KeptSkip(t, m, p + 1, q + 1, k);
    var g1 := TokenKept(t, m, k, g);
    var key := StringAt(s, k);
    var c := Skip(s, key.next);
    Within(t, key.next, c);
    var g2 := KeptSkip(t, m, key.next, g1, c);
    KeptByte(t, m, c, g2);
    SkipLands(t, c + 1);
    var a := Skip(s, c + 1);
    ValueLead(t, a, depth);
    var b := KeptSkip(t, m, c + 1, g2 + 1, a);
    var v := ValueAt(s, a, depth);
    Within(t, v.next, Skip(s, v.next));
    ValueKept(t, m, a, b, depth);
    var g3 := KeptSkip(t, m, v.next, ValueAt(m, b, depth).next, Skip(s, v.next));
  }

  lemma KeyLead(t: bytes, k: nat)
    requires k <= |t| && StringAt(t + [0], k).Parsed?
    ensures Visible(t, k)
  {
    hide Scan, Decode;
    assert (t + [0])[|t|] == 0;
  }

  // ---------------------------------------------------------------- whole texts

  /** A text that the parser accepts and in which no two backslashes stand before a quote means the same
      after minifying. */
  lemma MeaningKept(t: bytes)
    requires 0 !in t && Untrapped(t) && Document(t + [0], true).Ok?
    ensures var r := Document(Minify(t) + [0], true); r.Ok? && r.value == Document(t + [0], true).value
  {
    hide ValueAt, Skip, Kept, Minify;
    var s, m := t + [0], Minify(t) + [0];
    var b := BomEnd(s);
    var n := MarkKept(t);
    SkipLands(t, b);
    var p := Skip(s, b);
    ValueLead(t, p, 0);
    var q := KeptSkip(t, m, b, n, p);
    var v := ValueAt(s, p, 0);
    TextEnds(t, v.next);
    ValueKept(t, m, p, q, 0);
    var g := ValueAt(m, q, 0).next;
    KeptTail(t, m, v.next, g);
    TailSkip(m, g);
  }

  /** The parser comes to the terminator only over blanks. */
  lemma TextEnds(t: bytes, n: nat)
    requires 0 !in t && n <= |t| + 1 && ByteIs(t + [0], Skip(t + [0], n), 0)
    ensures n <= |t| && Ends(t, n) && forall i :: n <= i < |t| ==> t[i] <= 32
  {
    hide BlankEnd;
    var s := t + [0];
    var e := Skip(s, n);
    forall i | 0 <= i < |t| ensures s[i] == t[i] != 0 {
      assert t[i] in t;
    }
  }

  /** A mark is kept, and so is that there is none. */
  lemma MarkKept(t: bytes) returns (n: nat)
    requires Document(t + [0], true).Ok?
    ensures n == BomEnd(Minify(t) + [0]) && Kept(t, Minify(t) + [0], BomEnd(t + [0]), n)
  {
    hide ValueAt, Skip, Kept, Minify, BomEnd;
    var s, m := t + [0], Minify(t) + [0];
    var b := BomEnd(s);
    MarkCases(t);
    SkipLands(t, b);
    ValueLead(t, Skip(s, b), 0);
    StartKept(t);
    if b == 3 {
      KeptText(t, m, 0, 0, MARK);
      var q := KeptSkip(t, m, 3, 3, Skip(s, 3));
      KeptBound(t, m, Skip(s, 3), q);
      LeadMark(m, q);
      n := 3;
    } else {
      var q := KeptSkip(t, m, 0, 0, Skip(s, 0));
      NoMark(m, q);
      n := 0;
    }
  }

  lemma StartKept(t: bytes)
    ensures Kept(t, Minify(t) + [0], 0, 0)
  {
    assert t[0..] == t;
  }

  lemma MarkCases(t: bytes)
    ensures BomEnd(t + [0]) in {0, 3} && (BomEnd(t + [0]) == 3 ==> At(t, 0, MARK))
  {
    var s := t + [0];
    if BomEnd(s) == 3 {
      assert t[..3] == s[..3];
    }
  }

  lemma LeadMark(m: bytes, q: nat)
    requires At(m, 0, MARK) && 3 <= q && q + 1 < |m|
    ensures BomEnd(m) == 3
  {
    assert m[0..3] == m[..3];
  }

  lemma NoMark(m: bytes, q: nat)
    requires q < |m| && Skip(m, 0) == q && m[q] < 0x80
    ensures BomEnd(m) == 0
  {
    hide Skip;
    assert forall i :: 0 <= i < q ==> m[i] <= 32;
    if 4 < |m| {
      assert m[..3][0] == m[0];
    }
  }
}
