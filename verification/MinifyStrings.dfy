/** Minifying one string of a printed text. The filter enters it in step with the quotes, or out of
    step, taking the text between strings for strings; then it may lose blanks, slashes and comments
    of the string. Also what the parser makes of the result. */
module MinifyStrings {
  import opened Bytes
  import opened JsonTree
  import opened Strings
  import opened Minifier
  import opened PrintMinify

  /** What is left of a text that the filter enters inside or outside one of its strings. */
  function Run(inside: bool, y: bytes): bytes {
    if inside then InString(y) else Minify(y)
  }

  /** The text from a position to the end. */
  ghost predicate Rest(s: bytes, off: nat, w: bytes) {
    off + |w| == |s| && s[off..] == w
  }

  lemma RestSplit(s: bytes, off: nat, a: bytes, b: bytes)
    requires Rest(s, off, a + b)
    ensures At(s, off, a) && Rest(s, off + |a|, b)
  {
    assert s[off..][..|a|] == a && s[off..][|a|..] == b;
  }

  lemma RestFirst(s: bytes, off: nat, w: bytes)
    requires Rest(s, off, w) && w != []
    ensures off < |s| && s[off] == w[0]
  {
    assert s[off..][0] == s[off];
  }

  // ---------------------------------------------------------------- the filter in strings

  /** Where reading the content of a string outside the filter's own strings ends: None when the
      filter drops a byte of it, otherwise whether it leaves inside a string of its own. Only what
      stands before the first quote is at risk, and there only spaces and slashes. */
  function Outside(t: bytes): Option<bool> {
    if t == [] then Some(true)
    else if t[0] == SPACE || t[0] == SLASH then None
    else if t[0] == QUOTE then Some(EndsInBackslash(t[1..]))
    else Outside(t[1..])
  }

  /** The same for a whole string token, which the filter enters inside or outside its strings. */
  function AfterString(t: bytes, inside: bool): Option<bool> {
    if inside then Outside(t) else Some(EndsInBackslash(t))
  }

  lemma RunQuote(y: bytes)
    ensures Run(true, [QUOTE] + y) == [QUOTE] + Run(false, y)
    ensures Run(false, [QUOTE] + y) == [QUOTE] + Run(true, y)
  {
    hide Minify;
    var s := [QUOTE] + y;
    assert StringStop(s, 0) == 1 && s[..1] == [QUOTE] && s[1..] == y;
    MinifyQuote(y);
  }

  lemma EscapePlain(c: byte)
    requires c != SPACE && c != SLASH && c != QUOTE
    ensures forall i :: 0 <= i < |EscapeByte(c)| ==> IsPlain(EscapeByte(c)[i])
  {
  }

  lemma {:induction false} OutsideKeeps(t: bytes, x: bytes)
    requires Outside(t).Some?
    ensures Minify(Escape(t) + [QUOTE] + x) == Escape(t) + [QUOTE] + Run(Outside(t).value, x)
    decreases |t|
  {
    hide Minify, InString, EscapeByte;
    if t == [] {
      RunQuote(x);
      assert [] + [QUOTE] + x == [QUOTE] + x && [] + [QUOTE] + Run(true, x) == [QUOTE] + Run(true, x);
    } else if t[0] == QUOTE {
      QuoteOpens(t[1..], x);
    } else {
      var e, y := EscapeByte(t[0]), Escape(t[1..]) + [QUOTE] + x;
      EscapePlain(t[0]);
      MinifyPlain(e, y);
      OutsideKeeps(t[1..], x);
      assert Escape(t) + [QUOTE] + x == e + y;
      assert e + (Escape(t[1..]) + [QUOTE] + Run(Outside(t).value, x))
        == Escape(t) + [QUOTE] + Run(Outside(t).value, x);
    }
  }

  /** The first quote of the content opens a string of the filter. */
  lemma QuoteOpens(r: bytes, x: bytes)
    ensures var t := [QUOTE] + r;
      Minify(Escape(t) + [QUOTE] + x) == Escape(t) + [QUOTE] + Run(EndsInBackslash(r), x)
  {
    hide Minify, InString, StringStop, Escape;
    var y, z := Escape(r) + [QUOTE] + x, Run(EndsInBackslash(r), x);
    QuoteFirst(r, x);
    QuoteFirst(r, z);
    MinifyPlain([BACKSLASH], [QUOTE] + y);
    RunQuote(y);
    ScanEscape(r, x);
    StringBody(Escape(r), x, StringStop(x, 0), EndsInBackslash(r));
    assert [QUOTE] + (Escape(r) + [QUOTE] + z) == [QUOTE] + Escape(r) + [QUOTE] + z;
  }

  lemma QuoteFirst(r: bytes, x: bytes)
    ensures Escape([QUOTE] + r) + [QUOTE] + x == [BACKSLASH] + ([QUOTE] + (Escape(r) + [QUOTE] + x))
  {
    var t := [QUOTE] + r;
    assert t[1..] == r && Escape(t) == [BACKSLASH, QUOTE] + Escape(r);
    Rejoin(Escape(r), x);
  }

  lemma Rejoin(e: bytes, x: bytes)
    ensures [BACKSLASH, QUOTE] + e + [QUOTE] + x == [BACKSLASH] + ([QUOTE] + (e + [QUOTE] + x))
  {
  }

  /** A string that survives is kept as it is. */
  lemma StringKept(t: bytes, inside: bool, x: bytes)
    requires AfterString(t, inside).Some?
    ensures Run(inside, RenderString(t) + x) == RenderString(t) + Run(AfterString(t, inside).value, x)
  {
    hide Minify, InString, Escape;
    if inside {
      var y := Escape(t) + [QUOTE] + x;
      assert RenderString(t) + x == [QUOTE] + y;
      RunQuote(y);
      OutsideKeeps(t, x);
      var z := Run(Outside(t).value, x);
      assert [QUOTE] + (Escape(t) + [QUOTE] + z) == RenderString(t) + z;
    } else {
      MinifyString(t, x);
    }
  }

  /** One that does not is kept up to its first space or slash. */
  lemma {:induction false} OutsideBreaks(t: bytes, x: bytes) returns (n: nat)
    requires Outside(t) == None
    ensures n < |t| && t[n] in {SPACE, SLASH}
    ensures Minify(Escape(t) + [QUOTE] + x) == Escape(t[..n]) + Minify([t[n]] + (Escape(t[n + 1..]) + [QUOTE] + x))
    decreases |t|
  {
    hide Minify, EscapeByte, Escape;
    if t[0] == SPACE || t[0] == SLASH {
      n := 0;
      BreaksAtOnce(t, x);
    } else {
      var e, y := EscapeByte(t[0]), Escape(t[1..]) + [QUOTE] + x;
      var k := OutsideBreaks(t[1..], x);
      n := k + 1;
      EscapePlain(t[0]);
      MinifyPlain(e, y);
      EscapeFirst(t, x);
      assert t[1..][k + 1..] == t[n + 1..] && t[1..][k] == t[n];
      EscapePrefix(t, n);
      assert e + (Escape(t[1..][..k]) + Minify([t[n]] + (Escape(t[n + 1..]) + [QUOTE] + x)))
        == e + Escape(t[1..][..k]) + Minify([t[n]] + (Escape(t[n + 1..]) + [QUOTE] + x));
    }
  }

  lemma BreaksAtOnce(t: bytes, x: bytes)
    requires t != [] && (t[0] == SPACE || t[0] == SLASH)
    ensures Minify(Escape(t) + [QUOTE] + x) == Escape(t[..0]) + Minify([t[0]] + (Escape(t[0 + 1..]) + [QUOTE] + x))
  {
    hide Minify, EscapeByte;
    RawByte(t[0]);
    assert t[0 + 1..] == t[1..];
    assert Escape(t) + [QUOTE] + x == [t[0]] + (Escape(t[1..]) + [QUOTE] + x);
    var z := Minify([t[0]] + (Escape(t[1..]) + [QUOTE] + x));
    assert Escape(t[..0]) == [] && [] + z == z;
  }

  lemma EscapeFirst(t: bytes, x: bytes)
    requires t != []
    ensures Escape(t) + [QUOTE] + x == EscapeByte(t[0]) + (Escape(t[1..]) + [QUOTE] + x)
  {
    hide EscapeByte;
    var a, b, q := EscapeByte(t[0]), Escape(t[1..]), [QUOTE];
    assert Escape(t) == a + b;
    hide Escape;
    Reassociate(a, b, q, x);
  }

  lemma EscapePrefix(t: bytes, n: nat)
    requires 0 < n <= |t|
    ensures Escape(t[..n]) == EscapeByte(t[0]) + Escape(t[1..][..n - 1])
  {
    hide EscapeByte;
    assert t[..n][1..] == t[1..][..n - 1];
  }

  lemma RawByte(c: byte)
    requires c == SPACE || c == SLASH
    ensures EscapeByte(c) == [c]
  {
  }

  // ---------------------------------------------------------------- texts cut at token boundaries

  /** Every backslash begins a complete escape of the printer. */
  ghost predicate Spelt(y: bytes)
    decreases |y|
  {
    || y == []
    || (y[0] != BACKSLASH && Spelt(y[1..]))
    || exists c: byte :: Escapes(c, y) && Spelt(y[|EscapeByte(c)|..])
  }

  ghost predicate Escapes(c: byte, y: bytes) {
    |EscapeByte(c)| > 1 && EscapeByte(c) <= y
  }

  lemma {:induction false} SpeltPlain(a: bytes, y: bytes)
    requires Spelt(y) && BACKSLASH !in a
    ensures Spelt(a + y)
    decreases |a|
  {
    if a == [] {
      assert a + y == y;
    } else {
      SpeltPlain(a[1..], y);
      assert (a + y)[1..] == a[1..] + y && (a + y)[0] == a[0];
    }
  }

  lemma {:induction false} SpeltEscape(t: bytes, y: bytes)
    requires Spelt(y)
    ensures Spelt(Escape(t) + y)
    decreases |t|
  {
    hide Spelt, EscapeByte;
    if t == [] {
      assert Escape(t) + y == y;
    } else {
      SpeltEscape(t[1..], y);
      SpeltByte(t[0], Escape(t[1..]) + y);
      assert Escape(t) + y == EscapeByte(t[0]) + (Escape(t[1..]) + y);
    }
  }

  lemma SpeltByte(c: byte, y: bytes)
    requires Spelt(y)
    ensures Spelt(EscapeByte(c) + y)
  {
    var z := EscapeByte(c) + y;
    assert z[|EscapeByte(c)|..] == y;
    if |EscapeByte(c)| > 1 {
      assert Escapes(c, z);
    } else {
      assert z[0] != BACKSLASH;
    }
  }

  lemma SpeltString(t: bytes, y: bytes)
    requires Spelt(y)
    ensures Spelt(RenderString(t) + y)
  {
    hide Spelt, Escape;
    SpeltPlain([QUOTE], y);
    SpeltEscape(t, [QUOTE] + y);
    SpeltPlain([QUOTE], Escape(t) + ([QUOTE] + y));
    assert RenderString(t) + y == [QUOTE] + (Escape(t) + ([QUOTE] + y));
  }

  /** Behind a slash, a space or a newline the text is cut at a boundary. */
  lemma {:induction false} SpeltBehind(y: bytes, n: nat)
    requires Spelt(y) && 0 < n <= |y| && y[n - 1] in {SLASH, SPACE, NEWLINE}
    ensures Spelt(y[n..])
    decreases |y|
  {
    hide EscapeByte, Spelt;
    if y[0] != BACKSLASH {
      SpeltNext(y);
      if n > 1 {
        SpeltBehind(y[1..], n - 1);
        assert y[1..][n - 1..] == y[n..];
      }
    } else {
      var c := SpeltEscapeStep(y);
      var k := |EscapeByte(c)|;
      assert y[..k] == EscapeByte(c);
      EscapeBytesVisible(c);
      assert forall i :: 0 <= i < k ==> y[i] == y[..k][i];
      SpeltBehind(y[k..], n - k);
      assert y[k..][n - k..] == y[n..];
    }
  }

  lemma SpeltEscapeStep(y: bytes) returns (c: byte)
    requires Spelt(y) && y != [] && y[0] == BACKSLASH
    ensures Escapes(c, y) && Spelt(y[|EscapeByte(c)|..])
  {
    hide EscapeByte;
    c :| Escapes(c, y) && Spelt(y[|EscapeByte(c)|..]);
  }

  lemma EscapeBytesVisible(c: byte)
    requires |EscapeByte(c)| > 1
    ensures forall i :: 0 <= i < |EscapeByte(c)| ==> EscapeByte(c)[i] !in {SLASH, SPACE, NEWLINE}
  {
  }

  lemma {:induction false} LineEnds(s: bytes, i: nat)
    requires i <= |s|
    ensures LineStop(s, i) == |s| || (i < LineStop(s, i) && s[LineStop(s, i) - 1] == NEWLINE)
    decreases |s| - i
  {
    if i < |s| && s[i] != NEWLINE {
      LineEnds(s, i + 1);
    }
  }

  lemma {:induction false} CommentEnds(s: bytes, i: nat)
    requires i <= |s|
    ensures CommentStop(s, i) == |s| || (i < CommentStop(s, i) && s[CommentStop(s, i) - 1] == SLASH)
    decreases |s| - i
  {
    if i < |s| {
      CommentEnds(s, i + 1);
    }
  }

  /** What a string that has lost a byte goes on with: a quote, the end, or a character that is
      neither a space nor a slash. */
  ghost predicate Head(w: bytes) {
    w == [] || w[0] !in {BACKSLASH, SPACE, SLASH} || exists c: byte :: Escapes(c, w)
  }

  lemma {:induction false} MinifyHead(y: bytes)
    requires Spelt(y)
    ensures Head(Minify(y))
    decreases |y|
  {
    hide Spelt, Minify, StringStop, LineStop, CommentStop;
    if y != [] {
      MinifyUnfold(y);
      if Turn(y).0 == [] {
        TurnBoundary(y);
        MinifyHead(y[Turn(y).1..]);
        assert [] + Minify(y[Turn(y).1..]) == Minify(y[Turn(y).1..]);
      } else if y[0] == BACKSLASH {
        EscapeHead(y);
      }
    } else {
      MinifyNothing();
    }
  }

  lemma MinifyNothing()
    ensures Minify([]) == []
  {
  }

  /** What a turn drops ends at a boundary. */
  lemma TurnBoundary(y: bytes)
    requires Spelt(y) && y != [] && Turn(y).0 == []
    ensures Spelt(y[Turn(y).1..])
  {
    hide Spelt, StringStop, LineStop, CommentStop;
    var n := Turn(y).1;
    if n == |y| {
      assert y[n..] == [];
      SpeltNothing();
    } else if n == 1 {
      SpeltNext(y);
    } else {
      LineEnds(y, 2);
      CommentEnds(y, 2);
      SpeltBehind(y, n);
    }
  }

  lemma SpeltNothing()
    ensures Spelt([])
  {
  }

  lemma SpeltNext(y: bytes)
    requires Spelt(y) && y != [] && y[0] != BACKSLASH
    ensures Spelt(y[1..])
  {
  }

  /** An escape outside the filter's strings is kept, a quote in it with what it opens. */
  lemma EscapeHead(y: bytes)
    requires Spelt(y) && y != [] && y[0] == BACKSLASH
    ensures Head(Minify(y))
  {
    hide Minify, EscapeByte;
    var c :| Escapes(c, y) && Spelt(y[|EscapeByte(c)|..]);
    var z := y[|EscapeByte(c)|..];
    assert y == EscapeByte(c) + z;
    EscapeKept(c, z);
    assert Escapes(c, Minify(y));
  }

  lemma EscapeKept(c: byte, z: bytes)
    requires |EscapeByte(c)| > 1
    ensures EscapeByte(c) <= Minify(EscapeByte(c) + z)
  {
    hide Minify, StringStop;
    if c == QUOTE {
      hide EscapeByte;
      QuoteEscape();
      assert EscapeByte(c) + z == [BACKSLASH] + ([QUOTE] + z);
      MinifyPlain([BACKSLASH], [QUOTE] + z);
      RunQuote(z);
      assert [BACKSLASH] + ([QUOTE] + Run(true, z)) == EscapeByte(c) + Run(true, z);
    } else {
      EscapePlain(c);
      MinifyPlain(EscapeByte(c), z);
    }
  }

  lemma QuoteEscape()
    ensures EscapeByte(QUOTE) == [BACKSLASH, QUOTE]
  {
  }

  // ---------------------------------------------------------------- what the parser reads

  lemma ScanOver(s: bytes, p: nat, c: byte)
    requires At(s, p, EscapeByte(c)) && Scan(s, p).Some?
    ensures Scan(s, p + |EscapeByte(c)|).Some? && Scan(s, p).value.0 == Scan(s, p + |EscapeByte(c)|).value.0
  {
    hide Scan, At;
    EscapeBytes(s, p, c);
    ScanSplit(s, p);
    if |EscapeByte(c)| == 6 {
      ScanSplit(s, p + 2);
      ScanSplit(s, p + 3);
      ScanSplit(s, p + 4);
      ScanSplit(s, p + 5);
    }
  }

  lemma ScanSplit(s: bytes, p: nat)
    requires p < |s| && s[p] != QUOTE && Scan(s, p).Some?
    ensures s[p] != BACKSLASH ==> Scan(s, p + 1) == Scan(s, p)
    ensures s[p] == BACKSLASH ==> Scan(s, p + 2).Some? && Scan(s, p + 2).value.0 == Scan(s, p).value.0
  {
  }

  lemma {:induction false} ScanOverAll(s: bytes, p: nat, t: bytes)
    requires At(s, p, Escape(t)) && Scan(s, p).Some?
    ensures Scan(s, p + |Escape(t)|).Some? && Scan(s, p).value.0 == Scan(s, p + |Escape(t)|).value.0
    decreases |t|
  {
    hide Scan, EscapeByte, At;
    if t != [] {
      AtSplit(s, p, EscapeByte(t[0]), Escape(t[1..]));
      ScanOver(s, p, t[0]);
      ScanOverAll(s, p + |EscapeByte(t[0])|, t[1..]);
    }
  }

  lemma {:induction false} DecodeOver(s: bytes, p: nat, t: bytes, e: nat)
    requires At(s, p, Escape(t)) && p + |Escape(t)| <= e < |s|
    ensures Decode(s, p, e).out == t + Decode(s, p + |Escape(t)|, e).out
    decreases |t|
  {
    hide Decode, EscapeByte, At;
    if t == [] {
      assert [] + Decode(s, p, e).out == Decode(s, p, e).out;
    } else {
      AtSplit(s, p, EscapeByte(t[0]), Escape(t[1..]));
      DecodeOneEscape(s, p, e, t[0]);
      DecodeOver(s, p + |EscapeByte(t[0])|, t[1..], e);
      assert t == [t[0]] + t[1..];
    }
  }

  /** What is decoded behind the loss: nothing, or first a character other than the lost one. */
  lemma HeadDecoded(s: bytes, p: nat, w: bytes)
    requires Rest(s, p, w + [0]) && Head(w) && Scan(s, p).Some?
    ensures var d := Decode(s, p, Scan(s, p).value.0);
      d.failedAt == None ==> d.out == [] || d.out[0] !in {SPACE, SLASH}
  {
    hide Scan, Decode;
    var e := Scan(s, p).value.0;
    RestFirst(s, p, w + [0]);
    if e == p {
      DecodeAtEnd(s, p, e);
    } else if w != [] && w[0] == BACKSLASH {
      HeadEscape(s, p, w, e);
    } else {
      DecodeStep(s, p, e);
    }
  }

  lemma HeadEscape(s: bytes, p: nat, w: bytes, e: nat)
    requires Rest(s, p, w + [0]) && Head(w) && w != [] && w[0] == BACKSLASH && Scan(s, p).Some?
    requires e == Scan(s, p).value.0
    ensures var d := Decode(s, p, e); d.failedAt == None ==> d.out == [] || d.out[0] !in {SPACE, SLASH}
  {
    hide Scan, Decode, EscapeByte, Rest, At;
    var c: byte :| Escapes(c, w);
    var x := w[|EscapeByte(c)|..] + [0];
    assert w + [0] == EscapeByte(c) + x;
    RestSplit(s, p, EscapeByte(c), x);
    ScanOver(s, p, c);
    DecodeOneEscape(s, p, e, c);
    RawByte(SPACE);
    RawByte(SLASH);
  }

  /** A string that has lost a byte is not read as it was. */
  lemma DamagedString(s: bytes, k: nat, t: bytes, n: nat, w: bytes)
    requires n < |t| && t[n] in {SPACE, SLASH} && Head(w)
    requires Rest(s, k, [QUOTE] + (Escape(t[..n]) + (w + [0])))
    ensures k < |s| && (StringAt(s, k).Parsed? ==> CString(StringAt(s, k).text) != t)
  {
    hide Scan, Decode, Escape, At, Head, CString;
    var u := t[..n];
    RestSplit(s, k, [QUOTE], Escape(u) + (w + [0]));
    RestFirst(s, k, [QUOTE] + (Escape(u) + (w + [0])));
    RestSplit(s, k + 1, Escape(u), w + [0]);
    if StringAt(s, k).Parsed? {
      var e := Scan(s, k + 1).value.0;
      ScanOverAll(s, k + 1, u);
      DecodeOver(s, k + 1, u, e);
      HeadDecoded(s, k + 1 + |Escape(u)|, w);
      FailsTogether(s, k + 1, u, e);
      Longer(StringAt(s, k).text, u, Decode(s, k + 1 + |Escape(u)|, e).out, t);
    }
  }

  lemma {:induction false} FailsTogether(s: bytes, p: nat, t: bytes, e: nat)
    requires At(s, p, Escape(t)) && p + |Escape(t)| <= e < |s|
    ensures Decode(s, p, e).failedAt == Decode(s, p + |Escape(t)|, e).failedAt
    decreases |t|
  {
    hide Decode, EscapeByte, At;
    if t != [] {
      AtSplit(s, p, EscapeByte(t[0]), Escape(t[1..]));
      DecodeOneEscape(s, p, e, t[0]);
      FailsTogether(s, p + |EscapeByte(t[0])|, t[1..], e);
    }
  }

  lemma Longer(text: bytes, u: bytes, more: bytes, t: bytes)
    requires text == u + more && u < t && (more == [] || more[0] != t[|u|])
    ensures CString(text) != t
  {
    hide CString;
    assert CString(text) <= text;
    if more != [] {
      assert text[|u|] == more[0];
    }
  }

  /** A string token as the parser finds it in the minified text: itself, if it survives, and the
      rest of the text behind it; something else, if it does not. */
  lemma StringMeaning(t: bytes, inside: bool, x: bytes, s: bytes, k: nat)
    requires 0 !in t && Spelt(x) && Rest(s, k, Run(inside, RenderString(t) + x) + [0])
    ensures k < |s|
    ensures var o := AfterString(t, inside);
      if o == None then StringAt(s, k).Parsed? ==> CString(StringAt(s, k).text) != t
      else
        && StringAt(s, k) == Parsed(t, k + |RenderString(t)|) && CString(t) == t
        && Rest(s, k + |RenderString(t)|, Run(o.value, x) + [0])
  {
    hide Minify, InString, Escape, Scan, Decode, Spelt, StringAt, CString, Head, Rest, Run;
    var o := AfterString(t, inside);
    if o.Some? {
      StringKept(t, inside, x);
      assert RenderString(t) + Run(o.value, x) + [0] == RenderString(t) + (Run(o.value, x) + [0]);
      RestSplit(s, k, RenderString(t), Run(o.value, x) + [0]);
      StringRoundTrip(s, k, t);
      CStringNulFree(t);
      RestQuoted(s, k, t, Run(o.value, x) + [0]);
    } else {
      BrokenMeaning(t, x, s, k);
    }
  }

  lemma RestQuoted(s: bytes, k: nat, t: bytes, w: bytes)
    requires Rest(s, k, RenderString(t) + w)
    ensures k < |s|
  {
  }

  lemma BrokenMeaning(t: bytes, x: bytes, s: bytes, k: nat)
    requires Spelt(x) && Outside(t) == None && Rest(s, k, Run(true, RenderString(t) + x) + [0])
    ensures k < |s| && (StringAt(s, k).Parsed? ==> CString(StringAt(s, k).text) != t)
  {
    hide Minify, InString, Escape, Scan, Decode, Spelt, StringAt, CString, Head, Rest;
    var n := OutsideBreaks(t, x);
    var y := Escape(t[n + 1..]) + [QUOTE] + x;
    var w := Minify([t[n]] + y);
    SpeltPlain([QUOTE], x);
    SpeltEscape(t[n + 1..], [QUOTE] + x);
    assert Escape(t[n + 1..]) + ([QUOTE] + x) == y;
    SpeltPlain([t[n]], y);
    MinifyHead([t[n]] + y);
    RunQuote(Escape(t) + [QUOTE] + x);
    assert RenderString(t) + x == [QUOTE] + (Escape(t) + [QUOTE] + x);
    assert [QUOTE] + (Escape(t[..n]) + w) + [0] == [QUOTE] + (Escape(t[..n]) + (w + [0]));
    DamagedString(s, k, t, n, w);
  }
}
