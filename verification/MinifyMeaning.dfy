/** When minifying the text of a tree keeps its meaning: the minified text parses to the same tree
    exactly if no string or key loses a byte. */
module MinifyMeaning {
  import opened Bytes
  import opened JsonTree
  import opened Strings
  import opened Numbers
  import opened Grammar
  import opened ParseFacts
  import opened RoundTrip
  import opened Minifier
  import opened PrintMinify
  import opened MinifyStrings

  /** Whether minifying the text of a value drops a byte of one of its strings or keys, and if not,
      whether it leaves inside one of the filter's strings. */
  function After(v: Json, inside: bool): Option<bool> {
    match v
    case String(s) => AfterString(s, inside)
    case Array(items) => AfterItems(items, inside)
    case Object(members) => AfterMembers(members, inside)
    case _ => Some(inside)
  }

  function AfterItems(items: seq<Json>, inside: bool): Option<bool> {
    if items == [] then Some(inside)
    else
      var o := After(items[0], inside);
      if o == None then None else AfterItems(items[1..], o.value)
  }

  function AfterMembers(members: seq<Member>, inside: bool): Option<bool> {
    if members == [] then Some(inside)
    else
      var k := AfterString(members[0].key, inside);
      if k == None then None
      else
        var o := After(members[0].value, k.value);
        if o == None then None else AfterMembers(members[1..], o.value)
  }

  // ---------------------------------------------------------------- printed texts are well spelt

  lemma {:induction false} SpeltValue(v: Json, f: bool, d: nat, y: bytes)
    requires Printable(v) && RawFree(v) && Spelt(y)
    ensures Spelt(Render(v, f, d) + y)
    decreases v, 1
  {
    hide Spelt, RenderItems, RenderMembers, RenderString, Decimal, Indent, ObjectOpen, ObjectClose, Escape;
    match v {
      case Null => SpeltPlain(NULL_TEXT, y);
      case Bool(b) => SpeltPlain(if b then TRUE_TEXT else FALSE_TEXT, y);
      case Number(n) =>
        DecimalNoEscape(n.Floor);
        SpeltPlain(Decimal(n.Floor), y);
      case String(s) => SpeltString(s, y);
      case Array(items) =>
        SpeltPlain([RBRACKET], y);
        SpeltItems(items, f, d + 1, [RBRACKET] + y);
        SpeltPlain([LBRACKET], RenderItems(items, f, d + 1) + ([RBRACKET] + y));
        assert Render(v, f, d) + y == [LBRACKET] + (RenderItems(items, f, d + 1) + ([RBRACKET] + y));
      case Object(members) =>
        SpeltMembers(members, f, d + 1, ObjectClose(f, d) + y) by {
          NoEscapes(f, d, true);
          SpeltPlain(ObjectClose(f, d), y);
        }
        SpeltBraces(members, f, d, y);
    }
  }

  lemma SpeltBraces(members: seq<Member>, f: bool, d: nat, y: bytes)
    requires PrintableMembers(members) && Spelt(RenderMembers(members, f, d + 1) + (ObjectClose(f, d) + y))
    ensures Spelt(Render(Object(members), f, d) + y)
  {
    hide Spelt, RenderMembers, ObjectOpen, ObjectClose;
    var m, c := RenderMembers(members, f, d + 1), ObjectClose(f, d);
    NoEscapes(f, d, true);
    SpeltPlain(ObjectOpen(f), m + (c + y));
    assert (ObjectOpen(f) + m + c) + y == ObjectOpen(f) + (m + (c + y));
  }

  lemma DecimalNoEscape(n: int)
    ensures BACKSLASH !in Decimal(n)
  {
    hide Digits;
  }

  lemma NoEscapes(f: bool, d: nat, last: bool)
    ensures BACKSLASH !in Indent(f, d) && BACKSLASH !in ObjectClose(f, d) && BACKSLASH !in ObjectOpen(f)
    ensures BACKSLASH !in KeyEnd(f) && BACKSLASH !in MemberEnd(f, last) && BACKSLASH !in ItemEnd(f, last)
  {
  }

  lemma {:induction false} SpeltItems(items: seq<Json>, f: bool, d: nat, y: bytes)
    requires PrintableItems(items) && RawFreeItems(items) && Spelt(y)
    ensures Spelt(RenderItems(items, f, d) + y)
    decreases items, 0
  {
    hide Spelt, Render, ItemEnd;
    if items == [] {
      assert RenderItems(items, f, d) + y == y;
    } else {
      var rest, sep := items[1..], ItemEnd(f, items[1..] == []);
      SpeltItems(rest, f, d, y);
      NoEscapes(f, d, rest == []);
      SpeltPlain(sep, RenderItems(rest, f, d) + y);
      SpeltValue(items[0], f, d, sep + (RenderItems(rest, f, d) + y));
      ItemParts(items, f, d, y);
    }
  }

  lemma ItemParts(items: seq<Json>, f: bool, d: nat, y: bytes)
    requires items != [] && PrintableItems(items)
    ensures RenderItems(items, f, d) + y
      == Render(items[0], f, d) + (ItemEnd(f, items[1..] == []) + (RenderItems(items[1..], f, d) + y))
  {
    hide Render, ItemEnd;
  }

  /** The text of members from the first key on. */
  function Keyed(members: seq<Member>, f: bool, d: nat): bytes
    requires members != [] && PrintableMembers(members)
  {
    RenderString(members[0].key) + (KeyEnd(f) + (Render(members[0].value, f, d)
      + (MemberEnd(f, members[1..] == []) + RenderMembers(members[1..], f, d))))
  }

  lemma KeyedParts(members: seq<Member>, f: bool, d: nat, y: bytes)
    requires members != [] && PrintableMembers(members)
    ensures RenderMembers(members, f, d) + y == Indent(f, d) + (Keyed(members, f, d) + y)
    ensures Keyed(members, f, d) + y
      == RenderString(members[0].key) + (KeyEnd(f) + (Render(members[0].value, f, d)
        + (MemberEnd(f, members[1..] == []) + (RenderMembers(members[1..], f, d) + y))))
  {
    hide RenderString, Render, KeyEnd, MemberEnd, Indent;
    var k, c, v := RenderString(members[0].key), KeyEnd(f), Render(members[0].value, f, d);
    var e, r := MemberEnd(f, members[1..] == []), RenderMembers(members[1..], f, d);
    Grouped(Indent(f, d), k, c, v, e, r);
    Tailed(k, c, v, e, r, y);
    assert Indent(f, d) + Keyed(members, f, d) + y == Indent(f, d) + (Keyed(members, f, d) + y);
  }

  lemma Grouped(i: bytes, k: bytes, c: bytes, v: bytes, e: bytes, r: bytes)
    ensures i + k + c + v + e + r == i + (k + (c + (v + (e + r))))
  {
    Regroup(i, k, c, v, e, r);
  }

  lemma Tailed(k: bytes, c: bytes, v: bytes, e: bytes, r: bytes, y: bytes)
    ensures k + (c + (v + (e + r))) + y == k + (c + (v + (e + (r + y))))
  {
    assert e + r + y == e + (r + y);
    assert v + (e + r) + y == v + (e + r + y);
    assert c + (v + (e + r)) + y == c + (v + (e + r) + y);
    assert k + (c + (v + (e + r))) + y == k + (c + (v + (e + r)) + y);
  }

  lemma {:induction false} SpeltMembers(members: seq<Member>, f: bool, d: nat, y: bytes)
    requires PrintableMembers(members) && RawFreeMembers(members) && Spelt(y)
    ensures Spelt(RenderMembers(members, f, d) + y)
    ensures members != [] ==> Spelt(Keyed(members, f, d) + y)
    decreases members, 0
  {
    hide Spelt, Render, RenderString, KeyEnd, MemberEnd, Indent, Keyed;
    if members == [] {
      assert RenderMembers(members, f, d) + y == y;
    } else {
      var m, rest := members[0], members[1..];
      SpeltMembers(rest, f, d, y);
      SpeltKeyEnd(m, f, d, rest == [], RenderMembers(rest, f, d) + y);
      KeyedParts(members, f, d, y);
      NoEscapes(f, d, true);
      SpeltPlain(Indent(f, d), Keyed(members, f, d) + y);
    }
  }

  lemma {:induction false} SpeltKeyEnd(m: Member, f: bool, d: nat, last: bool, y: bytes)
    requires 0 !in m.key && Printable(m.value) && RawFree(m.value) && Spelt(y)
    ensures Spelt(MemberEnd(f, last) + y)
    ensures Spelt(Render(m.value, f, d) + (MemberEnd(f, last) + y))
    ensures Spelt(KeyEnd(f) + (Render(m.value, f, d) + (MemberEnd(f, last) + y)))
    ensures Spelt(RenderString(m.key) + (KeyEnd(f) + (Render(m.value, f, d) + (MemberEnd(f, last) + y))))
    decreases m, 2
  {
    hide Spelt, Render, RenderString, KeyEnd, MemberEnd, Indent;
    NoEscapes(f, d, last);
    SpeltPlain(MemberEnd(f, last), y);
    SpeltValue(m.value, f, d, MemberEnd(f, last) + y);
    SpeltPlain(KeyEnd(f), Render(m.value, f, d) + (MemberEnd(f, last) + y));
    SpeltString(m.key, KeyEnd(f) + (Render(m.value, f, d) + (MemberEnd(f, last) + y)));
  }

  // ---------------------------------------------------------------- between strings

  /** A visible byte of the structure is kept in either state. */
  lemma RunChar(inside: bool, c: byte, y: bytes)
    requires IsPlain(c) && c != BACKSLASH
    ensures Run(inside, [c] + y) == [c] + Run(inside, y)
  {
    hide Minify, InString;
    if inside {
      InStringOne(c, y);
    } else {
      MinifyOne(c, y);
    }
  }

  lemma {:induction false} RunChars(inside: bool, t: bytes, y: bytes)
    requires forall i :: 0 <= i < |t| ==> IsPlain(t[i]) && t[i] != BACKSLASH
    ensures Run(inside, t + y) == t + Run(inside, y)
  {
    hide Minify, InString;
    if inside {
      InStringCopies(t, y);
    } else {
      MinifyPlain(t, y);
    }
  }

  /** Blanks of the structure stay inside the filter's strings and go outside. */
  lemma RunBlank(inside: bool, t: bytes, y: bytes)
    requires forall i :: 0 <= i < |t| ==> IsBlank(t[i])
    ensures Run(inside, t + y) == (if inside then t else []) + Run(inside, y)
  {
    hide Minify, InString;
    if inside {
      InStringCopies(t, y);
    } else {
      MinifyBlank(t, y);
      assert [] + Minify(y) == Minify(y);
    }
  }

  /** A visible byte and then blanks. */
  lemma RunSeparator(inside: bool, c: byte, t: bytes, y: bytes)
    requires IsPlain(c) && c != BACKSLASH && forall i :: 0 <= i < |t| ==> IsBlank(t[i])
    ensures Run(inside, [c] + t + y) == [c] + ((if inside then t else []) + Run(inside, y))
  {
    hide Run;
    RunChar(inside, c, t + y);
    RunBlank(inside, t, y);
    assert [c] + t + y == [c] + (t + y);
  }

  /** The parser skips what is left of blanks, up to the visible byte behind them. */
  lemma SkipRun(s: bytes, off: nat, b: bytes, w: bytes)
    requires Rest(s, off, b + w) && w != [] && w[0] > 32 && forall i :: 0 <= i < |b| ==> b[i] <= 32
    ensures off <= |s| && Skip(s, off) == off + |b| && Rest(s, off + |b|, w) && off + |b| < |s|
  {
    hide Skip;
    RestSplit(s, off, b, w);
    RestFirst(s, off + |b|, w);
    forall i | off <= i < off + |b| ensures s[i] <= 32 {
      AtIndex(s, off, b, i - off);
    }
    SkipTo(s, off, off + |b|);
  }

  /** The first byte of a printed token is kept in either state. */
  lemma RunLead(inside: bool, y: bytes)
    requires y != [] && !IsBlank(y[0]) && y[0] != SLASH && y[0] != BACKSLASH
    ensures Run(inside, y) != [] && Run(inside, y)[0] == y[0]
  {
    hide Run;
    assert y == [y[0]] + y[1..];
    if y[0] == QUOTE {
      RunQuote(y[1..]);
    } else {
      RunChar(inside, y[0], y[1..]);
    }
  }

  /** No number goes on with the text. */
  ghost predicate Stops(w: bytes) {
    w == [] || !IsNumberByte(w[0])
  }

  ghost predicate Stopped(x: bytes) {
    Stops(Run(false, x)) && Stops(Run(true, x))
  }

  lemma StoppedBy(x: bytes)
    requires x == [] || x[0] in {COMMA, RBRACKET, RBRACE}
    ensures Stopped(x)
  {
    hide Run;
    if x == [] {
      RunNothing();
    } else {
      RunLead(false, x);
      RunLead(true, x);
    }
  }

  lemma RunNothing()
    ensures Run(false, []) == [] && Run(true, []) == []
  {
    assert StringStop([], 0) == 0;
  }

  // ---------------------------------------------------------------- values

  /** How the parser's result and the filter's outcome fit together. */
  ghost predicate Meets<T>(v: T, r: Result<T>, o: Option<bool>, x: bytes, s: bytes) {
    if o == None then !(r.Ok? && r.value == v)
    else r.Ok? && r.value == v && Rest(s, r.next, Run(o.value, x) + [0])
  }

  /** One value in the minified text, and what follows it. */
  lemma {:induction false} ValueMeaning(v: Json, inside: bool, f: bool, d: nat, x: bytes, s: bytes, off: nat,
                                        depth: nat)
    requires Printable(v) && RawFree(v) && depth + Nesting(v) <= NESTING_LIMIT && Spelt(x) && Stopped(x)
    requires Rest(s, off, Run(inside, Render(v, f, d) + x) + [0])
    ensures off <= |s| && Meets(v, ValueAt(s, off, depth), After(v, inside), x, s)
    decreases v, 1
  {
    hide Run, Spelt, Stopped, Rest, ValueAt, ArrayAt, ObjectAt, RenderItems, RenderMembers, RenderString, Decimal;
    hide AfterItems, AfterMembers, AfterString, ObjectOpen, ObjectClose;
    match v {
      case Null => WordMeaning(v, NULL_TEXT, inside, x, s, off, depth);
      case Bool(b) => WordMeaning(v, if b then TRUE_TEXT else FALSE_TEXT, inside, x, s, off, depth);
      case Number(n) => NumberMeaning(n, inside, x, s, off, depth);
      case String(t) => TextMeaning(t, inside, x, s, off, depth);
      case Array(items) => ArrayMeaning(items, inside, f, d, x, s, off, depth);
      case Object(members) => ObjectMeaning(members, inside, f, d, x, s, off, depth);
    }
  }

  lemma WordMeaning(v: Json, t: bytes, inside: bool, x: bytes, s: bytes, off: nat, depth: nat)
    requires (v == Null && t == NULL_TEXT) || (v.Bool? && t == if v.b then TRUE_TEXT else FALSE_TEXT)
    requires Rest(s, off, Run(inside, t + x) + [0])
    ensures off <= |s| && Meets(v, ValueAt(s, off, depth), Some(inside), x, s)
  {
    hide Run, ValueAt;
    RunChars(inside, t, x);
    assert t + Run(inside, x) + [0] == t + (Run(inside, x) + [0]);
    RestSplit(s, off, t, Run(inside, x) + [0]);
    if v == Null {
      NullReads(s, off, depth);
    } else {
      BoolReads(v.b, s, off, depth);
    }
  }

  lemma NumberMeaning(n: real, inside: bool, x: bytes, s: bytes, off: nat, depth: nat)
    requires IntValued(n) && Stopped(x) && Rest(s, off, Run(inside, Decimal(n.Floor) + x) + [0])
    ensures off <= |s| && Meets(Number(n), ValueAt(s, off, depth), Some(inside), x, s)
  {
    hide Run, ValueAt, Digits, NumberAt, At;
    var t := Decimal(n.Floor);
    forall i | 0 <= i < |t| ensures IsPlain(t[i]) && t[i] != BACKSLASH {
    }
    RunChars(inside, t, x);
    var w := Run(inside, x) + [0];
    assert t + Run(inside, x) + [0] == t + w;
    RestSplit(s, off, t, w);
    RestFirst(s, off + |t|, w);
    assert !IsNumberByte(w[0]);
    AtIndex(s, off, t, 0);
    Dispatch(s, off, depth);
    NumberRoundTrip(s, off, n.Floor);
  }

  lemma TextMeaning(t: bytes, inside: bool, x: bytes, s: bytes, off: nat, depth: nat)
    requires 0 !in t && Spelt(x) && Rest(s, off, Run(inside, RenderString(t) + x) + [0])
    ensures off <= |s| && Meets(String(t), ValueAt(s, off, depth), AfterString(t, inside), x, s)
  {
    hide Run, ValueAt, Spelt, AfterString, StringAt, CString, RenderString;
    StringMeaning(t, inside, x, s, off);
    TokenLead(t, inside, x, s, off);
    Dispatch(s, off, depth);
  }

  /** A string token keeps its opening quote. */
  lemma TokenLead(t: bytes, inside: bool, x: bytes, s: bytes, k: nat)
    requires Rest(s, k, Run(inside, RenderString(t) + x) + [0])
    ensures ByteIs(s, k, QUOTE)
    ensures Run(inside, RenderString(t) + x) != [] && Run(inside, RenderString(t) + x)[0] == QUOTE
  {
    hide Run, Escape;
    var y := RenderString(t) + x;
    assert y[0] == QUOTE;
    RunLead(inside, y);
    RestFirst(s, k, Run(inside, y) + [0]);
  }

  // ---------------------------------------------------------------- arrays

  lemma {:induction false} ArrayMeaning(items: seq<Json>, inside: bool, f: bool, d: nat, x: bytes, s: bytes, off: nat,
                                        depth: nat)
    requires var v := Array(items); Printable(v) && RawFree(v) && depth + Nesting(v) <= NESTING_LIMIT && Spelt(x)
    requires Rest(s, off, Run(inside, Render(Array(items), f, d) + x) + [0])
    ensures off <= |s| && Meets(Array(items), ValueAt(s, off, depth), AfterItems(items, inside), x, s)
    decreases items, 2
  {
    hide Run, Spelt, Rest, ValueAt, ArrayAt, ItemsAt, RenderItems, AfterItems, Skip;
    var y := RenderItems(items, f, d + 1) + ([RBRACKET] + x);
    assert Render(Array(items), f, d) + x == [LBRACKET] + y;
    RunChar(inside, LBRACKET, y);
    assert [LBRACKET] + Run(inside, y) + [0] == [LBRACKET] + (Run(inside, y) + [0]);
    RestSplit(s, off, [LBRACKET], Run(inside, y) + [0]);
    RestFirst(s, off, [LBRACKET] + (Run(inside, y) + [0]));
    Dispatch(s, off, depth);
    if items == [] {
      EmptyArray(inside, f, d, x, s, off, depth);
    } else {
      ItemsFirst(items, f, d + 1, [RBRACKET] + x);
      RunLead(inside, y);
      assert [] + (Run(inside, y) + [0]) == Run(inside, y) + [0];
      SkipRun(s, off + 1, [], Run(inside, y) + [0]);
      RestFirst(s, off + 1, Run(inside, y) + [0]);
      ItemsMeaning(items, inside, f, d + 1, x, s, off + 1, off + 1, depth + 1);
      ArrayFrom(s, off, depth, items);
    }
  }

  lemma EmptyArray(inside: bool, f: bool, d: nat, x: bytes, s: bytes, off: nat, depth: nat)
    requires off < |s| && ValueAt(s, off, depth) == ArrayAt(s, off, depth) && depth < NESTING_LIMIT
    requires Rest(s, off + 1, Run(inside, RenderItems([], f, d + 1) + ([RBRACKET] + x)) + [0])
    ensures Meets(Array([]), ValueAt(s, off, depth), AfterItems([], inside), x, s)
  {
    hide Run, ValueAt, ItemsAt, Skip, Rest, RenderItems;
    EmptyBody(f, d + 1);
    assert RenderItems([], f, d + 1) + ([RBRACKET] + x) == [RBRACKET] + x;
    RunChar(inside, RBRACKET, x);
    var w := Run(inside, x) + [0];
    assert [RBRACKET] + Run(inside, x) + [0] == [RBRACKET] + w && [] + ([RBRACKET] + w) == [RBRACKET] + w;
    SkipRun(s, off + 1, [], [RBRACKET] + w);
    RestFirst(s, off + 1, [RBRACKET] + w);
    RestSplit(s, off + 1, [RBRACKET], w);
  }

  /** The array is its items. */
  lemma ArrayFrom(s: bytes, off: nat, depth: nat, items: seq<Json>)
    requires off + 1 < |s| && depth < NESTING_LIMIT && Skip(s, off + 1) == off + 1 && s[off + 1] != RBRACKET
    requires items != []
    ensures var r, q := ArrayAt(s, off, depth), ItemsAt(s, off + 1, depth + 1);
      && (r.Ok? && r.value == Array(items) <==> q.Ok? && q.value == items)
      && (r.Ok? ==> q.Ok? && r.next == q.next)
  {
    hide ItemsAt, Skip;
  }

  lemma ItemsFirst(items: seq<Json>, f: bool, d: nat, y: bytes)
    requires items != [] && PrintableItems(items) && RawFreeItems(items)
    ensures var t := RenderItems(items, f, d) + y;
      t != [] && t[0] > 32 && t[0] !in {RBRACKET, SLASH, BACKSLASH} && !IsBlank(t[0])
  {
    LeadByte(items[0], f, d);
  }

  /** `q0` may stand on blanks before the first item at `q`. */
  lemma {:induction false} ItemsMeaning(items: seq<Json>, inside: bool, f: bool, d: nat, x: bytes, s: bytes, q0: nat,
                                        q: nat, depth: nat)
    requires items != [] && PrintableItems(items) && RawFreeItems(items) && Spelt(x)
    requires depth + NestingItems(items) <= NESTING_LIMIT && q0 <= |s| && Skip(s, q0) == q
    requires Rest(s, q, Run(inside, RenderItems(items, f, d) + ([RBRACKET] + x)) + [0])
    ensures Meets(items, ItemsAt(s, q0, depth), AfterItems(items, inside), x, s)
    decreases items, 0
  {
    hide Run, Spelt, Rest, ValueAt, ItemsAt, Render, RenderItems, After, Skip, Stopped, ItemEnd;
    var rest := items[1..];
    var z := RenderItems(rest, f, d) + ([RBRACKET] + x);
    var y := ItemEnd(f, rest == []) + z;
    ItemParts(items, f, d, [RBRACKET] + x);
    SpeltPlain([RBRACKET], x);
    SpeltItems(rest, f, d, [RBRACKET] + x);
    NoEscapes(f, d, rest == []);
    SpeltPlain(ItemEnd(f, rest == []), z);
    ItemStopped(rest, f, d, x);
    ValueMeaning(items[0], inside, f, d, y, s, q, depth);
    if After(items[0], inside) == None {
      HeadBroken(s, q0, q, depth, items);
    } else {
      var o, e := After(items[0], inside).value, ValueAt(s, q, depth).next;
      if rest == [] {
        LastItem(f, d, o, x, s, q0, q, e, depth, items);
      } else {
        var q' := ItemSeparator(rest, f, d, o, x, s, e);
        ItemsMeaning(rest, o, f, d, x, s, e + 1, q', depth);
        ItemsJoin(s, q0, q, e, depth, items);
      }
    }
  }

  lemma ItemStopped(rest: seq<Json>, f: bool, d: nat, x: bytes)
    requires PrintableItems(rest)
    ensures Stopped(ItemEnd(f, rest == []) + (RenderItems(rest, f, d) + ([RBRACKET] + x)))
  {
    hide Stopped, Render;
    StoppedBy(ItemEnd(f, rest == []) + (RenderItems(rest, f, d) + ([RBRACKET] + x)));
  }

  lemma HeadBroken(s: bytes, q0: nat, q: nat, depth: nat, items: seq<Json>)
    requires q0 <= |s| && Skip(s, q0) == q && items != []
    requires !(ValueAt(s, q, depth).Ok? && ValueAt(s, q, depth).value == items[0])
    ensures !(ItemsAt(s, q0, depth).Ok? && ItemsAt(s, q0, depth).value == items)
  {
    hide ValueAt, Skip;
  }

  lemma LastItem(f: bool, d: nat, o: bool, x: bytes, s: bytes, q0: nat, q: nat, e: nat, depth: nat, items: seq<Json>)
    requires q0 <= |s| && Skip(s, q0) == q && |items| == 1
    requires ValueAt(s, q, depth) == Ok(items[0], e)
    requires Rest(s, e, Run(o, ItemEnd(f, true) + (RenderItems([], f, d) + ([RBRACKET] + x))) + [0])
    ensures Meets(items, ItemsAt(s, q0, depth), Some(o), x, s)
  {
    hide Run, ValueAt, Skip, ItemsAt, Rest, Spelt;
    assert ItemEnd(f, true) + (RenderItems([], f, d) + ([RBRACKET] + x)) == [RBRACKET] + x;
    RunChar(o, RBRACKET, x);
    assert [RBRACKET] + Run(o, x) + [0] == [RBRACKET] + (Run(o, x) + [0]);
    RestByte(s, e, RBRACKET, Run(o, x) + [0]);
    ItemsClose(s, q0, q, e, depth, items);
  }

  lemma ItemsClose(s: bytes, q0: nat, q: nat, e: nat, depth: nat, items: seq<Json>)
    requires q0 <= |s| && Skip(s, q0) == q && |items| == 1 && e < |s|
    requires ValueAt(s, q, depth) == Ok(items[0], e) && ByteIs(s, e, RBRACKET) && Skip(s, e) == e
    ensures ItemsAt(s, q0, depth) == Ok(items, e + 1)
  {
    hide ValueAt, Skip;
    assert items == [items[0]];
  }

  /** A byte that is no blank is where the parser stands, and the rest follows it. */
  lemma RestByte(s: bytes, e: nat, c: byte, w: bytes)
    requires Rest(s, e, [c] + w) && c > 32
    ensures e < |s| && s[e] == c && Skip(s, e) == e && Rest(s, e + 1, w)
  {
    hide Skip, Rest;
    assert [] + ([c] + w) == [c] + w;
    SkipRun(s, e, [], [c] + w);
    RestFirst(s, e, [c] + w);
    RestSplit(s, e, [c], w);
  }

  /** Behind any item but the last. */
  lemma ItemSeparator(rest: seq<Json>, f: bool, d: nat, o: bool, x: bytes, s: bytes, e: nat) returns (q: nat)
    requires rest != [] && PrintableItems(rest) && RawFreeItems(rest)
    requires Rest(s, e, Run(o, ItemEnd(f, false) + (RenderItems(rest, f, d) + ([RBRACKET] + x))) + [0])
    ensures e < |s| && ByteIs(s, e, COMMA) && Skip(s, e) == e && Skip(s, e + 1) == q
    ensures Rest(s, q, Run(o, RenderItems(rest, f, d) + ([RBRACKET] + x)) + [0])
  {
    hide Run, Skip, RenderItems, Rest;
    var z, t := RenderItems(rest, f, d) + ([RBRACKET] + x), if f then [SPACE] else [];
    var kept := if o then t else [];
    assert ItemEnd(f, false) == [COMMA] + t;
    RunSeparator(o, COMMA, t, z);
    var w := Run(o, z) + [0];
    assert [COMMA] + (kept + Run(o, z)) + [0] == [COMMA] + (kept + w);
    RestByte(s, e, COMMA, kept + w);
    ItemsFirst(rest, f, d, [RBRACKET] + x);
    RunLead(o, z);
    SkipRun(s, e + 1, kept, w);
    q := e + 1 + |kept|;
  }

  lemma ItemsJoin(s: bytes, q0: nat, q: nat, e: nat, depth: nat, items: seq<Json>)
    requires q0 <= |s| && Skip(s, q0) == q && items != [] && e < |s|
    requires ValueAt(s, q, depth) == Ok(items[0], e) && ByteIs(s, e, COMMA) && Skip(s, e) == e
    ensures var r, t := ItemsAt(s, q0, depth), ItemsAt(s, e + 1, depth);
      && (r.Ok? && r.value == items <==> t.Ok? && t.value == items[1..]) && (r.Ok? ==> t.Ok? && r.next == t.next)
  {
    hide ValueAt, Skip;
    assert items == [items[0]] + items[1..];
  }

  // ---------------------------------------------------------------- objects

  lemma {:induction false} ObjectMeaning(members: seq<Member>, inside: bool, f: bool, d: nat, x: bytes, s: bytes,
                                         off: nat, depth: nat)
    requires var v := Object(members); Printable(v) && RawFree(v) && depth + Nesting(v) <= NESTING_LIMIT && Spelt(x)
    requires Rest(s, off, Run(inside, Render(Object(members), f, d) + x) + [0])
    ensures off <= |s| && Meets(Object(members), ValueAt(s, off, depth), AfterMembers(members, inside), x, s)
    decreases members, 2
  {
    hide Run, Spelt, Rest, ValueAt, ObjectAt, MembersAt, RenderMembers, AfterMembers, Skip, Indent, Keyed, ObjectClose,
      Nesting, RawFree, Render, Meets;
    var t, c := if f then [NEWLINE] else [], ObjectClose(f, d) + x;
    var y := RenderMembers(members, f, d + 1) + c;
    ObjectShape(members, f, d, t, x);
    OpenObject(inside, t, y, s, off);
    Dispatch(s, off, depth);
    if members == [] {
      EmptyObject(inside, f, d, t, x, s, off, depth);
    } else {
      KeyedParts(members, f, d + 1, c);
      var k := KeyAhead(members, inside, f, d + 1, t, c, s, off + 1);
      MembersMeaning(members, inside, f, d + 1, x, s, k - 1, k, depth + 1);
      ObjectFrom(s, off, k, depth, members);
      MeetsLike(members, MembersAt(s, k - 1, depth + 1), Object(members), ObjectAt(s, off, depth),
        AfterMembers(members, inside), x, s);
    }
  }

  lemma OpensWith(f: bool)
    ensures ObjectOpen(f) == [LBRACE] + if f then [NEWLINE] else []
  {
  }

  lemma MeetsLike<T, U>(t: T, q: Result<T>, u: U, r: Result<U>, o: Option<bool>, x: bytes, s: bytes)
    requires Meets(t, q, o, x, s) && (r.Ok? && r.value == u <==> q.Ok? && q.value == t)
    requires r.Ok? && q.Ok? ==> r.next == q.next
    ensures Meets(u, r, o, x, s)
  {
    hide Rest, Run;
  }

  lemma ObjectShape(members: seq<Member>, f: bool, d: nat, t: bytes, x: bytes)
    requires Printable(Object(members)) && RawFree(Object(members)) && t == if f then [NEWLINE] else []
    ensures PrintableMembers(members) && RawFreeMembers(members)
    ensures Nesting(Object(members)) == 1 + NestingMembers(members)
    ensures Render(Object(members), f, d) + x
      == [LBRACE] + t + (RenderMembers(members, f, d + 1) + (ObjectClose(f, d) + x))
  {
    hide RenderMembers, ObjectClose, PrintableMembers, RawFreeMembers, NestingMembers, ObjectOpen;
    assert ObjectOpen(f) == [LBRACE] + t by {
      OpensWith(f);
    }
    var m, c := RenderMembers(members, f, d + 1), ObjectClose(f, d);
    assert (([LBRACE] + t) + m + c) + x == [LBRACE] + t + (m + (c + x));
  }

  lemma OpenObject(inside: bool, t: bytes, y: bytes, s: bytes, off: nat)
    requires (forall i :: 0 <= i < |t| ==> IsBlank(t[i])) && Rest(s, off, Run(inside, [LBRACE] + t + y) + [0])
    ensures off < |s| && s[off] == LBRACE && Rest(s, off + 1, (if inside then t else []) + Run(inside, y) + [0])
  {
    hide Run;
    RunSeparator(inside, LBRACE, t, y);
    var w := (if inside then t else []) + Run(inside, y) + [0];
    assert [LBRACE] + ((if inside then t else []) + Run(inside, y)) + [0] == [LBRACE] + w;
    RestFirst(s, off, [LBRACE] + w);
    RestSplit(s, off, [LBRACE], w);
  }

  lemma IndentIsBlank(f: bool, d: nat)
    ensures forall i :: 0 <= i < |Indent(f, d)| ==> IsBlank(Indent(f, d)[i])
  {
  }

  /** Blanks, an indentation, and then a key. */
  lemma KeyAhead(members: seq<Member>, inside: bool, f: bool, d: nat, t: bytes, c: bytes, s: bytes, at: nat)
    returns (k: nat)
    requires members != [] && PrintableMembers(members) && forall i :: 0 <= i < |t| ==> IsBlank(t[i])
    requires Rest(s, at, (if inside then t else []) + Run(inside, RenderMembers(members, f, d) + c) + [0])
    ensures at <= k < |s| && Skip(s, at) == k && ByteIs(s, k, QUOTE)
    ensures Rest(s, k, Run(inside, Keyed(members, f, d) + c) + [0])
  {
    hide Run, RenderMembers, Indent, Skip, Rest, RenderString, Render;
    var y := Keyed(members, f, d) + c;
    KeyedParts(members, f, d, c);
    IndentIsBlank(f, d);
    RunBlank(inside, Indent(f, d), y);
    var a, b, w := if inside then t else [], if inside then Indent(f, d) else [], Run(inside, y) + [0];
    assert a + (b + Run(inside, y)) + [0] == (a + b) + w;
    KeyedLead(members, f, d, c);
    RunLead(inside, y);
    SkipRun(s, at, a + b, w);
    k := at + |a + b|;
    RestFirst(s, k, w);
  }

  lemma KeyedLead(members: seq<Member>, f: bool, d: nat, c: bytes)
    requires members != [] && PrintableMembers(members)
    ensures (Keyed(members, f, d) + c) != [] && (Keyed(members, f, d) + c)[0] == QUOTE
  {
    hide Escape, Render, RenderMembers;
  }

  lemma EmptyObject(inside: bool, f: bool, d: nat, t: bytes, x: bytes, s: bytes, off: nat, depth: nat)
    requires off < |s| && ValueAt(s, off, depth) == ObjectAt(s, off, depth) && depth < NESTING_LIMIT
    requires forall i :: 0 <= i < |t| ==> IsBlank(t[i])
    requires Rest(s, off + 1,
      (if inside then t else []) + Run(inside, RenderMembers([], f, d + 1) + (ObjectClose(f, d) + x)) + [0])
    ensures Meets(Object([]), ValueAt(s, off, depth), AfterMembers([], inside), x, s)
  {
    hide Run, ValueAt, MembersAt, Skip, ObjectClose;
    assert RenderMembers([], f, d + 1) + (ObjectClose(f, d) + x) == ObjectClose(f, d) + x;
    var q := BraceAhead(inside, f, d, t, x, s, off + 1);
  }

  /** Blanks, an indentation, and then the closing brace. */
  lemma BraceAhead(inside: bool, f: bool, d: nat, t: bytes, x: bytes, s: bytes, at: nat) returns (q: nat)
    requires forall i :: 0 <= i < |t| ==> IsBlank(t[i])
    requires Rest(s, at, (if inside then t else []) + Run(inside, ObjectClose(f, d) + x) + [0])
    ensures at <= q < |s| && Skip(s, at) == q && ByteIs(s, q, RBRACE) && Rest(s, q + 1, Run(inside, x) + [0])
  {
    hide Run, Indent, Skip, Rest;
    IndentIsBlank(f, d);
    RunBlank(inside, Indent(f, d), [RBRACE] + x);
    RunChar(inside, RBRACE, x);
    assert ObjectClose(f, d) + x == Indent(f, d) + ([RBRACE] + x);
    var a, b, w := if inside then t else [], if inside then Indent(f, d) else [], Run(inside, x) + [0];
    assert a + (b + ([RBRACE] + Run(inside, x))) + [0] == (a + b) + ([RBRACE] + w);
    SkipRun(s, at, a + b, [RBRACE] + w);
    q := at + |a + b|;
    RestFirst(s, q, [RBRACE] + w);
    RestSplit(s, q, [RBRACE], w);
  }

  lemma ObjectFrom(s: bytes, off: nat, k: nat, depth: nat, members: seq<Member>)
    requires off + 1 <= k < |s| && depth < NESTING_LIMIT && Skip(s, off + 1) == k && ByteIs(s, k, QUOTE)
    requires members != []
    ensures var r, q := ObjectAt(s, off, depth), MembersAt(s, k - 1, depth + 1);
      && (r.Ok? && r.value == Object(members) <==> q.Ok? && q.value == members)
      && (r.Ok? ==> q.Ok? && r.next == q.next)
  {
    hide MembersAt, Skip;
  }

  /** The parser stands on the byte `p` before the blanks that precede the key at `k`. */
  lemma {:induction false} MembersMeaning(members: seq<Member>, inside: bool, f: bool, d: nat, x: bytes, s: bytes,
                                          p: nat, k: nat, depth: nat)
    requires members != [] && 0 < d && PrintableMembers(members) && RawFreeMembers(members) && Spelt(x)
    requires depth + NestingMembers(members) <= NESTING_LIMIT && p + 1 < |s| && Skip(s, p + 1) == k && k < |s|
    requires Rest(s, k, Run(inside, Keyed(members, f, d) + (ObjectClose(f, d - 1) + x)) + [0])
    ensures Meets(members, MembersAt(s, p, depth), AfterMembers(members, inside), x, s)
    decreases members, 0
  {
    hide Run, Spelt, Rest, ValueAt, MembersAt, MemberAt, Render, RenderMembers, RenderString, AfterString, After, Skip,
      Stopped;
    hide KeyEnd, MemberEnd, ObjectClose, Indent, Keyed, StringAt, CString;
    var m, rest, c := members[0], members[1..], ObjectClose(f, d - 1) + x;
    var last := rest == [];
    var z := RenderMembers(rest, f, d) + c;
    var y := MemberEnd(f, last) + z;
    KeyedParts(members, f, d, c);
    NoEscapes(f, d - 1, last);
    SpeltPlain(ObjectClose(f, d - 1), x);
    SpeltMembers(rest, f, d, c);
    SpeltKeyEnd(m, f, d, last, z);
    StringMeaning(m.key, inside, KeyEnd(f) + (Render(m.value, f, d) + y), s, k);
    var o := AfterString(m.key, inside);
    if o == None {
      KeyBroken(s, p, k, depth, members);
    } else {
      var n := k + |RenderString(m.key)|;
      var v0 := ColonAhead(m.value, o.value, f, d, y, s, n);
      MemberStopped(rest, f, d, x);
      ValueMeaning(m.value, o.value, f, d, y, s, v0, depth);
      var o1 := After(m.value, o.value);
      if o1 == None {
        MemberBroken(s, p, k, n, v0, depth, members);
      } else {
        var e := ValueAt(s, v0, depth).next;
        if last {
          LastMemberEnd(f, d, o1.value, x, s, p, k, n, v0, e, depth, members);
        } else {
          var k' := MemberSeparator(rest, f, d, o1.value, c, s, e);
          MembersMeaning(rest, o1.value, f, d, x, s, e, k', depth);
          MembersJoin(s, p, k, n, v0, e, depth, members);
        }
      }
    }
  }

  lemma KeyBroken(s: bytes, p: nat, k: nat, depth: nat, members: seq<Member>)
    requires p + 1 < |s| && Skip(s, p + 1) == k && k < |s| && members != []
    requires StringAt(s, k).Parsed? ==> CString(StringAt(s, k).text) != members[0].key
    ensures !(MembersAt(s, p, depth).Ok? && MembersAt(s, p, depth).value == members)
  {
    hide StringAt, CString, Skip, ValueAt;
  }

  /** The colon behind a key, and the value behind its blanks. */
  lemma ColonAhead(v: Json, o: bool, f: bool, d: nat, y: bytes, s: bytes, n: nat) returns (v0: nat)
    requires Printable(v) && RawFree(v) && Rest(s, n, Run(o, KeyEnd(f) + (Render(v, f, d) + y)) + [0])
    ensures n < |s| && Skip(s, n) == n && ByteIs(s, n, COLON) && Skip(s, n + 1) == v0
    ensures Rest(s, v0, Run(o, Render(v, f, d) + y) + [0])
  {
    hide Run, Skip, Render, Rest;
    var z, t := Render(v, f, d) + y, if f then [TAB] else [];
    var kept := if o then t else [];
    assert KeyEnd(f) == [COLON] + t;
    RunSeparator(o, COLON, t, z);
    var w := Run(o, z) + [0];
    assert [COLON] + (kept + Run(o, z)) + [0] == [COLON] + (kept + w);
    RestByte(s, n, COLON, kept + w);
    ValueFirst(v, f, d, y);
    RunLead(o, z);
    SkipRun(s, n + 1, kept, w);
    v0 := n + 1 + |kept|;
  }

  lemma ValueFirst(v: Json, f: bool, d: nat, y: bytes)
    requires Printable(v) && RawFree(v)
    ensures var t := Render(v, f, d) + y; t != [] && t[0] > 32 && t[0] !in {SLASH, BACKSLASH} && !IsBlank(t[0])
  {
    LeadByte(v, f, d);
  }

  lemma MemberStopped(rest: seq<Member>, f: bool, d: nat, x: bytes)
    requires 0 < d && PrintableMembers(rest)
    ensures Stopped(MemberEnd(f, rest == []) + (RenderMembers(rest, f, d) + (ObjectClose(f, d - 1) + x)))
  {
    hide Stopped, Render, RenderString, KeyEnd;
    var y := MemberEnd(f, rest == []) + (RenderMembers(rest, f, d) + (ObjectClose(f, d - 1) + x));
    if rest == [] && f {
      NewlineStops(d - 1, x);
      assert y == [NEWLINE] + (Indent(true, d - 1) + ([RBRACE] + x));
    } else {
      StoppedBy(y);
    }
  }

  lemma NewlineStops(d: nat, x: bytes)
    ensures Stopped([NEWLINE] + (Indent(true, d) + ([RBRACE] + x)))
  {
    hide Run, Indent;
    var y := [RBRACE] + x;
    IndentIsBlank(true, d);
    RunBlank(false, Indent(true, d), y);
    RunBlank(false, [NEWLINE], Indent(true, d) + y);
    RunBlank(true, [NEWLINE], Indent(true, d) + y);
    RunLead(false, y);
    assert [] + ([] + Run(false, y)) == Run(false, y);
  }

  lemma MemberBroken(s: bytes, p: nat, k: nat, n: nat, v0: nat, depth: nat, members: seq<Member>)
    requires p + 1 < |s| && Skip(s, p + 1) == k && k < |s| && members != [] && n < |s|
    requires StringAt(s, k) == Parsed(members[0].key, n) && Skip(s, n) == n && ByteIs(s, n, COLON)
    requires Skip(s, n + 1) == v0
    requires !(ValueAt(s, v0, depth).Ok? && ValueAt(s, v0, depth).value == members[0].value)
    ensures !(MembersAt(s, p, depth).Ok? && MembersAt(s, p, depth).value == members)
  {
    hide StringAt, CString, Skip, ValueAt;
  }

  lemma MemberIs(s: bytes, p: nat, k: nat, n: nat, v0: nat, e: nat, depth: nat, m: Member)
    requires p + 1 < |s| && Skip(s, p + 1) == k && k < |s| && n < |s|
    requires StringAt(s, k) == Parsed(m.key, n) && CString(m.key) == m.key
    requires Skip(s, n) == n && ByteIs(s, n, COLON) && Skip(s, n + 1) == v0 && ValueAt(s, v0, depth) == Ok(m.value, e)
    ensures MemberAt(s, p, depth) == Ok(m, Skip(s, e))
  {
    hide StringAt, CString, Skip, ValueAt;
  }

  lemma LastMemberEnd(f: bool, d: nat, o: bool, x: bytes, s: bytes, p: nat, k: nat, n: nat, v0: nat, e: nat,
                      depth: nat, members: seq<Member>)
    requires 0 < d && |members| == 1 && p + 1 < |s| && Skip(s, p + 1) == k && k < |s| && n < |s|
    requires StringAt(s, k) == Parsed(members[0].key, n) && CString(members[0].key) == members[0].key
    requires Skip(s, n) == n && ByteIs(s, n, COLON) && Skip(s, n + 1) == v0
    requires ValueAt(s, v0, depth) == Ok(members[0].value, e)
    requires Rest(s, e, Run(o, MemberEnd(f, true) + (RenderMembers([], f, d) + (ObjectClose(f, d - 1) + x))) + [0])
    ensures Meets(members, MembersAt(s, p, depth), Some(o), x, s)
  {
    hide Run, Skip, StringAt, CString, ValueAt, ObjectClose, MemberAt;
    MemberIs(s, p, k, n, v0, e, depth, members[0]);
    var t, y := MemberEnd(f, true), ObjectClose(f, d - 1) + x;
    assert t + (RenderMembers([], f, d) + y) == t + y;
    RunBlank(o, t, y);
    var q := BraceAhead(o, f, d - 1, t, x, s, e);
    assert members == [members[0]];
  }

  /** Behind any member but the last. */
  lemma MemberSeparator(rest: seq<Member>, f: bool, d: nat, o: bool, c: bytes, s: bytes, e: nat) returns (k: nat)
    requires rest != [] && PrintableMembers(rest)
    requires Rest(s, e, Run(o, MemberEnd(f, false) + (RenderMembers(rest, f, d) + c)) + [0])
    ensures e + 1 < |s| && ByteIs(s, e, COMMA) && Skip(s, e) == e && Skip(s, e + 1) == k && k < |s|
    ensures Rest(s, k, Run(o, Keyed(rest, f, d) + c) + [0])
  {
    hide Run, Skip, RenderMembers, Rest, Keyed;
    var z, t := RenderMembers(rest, f, d) + c, if f then [NEWLINE] else [];
    var kept := if o then t else [];
    assert MemberEnd(f, false) == [COMMA] + t;
    RunSeparator(o, COMMA, t, z);
    var w := kept + Run(o, z) + [0];
    assert [COMMA] + (kept + Run(o, z)) + [0] == [COMMA] + w && [] + ([COMMA] + w) == [COMMA] + w;
    SkipRun(s, e, [], [COMMA] + w);
    RestFirst(s, e, [COMMA] + w);
    RestSplit(s, e, [COMMA], w);
    k := KeyAhead(rest, o, f, d, t, c, s, e + 1);
  }

  lemma MembersJoin(s: bytes, p: nat, k: nat, n: nat, v0: nat, e: nat, depth: nat, members: seq<Member>)
    requires members != [] && p + 1 < |s| && Skip(s, p + 1) == k && k < |s| && n < |s| && e + 1 < |s|
    requires StringAt(s, k) == Parsed(members[0].key, n) && CString(members[0].key) == members[0].key
    requires Skip(s, n) == n && ByteIs(s, n, COLON) && Skip(s, n + 1) == v0
    requires ValueAt(s, v0, depth) == Ok(members[0].value, e)
    requires ByteIs(s, e, COMMA) && Skip(s, e) == e
    ensures var r, t := MembersAt(s, p, depth), MembersAt(s, e, depth);
      && (r.Ok? && r.value == members <==> t.Ok? && t.value == members[1..]) && (r.Ok? ==> t.Ok? && r.next == t.next)
  {
    hide Skip, StringAt, CString, ValueAt, MemberAt;
    MemberIs(s, p, k, n, v0, e, depth, members[0]);
    assert members == [members[0]] + members[1..];
  }

  // ---------------------------------------------------------------- whole documents

  /** The minified text parses, up to its terminator, to the same tree. */
  ghost predicate KeepsMeaning(v: Json, f: bool)
    requires Printable(v)
  {
    var r := Document(Minify(Render(v, f, 0)) + [0], true);
    r.Ok? && r.value == v
  }

  /** The printed text of a tree, formatted or not, means the same after minifying exactly if no string
      or key loses a byte: if none that the filter enters inside a string of its own, as it does behind
      one that ends in a backslash, has a space or a slash before its first quote. */
  lemma MinifiedMeaning(v: Json, f: bool)
    requires Printable(v) && RawFree(v) && Nesting(v) <= NESTING_LIMIT
    ensures KeepsMeaning(v, f) <==> After(v, false).Some?
  {
    hide Minify, Render, ValueAt, After, Spelt, Stopped, Skip;
    var t := Render(v, f, 0);
    var s := Minify(t) + [0];
    ValueFirst(v, f, 0, []);
    assert t + [] == t;
    RunLead(false, t);
    assert Rest(s, 0, Run(false, t + []) + [0]) by {
      assert s[0..] == s;
    }
    SpeltNothing();
    StoppedBy([]);
    NoBom(v, f, s);
    assert [] + s == s;
    SkipRun(s, 0, [], s);
    ValueMeaning(v, false, f, 0, [], s, 0, 0);
    if After(v, false).Some? {
      RunNothing();
      var q := ValueAt(s, 0, 0).next;
      assert [] + [0] == [0];
      TerminatorEnds(s, q);
    }
  }

  lemma NoBom(v: Json, f: bool, s: bytes)
    requires Printable(v) && RawFree(v) && s != [] && Render(v, f, 0) != [] && s[0] == Render(v, f, 0)[0]
    ensures BomEnd(s) == 0
  {
    LeadByte(v, f, 0);
    if 4 < |s| {
      assert s[..3][0] == s[0];
    }
  }

  lemma TerminatorEnds(s: bytes, q: nat)
    requires Rest(s, q, [0])
    ensures q <= |s| && Skip(s, q) == q && ByteIs(s, q, 0)
  {
    RestFirst(s, q, [0]);
    assert BlankEnd(s, q + 1) == |s|;
  }

  /** A pair of strings or other values, the first of them one backslash. */
  function AfterBackslash(v: Json): Json {
    Array([String([BACKSLASH]), v])
  }

  lemma PairOutcome(v: Json)
    requires Printable(v) && RawFree(v) && Nesting(v) == 0
    ensures var p := AfterBackslash(v); Printable(p) && RawFree(p) && Nesting(p) == 1 && !TailOk(p)
    ensures After(AfterBackslash(v), false) == After(v, true)
  {
    var items, none: seq<Json> := [String([BACKSLASH]), v], [];
    assert AfterBackslash(v) == Array(items) && items[0] == String([BACKSLASH]);
    assert Printable(items[0]) && RawFree(items[0]) && Nesting(items[0]) == 0;
    assert items[1..] == [v] && [v][1..] == none;
    assert PrintableItems(none) && RawFreeItems(none) && NestingItems(none) == 0;
    assert PrintableItems([v]) && RawFreeItems([v]) && NestingItems([v]) == 0;
    assert AfterItems([v], true) == After(v, true) by {
      assert After(v, true).Some? ==> AfterItems([v][1..], After(v, true).value) == After(v, true);
    }
    assert AfterItems(items, false) == AfterItems(items[1..], true);
    assert PrintableItems(items) && RawFreeItems(items) && NestingItems(items) == 0;
    assert !Clean(items[0]) && !TailOkItems(items);
  }

  /** The minified text of the formatted ["\\", null] is not the unformatted one but means the same;
      that of ["\\", "a b"] does not mean the same. */
  lemma MeaningExamples()
    ensures var v, w := AfterBackslash(Null), AfterBackslash(String([97, SPACE, 98]));
      && Printable(v) && Minify(Render(v, true, 0)) != Render(v, false, 0) && KeepsMeaning(v, true)
      && Printable(w) && !KeepsMeaning(w, true)
  {
    hide Minify, Render, KeepsMeaning, AfterBackslash, After, Printable, RawFree, TailOk;
    var t := [97, SPACE, 98];
    assert Outside(t) == None by {
      assert t[1..] == [SPACE, 98];
    }
    LeafOutcomes(t);
    PairOutcome(Null);
    PairOutcome(String(t));
    MinifyPrinted(AfterBackslash(Null));
    MinifiedMeaning(AfterBackslash(Null), true);
    MinifiedMeaning(AfterBackslash(String(t)), true);
  }

  lemma LeafOutcomes(t: bytes)
    requires 0 !in t
    ensures Printable(Null) && RawFree(Null) && Printable(String(t)) && RawFree(String(t))
    ensures Nesting(Null) == 0 && Nesting(String(t)) == 0
    ensures After(Null, true) == Some(true) && After(String(t), true) == Outside(t)
  {
  }
}
