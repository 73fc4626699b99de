/** Minifying the formatted text of a tree against printing it unformatted. The two texts are the same
    as long as the filter and the printer agree about where strings end, which a string that ends in a
    backslash spoils for what follows it. */
module PrintMinify {
  import opened Bytes
  import opened JsonTree
  import opened Minifier

  // ---------------------------------------------------------------- which trees commute

  predicate EndsInBackslash(s: bytes) {
    s != [] && s[|s| - 1] == BACKSLASH
  }

  /** No string and no key ends in a backslash. */
  ghost predicate Clean(v: Json) {
    match v
    case String(s) => !EndsInBackslash(s)
    case Array(items) => CleanItems(items)
    case Object(members) => CleanMembers(members)
    case _ => true
  }

  ghost predicate CleanItems(items: seq<Json>) {
    items == [] || (Clean(items[0]) && CleanItems(items[1..]))
  }

  ghost predicate CleanMembers(members: seq<Member>) {
    members == []
    || (!EndsInBackslash(members[0].key) && Clean(members[0].value) && CleanMembers(members[1..]))
  }

  /** At most the string that ends the text, apart from closing brackets of arrays, does. */
  ghost predicate TailOk(v: Json) {
    match v
    case String(_) => true
    case Array(items) => TailOkItems(items)
    case _ => Clean(v)
  }

  ghost predicate TailOkItems(items: seq<Json>) {
    items == []
    || (if items[1..] == [] then TailOk(items[0]) else Clean(items[0]) && TailOkItems(items[1..]))
  }

  lemma {:induction false} CleanIsTailOk(v: Json)
    ensures Clean(v) ==> TailOk(v)
    decreases v, 1
  {
    if v.Array? {
      CleanItemsTailOk(v.items);
    }
  }

  lemma {:induction false} CleanItemsTailOk(items: seq<Json>)
    ensures CleanItems(items) ==> TailOkItems(items)
    decreases items, 0
  {
    if items != [] {
      CleanIsTailOk(items[0]);
      CleanItemsTailOk(items[1..]);
    }
  }

  // ---------------------------------------------------------------- texts that differ inside

  /** The texts differ at a position both have; whatever is appended to them, they stay different. */
  ghost predicate Differ(a: bytes, b: bytes) {
    exists i :: 0 <= i < |a| && i < |b| && a[i] != b[i]
  }

  lemma DifferAt(a: bytes, b: bytes, i: nat)
    requires i < |a| && i < |b| && a[i] != b[i]
    ensures Differ(a, b)
  {
  }

  lemma DifferBehind(p: bytes, a: bytes, b: bytes)
    requires Differ(a, b)
    ensures Differ(p + a, p + b)
  {
    var i :| 0 <= i < |a| && i < |b| && a[i] != b[i];
    DifferAt(p + a, p + b, |p| + i);
  }

  lemma DifferExtended(a: bytes, b: bytes, y: bytes)
    requires Differ(a, b)
    ensures Differ(a, b + y) && a != b + y
  {
    var i :| 0 <= i < |a| && i < |b| && a[i] != b[i];
    DifferAt(a, b + y, i);
  }

  // ---------------------------------------------------------------- minifying known texts

  predicate IsPlain(c: byte) {
    !IsBlank(c) && c != SLASH && c != QUOTE
  }

  lemma MinifyOne(c: byte, y: bytes)
    ensures IsPlain(c) ==> Minify([c] + y) == [c] + Minify(y)
    ensures IsBlank(c) ==> Minify([c] + y) == Minify(y)
  {
    hide LineStop, CommentStop, StringStop;
    assert ([c] + y)[1..] == y;
  }

  lemma {:induction false} MinifyPlain(t: bytes, x: bytes)
    requires forall i :: 0 <= i < |t| ==> IsPlain(t[i])
    ensures Minify(t + x) == t + Minify(x)
    decreases |t|
  {
    hide Minify;
    if t == [] {
      assert t + x == x;
    } else {
      MinifyPlain(t[1..], x);
      MinifyOne(t[0], t[1..] + x);
      assert t + x == [t[0]] + (t[1..] + x);
    }
  }

  lemma {:induction false} MinifyBlank(t: bytes, x: bytes)
    requires forall i :: 0 <= i < |t| ==> IsBlank(t[i])
    ensures Minify(t + x) == Minify(x)
    decreases |t|
  {
    hide Minify;
    if t == [] {
      assert t + x == x;
    } else {
      MinifyBlank(t[1..], x);
      MinifyOne(t[0], t[1..] + x);
      assert t + x == [t[0]] + (t[1..] + x);
    }
  }

  /** What is left of a text that is entered inside a string. */
  function InString(x: bytes): bytes {
    x[..StringStop(x, 0)] + Minify(x[StringStop(x, 0)..])
  }

  lemma InStringOne(c: byte, y: bytes)
    requires c != QUOTE && c != BACKSLASH
    ensures InString([c] + y) == [c] + InString(y)
  {
    hide Minify;
    StringStopShift([c], y, 1);
    var n := StringStop(y, 0);
    assert ([c] + y)[..n + 1] == [c] + y[..n];
    assert ([c] + y)[n + 1..] == y[n..];
  }

  /** Inside a string, bytes other than quotes and backslashes are kept as they are. */
  lemma {:induction false} InStringCopies(t: bytes, x: bytes)
    requires forall i :: 0 <= i < |t| ==> t[i] != QUOTE && t[i] != BACKSLASH
    ensures InString(t + x) == t + InString(x)
    decreases |t|
  {
    hide InString;
    if t == [] {
      assert t + x == x;
    } else {
      InStringCopies(t[1..], x);
      InStringOne(t[0], t[1..] + x);
      assert t + x == [t[0]] + (t[1..] + x);
    }
  }

  lemma {:induction false} StringStopShift(p: bytes, x: bytes, i: nat)
    requires |p| <= i <= |p| + |x|
    ensures StringStop(p + x, i) == |p| + StringStop(x, i - |p|)
    decreases |p| + |x| - i
  {
    var s := p + x;
    if i < |s| {
      assert s[i] == x[i - |p|] && (i + 1 < |s| ==> s[i + 1] == x[i + 1 - |p|]);
      if s[i] == QUOTE {
      } else if s[i] == BACKSLASH && i + 1 < |s| && s[i + 1] == QUOTE {
        StringStopShift(p, x, i + 2);
      } else {
        StringStopShift(p, x, i + 1);
      }
    }
  }

  lemma ScanBackslash(x: bytes)
    ensures StringStop(Escape([BACKSLASH]) + [QUOTE] + x, 0) == 3 + StringStop(x, 0)
  {
    var s := [BACKSLASH, BACKSLASH, QUOTE];
    assert Escape([BACKSLASH]) + [QUOTE] == s;
    StringStopShift(s, x, 3);
    var t := s + x;
    assert t[0] == BACKSLASH && t[1] == BACKSLASH && t[2] == QUOTE;
  }

  /** An escaped text, scanned inside its string, is passed over, up to the closing quote; if it ends
      in a backslash, over that quote too. */
  lemma {:induction false} ScanEscape(t: bytes, x: bytes)
    ensures var s := Escape(t) + [QUOTE] + x;
      StringStop(s, 0) == |Escape(t)| + 1 + if EndsInBackslash(t) then StringStop(x, 0) else 0
    decreases |t|
  {
    var s := Escape(t) + [QUOTE] + x;
    if t == [] {
      assert s[0] == QUOTE;
    } else {
      var e, rest := EscapeByte(t[0]), Escape(t[1..]) + [QUOTE] + x;
      assert s == e + rest;
      ScanEscape(t[1..], x);
      StringStopShift(e, rest, |e|);
      if t == [BACKSLASH] {
        ScanBackslash(x);
      } else {
        EscapeLead(t, x);
        PassEscape(e, rest, t[0]);
        assert EndsInBackslash(t) == EndsInBackslash(t[1..]);
      }
    }
  }

  /** After an escaped byte comes either the closing quote or the start of another one, which is not
      a quote. */
  lemma EscapeLead(t: bytes, x: bytes)
    requires t != [] && t != [BACKSLASH]
    ensures var rest := Escape(t[1..]) + [QUOTE] + x; rest != [] && (t[0] == BACKSLASH ==> rest[0] != QUOTE)
  {
    if t[1..] != [] {
      assert Escape(t[1..])[0] == EscapeByte(t[1])[0];
    }
  }

  lemma PassEscape(e: bytes, rest: bytes, c: byte)
    requires e == EscapeByte(c) && rest != [] && (c == BACKSLASH ==> rest[0] != QUOTE)
    ensures StringStop(e + rest, 0) == StringStop(e + rest, |e|)
  {
    var s := e + rest;
    assert forall i :: 0 <= i < |e| ==> s[i] == e[i];
    assert s[|e|] == rest[0];
    if |e| == 6 {
      assert StringStop(s, 5) == StringStop(s, 6);
      assert StringStop(s, 4) == StringStop(s, 5);
      assert StringStop(s, 3) == StringStop(s, 4);
      assert StringStop(s, 2) == StringStop(s, 3);
    }
  }

  lemma MinifyQuote(body: bytes)
    ensures Minify([QUOTE] + body) == [QUOTE] + InString(body)
  {
    hide LineStop, CommentStop, StringStop, Minify, Turn;
    var s, n := [QUOTE] + body, StringStop(body, 0);
    StringStopShift([QUOTE], body, 1);
    TurnQuote(s);
    MinifyUnfold(s);
    assert s[..n + 1] == [QUOTE] + body[..n] && s[n + 1..] == body[n..];
  }

  lemma TurnQuote(s: bytes)
    requires s != [] && s[0] == QUOTE
    ensures Turn(s) == (s[..StringStop(s, 1)], StringStop(s, 1))
  {
    hide LineStop, CommentStop, StringStop;
  }

  lemma MinifyUnfold(s: bytes)
    requires s != []
    ensures Minify(s) == Turn(s).0 + Minify(s[Turn(s).1..])
  {
    hide Turn;
  }

  /** Minifying a printed string and what follows it. */
  lemma MinifyString(t: bytes, x: bytes)
    ensures Minify(RenderString(t) + x) == RenderString(t) + if EndsInBackslash(t) then InString(x) else Minify(x)
  {
    hide Minify, Escape, StringStop, EndsInBackslash;
    var body := Escape(t) + [QUOTE] + x;
    assert RenderString(t) + x == [QUOTE] + body;
    MinifyQuote(body);
    ScanEscape(t, x);
    StringBody(Escape(t), x, StringStop(x, 0), EndsInBackslash(t));
  }

  lemma Cut(a: bytes, x: bytes, k: nat)
    requires k <= |x|
    ensures (a + x)[..|a| + k] == a + x[..k] && (a + x)[|a| + k..] == x[k..]
  {
  }

  /** Cutting the body of a string token at its end, early or late. */
  lemma StringBody(e: bytes, x: bytes, m: nat, late: bool)
    requires m == StringStop(x, 0) && StringStop(e + [QUOTE] + x, 0) == |e| + 1 + if late then m else 0
    ensures [QUOTE] + InString(e + [QUOTE] + x) == [QUOTE] + e + [QUOTE] + if late then InString(x) else Minify(x)
  {
    hide Minify, StringStop;
    var body, k := e + [QUOTE] + x, if late then m else 0;
    Cut(e + [QUOTE], x, k);
    assert x[..0] == [] && x[0..] == x;
    Reassociate([QUOTE], e + [QUOTE], x[..k], Minify(x[k..]));
    assert [QUOTE] + (e + [QUOTE]) == [QUOTE] + e + [QUOTE];
  }

  // ---------------------------------------------------------------- whole trees

  /** What minifying the formatted text of `v`, and whatever follows it, gives. */
  ghost predicate Effect(clean: bool, tailOk: bool, formatted: bytes, unformatted: bytes, x: bytes) {
    if clean then Minify(formatted + x) == unformatted + Minify(x)
    else if tailOk then Minify(formatted + x) == unformatted + InString(x)
    else Differ(Minify(formatted + x), unformatted)
  }

  /** A clean tree is turned into its unformatted text; a string that ends in a backslash turns what
      follows it into part of a string, and the first blank there stays. */
  lemma {:induction false} ValueEffect(v: Json, d: nat, e: nat, x: bytes)
    requires Printable(v) && RawFree(v)
    ensures Effect(Clean(v), TailOk(v), Render(v, true, d), Render(v, false, e), x)
    decreases v, 1
  {
    hide Minify, InString, RenderString, RenderItems, RenderMembers, Decimal;
    match v {
      case Null => MinifyPlain(NULL_TEXT, x);
      case Bool(b) => MinifyPlain(if b then TRUE_TEXT else FALSE_TEXT, x);
      case Number(n) => DecimalPlain(n.Floor); MinifyPlain(Decimal(n.Floor), x);
      case String(s) => MinifyString(s, x);
      case Array(items) => ArrayEffect(v, d, e, x);
      case Object(members) => ObjectEffect(v, d, e, x);
    }
  }

  lemma DecimalPlain(n: int)
    ensures forall i :: 0 <= i < |Decimal(n)| ==> IsPlain(Decimal(n)[i])
  {
    hide Digits;
  }

  lemma {:induction false} ArrayEffect(v: Json, d: nat, e: nat, x: bytes)
    requires v.Array? && Printable(v) && RawFree(v)
    ensures Effect(Clean(v), TailOk(v), Render(v, true, d), Render(v, false, e), x)
    decreases v, 0
  {
    hide Minify, InString, RenderItems, Differ;
    var t, u := RenderItems(v.items, true, d + 1), RenderItems(v.items, false, e + 1);
    ItemsEffect(v.items, d + 1, e + 1, [RBRACKET] + x);
    assert [LBRACKET] + t + [RBRACKET] + x == [LBRACKET] + (t + ([RBRACKET] + x));
    MinifyPlain([LBRACKET], t + ([RBRACKET] + x));
    if CleanItems(v.items) {
      MinifyPlain([RBRACKET], x);
      assert [LBRACKET] + (u + ([RBRACKET] + Minify(x))) == [LBRACKET] + u + [RBRACKET] + Minify(x);
    } else if TailOkItems(v.items) {
      InStringCopies([RBRACKET], x);
      assert [LBRACKET] + (u + ([RBRACKET] + InString(x))) == [LBRACKET] + u + [RBRACKET] + InString(x);
    } else {
      DifferBehind([LBRACKET], Minify(t + ([RBRACKET] + x)), u);
      DifferExtended([LBRACKET] + Minify(t + ([RBRACKET] + x)), [LBRACKET] + u, [RBRACKET]);
    }
  }

  lemma {:induction false} ItemsEffect(items: seq<Json>, d: nat, e: nat, x: bytes)
    requires PrintableItems(items) && RawFreeItems(items)
    ensures Effect(CleanItems(items), TailOkItems(items), RenderItems(items, true, d), RenderItems(items, false, e), x)
    decreases items, 0
  {
    hide Minify, InString, Differ, Render, ItemEnd;
    if items == [] {
      assert [] + x == x && [] + Minify(x) == Minify(x);
      return;
    }
    var t, u, rest := Render(items[0], true, d), Render(items[0], false, e), items[1..];
    var sep, tr, ur := ItemEnd(true, rest == []), RenderItems(rest, true, d), RenderItems(rest, false, e);
    var y := sep + (tr + x);
    assert t + sep + tr + x == t + y;
    ValueEffect(items[0], d, e, y);
    ItemsEffect(rest, d, e, x);
    CleanIsTailOk(items[0]);
    if rest == [] {
      LastItemEnd(tr, ur, x, d, e);
      assert u + ItemEnd(false, true) + ur == u;
    } else if !TailOk(items[0]) {
      DifferExtended(Minify(t + y), u, ItemEnd(false, false) + ur);
      assert u + (ItemEnd(false, false) + ur) == u + ItemEnd(false, false) + ur;
    } else if !Clean(items[0]) {
      KeptBlank(rest, e, u, tr + x);
    } else {
      SeparatorEffect(tr + x);
      assert u + ([COMMA] + Minify(tr + x)) == u + [COMMA] + Minify(tr + x);
      NextEffect(rest, u, tr, ur, x);
    }
  }

  lemma LastItemEnd(tr: bytes, ur: bytes, x: bytes, d: nat, e: nat)
    requires tr == RenderItems([], true, d) && ur == RenderItems([], false, e)
    ensures ItemEnd(true, true) + (tr + x) == x && ur == [] && ItemEnd(false, true) == []
  {
  }

  lemma SeparatorEffect(x: bytes)
    ensures Minify(ItemEnd(true, false) + x) == [COMMA] + Minify(x) && ItemEnd(false, false) == [COMMA]
  {
    hide Minify;
    MinifyPlain([COMMA], [SPACE] + x);
    MinifyBlank([SPACE], x);
    assert [COMMA, SPACE] + x == [COMMA] + ([SPACE] + x);
  }

  lemma NextEffect(rest: seq<Json>, u: bytes, tr: bytes, ur: bytes, x: bytes)
    requires PrintableItems(rest) && Effect(CleanItems(rest), TailOkItems(rest), tr, ur, x)
    ensures CleanItems(rest) ==> u + [COMMA] + Minify(tr + x) == (u + [COMMA] + ur) + Minify(x)
    ensures !CleanItems(rest) && TailOkItems(rest) ==> u + [COMMA] + Minify(tr + x) == (u + [COMMA] + ur) + InString(x)
    ensures !CleanItems(rest) && !TailOkItems(rest) ==> Differ(u + [COMMA] + Minify(tr + x), u + [COMMA] + ur)
  {
    hide Minify, InString, Differ;
    if !CleanItems(rest) && !TailOkItems(rest) {
      DifferBehind(u + [COMMA], Minify(tr + x), ur);
    }
  }

  /** The first byte of any printed item is visible. */
  lemma ItemsVisible(items: seq<Json>, e: nat)
    requires items != [] && PrintableItems(items) && RawFreeItems(items)
    ensures var t := RenderItems(items, false, e); t != [] && t[0] > 32
  {
    hide Digits, Escape;
  }

  /** After a string taken for unclosed, the space of the separator stays. */
  lemma KeptBlank(rest: seq<Json>, e: nat, u: bytes, x: bytes)
    requires rest != [] && PrintableItems(rest) && RawFreeItems(rest)
    ensures Differ(u + InString(ItemEnd(true, false) + x), u + ItemEnd(false, false) + RenderItems(rest, false, e))
  {
    hide InString, RenderItems, Differ;
    ItemsVisible(rest, e);
    InStringCopies([COMMA, SPACE], x);
    var a, b := [COMMA, SPACE] + InString(x), [COMMA] + RenderItems(rest, false, e);
    DifferAt(a, b, 1);
    DifferBehind(u, a, b);
    assert u + b == u + [COMMA] + RenderItems(rest, false, e);
  }

  lemma {:induction false} ObjectEffect(v: Json, d: nat, e: nat, x: bytes)
    requires v.Object? && Printable(v) && RawFree(v)
    ensures Effect(Clean(v), TailOk(v), Render(v, true, d), Render(v, false, e), x)
    decreases v, 0
  {
    hide Minify, InString, RenderMembers, Differ, ObjectClose;
    var t, u := RenderMembers(v.members, true, d + 1), RenderMembers(v.members, false, e + 1);
    var tc, uc := ObjectClose(true, d), ObjectClose(false, e);
    var y := t + tc + x;
    MembersEffect(v.members, d + 1, e + 1, x);
    assert ObjectOpen(true) + t + tc + x == [LBRACE] + ([NEWLINE] + y);
    MinifyPlain([LBRACE], [NEWLINE] + y);
    MinifyBlank([NEWLINE], y);
    assert [LBRACE] + u + uc == [LBRACE] + (u + uc);
    if Clean(v) {
      assert [LBRACE] + ((u + uc) + Minify(x)) == ([LBRACE] + u + uc) + Minify(x);
    } else {
      DifferBehind([LBRACE], Minify(y), u + uc);
    }
  }

  /** Members with the end of their object: clean, or different. */
  ghost predicate MembersAre(clean: bool, formatted: bytes, unformatted: bytes, x: bytes) {
    if clean then Minify(formatted + x) == unformatted + Minify(x) else Differ(Minify(formatted + x), unformatted)
  }

  lemma CloseEffect(d: nat, e: nat, x: bytes)
    ensures Minify(ObjectClose(true, d) + x) == ObjectClose(false, e) + Minify(x) && ObjectClose(false, e) == [RBRACE]
  {
    hide Minify;
    MinifyBlank(Indent(true, d), [RBRACE] + x);
    MinifyPlain([RBRACE], x);
    assert ObjectClose(true, d) + x == Indent(true, d) + ([RBRACE] + x);
    assert [] + [RBRACE] == [RBRACE];
  }

  lemma {:induction false} MembersEffect(members: seq<Member>, d: nat, e: nat, x: bytes)
    requires 0 < d && 0 < e && PrintableMembers(members) && RawFreeMembers(members)
    ensures MembersAre(CleanMembers(members), RenderMembers(members, true, d) + ObjectClose(true, d - 1),
                       RenderMembers(members, false, e) + ObjectClose(false, e - 1), x)
    decreases members, 0
  {
    hide Minify, InString, Differ, Render, RenderString, ObjectClose, MemberEnd, Indent;
    if members == [] {
      CloseEffect(d - 1, e - 1, x);
      assert [] + ObjectClose(true, d - 1) == ObjectClose(true, d - 1);
      assert [] + ObjectClose(false, e - 1) == ObjectClose(false, e - 1);
      return;
    }
    var m, rest := members[0], members[1..];
    var tr := RenderMembers(rest, true, d) + ObjectClose(true, d - 1);
    var ur := RenderMembers(rest, false, e) + ObjectClose(false, e - 1);
    var t, u := Render(m.value, true, d), Render(m.value, false, e);
    MembersEffect(rest, d, e, x);
    ValueEffect(m.value, d, e, MemberEnd(true, rest == []) + (tr + x));
    RestLead(rest, e, ur);
    AfterValue(m.value, t, u, rest == [], tr, ur, CleanMembers(rest), x);
    ValueVisible(m.value, e);
    KeyEffect(m.key, d, t + (MemberEnd(true, rest == []) + (tr + x)), u + (MemberEnd(false, rest == []) + ur));
    SplitMember(members, true, d, x);
    SplitMember(members, false, e, []);
    ComposeMember(m, d, e, t, u, rest, tr, ur, x);
    var all := RenderMembers(members, false, e) + ObjectClose(false, e - 1);
    NoIndent(e);
    assert all + [] == all && ur + [] == ur;
    assert forall z: bytes :: [] + z == z;
  }

  lemma NoIndent(e: nat)
    ensures Indent(false, e) == []
  {
  }

  /** A printed member and what follows, grouped from the right. */
  lemma SplitMember(members: seq<Member>, f: bool, d: nat, x: bytes)
    requires 0 < d && members != [] && PrintableMembers(members)
    ensures var m, rest := members[0], members[1..];
      RenderMembers(members, f, d) + ObjectClose(f, d - 1) + x
      == Indent(f, d) + (RenderString(m.key) + (KeyEnd(f) + (Render(m.value, f, d) + (MemberEnd(f, rest == [])
         + (RenderMembers(rest, f, d) + ObjectClose(f, d - 1) + x)))))
  {
    hide Render, RenderString, ObjectClose, MemberEnd, Indent, KeyEnd;
    var m, rest := members[0], members[1..];
    var front := Indent(f, d) + RenderString(m.key) + KeyEnd(f) + Render(m.value, f, d) + MemberEnd(f, rest == []);
    var back := RenderMembers(rest, f, d) + ObjectClose(f, d - 1) + x;
    Reassociate(front, RenderMembers(rest, f, d), ObjectClose(f, d - 1), x);
    Regroup(Indent(f, d), RenderString(m.key), KeyEnd(f), Render(m.value, f, d), MemberEnd(f, rest == []), back);
  }

  lemma Regroup(a: bytes, b: bytes, c: bytes, d: bytes, e: bytes, f: bytes)
    ensures a + b + c + d + e + f == a + (b + (c + (d + (e + f))))
  {
    assert a + b + c + d + e + f == a + b + c + d + (e + f);
    assert a + b + c + d + (e + f) == a + b + c + (d + (e + f));
    assert a + b + c + (d + (e + f)) == a + b + (c + (d + (e + f)));
  }

  lemma ValueVisible(v: Json, e: nat)
    requires Printable(v) && RawFree(v)
    ensures var t := Render(v, false, e); t != [] && t[0] > 32
  {
    hide Digits, Escape;
  }

  /** What follows a value in the unformatted text is never a newline. */
  lemma RestLead(rest: seq<Member>, e: nat, ur: bytes)
    requires 0 < e && PrintableMembers(rest) && ur == RenderMembers(rest, false, e) + ObjectClose(false, e - 1)
    ensures ur != [] && ur[0] > 32
  {
    hide Render, Escape;
  }

  /** From the value on: its end and the other members. */
  lemma AfterValue(v: Json, t: bytes, u: bytes, last: bool, tr: bytes, ur: bytes, cleanRest: bool, x: bytes)
    requires Effect(Clean(v), TailOk(v), t, u, MemberEnd(true, last) + (tr + x))
    requires MembersAre(cleanRest, tr, ur, x) && ur != [] && ur[0] > 32
    ensures var a, b := Minify(t + (MemberEnd(true, last) + (tr + x))), u + (MemberEnd(false, last) + ur);
      if Clean(v) && cleanRest then a == b + Minify(x) else Differ(a, b)
  {
    hide Minify, InString, Differ;
    var y, z := MemberEnd(true, last) + (tr + x), MemberEnd(false, last) + ur;
    CleanIsTailOk(v);
    if !TailOk(v) {
      DifferExtended(Minify(t + y), u, z);
    } else if !Clean(v) {
      InStringCopies(MemberEnd(true, last), tr + x);
      DifferAt(InString(y), z, if last then 0 else 1);
      DifferBehind(u, InString(y), z);
    } else {
      EndEffect(last, tr + x);
      if cleanRest {
        assert u + (MemberEnd(false, last) + (ur + Minify(x))) == u + (MemberEnd(false, last) + ur) + Minify(x);
      } else {
        DifferBehind(MemberEnd(false, last), Minify(tr + x), ur);
        DifferBehind(u, MemberEnd(false, last) + Minify(tr + x), z);
      }
    }
  }

  lemma EndEffect(last: bool, x: bytes)
    ensures Minify(MemberEnd(true, last) + x) == MemberEnd(false, last) + Minify(x)
  {
    hide Minify;
    var comma := MemberEnd(false, last);
    MinifyPlain(comma, [NEWLINE] + x);
    MinifyBlank([NEWLINE], x);
    assert MemberEnd(true, last) + x == comma + ([NEWLINE] + x);
  }

  /** From the indentation to the value. */
  lemma KeyEffect(key: bytes, d: nat, y: bytes, z: bytes)
    requires z != [] && z[0] > 32
    ensures var a := Minify(Indent(true, d) + (RenderString(key) + (KeyEnd(true) + y)));
      if EndsInBackslash(key) then Differ(a, RenderString(key) + (KeyEnd(false) + z))
      else a == RenderString(key) + (KeyEnd(false) + Minify(y))
  {
    hide Minify, InString, RenderString, Differ;
    var k := RenderString(key);
    MinifyBlank(Indent(true, d), k + ([COLON, TAB] + y));
    MinifyString(key, [COLON, TAB] + y);
    if EndsInBackslash(key) {
      InStringCopies([COLON, TAB], y);
      DifferAt([COLON, TAB] + InString(y), [COLON] + z, 1);
      DifferBehind(k, [COLON, TAB] + InString(y), [COLON] + z);
    } else {
      MinifyPlain([COLON], [TAB] + y);
      MinifyBlank([TAB], y);
      assert [COLON, TAB] + y == [COLON] + ([TAB] + y);
    }
  }

  lemma ComposeMember(m: Member, d: nat, e: nat, t: bytes, u: bytes, rest: seq<Member>, tr: bytes, ur: bytes, x: bytes)
    requires var y, z := t + (MemberEnd(true, rest == []) + (tr + x)), u + (MemberEnd(false, rest == []) + ur);
      && (if Clean(m.value) && CleanMembers(rest) then Minify(y) == z + Minify(x) else Differ(Minify(y), z))
      && var a := Minify(Indent(true, d) + (RenderString(m.key) + (KeyEnd(true) + y)));
         if EndsInBackslash(m.key) then Differ(a, RenderString(m.key) + (KeyEnd(false) + z))
         else a == RenderString(m.key) + (KeyEnd(false) + Minify(y))
    ensures var y, z := t + (MemberEnd(true, rest == []) + (tr + x)), u + (MemberEnd(false, rest == []) + ur);
      var a, b := Minify(Indent(true, d) + (RenderString(m.key) + (KeyEnd(true) + y))),
        RenderString(m.key) + (KeyEnd(false) + z);
      if !EndsInBackslash(m.key) && Clean(m.value) && CleanMembers(rest) then a == b + Minify(x) else Differ(a, b)
  {
    hide Minify, RenderString, Differ, MemberEnd, Clean, CleanMembers, Indent, KeyEnd;
    var y, z := t + (MemberEnd(true, rest == []) + (tr + x)), u + (MemberEnd(false, rest == []) + ur);
    if !EndsInBackslash(m.key) {
      if Clean(m.value) && CleanMembers(rest) {
        assert RenderString(m.key) + (KeyEnd(false) + (z + Minify(x)))
          == RenderString(m.key) + (KeyEnd(false) + z) + Minify(x);
      } else {
        DifferBehind(KeyEnd(false), Minify(y), z);
        DifferBehind(RenderString(m.key), KeyEnd(false) + Minify(y), KeyEnd(false) + z);
      }
    }
  }

  /** Minifying the formatted print gives the unformatted print exactly when no string or key ends
      in a backslash, but for a string that ends the whole text. */
  lemma MinifyPrinted(v: Json)
    requires Printable(v) && RawFree(v)
    ensures Minify(Render(v, true, 0)) == Render(v, false, 0) <==> TailOk(v)
  {
    hide Minify, InString, Render, Clean, TailOk, Differ;
    var t, u := Render(v, true, 0), Render(v, false, 0);
    ValueEffect(v, 0, 0, []);
    CleanIsTailOk(v);
    NothingToMinify();
    assert t + [] == t && u + [] == u;
    if !TailOk(v) {
      DifferExtended(Minify(t), u, []);
    }
  }

  lemma NothingToMinify()
    ensures Minify([]) == [] && InString([]) == []
  {
  }

  /** The two sides do differ: an array of two strings of which the first is one backslash. */
  lemma MinifyPrintedFails()
    ensures var v := Array([String([BACKSLASH]), Null]);
      Printable(v) && RawFree(v) && Minify(Render(v, true, 0)) != Render(v, false, 0)
  {
    hide Minify;
    var v := Array([String([BACKSLASH]), Null]);
    assert v.items[1..] == [Null] && [Null][1..] == [];
    assert PrintableItems([Null]) && RawFreeItems([Null]);
    assert PrintableItems(v.items) && RawFreeItems(v.items);
    MinifyPrinted(v);
  }
}
