/** Formatted printing, told by the unformatted text: a reader that only knows whether it is inside a
    string and which containers are open puts the line breaks, tabs and spaces in. */
module PrettyTexts {
  import opened Bytes
  import opened JsonTree
  import opened StringTexts

  /** Where the reader is: for each open container whether it is an object, and whether it is inside a
      string, perhaps right behind a backslash. */
  datatype Place = Place(open: seq<bool>, inside: bool, escaped: bool)

  const OUTSIDE := Place([], false, false)

  function NewLine(level: int): bytes {
    Ascii("\n") + Ascii(seq(if level < 0 then 0 else level, _ => '\t'))
  }

  /** What becomes of the byte `b` with `next` behind it, and where the reader is then. */
  function Turn(b: byte, next: bytes, at: Place): (bytes, Place) {
    if at.inside then
      ([b], if at.escaped then at.(escaped := false)
            else if b == 0x5C then at.(escaped := true)
            else at.(inside := b != 0x22))
    else if b == 0x22 then ([b], at.(inside := true))
    else if b == 0x7B then
      ([b] + (if next != [] && next[0] == 0x7D then [] else NewLine(|at.open| + 1)), at.(open := at.open + [true]))
    else if b == 0x5B then ([b], at.(open := at.open + [false]))
    else if b == 0x7D then (NewLine(|at.open| - 1) + [b], Close(at))
    else if b == 0x5D then ([b], Close(at))
    else if b == 0x3A then (Ascii(":\t"), at)
    else if b == 0x2C then
      (if InObject(at) then [b] + NewLine(|at.open|) else Ascii(", "), at)
    else ([b], at)
  }

  function Close(at: Place): Place {
    if at.open == [] then at else at.(open := at.open[..|at.open| - 1])
  }

  predicate InObject(at: Place) {
    at.open != [] && at.open[|at.open| - 1]
  }

  /** The unformatted text `t`, laid out. */
  function Pretty(t: bytes, at: Place): bytes {
    if t == [] then [] else Turn(t[0], t[1..], at).0 + Pretty(t[1..], Turn(t[0], t[1..], at).1)
  }

  // ---------------------------------------------------------------- pieces of text

  lemma NewLines(level: nat)
    ensures NewLine(level) == [NEWLINE] + Indent(true, level)
  {
    assert Ascii("\n") == [NEWLINE];
    assert Ascii(seq(level, _ => '\t')) == Repeat(TAB, level);
  }

  lemma OneTurn(b: byte, rest: bytes, at: Place)
    ensures Pretty([b] + rest, at) == Turn(b, rest, at).0 + Pretty(rest, Turn(b, rest, at).1)
  {
    assert ([b] + rest)[1..] == rest;
  }

  predicate Dull(b: byte) {
    b !in {0x22, 0x7B, 0x5B, 0x7D, 0x5D, 0x3A, 0x2C}
  }

  lemma {:induction false} DullRun(t: bytes, rest: bytes, at: Place)
    requires !at.inside && forall i :: 0 <= i < |t| ==> Dull(t[i])
    ensures Pretty(t + rest, at) == t + Pretty(rest, at)
  {
    hide Pretty;
    if t == [] {
      assert t + rest == rest;
    } else {
      DullRun(t[1..], rest, at);
      assert t + rest == [t[0]] + (t[1..] + rest);
      OneTurn(t[0], t[1..] + rest, at);
      assert t == [t[0]] + t[1..];
    }
  }

  /** Inside a string everything is copied. */
  lemma {:induction false} EscapedRun(t: bytes, rest: bytes, at: Place)
    requires at.inside && !at.escaped
    ensures Pretty(Escape(t) + rest, at) == Escape(t) + Pretty(rest, at)
  {
    hide Pretty, EscapeByte, Turn;
    if t == [] {
      assert Escape(t) + rest == rest;
    } else {
      EscapedRun(t[1..], rest, at);
      EscapedByte(t[0], Escape(t[1..]) + rest, at);
      assert Escape(t) + rest == EscapeByte(t[0]) + (Escape(t[1..]) + rest);
      assert EscapeByte(t[0]) + (Escape(t[1..]) + Pretty(rest, at)) == Escape(t) + Pretty(rest, at);
    }
  }

  lemma EscapedByte(c: byte, rest: bytes, at: Place)
    requires at.inside && !at.escaped
    ensures Pretty(EscapeByte(c) + rest, at) == EscapeByte(c) + Pretty(rest, at)
  {
    hide Pretty;
    var e := EscapeByte(c);
    if |e| == 1 {
      OneTurn(c, rest, at);
    } else {
      var behind := at.(escaped := true);
      assert e + rest == [e[0]] + ([e[1]] + (e[2..] + rest));
      OneTurn(e[0], [e[1]] + (e[2..] + rest), at);
      OneTurn(e[1], e[2..] + rest, behind);
      assert behind.(escaped := false) == at;
      CopiedRun(e[2..], rest, at);
      assert [e[0]] + ([e[1]] + (e[2..] + Pretty(rest, at))) == e + Pretty(rest, at);
    }
  }

  lemma {:induction false} CopiedRun(t: bytes, rest: bytes, at: Place)
    requires at.inside && !at.escaped && forall i :: 0 <= i < |t| ==> t[i] !in {0x22, 0x5C}
    ensures Pretty(t + rest, at) == t + Pretty(rest, at)
  {
    hide Pretty;
    if t == [] {
      assert t + rest == rest;
    } else {
      CopiedRun(t[1..], rest, at);
      assert t + rest == [t[0]] + (t[1..] + rest);
      OneTurn(t[0], t[1..] + rest, at);
      assert t == [t[0]] + t[1..];
    }
  }

  lemma StringRun(t: bytes, rest: bytes, at: Place)
    requires !at.inside && !at.escaped
    ensures Pretty(RenderString(t) + rest, at) == RenderString(t) + Pretty(rest, at)
  {
    hide Pretty, Escape;
    var within := at.(inside := true);
    assert RenderString(t) + rest == [QUOTE] + (Escape(t) + ([QUOTE] + rest));
    OneTurn(QUOTE, Escape(t) + ([QUOTE] + rest), at);
    EscapedRun(t, [QUOTE] + rest, within);
    OneTurn(QUOTE, rest, within);
    assert within.(inside := false) == at;
    assert [QUOTE] + (Escape(t) + ([QUOTE] + Pretty(rest, at))) == RenderString(t) + Pretty(rest, at);
  }

  // ---------------------------------------------------------------- values

  /** The unformatted text of a value, laid out where the reader is, is its formatted text there. */
  lemma {:induction false} ValueRun(v: Json, d: nat, rest: bytes, at: Place)
    requires Printable(v) && RawFree(v) && !at.inside && !at.escaped
    ensures Pretty(Render(v, false, d) + rest, at) == Render(v, true, |at.open|) + Pretty(rest, at)
    decreases v, 1
  {
    hide Pretty, Turn, RenderItems, RenderMembers, Escape, Digits;
    match v
    case Number(x) => DullRun(Decimal(x.Floor), rest, at);
    case String(s) => StringRun(s, rest, at);
    case Array(items) => ArrayRun(v, d, rest, at);
    case Object(members) => ObjectRun(v, d, rest, at);
    case Null => DullRun(NULL_TEXT, rest, at);
    case Bool(b) => DullRun(if b then TRUE_TEXT else FALSE_TEXT, rest, at);
    case Raw(_) =>
  }

  lemma {:induction false} ArrayRun(v: Json, d: nat, rest: bytes, at: Place)
    requires v.Array? && Printable(v) && RawFree(v) && !at.inside && !at.escaped
    ensures Pretty(Render(v, false, d) + rest, at) == Render(v, true, |at.open|) + Pretty(rest, at)
    decreases v, 0
  {
    hide Pretty, RenderItems;
    var within := at.(open := at.open + [false]);
    var t, u := RenderItems(v.items, false, d + 1), RenderItems(v.items, true, |at.open| + 1);
    assert Render(v, false, d) + rest == [LBRACKET] + (t + ([RBRACKET] + rest));
    OneTurn(LBRACKET, t + ([RBRACKET] + rest), at);
    ItemsRun(v.items, d + 1, [RBRACKET] + rest, within);
    OneTurn(RBRACKET, rest, within);
    assert Close(within) == at by { assert within.open[..|at.open|] == at.open; }
    assert [LBRACKET] + (u + ([RBRACKET] + Pretty(rest, at))) == Render(v, true, |at.open|) + Pretty(rest, at);
  }

  lemma {:induction false} ItemsRun(items: seq<Json>, d: nat, rest: bytes, at: Place)
    requires PrintableItems(items) && RawFreeItems(items) && !at.inside && !at.escaped
    requires at.open != [] && !at.open[|at.open| - 1]
    ensures Pretty(RenderItems(items, false, d) + rest, at) == RenderItems(items, true, |at.open|) + Pretty(rest, at)
    decreases items, 0
  {
    hide Pretty, Render;
    if items == [] {
      assert RenderItems(items, false, d) + rest == rest;
    } else {
      var last := items[1..] == [];
      var t, u := RenderItems(items[1..], false, d), RenderItems(items[1..], true, |at.open|);
      var v, w := Render(items[0], false, d), Render(items[0], true, |at.open|);
      ItemsRun(items[1..], d, rest, at);
      ValueRun(items[0], d, ItemEnd(false, last) + (t + rest), at);
      Regroup(v, ItemEnd(false, last), t, rest);
      if last {
        assert [] + (t + rest) == t + rest;
      } else {
        OneTurn(COMMA, t + rest, at);
        assert Ascii(", ") == [COMMA, SPACE];
      }
      Regroup(w, ItemEnd(true, last), u, Pretty(rest, at));
    }
  }

  lemma Regroup(a: bytes, b: bytes, c: bytes, d: bytes)
    ensures a + b + c + d == a + (b + (c + d))
  {
  }

  lemma {:induction false} ObjectRun(v: Json, d: nat, rest: bytes, at: Place)
    requires v.Object? && Printable(v) && RawFree(v) && !at.inside && !at.escaped
    ensures Pretty(Render(v, false, d) + rest, at) == Render(v, true, |at.open|) + Pretty(rest, at)
    decreases v, 0
  {
    hide Pretty, RenderMembers, Indent, Turn;
    var level, within := |at.open|, at.(open := at.open + [true]);
    assert within.open[..level] == at.open;
    var t, u := RenderMembers(v.members, false, d + 1), RenderMembers(v.members, true, level + 1);
    var z, end := [RBRACE] + rest, Pretty(rest, at);
    PlainObject(v, d);
    assert Render(v, false, d) + rest == [LBRACE] + (t + z);
    NoMembers(d + 1, level + 1);
    if v.members == [] {
      assert t + z == z;
      EmptyRun(rest, at);
      assert [LBRACE, NEWLINE] + (Indent(true, level) + [RBRACE] + end)
        == [LBRACE, NEWLINE] + [] + (Indent(true, level) + [RBRACE]) + end;
    } else {
      KeyFirst(v.members, d + 1);
      OpenRun(t + z, at);
      MembersRun(v.members, d + 1, rest, within);
      assert [LBRACE, NEWLINE] + (u + (Indent(true, level) + [RBRACE] + end))
        == [LBRACE, NEWLINE] + u + (Indent(true, level) + [RBRACE]) + end;
    }
  }

  /** A brace that opens an object with members. */
  lemma OpenRun(t: bytes, at: Place)
    requires !at.inside && t != [] && t[0] == QUOTE
    ensures Pretty([LBRACE] + t, at)
      == [LBRACE, NEWLINE] + (Indent(true, |at.open| + 1) + Pretty(t, at.(open := at.open + [true])))
  {
    hide Pretty, Indent;
    OneTurn(LBRACE, t, at);
    NewLines(|at.open| + 1);
    var p, tabs := Pretty(t, at.(open := at.open + [true])), Indent(true, |at.open| + 1);
    assert [LBRACE] + ([NEWLINE] + tabs) + p == [LBRACE, NEWLINE] + (tabs + p);
  }

  lemma EmptyRun(rest: bytes, at: Place)
    requires !at.inside
    ensures Pretty([LBRACE] + ([RBRACE] + rest), at)
      == [LBRACE, NEWLINE] + (Indent(true, |at.open|) + [RBRACE] + Pretty(rest, at))
  {
    hide Pretty, Indent;
    var within := at.(open := at.open + [true]);
    assert within.open[..|at.open|] == at.open;
    assert Close(within) == at;
    OneTurn(LBRACE, [RBRACE] + rest, at);
    OneTurn(RBRACE, rest, within);
    NewLines(|at.open|);
    var p, tabs := Pretty(rest, at), Indent(true, |at.open|);
    assert [LBRACE] + [] + (([NEWLINE] + tabs + [RBRACE]) + p) == [LBRACE, NEWLINE] + (tabs + [RBRACE] + p);
  }

  lemma PlainObject(v: Json, d: nat)
    requires v.Object? && Printable(v)
    ensures Render(v, false, d) == [LBRACE] + RenderMembers(v.members, false, d + 1) + [RBRACE]
  {
    hide RenderMembers;
    assert [] + [RBRACE] == [RBRACE];
  }

  lemma NoMembers(d: nat, level: nat)
    ensures RenderMembers([], false, d) == [] && RenderMembers([], true, level) == []
  {
  }

  lemma KeyFirst(members: seq<Member>, d: nat)
    requires members != [] && PrintableMembers(members)
    ensures RenderMembers(members, false, d) != [] && RenderMembers(members, false, d)[0] == QUOTE
  {
    hide Escape, Render;
  }

  /** The members and the closing brace, with the reader inside the object. */
  lemma {:induction false} MembersRun(members: seq<Member>, d: nat, rest: bytes, at: Place)
    requires members != [] && PrintableMembers(members) && RawFreeMembers(members) && !at.inside && !at.escaped
    requires InObject(at)
    ensures var level := |at.open|;
      Indent(true, level) + Pretty(RenderMembers(members, false, d) + ([RBRACE] + rest), at)
        == RenderMembers(members, true, level) + (Indent(true, level - 1) + [RBRACE] + Pretty(rest, Close(at)))
    decreases members, 0
  {
    hide Pretty, Render, RenderString, Indent, Close;
    var level, m, last := |at.open|, members[0], members[1..] == [];
    var z := [RBRACE] + rest;
    var key, w := RenderString(m.key), Render(m.value, true, level);
    var t := RenderMembers(members[1..], false, d);
    var comma: bytes := if last then [] else [COMMA];
    var behind := comma + (t + z);
    PlainMembers(members, d);
    assert RenderMembers(members, false, d) + z == key + ([COLON] + (Render(m.value, false, d) + behind));
    MemberRun(m, d, behind, at);
    NewLines(level);
    NewLines(level - 1);
    NoMembers(d, level);
    var end := Indent(true, level - 1) + [RBRACE] + Pretty(rest, Close(at));
    var tabs := Indent(true, level);
    if last {
      assert behind == z;
      OneTurn(RBRACE, rest, at);
      LastMember(tabs, key, w, Indent(true, level - 1), Pretty(rest, Close(at)));
    } else {
      OneTurn(COMMA, t + z, at);
      MembersRun(members[1..], d, rest, at);
      MoreMembers(tabs, key, w, Pretty(t + z, at), RenderMembers(members[1..], true, level), end);
    }
  }

  lemma MemberRun(m: Member, d: nat, behind: bytes, at: Place)
    requires Printable(m.value) && RawFree(m.value) && !at.inside && !at.escaped
    ensures Pretty(RenderString(m.key) + ([COLON] + (Render(m.value, false, d) + behind)), at)
      == RenderString(m.key) + ([COLON, TAB] + (Render(m.value, true, |at.open|) + Pretty(behind, at)))
    decreases m.value, 2
  {
    hide Pretty, Render, RenderString;
    var v := Render(m.value, false, d);
    StringRun(m.key, [COLON] + (v + behind), at);
    OneTurn(COLON, v + behind, at);
    assert Ascii(":\t") == [COLON, TAB];
    ValueRun(m.value, d, behind, at);
  }

  lemma LastMember(tabs: bytes, key: bytes, w: bytes, back: bytes, p: bytes)
    ensures tabs + (key + ([COLON, TAB] + (w + (([NEWLINE] + back + [RBRACE]) + p))))
      == tabs + key + [COLON, TAB] + w + ([] + [NEWLINE]) + [] + (back + [RBRACE] + p)
  {
    var a := tabs + key + [COLON, TAB] + w;
    assert tabs + (key + ([COLON, TAB] + (w + (([NEWLINE] + back + [RBRACE]) + p)))) == a + [NEWLINE] + (back + [RBRACE] + p);
  }

  lemma MoreMembers(tabs: bytes, key: bytes, w: bytes, p: bytes, u: bytes, end: bytes)
    requires tabs + p == u + end
    ensures tabs + (key + ([COLON, TAB] + (w + (([COMMA] + ([NEWLINE] + tabs)) + p))))
      == tabs + key + [COLON, TAB] + w + ([COMMA] + [NEWLINE]) + u + end
  {
    var a := tabs + key + [COLON, TAB] + w + [COMMA, NEWLINE];
    assert tabs + (key + ([COLON, TAB] + (w + (([COMMA] + ([NEWLINE] + tabs)) + p)))) == a + (tabs + p);
    assert a + (u + end) == tabs + key + [COLON, TAB] + w + ([COMMA] + [NEWLINE]) + u + end;
  }

  lemma PlainMembers(members: seq<Member>, d: nat)
    requires members != [] && PrintableMembers(members)
    ensures RenderMembers(members, false, d)
      == RenderString(members[0].key) + ([COLON] + (Render(members[0].value, false, d)
         + ((if members[1..] == [] then [] else [COMMA]) + RenderMembers(members[1..], false, d))))
  {
    hide Render, RenderString;
    var comma: bytes := if members[1..] == [] then [] else [COMMA];
    Colons(RenderString(members[0].key), Render(members[0].value, false, d), comma, RenderMembers(members[1..], false, d));
  }

  lemma Colons(key: bytes, v: bytes, comma: bytes, t: bytes)
    ensures [] + key + [COLON] + v + (comma + []) + t == key + ([COLON] + (v + (comma + t)))
  {
  }

  /** The formatted text of a tree is its unformatted text, laid out: an object's members on lines of
      their own with a tab for each open container, a tab behind the colon, a space behind an array's
      commas, and nothing else. */
  lemma FormattedIsPretty(v: Json)
    requires Printable(v) && RawFree(v)
    ensures Render(v, true, 0) == Pretty(Render(v, false, 0), OUTSIDE)
  {
    hide Render, Pretty;
    ValueRun(v, 0, [], OUTSIDE);
    assert Render(v, false, 0) + [] == Render(v, false, 0);
    assert Pretty([], OUTSIDE) == [] by { NothingLeft(OUTSIDE); }
  }

  lemma NothingLeft(at: Place)
    ensures Pretty([], at) == []
  {
  }
}
