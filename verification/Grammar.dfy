/** What the recursive parser computes, as functions of the buffer, the offset and the depth. */
module Grammar {
  import opened Bytes
  import opened JsonTree
  import opened Strings
  import opened Numbers

  /** A value and the offset behind it, or the offset at which parsing stopped. */
  datatype Result<+T> = Ok(value: T, next: nat) | Fail(at: nat)

  function BlankEnd(s: bytes, off: nat): (e: nat)
    requires off <= |s|
    ensures off <= e <= |s|
    ensures forall i :: off <= i < e ==> s[i] <= 32
    ensures e < |s| ==> s[e] > 32
    decreases |s| - off
  {
    if off < |s| && s[off] <= 32 then BlankEnd(s, off + 1) else off
  }

  /** `buffer_skip_whitespace`: stops on the last byte rather than behind it. */
  function Skip(s: bytes, off: nat): (r: nat)
    requires off <= |s|
    ensures off <= r <= |s|
    ensures off < |s| ==> r < |s|
    ensures forall i :: off <= i < r ==> s[i] <= 32
  {
    var e := BlankEnd(s, off);
    if off < |s| && e == |s| then e - 1 else e
  }

  predicate ByteIs(s: bytes, off: nat, c: byte) {
    off < |s| && s[off] == c
  }

  /** `parse_value`, from `off` at a nesting depth. The code starts at depth 0 and goes up. */
  function ValueAt(s: bytes, off: nat, depth: int): (r: Result<Json>)
    requires off <= |s|
    ensures r.Ok? ==> off < r.next <= |s|
    ensures r.Fail? ==> r.at <= |s|
    decreases |s| - off, 3
  {
    if At(s, off, NULL_TEXT) then Ok(Null, off + 4)
    else if At(s, off, FALSE_TEXT) then Ok(Bool(false), off + 5)
    else if At(s, off, TRUE_TEXT) then Ok(Bool(true), off + 4)
    else if ByteIs(s, off, QUOTE) then
      var t := StringAt(s, off);
      if t.Parsed? then Ok(String(CString(t.text)), t.next) else Fail(t.at)
    else if off < |s| && (s[off] == MINUS || IsDigit(s[off])) then
      var n := NumberAt(s, off);
      if n == None then Fail(off) else Ok(Number(n.value.0), n.value.1)
    else if ByteIs(s, off, LBRACKET) then ArrayAt(s, off, depth)
    else if ByteIs(s, off, LBRACE) then ObjectAt(s, off, depth)
    else Fail(off)
  }

  function ArrayAt(s: bytes, off: nat, depth: int): (r: Result<Json>)
    requires off < |s|
    ensures r.Ok? ==> off < r.next <= |s|
    ensures r.Fail? ==> r.at <= |s|
    decreases |s| - off, 2
  {
    if depth >= NESTING_LIMIT then Fail(off)
    else
      var q := Skip(s, off + 1);
      if ByteIs(s, q, RBRACKET) then Ok(Array([]), q + 1)
      else if q >= |s| then Fail(q - 1)
      else
        var items := ItemsAt(s, q, depth + 1);
        if items.Ok? then Ok(Array(items.value), items.next) else Fail(items.at)
  }

  /** The loop of `parse_array`, entered with the offset advanced to `q`. */
  function ItemsAt(s: bytes, q: nat, depth: int): (r: Result<seq<Json>>)
    requires q <= |s|
    ensures r.Ok? ==> q < r.next <= |s| && r.value != []
    ensures r.Fail? ==> r.at <= |s|
    decreases |s| - q, 4
  {
    var v := ValueAt(s, Skip(s, q), depth);
    if v.Fail? then Fail(v.at)
    else
      var e := Skip(s, v.next);
      if ByteIs(s, e, COMMA) then
        var rest := ItemsAt(s, e + 1, depth);
        if rest.Fail? then rest else Ok([v.value] + rest.value, rest.next)
      else if ByteIs(s, e, RBRACKET) then Ok([v.value], e + 1)
      else Fail(e)
  }

  function ObjectAt(s: bytes, off: nat, depth: int): (r: Result<Json>)
    requires off < |s|
    ensures r.Ok? ==> off < r.next <= |s|
    ensures r.Fail? ==> r.at <= |s|
    decreases |s| - off, 2
  {
    if depth >= NESTING_LIMIT then Fail(off)
    else
      var q := Skip(s, off + 1);
      if ByteIs(s, q, RBRACE) then Ok(Object([]), q + 1)
      else if q >= |s| then Fail(q - 1)
      else
        var members := MembersAt(s, q - 1, depth + 1);
        if members.Ok? then Ok(Object(members.value), members.next) else Fail(members.at)
  }

  /** The loop of `parse_object`, entered with the offset on the byte before the member. */
  function MembersAt(s: bytes, p: nat, depth: int): (r: Result<seq<Member>>)
    requires p < |s|
    ensures r.Ok? ==> p < r.next <= |s| && r.value != []
    ensures r.Fail? ==> r.at <= |s|
    decreases |s| - p, 1
  {
    var m := MemberAt(s, p, depth);
    if m.Fail? then Fail(m.at)
    else if ByteIs(s, m.next, COMMA) then
      var rest := MembersAt(s, m.next, depth);
      if rest.Fail? then rest else Ok([m.value] + rest.value, rest.next)
    else if ByteIs(s, m.next, RBRACE) then Ok([m.value], m.next + 1)
    else Fail(m.next)
  }

  /** One member, up to the visible byte behind it. */
  function MemberAt(s: bytes, p: nat, depth: int): (r: Result<Member>)
    requires p < |s|
    ensures r.Ok? ==> p < r.next <= |s|
    ensures r.Fail? ==> r.at <= |s|
    decreases |s| - p, 0
  {
    if p + 1 >= |s| then Fail(p)
    else
      var key := StringAt(s, Skip(s, p + 1));
      if key.Rejected? then Fail(key.at)
      else
        var c := Skip(s, key.next);
        if !ByteIs(s, c, COLON) then Fail(c)
        else
          var v := ValueAt(s, Skip(s, c + 1), depth);
          if v.Fail? then Fail(v.at) else Ok(Member(CString(key.text), v.value), Skip(s, v.next))
  }

  /** The byte order mark of UTF-8. */
  const MARK: bytes := [0xEF, 0xBB, 0xBF]

  /** `skip_utf8_bom` at offset 0. */
  function BomEnd(s: bytes): (r: nat)
    ensures r <= |s|
  {
    if 4 < |s| && s[..3] == MARK then 3 else 0
  }

  /** `cJSON_ParseWithLengthOpts`: the tree and the end position, or the error position. */
  function Document(s: bytes, requireTerminator: bool): (r: Result<Json>)
    ensures r.Fail? ==> r.at == 0 || r.at < |s|
  {
    if s == [] then Fail(0)
    else
      var v := ValueAt(s, Skip(s, BomEnd(s)), 0);
      if v.Fail? then Fail(ErrorPosition(s, v.at))
      else if !requireTerminator then v
      else
        var e := Skip(s, v.next);
        if ByteIs(s, e, 0) then Ok(v.value, e) else Fail(ErrorPosition(s, e))
  }

  function ErrorPosition(s: bytes, at: nat): nat
    requires s != []
  {
    if at < |s| then at else |s| - 1
  }

  // ---------------------------------------------------------------- what parsing can give

  lemma NestingCons(v: Json, items: seq<Json>, m: Member, members: seq<Member>)
    ensures NestingItems([v] + items) == Max(Nesting(v), NestingItems(items))
    ensures RawFreeItems([v] + items) <==> RawFree(v) && RawFreeItems(items)
    ensures NestingMembers([m] + members) == Max(Nesting(m.value), NestingMembers(members))
    ensures RawFreeMembers([m] + members) <==> RawFree(m.value) && RawFreeMembers(members)
  {
    assert ([v] + items)[1..] == items;
    assert ([m] + members)[1..] == members;
  }

  /** Every value the parser accepts at some depth stays within the nesting limit and holds no raw
      text. */
  lemma {:induction false} ValueNesting(s: bytes, off: nat, depth: int)
    requires off <= |s| && depth <= NESTING_LIMIT && ValueAt(s, off, depth).Ok?
    ensures var v := ValueAt(s, off, depth).value; depth + Nesting(v) <= NESTING_LIMIT && RawFree(v)
    decreases |s| - off, 3
  {
    hide StringAt, NumberAt, ArrayAt, ObjectAt, At, Skip;
    if ByteIs(s, off, LBRACKET) && ValueAt(s, off, depth) == ArrayAt(s, off, depth) {
      ArrayNesting(s, off, depth);
    } else if ByteIs(s, off, LBRACE) && ValueAt(s, off, depth) == ObjectAt(s, off, depth) {
      ObjectNesting(s, off, depth);
    }
  }

  lemma {:induction false} ArrayNesting(s: bytes, off: nat, depth: int)
    requires off < |s| && depth <= NESTING_LIMIT && ArrayAt(s, off, depth).Ok?
    ensures var v := ArrayAt(s, off, depth).value; depth + Nesting(v) <= NESTING_LIMIT && RawFree(v)
    decreases |s| - off, 2
  {
    hide ItemsAt, Skip;
    var q := Skip(s, off + 1);
    if !ByteIs(s, q, RBRACKET) {
      ItemsNesting(s, q, depth + 1);
    }
  }

  lemma {:induction false} ObjectNesting(s: bytes, off: nat, depth: int)
    requires off < |s| && depth <= NESTING_LIMIT && ObjectAt(s, off, depth).Ok?
    ensures var v := ObjectAt(s, off, depth).value; depth + Nesting(v) <= NESTING_LIMIT && RawFree(v)
    decreases |s| - off, 2
  {
    hide MembersAt, Skip;
    var q := Skip(s, off + 1);
    if !ByteIs(s, q, RBRACE) {
      MembersNesting(s, q - 1, depth + 1);
    }
  }

  lemma {:induction false} ItemsNesting(s: bytes, q: nat, depth: int)
    requires q <= |s| && depth <= NESTING_LIMIT && ItemsAt(s, q, depth).Ok?
    ensures var items := ItemsAt(s, q, depth).value; depth + NestingItems(items) <= NESTING_LIMIT && RawFreeItems(items)
    decreases |s| - q, 4
  {
    hide ValueAt, Skip;
    var v := ValueAt(s, Skip(s, q), depth);
    ValueNesting(s, Skip(s, q), depth);
    var e := Skip(s, v.next);
    NestingCons(v.value, [], Member([], Null), []);
    assert [v.value] + [] == [v.value];
    if ByteIs(s, e, COMMA) {
      ItemsNesting(s, e + 1, depth);
      NestingCons(v.value, ItemsAt(s, e + 1, depth).value, Member([], Null), []);
    }
  }

  lemma {:induction false} MembersNesting(s: bytes, p: nat, depth: int)
    requires p < |s| && depth <= NESTING_LIMIT && MembersAt(s, p, depth).Ok?
    ensures var ms := MembersAt(s, p, depth).value; depth + NestingMembers(ms) <= NESTING_LIMIT && RawFreeMembers(ms)
    decreases |s| - p, 1
  {
    hide MemberAt;
    var m := MemberAt(s, p, depth);
    MemberNesting(s, p, depth);
    NestingCons(Null, [], m.value, []);
    assert [m.value] + [] == [m.value];
    if ByteIs(s, m.next, COMMA) {
      MembersNesting(s, m.next, depth);
      NestingCons(Null, [], m.value, MembersAt(s, m.next, depth).value);
    }
  }

  lemma {:induction false} MemberNesting(s: bytes, p: nat, depth: int)
    requires p < |s| && depth <= NESTING_LIMIT && MemberAt(s, p, depth).Ok?
    ensures var v := MemberAt(s, p, depth).value.value; depth + Nesting(v) <= NESTING_LIMIT && RawFree(v)
    decreases |s| - p, 0
  {
    hide ValueAt, Skip, StringAt;
    var c := Skip(s, StringAt(s, Skip(s, p + 1)).next);
    ValueNesting(s, Skip(s, c + 1), depth);
  }
}
