/** The imperative parser: it moves an offset and a depth over a fixed buffer, allocates nodes and
    strings as it goes, and frees them when it fails. Each method is tied to the function of the
    grammar with the same name, and owns exactly the trees it has built so far. */
module Parser {
  import opened Bytes
  import opened JsonTree
  import opened Strings
  import opened Numbers
  import opened Grammar
  import opened CHeap
  import opened CHeapFacts
  import opened TreeOps
  import opened SoundTrees

  /** The item a value is parsed into: a node without children, text or number, as a new one. */
  ghost predicate Blankish(h: Cells, item: Ptr) {
    Bare(h, item) && h[item].node.valueint == 0 && h[item].node.valuedouble == 0.0
  }

  /** A node that owns at most its name. */
  ghost predicate Bare(h: Cells, item: Ptr) {
    && IsNode(h, item)
    && var n := h[item].node;
    && n.child == 0 && n.text == 0 && !n.isReference && !n.constName
    && (n.name != 0 ==> IsBlock(h, n.name))
  }

  ghost function BlankTree(h: Cells, item: Ptr): Tree
    requires IsNode(h, item)
  {
    Tree(item, 0, h[item].node.name, [])
  }

  /** The item now roots a well-built tree of sound nodes that stands for `v`; all it owns beyond its
      own node and name is new, and nothing else in the heap has changed. */
  ghost predicate Built(h: Cells, h': Cells, item: Ptr, t: Tree, v: Json) {
    && IsNode(h, item) && Regrown(h, h', BlankTree(h, item), t) && Value(h', t) == v && Sound(h', t)
    && t.name == h[item].node.name && h'[item].node.name == h[item].node.name
  }

  lemma BlankOwned(h: Cells, item: Ptr)
    requires Bare(h, item)
    ensures Rep(h, BlankTree(h, item)) && Sep(BlankTree(h, item))
    ensures Tidy(h, BlankTree(h, item)) && Plain(h, BlankTree(h, item))
    ensures Foot(BlankTree(h, item)) == {item, h[item].node.name} - {0}
  {
    EmptyFoot();
  }

  /** A leaf value: only the node itself is written. */
  lemma LeafBuilt(h: Cells, h': Cells, item: Ptr, n: Node)
    requires Blankish(h, item) && h' == h[item := NodeCell(n)]
    requires n.child == 0 && n.text == 0 && SoundNode(n) && !n.isReference && !n.constName
    requires n.next == h[item].node.next && n.prev == h[item].node.prev && n.name == h[item].node.name
    ensures Built(h, h', item, BlankTree(h, item), Value(h', BlankTree(h, item)))
    ensures n.kind == KNull ==> Value(h', BlankTree(h, item)) == Null
    ensures n.kind == KTrue ==> Value(h', BlankTree(h, item)) == Bool(true)
    ensures n.kind == KFalse ==> Value(h', BlankTree(h, item)) == Bool(false)
    ensures n.kind == KNumber ==> Value(h', BlankTree(h, item)) == Number(n.valuedouble)
  {
    BlankOwned(h, item);
    BlankOwned(h', item);
  }

  lemma TextBuilt(h: Cells, h': Cells, item: Ptr, n: Node)
    requires Blankish(h, item) && n.text !in h && n.text != 0
    requires h'.Keys == h.Keys + {n.text} && IsBlock(h', n.text) && h'[item] == NodeCell(n) && item in h'
    requires forall p :: p in h && p != item ==> h'[p] == h[p]
    requires n.child == 0 && n.kind == KString && SoundNode(n) && !n.isReference && !n.constName
    requires n.next == h[item].node.next && n.prev == h[item].node.prev && n.name == h[item].node.name
    ensures Built(h, h', item, Tree(item, n.text, n.name, []), String(StringOf(h', n.text)))
  {
    BlankOwned(h, item);
    EmptyFoot();
  }

  class ParseBuffer {
    const content: bytes
    var offset: nat
    var depth: nat

    constructor (content: bytes)
      ensures this.content == content && offset == 0 && depth == 0
    {
      this.content := content;
      offset, depth := 0, 0;
    }

    /** The parser never leaves the buffer nor the nesting limit. */
    ghost predicate Valid()
      reads this
    {
      offset <= |content| && depth <= NESTING_LIMIT
    }

    /** Requests made since then: no more than bytes passed, but for `extra` ones. */
    twostate predicate Spent(mem: Memory, extra: nat)
      reads this`offset, mem`requests
    {
      && old(mem.requests) <= mem.requests <= old(mem.requests) + (offset - old(offset)) + extra
      && old(mem.Refused()) <= mem.Refused()
    }

    predicate Peek(c: byte)
      reads this
    {
      offset < |content| && content[offset] == c
    }

    /** `buffer_skip_whitespace`. */
    method SkipWhitespace()
      requires Valid()
      modifies this`offset
      ensures Valid() && offset == Skip(content, old(offset)) && old(offset) <= offset
    {
      if offset >= |content| {
        return;
      }
      while offset < |content| && content[offset] <= 32
        invariant old(offset) <= offset <= |content|
        invariant BlankEnd(content, old(offset)) == BlankEnd(content, offset)
      {
        offset := offset + 1;
      }
      if offset == |content| {
        offset := offset - 1;
      }
    }

    /** `skip_utf8_bom`. */
    method SkipBom()
      requires Valid() && offset == 0
      modifies this`offset
      ensures Valid() && offset == BomEnd(content)
    {
      if 4 < |content| && content[..3] == MARK {
        offset := 3;
      }
    }

    /** `parse_number`: copies at most RUN_LIMIT bytes aside, converts them, advances by what the
        conversion used. */
    method ParseNumber(mem: Memory, item: Ptr) returns (ok: bool)
      requires Valid() && Blankish(mem.cells, item)
      modifies this`offset, mem`cells
      ensures Valid() && (ok <==> NumberAt(content, old(offset)) != None)
      ensures !ok ==> mem.cells == old(mem.cells) && offset == old(offset)
      ensures ok ==> offset == NumberAt(content, old(offset)).value.1
      ensures ok ==> mem.cells == old(mem.cells)[item := NodeCell(old(mem.cells[item].node).(
        kind := KNumber, valuedouble := NumberAt(content, old(offset)).value.0,
        valueint := Saturate(NumberAt(content, old(offset)).value.0)))]
    {
      hide Strtod, Saturate, RunEnd;
      var run, i := CopyRun();
      var number := Strtod(run[..i]);
      if number == None {
        return false;
      }
      var n := mem.cells[item].node;
      mem.Store(item, n.(kind := KNumber, valuedouble := number.value.0, valueint := Saturate(number.value.0)));
      offset := offset + number.value.1;
      ok := true;
    }

    /** The copy loop of `parse_number`, with its terminator. */
    method CopyRun() returns (run: array<byte>, i: nat)
      requires Valid()
      ensures fresh(run) && i < run.Length && run[i] == 0
      ensures run[..i] == content[offset..RunEnd(content, offset, RUN_LIMIT)]
    {
      hide RunEnd;
      run := new byte[RUN_LIMIT + 1];
      i := 0;
      while i < RUN_LIMIT && offset + i < |content| && IsNumberByte(content[offset + i])
        invariant 0 <= i <= RUN_LIMIT && offset + i <= |content|
        invariant forall j :: 0 <= j < i ==> run[j] == content[offset + j]
        invariant RunEnd(content, offset, RUN_LIMIT) == RunEnd(content, offset + i, RUN_LIMIT - i)
      {
        RunEndStep(content, offset + i, RUN_LIMIT - i);
        run[i] := content[offset + i];
        i := i + 1;
      }
      RunEndStep(content, offset + i, RUN_LIMIT - i);
      run[i] := 0;
    }

    /** `parse_string`: sizes, allocates, decodes; the block is freed again when decoding fails. */
    method ParseString(mem: Memory, item: Ptr) returns (ok: bool)
      requires Valid() && offset < |content| && IsNode(mem.cells, item)
      modifies this`offset, mem
      ensures Spent(mem, if ok then 0 else 1)
      ensures Valid()
      ensures !ok ==> mem.cells == old(mem.cells)
      ensures !ok && mem.Refused() == old(mem.Refused()) ==> StringAt(content, old(offset)) == Rejected(offset)
      ensures ok ==> mem.Refused() == old(mem.Refused()) && StringAt(content, old(offset)).Parsed?
      ensures ok ==> offset == StringAt(content, old(offset)).next
      ensures ok ==> StringStored(old(mem.cells), mem.cells, item, StringAt(content, old(offset)).text)
    {
      hide Refusals, Decode, Scan, CString, StringStored, StringAt, AllocationSize;
      ghost var h := mem.cells;
      ok := false;
      var start := offset;
      StringFacts(content, start);
      if content[start] != QUOTE {
        offset := start + 1;
        return;
      }
      var end := ScanLiteral(content, start + 1);
      if end == None {
        offset := start + 1;
        return;
      }
      var output := new byte[end.value.0 - start - end.value.1 + 1];
      var text := mem.Allocate(Block(output[..]));
      if text == 0 {
        offset := start + 1;
        return;
      }
      var done, n, at := DecodeLiteral(content, start, end.value.0, output);
      if !done {
        DecodeFailsInside(content, start + 1, end.value.0);
        mem.Free(text);
        assert mem.cells == h;
        offset := at;
        return;
      }
      mem.Fill(text, output[..]);
      mem.Store(item, mem.cells[item].node.(kind := KString, text := text));
      TextStored(h, mem.cells, item, text, output[..], n);
      offset := end.value.0 + 1;
      ok := true;
    }

    // -------------------------------------------------------------- the recursion

    /** `parse_value`. With memory available it computes exactly what the grammar says; whatever
        happens, a failure leaves the heap as it was. */
    method ParseValue(mem: Memory, item: Ptr) returns (ok: bool, ghost t: Tree)
      requires Valid() && Blankish(mem.cells, item)
      modifies this, mem
      ensures Spent(mem, if ok then 0 else 1)
      ensures Valid() && depth >= old(depth)
      ensures !ok ==> mem.cells == old(mem.cells)
      ensures !ok && mem.Refused() == old(mem.Refused()) ==> ValueAt(content, old(offset), old(depth)) == Fail(offset)
      ensures ok ==> depth == old(depth) && mem.Refused() == old(mem.Refused())
      ensures ok ==>
        ValueAt(content, old(offset), old(depth)).Ok? && ValueAt(content, old(offset), old(depth)).next == offset
      ensures ok ==> Built(old(mem.cells), mem.cells, item, t, ValueAt(content, old(offset), old(depth)).value)
      decreases |content| - offset, 3
    {
      hide Refusals, Built, StringAt, NumberAt, ArrayAt, ObjectAt;
      ghost var h := mem.cells;
      ghost var start := offset;
      t := BlankTree(h, item);
      var n := mem.cells[item].node;
      if At(content, offset, NULL_TEXT) {
        mem.Store(item, n.(kind := KNull));
        LeafBuilt(h, mem.cells, item, n.(kind := KNull));
        offset := offset + 4;
        ok := true;
      } else if At(content, offset, FALSE_TEXT) {
        mem.Store(item, n.(kind := KFalse));
        LeafBuilt(h, mem.cells, item, n.(kind := KFalse));
        offset := offset + 5;
        ok := true;
      } else if At(content, offset, TRUE_TEXT) {
        mem.Store(item, n.(kind := KTrue, valueint := 1));
        LeafBuilt(h, mem.cells, item, n.(kind := KTrue, valueint := 1));
        offset := offset + 4;
        ok := true;
      } else if Peek(QUOTE) {
        ok := ParseString(mem, item);
        if ok {
          StoredBuilt(h, mem.cells, item, StringAt(content, start).text);
          t := Tree(item, mem.cells[item].node.text, n.name, []);
        }
      } else if offset < |content| && (content[offset] == MINUS || IsDigit(content[offset])) {
        ok := ParseNumber(mem, item);
        if ok {
          LeafBuilt(h, mem.cells, item, mem.cells[item].node);
        }
      } else if Peek(LBRACKET) {
        ok, t := ParseArray(mem, item);
      } else if Peek(LBRACE) {
        ok, t := ParseObject(mem, item);
      } else {
        ok := false;
      }
    }

    /** `parse_array`. */
    method ParseArray(mem: Memory, item: Ptr) returns (ok: bool, ghost t: Tree)
      requires Valid() && Blankish(mem.cells, item) && Peek(LBRACKET)
      modifies this, mem
      ensures Spent(mem, if ok then 0 else 1)
      ensures Valid() && depth >= old(depth)
      ensures !ok ==> mem.cells == old(mem.cells)
      ensures !ok && mem.Refused() == old(mem.Refused()) ==> ArrayAt(content, old(offset), old(depth)) == Fail(offset)
      ensures ok ==> depth == old(depth) && mem.Refused() == old(mem.Refused())
      ensures ok ==>
        ArrayAt(content, old(offset), old(depth)).Ok? && ArrayAt(content, old(offset), old(depth)).next == offset
      ensures ok ==> Built(old(mem.cells), mem.cells, item, t, ArrayAt(content, old(offset), old(depth)).value)
      decreases |content| - offset, 2
    {
      hide Refusals, Built, Listing, ItemsAt, Skip, Blankish, Values, FootAll, SoundAll;
      ghost var h := mem.cells;
      t := Tree(item, 0, 0, []);
      if depth >= NESTING_LIMIT {
        return false, t;
      }
      depth := depth + 1;
      offset := offset + 1;
      SkipWhitespace();
      var head, current := 0, 0;
      ghost var ts: seq<Tree> := [];
      EmptyListing(h);
      if !Peek(RBRACKET) {
        if offset >= |content| {
          offset := offset - 1;
          return false, t;
        }
        offset := offset - 1;
        ok, head, current, ts := ParseItems(mem);
        if !ok {
          return false, t;
        }
      }
      depth := depth - 1;
      t := CloseContainer(mem, item, head, current, KArray, h, ts);
      offset := offset + 1;
      ok := true;
    }

    /** The do-while loop of `parse_array`, entered on the byte before the first item. */
    method ParseItems(mem: Memory) returns (ok: bool, head: Ptr, current: Ptr, ghost ts: seq<Tree>)
      requires Valid() && offset < |content|
      modifies this, mem
      ensures Spent(mem, if ok then 0 else 1)
      ensures Valid() && depth >= old(depth) && (ok ==> depth == old(depth))
      ensures !ok ==> mem.cells == old(mem.cells)
      ensures !ok && mem.Refused() == old(mem.Refused()) ==>
        ItemsAt(content, old(offset) + 1, old(depth)) == Fail(offset)
      ensures ok ==> mem.Refused() == old(mem.Refused()) && offset < |content|
      ensures ok ==> Listing(old(mem.cells), mem.cells, ts) && head == First(ts) && current == Tail(ts)
      ensures ok ==> ItemsAt(content, old(offset) + 1, depth) == Ok(Values(mem.cells, ts), offset + 1)
      ensures ok ==> SoundAll(mem.cells, ts, false)
      decreases |content| - offset, 1
    {
      hide Refusals, Listing, ItemsAt, ValueAt, Skip, Values, FootAll, Prefixed, SoundAll;
      ghost var h, d := mem.cells, depth;
      head, current, ts := 0, 0, [];
      EmptyListing(h);
      PrefixedNil(ItemsAt(content, offset + 1, d));
      var more := true;
      while more
        invariant Valid() && depth == d && Spent(mem, 0) && mem.Refused() == old(mem.Refused())
        invariant Listing(h, mem.cells, ts) && head == First(ts) && current == Tail(ts)
        invariant SoundAll(mem.cells, ts, false)
        invariant old(offset) <= offset && (more ==> offset < |content|)
        invariant ItemsAt(content, old(offset) + 1, d) == Prefixed(Values(mem.cells, ts),
          if more then ItemsAt(content, offset + 1, d) else Closed(content, offset, RBRACKET))
        decreases |content| - offset, more
      {
        ghost var before, start := Values(mem.cells, ts), offset;
        var done;
        ghost var v: Json;
        done, head, current, ts, v := ParseElement(mem, head, current, h, ts);
        if !done {
          DeleteList(mem, head, h, ts);
          ItemsFail(content, start + 1, d, before);
          return false, 0, 0, [];
        }
        more := Peek(COMMA);
        ItemsStep(content, start + 1, d, before, v);
      }
      PrefixedClosed(Values(mem.cells, ts), content, offset, RBRACKET);
      if !Peek(RBRACKET) {
        DeleteList(mem, head, h, ts);
        return false, 0, 0, [];
      }
      ok := true;
    }

    /** One turn of the `parse_array` loop: allocate, link, parse. On failure the new list is handed
        back for deletion. */
    method ParseElement(mem: Memory, head: Ptr, current: Ptr, ghost h: Cells, ghost ts: seq<Tree>)
      returns (ok: bool, head': Ptr, current': Ptr, ghost ts': seq<Tree>, ghost v: Json)
      requires Valid() && offset < |content| && SoundAll(mem.cells, ts, false)
      requires Listing(h, mem.cells, ts) && head == First(ts) && current == Tail(ts)
      modifies this, mem
      ensures Spent(mem, if ok then 0 else 1)
      ensures Valid() && depth >= old(depth)
      ensures Listing(h, mem.cells, ts') && head' == First(ts') && current' == Tail(ts')
      ensures !ok && mem.Refused() == old(mem.Refused()) ==>
        ValueAt(content, Skip(content, old(offset) + 1), old(depth)) == Fail(offset)
      ensures ok ==> depth == old(depth) && mem.Refused() == old(mem.Refused()) && old(offset) < offset
      ensures ok ==>
        var r := ValueAt(content, Skip(content, old(offset) + 1), old(depth));
        r.Ok? && v == r.value && offset == Skip(content, r.next)
      ensures ok ==> Values(mem.cells, ts') == Values(old(mem.cells), ts) + [v] && SoundAll(mem.cells, ts', false)
      decreases |content| - offset, 0
    {
      hide Refusals, Listing, ValueAt, Skip, Blankish, Values, FootAll, Built, SoundAll;
      v := Null;
      var x;
      x, head', current', ts' := NewElement(mem, head, current, h, ts, false);
      if x == 0 {
        return false, head', current', ts', v;
      }
      offset := offset + 1;
      SkipWhitespace();
      ghost var h1, start := mem.cells, offset;
      ghost var u;
      ok, u := ParseValue(mem, x);
      if ok {
        v := ValueAt(content, start, old(depth)).value;
        ElementBuilt(h, h1, mem.cells, ts, x, u, v);
        ts' := ts + [u];
        SkipWhitespace();
      }
    }

    /** `parse_object`. */
    method ParseObject(mem: Memory, item: Ptr) returns (ok: bool, ghost t: Tree)
      requires Valid() && Blankish(mem.cells, item) && Peek(LBRACE)
      modifies this, mem
      ensures Spent(mem, if ok then 0 else 1)
      ensures Valid() && depth >= old(depth)
      ensures !ok ==> mem.cells == old(mem.cells)
      ensures !ok && mem.Refused() == old(mem.Refused()) ==> ObjectAt(content, old(offset), old(depth)) == Fail(offset)
      ensures ok ==> depth == old(depth) && mem.Refused() == old(mem.Refused())
      ensures ok ==>
        ObjectAt(content, old(offset), old(depth)).Ok? && ObjectAt(content, old(offset), old(depth)).next == offset
      ensures ok ==> Built(old(mem.cells), mem.cells, item, t, ObjectAt(content, old(offset), old(depth)).value)
      decreases |content| - offset, 2
    {
      hide Refusals, Built, Listing, MembersAt, Skip, Blankish, Members, FootAll, SoundAll;
      ghost var h := mem.cells;
      t := Tree(item, 0, 0, []);
      if depth >= NESTING_LIMIT {
        return false, t;
      }
      depth := depth + 1;
      offset := offset + 1;
      SkipWhitespace();
      var head, current := 0, 0;
      ghost var ts: seq<Tree> := [];
      EmptyListing(h);
      if !Peek(RBRACE) {
        if offset >= |content| {
          offset := offset - 1;
          return false, t;
        }
        offset := offset - 1;
        ok, head, current, ts := ParseMembers(mem);
        if !ok {
          return false, t;
        }
      }
      depth := depth - 1;
      t := CloseContainer(mem, item, head, current, KObject, h, ts);
      offset := offset + 1;
      ok := true;
    }

    /** The do-while loop of `parse_object`, entered on the byte before the first member. */
    method ParseMembers(mem: Memory) returns (ok: bool, head: Ptr, current: Ptr, ghost ts: seq<Tree>)
      requires Valid() && offset < |content|
      modifies this, mem
      ensures Spent(mem, if ok then 0 else 1)
      ensures Valid() && depth >= old(depth) && (ok ==> depth == old(depth))
      ensures !ok ==> mem.cells == old(mem.cells)
      ensures !ok && mem.Refused() == old(mem.Refused()) ==> MembersAt(content, old(offset), old(depth)) == Fail(offset)
      ensures ok ==> mem.Refused() == old(mem.Refused()) && offset < |content|
      ensures ok ==> Listing(old(mem.cells), mem.cells, ts) && head == First(ts) && current == Tail(ts)
      ensures ok ==> MembersAt(content, old(offset), depth) == Ok(Members(mem.cells, ts), offset + 1)
      ensures ok ==> SoundAll(mem.cells, ts, true)
      decreases |content| - offset, 1
    {
      hide Refusals, Listing, MembersAt, MemberAt, Skip, Members, FootAll, Prefixed, SoundAll;
      ghost var h, d := mem.cells, depth;
      head, current, ts := 0, 0, [];
      EmptyListing(h);
      PrefixedNil(MembersAt(content, offset, d));
      var more := true;
      while more
        invariant Valid() && depth == d && Spent(mem, 0) && mem.Refused() == old(mem.Refused())
        invariant Listing(h, mem.cells, ts) && head == First(ts) && current == Tail(ts) && SoundAll(mem.cells, ts, true)
        invariant old(offset) <= offset && (more ==> offset < |content|)
        invariant MembersAt(content, old(offset), d) == Prefixed(Members(mem.cells, ts),
          if more then MembersAt(content, offset, d) else Closed(content, offset, RBRACE))
        decreases |content| - offset, more
      {
        ghost var before, start := Members(mem.cells, ts), offset;
        var done;
        ghost var m: Member;
        done, head, current, ts, m := ParseMember(mem, head, current, h, ts);
        if !done {
          DeleteList(mem, head, h, ts);
          MembersFail(content, start, d, before);
          return false, 0, 0, [];
        }
        more := Peek(COMMA);
        MembersStep(content, start, d, before, m);
      }
      PrefixedClosed(Members(mem.cells, ts), content, offset, RBRACE);
      if !Peek(RBRACE) {
        DeleteList(mem, head, h, ts);
        return false, 0, 0, [];
      }
      ok := true;
    }

    /** One turn of the `parse_object` loop: allocate, link, parse the key, move it to the name,
        parse the value. */
    method ParseMember(mem: Memory, head: Ptr, current: Ptr, ghost h: Cells, ghost ts: seq<Tree>)
      returns (ok: bool, head': Ptr, current': Ptr, ghost ts': seq<Tree>, ghost m: Member)
      requires Valid() && offset < |content| && SoundAll(mem.cells, ts, true)
      requires Listing(h, mem.cells, ts) && head == First(ts) && current == Tail(ts)
      modifies this, mem
      ensures Spent(mem, if ok then 0 else 1)
      ensures Valid() && depth >= old(depth)
      ensures Listing(h, mem.cells, ts') && head' == First(ts') && current' == Tail(ts')
      ensures !ok && mem.Refused() == old(mem.Refused()) ==> MemberAt(content, old(offset), old(depth)) == Fail(offset)
      ensures ok ==> depth == old(depth) && mem.Refused() == old(mem.Refused()) && old(offset) < offset
      ensures ok ==> MemberAt(content, old(offset), old(depth)) == Ok(m, offset)
      ensures ok ==> Members(mem.cells, ts') == Members(old(mem.cells), ts) + [m] && SoundAll(mem.cells, ts', true)
      decreases |content| - offset, 0
    {
      hide Refusals, Listing, ValueAt, Skip, Blankish, Members, FootAll, Built, StringAt, CString, Tail, First,
        MemberAt, IsNode, SoundAll;
      MemberCases(content, offset, depth);
      m := Member([], Null);
      var x;
      x, head', current', ts' := NewElement(mem, head, current, h, ts, true);
      if x == 0 {
        return false, head', current', ts', m;
      }
      if offset + 1 >= |content| {
        return false, head', current', ts', m;
      }
      offset := offset + 1;
      SkipWhitespace();
      ghost var h1, k := mem.cells, offset;
      ok := ParseKey(mem, x, h, ts);
      if !ok {
        return false, head', current', ts', m;
      }
      ts' := ts + [BlankTree(mem.cells, x)];
      KeyedEnds(ts, x, mem.cells);
      ghost var u;
      ok, u, m := ParseMemberValue(mem, x, h, ts, CString(StringAt(content, k).text));
      if ok {
        ts' := ts + [u];
      }
    }

    /** The colon and the value of a member, for the node that has its key already. */
    method ParseMemberValue(mem: Memory, x: Ptr, ghost h: Cells, ghost ts: seq<Tree>, ghost key: bytes)
      returns (ok: bool, ghost u: Tree, ghost m: Member)
      requires Valid() && Blankish(mem.cells, x) && IsNode(mem.cells, x) && mem.cells[x].node.name != 0
      requires Listing(h, mem.cells, ts + [BlankTree(mem.cells, x)]) && SoundAll(mem.cells, ts, true)
      requires key == StringOf(mem.cells, mem.cells[x].node.name)
      modifies this, mem
      ensures Spent(mem, if ok then 0 else 1)
      ensures Valid() && depth >= old(depth)
      ensures !ok ==> mem.cells == old(mem.cells)
      ensures !ok && mem.Refused() == old(mem.Refused()) ==>
        if ByteIs(content, old(offset), COLON) then
          ValueAt(content, Skip(content, old(offset) + 1), old(depth)) == Fail(offset)
        else offset == old(offset)
      ensures ok ==> depth == old(depth) && mem.Refused() == old(mem.Refused()) && old(offset) < offset
      ensures ok ==>
        && ByteIs(content, old(offset), COLON)
        && var v := ValueAt(content, Skip(content, old(offset) + 1), old(depth));
        v.Ok? && m == Member(key, v.value) && offset == Skip(content, v.next)
      ensures ok ==>
        && Listing(h, mem.cells, ts + [u]) && SoundAll(mem.cells, ts + [u], true)
        && First(ts + [u]) == First(ts + [BlankTree(old(mem.cells), x)]) && Tail(ts + [u]) == x
        && Members(mem.cells, ts + [u]) == Members(old(mem.cells), ts) + [m]
      decreases |content| - offset, 0
    {
      hide Refusals, Listing, ValueAt, Skip, Blankish, Members, FootAll, Built, CString, StringOf, Tail, First,
        SoundAll;
      u, m := Tree(x, 0, 0, []), Member([], Null);
      if !Peek(COLON) {
        return false, u, m;
      }
      offset := offset + 1;
      SkipWhitespace();
      ghost var h2, start := mem.cells, offset;
      ok, u := ParseValue(mem, x);
      if ok {
        m := Member(key, ValueAt(content, start, old(depth)).value);
        MemberBuilt(h, h2, mem.cells, ts, x, u, m);
        SkipWhitespace();
      }
    }

    /** The key of a member: parsed as a string, then moved from the text to the name. */
    method ParseKey(mem: Memory, x: Ptr, ghost h: Cells, ghost ts: seq<Tree>) returns (ok: bool)
      requires Valid() && offset < |content| && SoundAll(mem.cells, ts, true)
      requires Listing(h, mem.cells, ts + [Tree(x, 0, 0, [])]) && Blankish(mem.cells, x) && mem.cells[x].node.name == 0
      modifies this`offset, mem
      ensures Spent(mem, if ok then 0 else 1)
      ensures Valid()
      ensures !ok ==> mem.cells == old(mem.cells)
      ensures !ok && mem.Refused() == old(mem.Refused()) ==> StringAt(content, old(offset)) == Rejected(offset)
      ensures ok ==> mem.Refused() == old(mem.Refused()) && StringAt(content, old(offset)).Parsed?
      ensures ok ==> offset == Skip(content, StringAt(content, old(offset)).next)
      ensures ok ==> IsNode(mem.cells, x) && Blankish(mem.cells, x) && mem.cells[x].node.name != 0
      ensures ok ==> StringOf(mem.cells, mem.cells[x].node.name) == CString(StringAt(content, old(offset)).text)
      ensures ok ==> Listing(h, mem.cells, ts + [BlankTree(mem.cells, x)])
      ensures ok ==> Members(mem.cells, ts) == Members(old(mem.cells), ts) && SoundAll(mem.cells, ts, true)
    {
      hide Refusals, Listing, Skip, Members, FootAll, StringAt, SoundAll;
      ghost var h1, k := mem.cells, offset;
      ok := ParseString(mem, x);
      if !ok {
        return;
      }
      SkipWhitespace();
      var n := mem.cells[x].node;
      ghost var h2 := mem.cells;
      mem.Store(x, n.(name := n.text, text := 0));
      KeyStored(h1, h2, mem.cells, x, StringAt(content, k).text);
      Refill(h, h1, mem.cells, ts, Tree(x, 0, 0, []), BlankTree(mem.cells, x));
      RefillSound(h, h1, mem.cells, ts, Tree(x, 0, 0, []), BlankTree(mem.cells, x), true);
    }
  }

  /** The ways a member can be read, one by one. */
  lemma MemberCases(s: bytes, p: nat, depth: nat)
    requires p < |s|
    ensures p + 1 >= |s| ==> MemberAt(s, p, depth) == Fail(p)
    ensures p + 1 < |s| ==>
      var key := StringAt(s, Skip(s, p + 1));
      && (key.Rejected? ==> MemberAt(s, p, depth) == Fail(key.at))
      && (key.Parsed? ==>
            var c := Skip(s, key.next);
            && (!ByteIs(s, c, COLON) ==> MemberAt(s, p, depth) == Fail(c))
            && (ByteIs(s, c, COLON) ==>
                  var v := ValueAt(s, Skip(s, c + 1), depth);
                  MemberAt(s, p, depth)
                    == if v.Fail? then Fail(v.at) else Ok(Member(CString(key.text), v.value), Skip(s, v.next))))
  {
    hide StringAt, Skip, ValueAt, CString;
  }

  lemma RunEndStep(s: bytes, off: nat, room: nat)
    requires off <= |s|
    ensures room > 0 && off < |s| && IsNumberByte(s[off]) ==> RunEnd(s, off, room) == RunEnd(s, off + 1, room - 1)
    ensures !(room > 0 && off < |s| && IsNumberByte(s[off])) ==> RunEnd(s, off, room) == off
  {
  }

  lemma KeyStored(h: Cells, h1: Cells, h2: Cells, x: Ptr, text: bytes)
    requires Blankish(h, x) && h[x].node.name == 0 && StringStored(h, h1, x, text)
    requires h2 == h1[x := NodeCell(h1[x].node.(name := h1[x].node.text, text := 0))]
    ensures Blankish(h2, x) && h2[x].node.name != 0 && Regrown(h, h2, Tree(x, 0, 0, []), BlankTree(h2, x))
    ensures StringOf(h2, h2[x].node.name) == CString(text)
  {
    hide CString;
    BlankOwned(h, x);
    BlankOwned(h2, x);
  }

  lemma KeyedEnds(ts: seq<Tree>, x: Ptr, h: Cells)
    requires IsNode(h, x)
    ensures First(ts + [BlankTree(h, x)]) == First(ts + [Tree(x, 0, 0, [])]) && Tail(ts + [BlankTree(h, x)]) == x
  {
  }

  /** While the last tree of the list is regrown the others stay sound. */
  lemma RefillSound(h0: Cells, h: Cells, h': Cells, ts: seq<Tree>, t: Tree, u: Tree, named: bool)
    requires Listing(h0, h, ts + [t]) && Regrown(h, h', t, u) && SoundAll(h, ts, named)
    ensures SoundAll(h', ts, named)
  {
    hide Rep, Tidy, Plain, Foot, Sep, FootAll, SepAll, Chain, OpenList, SoundAll;
    ListPrefix(h, ts, t);
    FootAllLive(h, ts);
    RefillApart(h, ts, t);
    StillSound(h, h', ts, named);
  }

  /** The last node of the list, already named, now roots the parsed value. */
  lemma MemberBuilt(h0: Cells, h1: Cells, h2: Cells, ts: seq<Tree>, x: Ptr, u: Tree, m: Member)
    requires Blankish(h1, x) && Listing(h0, h1, ts + [BlankTree(h1, x)])
    requires Built(h1, h2, x, u, m.value) && m.key == StringOf(h1, h1[x].node.name)
    requires h1[x].node.name != 0 && SoundAll(h1, ts, true)
    ensures Listing(h0, h2, ts + [u]) && First(ts + [u]) == First(ts + [BlankTree(h1, x)]) && Tail(ts + [u]) == x
    ensures Members(h2, ts + [u]) == Members(h1, ts) + [m] && SoundAll(h2, ts + [u], true)
  {
    hide Listing, Regrown, Members, FootAll, CString, Sound, SoundAll;
    Refill(h0, h1, h2, ts, BlankTree(h1, x), u);
    RegrownRoot(h1, h2, BlankTree(h1, x), u);
    ValuesAppend(h2, ts, u);
    NameKept(h1, h2, x, u);
    RefillSound(h0, h1, h2, ts, BlankTree(h1, x), u, true);
    SoundAppend(h2, ts, u, true);
  }

  lemma NameKept(h1: Cells, h2: Cells, x: Ptr, u: Tree)
    requires Blankish(h1, x) && Regrown(h1, h2, BlankTree(h1, x), u) && h2[x].node.name == h1[x].node.name
    ensures IsNode(h2, x) && StringOf(h2, h2[x].node.name) == StringOf(h1, h1[x].node.name)
  {
    hide Rep, Sep, Foot, Tidy, Plain, CString;
  }

  lemma MembersStep(s: bytes, p: nat, depth: nat, members: seq<Member>, m: Member)
    requires p < |s| && MemberAt(s, p, depth).Ok? && m == MemberAt(s, p, depth).value
    ensures var e := MemberAt(s, p, depth).next;
      Prefixed(members, MembersAt(s, p, depth))
      == Prefixed(members + [m], if ByteIs(s, e, COMMA) then MembersAt(s, e, depth) else Closed(s, e, RBRACE))
  {
    hide MemberAt;
    var e := MemberAt(s, p, depth).next;
    if ByteIs(s, e, COMMA) {
      var rest := MembersAt(s, e, depth);
      if rest.Ok? {
        assert members + ([m] + rest.value) == (members + [m]) + rest.value;
      }
    } else if ByteIs(s, e, RBRACE) {
      assert members + [m] == (members + [m]) + [];
    }
  }

  /** A list continued: items so far, then what the rest of the text gives. */
  ghost function Prefixed<T>(items: seq<T>, rest: Result<seq<T>>): Result<seq<T>> {
    if rest.Fail? then rest else Ok(items + rest.value, rest.next)
  }

  /** The loop is over: the closing byte must be here. */
  ghost function Closed<T>(s: bytes, off: nat, close: byte): Result<seq<T>> {
    if ByteIs(s, off, close) then Ok([], off + 1) else Fail(off)
  }

  lemma PrefixedNil<T>(r: Result<seq<T>>)
    ensures Prefixed([], r) == r
  {
    if r.Ok? {
      assert [] + r.value == r.value;
    }
  }

  lemma PrefixedClosed<T>(items: seq<T>, s: bytes, off: nat, close: byte)
    ensures Prefixed(items, Closed(s, off, close)) == if ByteIs(s, off, close) then Ok(items, off + 1) else Fail(off)
  {
    assert items + [] == items;
  }

  lemma ItemsFail(s: bytes, q: nat, depth: nat, items: seq<Json>)
    requires q <= |s|
    ensures var v := ValueAt(s, Skip(s, q), depth); v.Fail? ==> Prefixed(items, ItemsAt(s, q, depth)) == Fail(v.at)
  {
    hide ValueAt, Skip;
  }

  lemma MembersFail(s: bytes, p: nat, depth: nat, members: seq<Member>)
    requires p < |s|
    ensures var m := MemberAt(s, p, depth); m.Fail? ==> Prefixed(members, MembersAt(s, p, depth)) == Fail(m.at)
  {
    hide MemberAt;
  }

  lemma ItemsStep(s: bytes, q: nat, depth: nat, items: seq<Json>, v: Json)
    requires q <= |s| && ValueAt(s, Skip(s, q), depth).Ok? && v == ValueAt(s, Skip(s, q), depth).value
    ensures var e := Skip(s, ValueAt(s, Skip(s, q), depth).next);
      Prefixed(items, ItemsAt(s, q, depth))
      == Prefixed(items + [v], if ByteIs(s, e, COMMA) then ItemsAt(s, e + 1, depth) else Closed(s, e, RBRACKET))
  {
    hide ValueAt, Skip;
    var e := Skip(s, ValueAt(s, Skip(s, q), depth).next);
    if ByteIs(s, e, COMMA) {
      var rest := ItemsAt(s, e + 1, depth);
      if rest.Ok? {
        assert items + ([v] + rest.value) == (items + [v]) + rest.value;
      }
    } else if ByteIs(s, e, RBRACKET) {
      assert items + [v] == (items + [v]) + [];
    }
  }

  lemma EmptyListing(h: Cells)
    ensures Listing(h, h, []) && Values(h, []) == [] && Members(h, []) == []
    ensures SoundAll(h, [], false) && SoundAll(h, [], true)
  {
  }

  /** Allocating a node and linking it behind the list. */
  method NewElement(mem: Memory, head: Ptr, current: Ptr, ghost h: Cells, ghost ts: seq<Tree>, ghost named: bool)
    returns (x: Ptr, head': Ptr, current': Ptr, ghost ts': seq<Tree>)
    requires SoundAll(mem.cells, ts, named)
    requires Listing(h, mem.cells, ts) && head == First(ts) && current == Tail(ts)
    modifies mem
    ensures mem.requests == old(mem.requests) + 1 && mem.Refused() >= old(mem.Refused())
    ensures x == 0 ==> mem.Refused() > old(mem.Refused()) && mem.cells == old(mem.cells)
    ensures x == 0 ==> ts' == ts && head' == head && current' == current
    ensures x != 0 ==> Listing(h, mem.cells, ts') && head' == First(ts') && current' == Tail(ts') && current' == x
    ensures x != 0 ==> ts' == ts + [Tree(x, 0, 0, [])] && mem.Refused() == old(mem.Refused())
    ensures x != 0 ==> Blankish(mem.cells, x) && mem.cells[x].node.name == 0 && SoundAll(mem.cells, ts, named)
    ensures x != 0 ==>
      Values(mem.cells, ts) == Values(old(mem.cells), ts) && Members(mem.cells, ts) == Members(old(mem.cells), ts)
  {
    hide Refusals, Listing, Values, Members, FootAll, Growing, SoundAll;
    head', current', ts' := head, current, ts;
    x := mem.Allocate(NodeCell(BLANK));
    if x == 0 {
      return;
    }
    ghost var b := Tree(x, 0, 0, []);
    ghost var h1 := mem.cells;
    AllocatedBlank(h, old(mem.cells), h1, ts, b);
    ListingTail(h, old(mem.cells), ts);
    if head == 0 {
      head', current' := x, x;
    } else {
      mem.Store(current, mem.cells[current].node.(next := x));
      mem.Store(x, mem.cells[x].node.(prev := current));
      current' := x;
    }
    ts' := ts + [b];
    LinkedBlank(h, h1, mem.cells, ts, b);
    ListedSound(h, old(mem.cells), mem.cells, ts, named);
  }

  /** The trees of an unfinished list stay sound while nodes are linked. */
  lemma ListedSound(h0: Cells, h: Cells, h': Cells, ts: seq<Tree>, named: bool)
    requires Listing(h0, h, ts) && SoundAll(h, ts, named)
    requires forall p :: p in h ==> p in h' && (h'[p] == h[p] || SameButLinks(h[p], h'[p]))
    ensures SoundAll(h', ts, named)
  {
    hide Rep, Tidy, Plain, SepAll, FootAll, SoundAll;
    FootAllLive(h, ts);
    StillSound(h, h', ts, named);
  }

  lemma ListingTail(h0: Cells, h: Cells, ts: seq<Tree>)
    requires Listing(h0, h, ts)
    ensures (First(ts) == 0 <==> ts == []) && (ts != [] ==> IsNode(h, Tail(ts)) && Tail(ts) == ts[|ts| - 1].ptr)
  {
    PtrAtNull(h, ts, 0);
    TailIsNode(h, ts);
  }

  lemma AllocatedBlank(h0: Cells, h: Cells, h1: Cells, ts: seq<Tree>, b: Tree)
    requires Listing(h0, h, ts) && b == Tree(b.ptr, 0, 0, []) && b.ptr != 0 && b.ptr !in h
    requires h1 == h[b.ptr := NodeCell(BLANK)]
    ensures Growing(h1, ts) && PlainAll(h1, ts) && Extends(h0, h1) && Detached(h1, b) && Plain(h1, b)
    ensures Foot(b) == {b.ptr} && b.ptr !in FootAll(ts) && h1.Keys == h0.Keys + FootAll(ts) + {b.ptr} && b.ptr !in h0
    ensures Values(h1, ts) == Values(h, ts) && Members(h1, ts) == Members(h, ts)
    ensures FootAll(ts) !! h0.Keys && IsNode(h1, b.ptr)
  {
    hide Rep, Tidy, Plain, SepAll;
    GrowingExtends(h, h1, ts);
    FootAllLive(h, ts);
    FrameAll(h, h1, ts);
    BlankOwned(h1, b.ptr);
  }

  lemma LinkedBlank(h0: Cells, h1: Cells, h2: Cells, ts: seq<Tree>, b: Tree)
    requires Growing(h1, ts) && PlainAll(h1, ts) && Extends(h0, h1) && Detached(h1, b) && Plain(h1, b)
    requires IsNode(h1, b.ptr)
    requires Foot(b) == {b.ptr} && b.ptr !in FootAll(ts) && h1.Keys == h0.Keys + FootAll(ts) + {b.ptr} && b.ptr !in h0
    requires FootAll(ts) !! h0.Keys && h1[b.ptr].node == BLANK && b == Tree(b.ptr, 0, 0, [])
    requires ts == [] ==> h2 == h1
    requires ts != [] ==> IsNode(h1, ts[|ts| - 1].ptr) && h2 == LinkTail(h1, ts[|ts| - 1].ptr, b.ptr)
    ensures Listing(h0, h2, ts + [b]) && Blankish(h2, b.ptr) && h2[b.ptr].node.name == 0
    ensures Values(h2, ts) == Values(h1, ts) && Members(h2, ts) == Members(h1, ts)
  {
    hide Rep, Tidy, Plain, PlainAll, SepAll, FootAll, Foot, Sep, Growing, Detached, MemberOf;
    FootAllAppend(ts, b);
    if ts == [] {
      GrowFirst(h1, b);
      assert ts + [b] == [b];
      assert PlainAll(h1, [b]) by { OnePlain(h1, b); }
    } else {
      GrowingNodes(h1, ts);
      Grow(h1, h2, ts, b);
      LinkedCells(h0, h1, h2, ts[|ts| - 1].ptr, b.ptr);
    }
  }

  lemma OnePlain(h: Cells, b: Tree)
    requires Plain(h, b)
    ensures PlainAll(h, [b])
  {
    hide Plain;
  }

  lemma GrowingNodes(h: Cells, ts: seq<Tree>)
    requires Growing(h, ts) && ts != []
    ensures ts[|ts| - 1].ptr in FootAll(ts)
  {
    hide Rep, Tidy, SepAll, FootAll;
    FootAllLive(h, ts);
  }

  lemma LinkedCells(h0: Cells, h1: Cells, h2: Cells, tail: Ptr, x: Ptr)
    requires Extends(h0, h1) && IsNode(h1, tail) && IsNode(h1, x) && tail != x && tail !in h0 && x !in h0
    requires h2 == LinkTail(h1, tail, x) && h1[x].node == BLANK
    ensures Extends(h0, h2) && h2.Keys == h1.Keys && Blankish(h2, x) && h2[x].node.name == 0
  {
  }

  /** The last node of the list now roots the parsed value. */
  lemma ElementBuilt(h0: Cells, h1: Cells, h2: Cells, ts: seq<Tree>, x: Ptr, u: Tree, v: Json)
    requires Listing(h0, h1, ts + [Tree(x, 0, 0, [])]) && Blankish(h1, x) && h1[x].node.name == 0
    requires Built(h1, h2, x, u, v) && SoundAll(h1, ts, false)
    ensures Listing(h0, h2, ts + [u]) && First(ts + [u]) == First(ts + [Tree(x, 0, 0, [])]) && Tail(ts + [u]) == x
    ensures Values(h2, ts + [u]) == Values(h1, ts) + [v] && SoundAll(h2, ts + [u], false)
  {
    hide Listing, Regrown, Values, FootAll, Sound, SoundAll;
    Refill(h0, h1, h2, ts, Tree(x, 0, 0, []), u);
    RefillSound(h0, h1, h2, ts, Tree(x, 0, 0, []), u, false);
    SoundAppend(h2, ts, u, false);
    RegrownRoot(h1, h2, Tree(x, 0, 0, []), u);
    ValuesAppend(h2, ts, u);
  }

  lemma RegrownRoot(h: Cells, h': Cells, t: Tree, u: Tree)
    requires Regrown(h, h', t, u)
    ensures u.ptr == t.ptr
  {
  }

  /** Deleting an unfinished list gives the heap from before it back. */
  method DeleteList(mem: Memory, head: Ptr, ghost h: Cells, ghost ts: seq<Tree>)
    requires Listing(h, mem.cells, ts) && head == First(ts)
    modifies mem`cells
    ensures mem.cells == h
  {
    hide Rep, SepAll, FootAll, PlainAll;
    Delete(mem, head, ts);
  }

  /** The success exit of `parse_array` and `parse_object`: close the list, hang it in. */
  method CloseContainer(mem: Memory, item: Ptr, head: Ptr, current: Ptr, kind: Kind, ghost h: Cells,
                        ghost ts: seq<Tree>) returns (ghost t: Tree)
    requires Listing(h, mem.cells, ts) && head == First(ts) && current == Tail(ts)
    requires Blankish(h, item) && kind in {KArray, KObject} && SoundAll(mem.cells, ts, kind == KObject)
    modifies mem`cells
    ensures kind == KArray ==> Built(h, mem.cells, item, t, Array(Values(old(mem.cells), ts)))
    ensures kind == KObject ==> Built(h, mem.cells, item, t, Object(Members(old(mem.cells), ts)))
  {
    hide Listing, Built, FootAll, Values, Members, Blankish, SoundAll;
    ghost var h1 := mem.cells;
    ListingTail(h, h1, ts);
    ListingHead(h, h1, ts, item);
    if head != 0 {
      mem.Store(head, mem.cells[head].node.(prev := current));
    }
    ClosedList(h, h1, mem.cells, ts, item);
    ListedSound(h, h1, mem.cells, ts, kind == KObject);
    ghost var h2 := mem.cells;
    mem.Store(item, mem.cells[item].node.(kind := kind, child := head));
    t := Tree(item, 0, h[item].node.name, ts);
    ContainerBuilt(h, h2, mem.cells, ts, item, t, kind);
  }

  lemma ListingHead(h0: Cells, h: Cells, ts: seq<Tree>, item: Ptr)
    requires Listing(h0, h, ts) && Blankish(h0, item)
    ensures IsNode(h0, item) && IsNode(h, item)
    ensures ts != [] ==> IsNode(h, ts[0].ptr) && First(ts) == ts[0].ptr && ts[0].ptr != item
  {
    hide SepAll, Foot, FootAll, Tidy, Plain;
    FootAllLive(h, ts);
    if ts != [] {
      assert IsNode(h, ts[0].ptr);
    }
  }

  /** A finished list beside the heap `h0`. */
  ghost predicate Finished(h0: Cells, h: Cells, ts: seq<Tree>) {
    && RepAll(h, ts) && SepAll(ts) && TidyAll(h, ts) && Backward(h, ts) && PlainAll(h, ts)
    && FootAll(ts) !! h0.Keys && h.Keys == h0.Keys + FootAll(ts) && Extends(h0, h)
  }

  lemma ClosedList(h0: Cells, h1: Cells, h2: Cells, ts: seq<Tree>, item: Ptr)
    requires Listing(h0, h1, ts) && Blankish(h0, item)
    requires ts == [] ==> h2 == h1
    requires ts != [] ==> IsNode(h1, ts[0].ptr) && h2 == SetPrev(h1, ts[0].ptr, ts[|ts| - 1].ptr)
    ensures Finished(h0, h2, ts) && IsNode(h0, item) && item in h2 && h2[item] == h0[item]
    ensures Values(h2, ts) == Values(h1, ts) && Members(h2, ts) == Members(h1, ts)
  {
    hide SepAll, Foot, FootAll, Tidy, Plain, Rep, Chain, OpenList;
    FootAllLive(h1, ts);
    if ts != [] {
      Close(h1, h2, ts);
    }
  }

  lemma ContainerBuilt(h0: Cells, h2: Cells, h3: Cells, ts: seq<Tree>, item: Ptr, t: Tree, kind: Kind)
    requires Finished(h0, h2, ts) && Blankish(h0, item) && IsNode(h0, item) && kind in {KArray, KObject}
    requires h3 == h2[item := NodeCell(h0[item].node.(kind := kind, child := First(ts)))]
    requires t == Tree(item, 0, h0[item].node.name, ts) && SoundAll(h2, ts, kind == KObject)
    ensures Built(h0, h3, item, t, if kind == KArray then Array(Values(h2, ts)) else Object(Members(h2, ts)))
  {
    hide SepAll, Foot, FootAll, Values, Members, Rep, Tidy, Plain, Sep, Blankish, Chain, Backward, Sound, SoundAll;
    FootAllLive(h2, ts);
    StillSound(h2, h3, ts, kind == KObject);
    ContainerSound(h0, h3, ts, item, t, kind);
    FrameAll(h2, h3, ts);
    BlankishNode(h0, item);
    BlankOwned(h0, item);
    ContainerTidy(h2, h3, ts, item);
    ContainerRoot(h0, h3, ts, item, t);
    ContainerOwned(h0, ts, item, t);
  }

  lemma ContainerSound(h0: Cells, h3: Cells, ts: seq<Tree>, item: Ptr, t: Tree, kind: Kind)
    requires Blankish(h0, item) && IsNode(h3, item) && kind in {KArray, KObject}
    requires h3[item].node == h0[item].node.(kind := kind, child := First(ts))
    requires t.ptr == item && t.kids == ts && SoundAll(h3, ts, kind == KObject)
    ensures Sound(h3, t)
  {
  }

  lemma BlankishNode(h: Cells, item: Ptr)
    requires Blankish(h, item)
    ensures Bare(h, item) && IsNode(h, item) && !h[item].node.isReference && h[item].node.text == 0
    ensures h[item].node.name != 0 ==> h[item].node.name in h
  {
  }

  lemma ContainerRoot(h0: Cells, h3: Cells, ts: seq<Tree>, item: Ptr, t: Tree)
    requires Blankish(h0, item) && Extends(h0, h3[item := h0[item]]) && IsNode(h3, item)
    requires h3[item].node == h0[item].node.(kind := h3[item].node.kind, child := First(ts))
    requires RepAll(h3, ts) && TidyAll(h3, ts) && PlainAll(h3, ts) && Backward(h3, ts)
    requires t == Tree(item, 0, h0[item].node.name, ts)
    ensures Rep(h3, t) && Tidy(h3, t) && Plain(h3, t)
  {
    var n := h0[item].node.name;
    if n != 0 {
      assert n in h0 && h0[n].Block?;
    }
  }

  lemma ContainerOwned(h0: Cells, ts: seq<Tree>, item: Ptr, t: Tree)
    requires Blankish(h0, item) && SepAll(ts) && FootAll(ts) !! h0.Keys && 0 !in FootAll(ts)
    requires t == Tree(item, 0, h0[item].node.name, ts)
    ensures Sep(t) && Foot(t) == ({item, h0[item].node.name} - {0}) + FootAll(ts)
  {
  }

  lemma ContainerTidy(h2: Cells, h3: Cells, ts: seq<Tree>, item: Ptr)
    requires Backward(h2, ts) && h3.Keys == h2.Keys && forall p :: p in h2 && p != item ==> h3[p] == h2[p]
    requires forall i :: 0 <= i < |ts| ==> ts[i].ptr != item
    ensures Backward(h3, ts)
  {
  }

  lemma StoredBuilt(h: Cells, h': Cells, item: Ptr, text: bytes)
    requires Blankish(h, item) && StringStored(h, h', item, text)
    ensures Built(h, h', item, Tree(item, h'[item].node.text, h[item].node.name, []), String(CString(text)))
  {
    TextBuilt(h, h', item, h'[item].node);
  }

  /** The heap after a successful `parse_string`: one new block, hung into the item. */
  ghost predicate StringStored(h: Cells, h': Cells, item: Ptr, text: bytes) {
    && IsNode(h, item) && IsNode(h', item)
    && var b := h'[item].node.text;
    && b != 0 && b !in h && h'.Keys == h.Keys + {b} && IsBlock(h', b) && StringOf(h', b) == CString(text)
    && h'[item].node == h[item].node.(kind := KString, text := b)
    && forall p :: p in h && p != item ==> h'[p] == h[p]
  }

  lemma TextStored(h: Cells, h': Cells, item: Ptr, text: Ptr, content: bytes, n: nat)
    requires IsNode(h, item) && text != 0 && text !in h && n < |content| && content[n] == 0
    requires h' == h[text := Block(content)][item := NodeCell(h[item].node.(kind := KString, text := text))]
    ensures StringStored(h, h', item, content[..n])
  {
    hide CString;
    assert content == content[..n] + content[n..];
    CStringOfPrefix(content[..n], content[n..]);
  }

  lemma StringFacts(s: bytes, off: nat)
    requires off < |s|
    ensures s[off] != QUOTE ==> StringAt(s, off) == Rejected(off + 1)
    ensures s[off] == QUOTE && Scan(s, off + 1) == None ==> StringAt(s, off) == Rejected(off + 1)
    ensures s[off] == QUOTE && Scan(s, off + 1).Some? ==>
      var (e, skipped) := Scan(s, off + 1).value;
      && AllocationSize(s, off) == e - off - skipped + 1
      && StringAt(s, off)
        == (var d := Decode(s, off + 1, e);
            if d.failedAt.Some? then Rejected(d.failedAt.value) else Parsed(d.out, e + 1))
  {
    hide Decode;
  }

  // ---------------------------------------------------------------- whole documents

  lemma BlankNew(h0: Cells, h: Cells, x: Ptr)
    requires x != 0 && x !in h0 && h == h0[x := NodeCell(BLANK)]
    ensures Blankish(h, x) && NewTree(h0, h, BlankTree(h, x))
  {
    BlankOwned(h, x);
  }

  lemma BuiltNew(h0: Cells, h1: Cells, h: Cells, x: Ptr, t: Tree, v: Json)
    requires x != 0 && x !in h0 && h1 == h0[x := NodeCell(BLANK)] && Built(h1, h, x, t, v)
    ensures NewTree(h0, h, t) && t.ptr == x && Detached(h, t) && Plain(h, t) && Sound(h, t) && Value(h, t) == v
  {
    hide Rep, Sound, Sep, Tidy, Plain, Value;
    BlankOwned(h1, x);
    BuiltFoot(h1, h, x, t, v);
  }

  lemma BuiltFoot(h: Cells, h': Cells, x: Ptr, t: Tree, v: Json)
    requires Blankish(h, x) && h[x].node.name == 0 && Built(h, h', x, t, v)
    ensures Foot(BlankTree(h, x)) == {x} && (Foot(t) - {x}) !! h.Keys && x in Foot(t)
  {
    BlankOwned(h, x);
  }

  /** `cJSON_ParseWithLengthOpts` on a buffer: the tree and the end position, or the error position.
      When every request of the call is granted it succeeds exactly on the documents, and it makes at
      most two requests more than there are bytes. The nodes of the tree are sound: of a valid kind, with
      strings where their kind asks for them, and `valueint` in step with `valuedouble`. Ownership is
      conserved under any pattern of refusals: a failure leaves the heap exactly as it was, a success
      adds exactly the new tree. */
  method Parse(mem: Memory, value: bytes, requireTerminator: bool) returns (item: Ptr, end: nat, ghost t: Tree)
    modifies mem
    ensures old(mem.requests) <= mem.requests <= old(mem.requests) + |value| + 2
    ensures item == 0 ==> mem.cells == old(mem.cells)
    ensures item != 0 ==> mem.GrantedSince(old(mem.requests))
    ensures mem.GrantedSince(old(mem.requests)) ==> (item != 0 <==> Document(value, requireTerminator).Ok?)
    ensures mem.GrantedSince(old(mem.requests)) && item == 0 ==> Document(value, requireTerminator) == Fail(end)
    ensures item != 0 ==>
      && NewTree(old(mem.cells), mem.cells, t) && t.ptr == item && Detached(mem.cells, t) && Plain(mem.cells, t)
      && Sound(mem.cells, t) && Document(value, requireTerminator) == Ok(Value(mem.cells, t), end)
  {
    item, end, t := ParseCounted(mem, value, requireTerminator);
    mem.SinceRefused(old(mem.requests));
  }

  /** The same with refusals counted. */
  method ParseCounted(mem: Memory, value: bytes, requireTerminator: bool) returns (item: Ptr, end: nat, ghost t: Tree)
    modifies mem
    ensures old(mem.requests) <= mem.requests <= old(mem.requests) + |value| + 2 && mem.Refused() >= old(mem.Refused())
    ensures item == 0 ==> mem.cells == old(mem.cells)
    ensures item == 0 && mem.Refused() == old(mem.Refused()) ==> Document(value, requireTerminator) == Fail(end)
    ensures item != 0 ==> mem.Refused() == old(mem.Refused()) && Document(value, requireTerminator).Ok?
    ensures item != 0 ==>
      && NewTree(old(mem.cells), mem.cells, t) && t.ptr == item && Detached(mem.cells, t) && Plain(mem.cells, t)
      && Sound(mem.cells, t) && Document(value, requireTerminator) == Ok(Value(mem.cells, t), end)
  {
    hide Refusals, ValueAt, Skip, Built, Blankish, NewTree, Detached, Value, Sound;
    ghost var h := mem.cells;
    item, end, t := 0, 0, Tree(0, 0, 0, []);
    if value == [] {
      return;
    }
    var buffer := new ParseBuffer(value);
    var root := mem.Allocate(NodeCell(BLANK));
    if root == 0 {
      return;
    }
    ghost var h1 := mem.cells;
    BlankNew(h, h1, root);
    t := BlankTree(h1, root);
    buffer.SkipBom();
    buffer.SkipWhitespace();
    var ok;
    ghost var u;
    ok, u := buffer.ParseValue(mem, root);
    if ok {
      BuiltNew(h, h1, mem.cells, root, u, ValueAt(value, Skip(value, BomEnd(value)), 0).value);
      t := u;
      if requireTerminator {
        buffer.SkipWhitespace();
        ok := buffer.Peek(0);
      }
    }
    if ok {
      return root, buffer.offset, t;
    }
    Discard(mem, root, t, h);
    end := if buffer.offset < |value| then buffer.offset else |value| - 1;
  }

  /** Parsing and deleting the result again gives the heap back, whatever the text and however
      allocation goes. */
  method ParseThenDelete(mem: Memory, value: bytes, requireTerminator: bool) returns (parsed: bool)
    modifies mem
    ensures mem.cells == old(mem.cells)
    ensures parsed ==> Document(value, requireTerminator).Ok?
    ensures mem.GrantedSince(old(mem.requests)) ==> (parsed <==> Document(value, requireTerminator).Ok?)
  {
    hide NewTree, Detached, Document;
    ghost var h := mem.cells;
    var item, end;
    ghost var t;
    item, end, t := Parse(mem, value, requireTerminator);
    parsed := item != 0;
    if parsed {
      Discard(mem, item, t, h);
    }
  }
}
