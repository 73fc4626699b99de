/** The imperative printer: it writes into a buffer that grows on demand, or into one of fixed size,
    and always leaves the text behind its starting offset NUL-terminated. A growing buffer has one
    block in the heap, exchanged for another when it grows, and freed when a request is refused. */
module Printer {
  import opened Bytes
  import opened JsonTree
  import opened Numbers
  import NumberTexts
  import opened CHeap
  import opened CHeapFacts
  import opened TreeOps
  import opened SoundTrees

  /** What a printable node holds beyond its shape: a known kind, raw text where the kind asks for
      it, and the two number fields in step. */
  ghost predicate Known(h: Cells, t: Tree) {
    && IsNode(h, t.ptr)
    && var n := h[t.ptr].node;
    && n.kind != KInvalid && (n.kind == KRaw ==> n.text != 0)
    && (n.kind == KNumber ==> n.valueint == Saturate(n.valuedouble))
    && forall i :: 0 <= i < |t.kids| ==> Known(h, t.kids[i])
  }

  /** A sound tree can be printed. */
  lemma {:induction false} SoundKnown(h: Cells, t: Tree)
    requires Sound(h, t)
    ensures Known(h, t)
    decreases t
  {
    forall i | 0 <= i < |t.kids| ensures Known(h, t.kids[i]) {
      SoundKnown(h, t.kids[i]);
    }
  }

  /** Additional bytes that escaping a string takes. */
  function EscapeExtra(s: bytes): nat {
    |Escape(s)| - |s|
  }

  class PrintBuffer {
    var buffer: array?<byte>
    var length: nat
    var offset: nat
    var depth: nat
    const noalloc: bool
    const format: bool
    /** Whether `realloc` is among the hooks. */
    const canRealloc: bool
    const mem: Memory
    /** The heap cell of a growing buffer. While it grows its bytes are those of `buffer`. */
    var block: Ptr
    /** The heap without that cell, and the requests made and refused before this buffer was set up. */
    ghost const base: Cells
    ghost const start: nat
    ghost const before: nat
    /** What the buffer held then. */
    ghost const initial: bytes
    /** The text written so far; the offset lags behind it until it is updated. */
    ghost var out: bytes

    constructor (mem: Memory, block: Ptr, buffer: array<byte>, length: nat, noalloc: bool, format: bool,
                 canRealloc: bool, ghost base: Cells)
      requires length <= INT_MAX && length <= buffer.Length && (noalloc || canRealloc || 0 < length)
      requires if noalloc then block == 0 && mem.cells == base
               else block != 0 && block !in base && mem.cells == base[block := Block([])]
      ensures Valid() && this.buffer == buffer && this.length == length && offset == 0 && depth == 0 && out == []
      ensures this.noalloc == noalloc && this.format == format && this.canRealloc == canRealloc
      ensures this.mem == mem && this.base == base && start == mem.requests && before == mem.Refused()
      ensures initial == buffer[..]
    {
      this.mem, this.block, this.base, start, before := mem, block, base, mem.requests, mem.Refused();
      this.buffer, this.length, this.noalloc, this.format, this.canRealloc :=
        buffer, length, noalloc, format, canRealloc;
      initial := buffer[..];
      offset, depth, out := 0, 0, [];
    }

    /** The written text stands at the start of the buffer, inside `length`. A growing buffer that
        can only be copied starts with a positive capacity. It has one heap cell, or is gone after a
        refusal; nothing else has changed in the heap. */
    ghost predicate Valid()
      reads this`buffer, this`length, this`offset, this`out, this`block, buffer, mem
    {
      && length <= INT_MAX
      && (buffer != null ==>
            && offset <= |out| <= length <= buffer.Length && (0 < length ==> |out| < length)
            && (noalloc || canRealloc || 0 < length)
            && buffer[..|out|] == out)
      && Ledger() && Beyond()
    }

    /** Of a fixed buffer that is longer than it was said to be, the rest is untouched. */
    ghost predicate Beyond()
      reads this`buffer, this`length, buffer
    {
      noalloc && buffer != null ==>
        buffer.Length == |initial| && forall j :: length <= j < buffer.Length ==> buffer[j] == initial[j]
    }

    ghost predicate Ledger()
      reads this`buffer, this`block, mem
    {
      && (block == 0 <==> noalloc || buffer == null)
      && (if block == 0 then mem.cells == base else block !in base && mem.cells == base[block := Block([])])
      && start <= mem.requests && before == Refusals(mem.grants, start) && before <= mem.Refused()
      && (!noalloc ==> (buffer != null <==> mem.Refused() == before))
      && (noalloc ==> mem.requests == start)
    }

    /** A growing buffer is there as long as all its requests have been granted. */
    lemma Standing()
      requires Valid() && !noalloc
      ensures start <= mem.requests && (buffer != null <==> mem.GrantedSince(start))
    {
      mem.SinceRefused(start);
    }

    /** The printed tree is still what it was. */
    lemma Unchanged(x: Ptr)
      requires Valid() && x in base
      ensures x in mem.cells && mem.cells[x] == base[x]
    {
    }

    /** The link to the next sibling. */
    method Next(x: Ptr) returns (next: Ptr)
      requires Valid() && x in base && base[x].NodeCell?
      ensures next == base[x].node.next
    {
      hide Beyond;
      next := mem.cells[x].node.next;
    }

    /** Ready to write behind the text. */
    ghost predicate Ready()
      reads this`buffer, this`length, this`offset, this`out, this`block, buffer, mem
    {
      Valid() && buffer != null && offset == |out|
    }

    /** The text is followed by its terminator and one more byte, and `update_offset` will find the
        terminator. */
    ghost predicate Terminated()
      reads this`buffer, this`length, this`offset, this`out, this`block, buffer, mem
    {
      Valid() && buffer != null && |out| + 2 <= length && buffer[|out|] == 0 && 0 !in out[offset..]
    }

    /** Why a request for `n` bytes in all may be turned down: no room in a fixed buffer, no memory,
        or a size beyond `INT_MAX`. */
    ghost predicate Full(n: int)
      reads this
    {
      if noalloc then n > length else buffer == null || n > INT_MAX
    }

    lemma FullMore(n: int, m: int)
      requires Full(n) && n <= m
      ensures Full(m)
    {
    }

    /** A fixed buffer stays; a growing one is the old one, a new one, or gone. */
    twostate predicate Kept()
      reads this
    {
      && (buffer == null || buffer == old(buffer) || fresh(buffer))
      && (noalloc ==> buffer == old(buffer) && length == old(length))
    }

    /** Outcome of printing `text`: all of it, terminated; or no room for it and two bytes. */
    twostate predicate Printed(ok: bool, text: bytes)
      reads this, buffer, mem
    {
      && Valid() && Kept()
      && (ok ==> out == old(out) + text && Terminated() && depth == old(depth))
      && (!ok ==> Full(|old(out)| + |text| + 2))
    }

    /** Outcome of writing `text` and moving behind it. */
    twostate predicate Moved(ok: bool, text: bytes)
      reads this, buffer, mem
    {
      && Valid() && Kept()
      && (ok ==> out == old(out) + text && Ready() && offset < length && depth == old(depth))
      && (!ok ==> Full(|old(out)| + |text| + 2))
    }

    /** `ensure`: room for `needed` more bytes and one to spare. Growth keeps the printed text and
        more than doubles the capacity while that is below INT_MAX / 2. */
    method Ensure(needed: nat) returns (ok: bool)
      requires Ready()
      modifies this`buffer, this`length, this`block, mem
      ensures Valid() && Kept()
      ensures ok ==> Ready() && offset + needed + 1 <= length
      ensures !ok ==> Full(offset + needed + 1)
      ensures ok && length != old(length) ==> offset + needed + 1 > old(length)
      ensures ok && length != old(length) ==>
        length == if offset + needed + 1 <= INT_MAX / 2 then 2 * (offset + needed + 1) else INT_MAX
      ensures ok && length != old(length) && offset + needed + 1 <= INT_MAX / 2 ==> length > 2 * old(length)
    {
      if length > 0 && offset >= length {
        return false;
      }
      if needed > INT_MAX {
        return false;
      }
      var total := needed + offset + 1;
      if total <= length {
        return true;
      }
      if noalloc {
        return false;
      }
      var newsize;
      if total > INT_MAX / 2 {
        if total <= INT_MAX {
          newsize := INT_MAX;
        } else {
          return false;
        }
      } else {
        newsize := total * 2;
      }
      var grownBlock := mem.Allocate(Block([]));
      ExchangeCells(base, block, grownBlock);
      if grownBlock == 0 {
        mem.Free(block);
        buffer, length, block := null, 0, 0;
        return false;
      }
      var grown := CopyInto(buffer, if canRealloc then buffer.Length else offset + 1, newsize, offset);
      mem.Free(block);
      buffer, length, block := grown, newsize, grownBlock;
      ok := true;
    }

    /** `ensure`, then the bytes of `text` one after the other, then perhaps a terminator. */
    method Emit(needed: nat, text: bytes, terminate: bool) returns (ok: bool)
      requires Ready() && |text| + (if terminate then 1 else 0) <= needed
      modifies this`buffer, this`length, this`block, mem, this`out, buffer
      ensures Valid() && Kept()
      ensures ok ==> buffer != null && out == old(out) + text && offset + needed + 1 <= length
      ensures ok && terminate ==> buffer[|out|] == 0
      ensures !ok ==> Full(offset + needed + 1)
    {
      hide Ledger, Full;
      ok := Ensure(needed);
      if ok {
        var i, a := 0, buffer;
        while i < |text|
          invariant 0 <= i <= |text| && Beyond()
          invariant a[..offset + i] == out + text[..i]
          modifies a
        {
          a[offset + i] := text[i];
          i := i + 1;
        }
        if terminate {
          a[offset + i] := 0;
        }
        out := out + text;
        assert a[..|out|] == out;
      }
    }

    /** `update_offset`: moves to the terminator. */
    method UpdateOffset()
      requires Terminated()
      modifies this`offset
      ensures Ready() && offset < length
    {
      hide Beyond, Ledger;
      ghost var e := |out|;
      forall i | offset <= i < e ensures buffer[i] != 0 {
        assert buffer[..e][i] == out[offset..][i - offset];
      }
      while buffer[offset] != 0
        invariant old(offset) <= offset <= e
        decreases e - offset
      {
        offset := offset + 1;
      }
    }

    /** A literal: `ensure` of its size with terminator, `strcpy`. */
    method PrintLiteral(text: bytes) returns (ok: bool)
      requires Ready() && 0 !in text
      modifies this`buffer, this`length, this`block, mem, this`out, buffer
      ensures Printed(ok, text)
    {
      hide Beyond, Ledger;
      ok := Emit(|text| + 1, text, true);
      if ok {
        assert out[offset..] == text;
      }
    }

    /** A separator: `ensure` with a byte for the terminator, the bytes, and the offset moved at
        once. */
    method PutSeparator(text: bytes, terminate: bool) returns (ok: bool)
      requires Ready()
      modifies this`buffer, this`length, this`block, mem, this`out, this`offset, buffer
      ensures Moved(ok, text)
    {
      hide Beyond, Ledger;
      ok := Emit(|text| + 1, text, terminate);
      if ok {
        offset := offset + |text|;
      }
    }

    /** The same without a terminator and without a byte for it. */
    method PutTight(text: bytes) returns (ok: bool)
      requires Ready()
      modifies this`buffer, this`length, this`block, mem, this`out, this`offset, buffer
      ensures Moved(ok, text)
    {
      hide Beyond, Ledger;
      ok := Emit(|text|, text, false);
      if ok {
        offset := offset + |text|;
      }
    }

    /** The integer branch of `print_number`: `%d`, copied, terminated, and counted at once. */
    method PrintNumber(n: int) returns (ok: bool)
      requires Ready()
      modifies this`buffer, this`length, this`block, mem, this`offset, this`out, buffer
      ensures Printed(ok, Decimal(n)) && NumberTexts.IntForm(Decimal(n), n)
    {
      hide Beyond, Ledger, Digits;
      NumberTexts.DecimalForm(n, Decimal(n));
      var text := Decimal(n);
      ok := Emit(|text| + 1, text, true);
      if ok {
        offset := offset + |text|;
      }
    }

    /** `print_string_ptr`: counts what escaping adds, asks for the whole size, then copies or
        escapes. */
    method PrintString(input: Option<bytes>) returns (ok: bool)
      requires Ready() && (input.Some? ==> 0 !in input.value)
      modifies this`buffer, this`length, this`block, mem, this`out, buffer
      ensures Printed(ok, RenderString(Text(input)))
    {
      hide Ledger, Escape, Full;
      if input == None {
        EmptyString();
        ok := PrintLiteral([QUOTE, QUOTE]);
      } else {
        var s := input.value;
        var extra := CountEscapes(s);
        ok := Ensure(|s| + extra + 3);
        if ok {
          PutQuoted(buffer, offset, s, extra);
          out := out + RenderString(s);
          QuotedPrinted(buffer[..], offset, RenderString(s), old(out));
        }
      }
    }

    // -------------------------------------------------------------- the recursion

    /** `print_value`. On success the rendering is written behind the text so far; it fails only when
        the rendering and two bytes do not fit or memory runs out. */
    method PrintValue(item: Ptr, ghost t: Tree, ghost v: Json) returns (ok: bool)
      requires Ready() && item == t.ptr
      requires View(base, t) && Known(base, t) && v == Value(base, t) && Printable(v)
      modifies this, buffer, mem
      ensures Printed(ok, Render(v, format, old(depth)))
      decreases t, 3
    {
      hide Beyond, Ledger, Render, Value, View, Known, Printable, Terminated;
      ContainerValue(base, t, v);
      Unchanged(item);
      var kind := mem.cells[item].node.kind;
      if kind == KArray {
        ok := PrintArray(item, t, v);
      } else if kind == KObject {
        ok := PrintObject(item, t, v);
      } else {
        ok := PrintLeaf(item, t, v);
      }
    }

    /** The switch of `print_value` on the kinds without children. */
    method PrintLeaf(item: Ptr, ghost t: Tree, ghost v: Json) returns (ok: bool)
      requires Ready() && item == t.ptr
      requires View(base, t) && Known(base, t) && v == Value(base, t) && Printable(v)
      requires IsNode(base, item) && base[item].node.kind !in {KArray, KObject}
      modifies this, buffer, mem
      ensures Printed(ok, Render(v, format, old(depth)))
    {
      hide Beyond, Ledger, RenderString, Decimal, CString, View, Known, Value, Terminated;
      LeafValue(base, t, v);
      Unchanged(item);
      var n := mem.cells[item].node;
      if n.text != 0 && n.text in base {
        Unchanged(n.text);
      }
      if n.kind == KNumber {
        ok := PrintNumber(n.valueint);
      } else if n.kind == KString {
        ok := PrintString(if n.text == 0 then None else Some(CString(mem.cells[n.text].content)));
      } else {
        ok := PrintLiteral(
          if n.kind == KNull then NULL_TEXT
          else if n.kind == KFalse then FALSE_TEXT
          else if n.kind == KTrue then TRUE_TEXT
          else CString(mem.cells[n.text].content));
      }
    }

    /** `print_array`. */
    method PrintArray(item: Ptr, ghost t: Tree, ghost v: Json) returns (ok: bool)
      requires Ready() && item == t.ptr
      requires View(base, t) && Known(base, t) && v == Value(base, t) && Printable(v) && v.Array?
      modifies this, buffer, mem
      ensures Printed(ok, Render(v, format, old(depth)))
      decreases t, 2
    {
      hide Beyond, Ledger, RenderItems, View, Known, Value, PrintableItems, Terminated, Valid, Ready;
      ArrayValue(base, t, v);
      ok := PutTight([LBRACKET]);
      if ok {
        depth := depth + 1;
        ok := PrintItems(item, t, v.items);
      }
      if ok {
        ok := CloseArray();
      }
    }

    /** The closing bracket of `print_array`. */
    method CloseArray() returns (ok: bool)
      requires Ready() && 0 < depth
      modifies this, buffer, mem
      ensures Valid() && Kept()
      ensures ok ==> out == old(out) + [RBRACKET] && Terminated() && depth == old(depth) - 1
      ensures !ok ==> Full(|old(out)| + 3)
    {
      hide Beyond, Ledger;
      ok := Emit(2, [RBRACKET], true);
      if ok {
        assert out[offset..] == [RBRACKET];
        depth := depth - 1;
      }
    }

    /** The loop of `print_array`. */
    method PrintItems(item: Ptr, ghost t: Tree, ghost vs: seq<Json>) returns (ok: bool)
      requires Ready() && item == t.ptr && offset < length
      requires View(base, t) && Known(base, t) && vs == Values(base, t.kids) && PrintableItems(vs)
      modifies this, buffer, mem
      ensures Moved(ok, RenderItems(vs, format, old(depth)))
      decreases t, 1
    {
      hide Beyond, Ledger, RenderItems, Values, View, Known, Value, PrintableItems, Render, ItemEnd, Valid, Full;
      ghost var d, total := depth, out + RenderItems(vs, format, depth);
      ViewRoot(base, t);
      assert vs[0..] == vs;
      Unchanged(item);
      var current := mem.cells[item].node.child;
      ghost var i := 0;
      while current != 0
        invariant Ready() && Kept() && depth == d && offset < length
        invariant i <= |t.kids| == |vs| && current == PtrAt(t.kids, i) && PrintableItems(vs[i..])
        invariant out + RenderItems(vs[i..], format, d) == total
        decreases |t.kids| - i
      {
        PtrAtNull(base, t.kids, i);
        ok, current := ItemTurn(current, t, vs, i);
        if !ok {
          return;
        }
        i := i + 1;
      }
      PtrAtNull(base, t.kids, i);
      NothingLeft(vs, i, format, d);
      ok := true;
    }

    /** One turn of that loop with what it leaves to print. */
    method ItemTurn(item: Ptr, ghost t: Tree, ghost vs: seq<Json>, ghost i: nat) returns (ok: bool, next: Ptr)
      requires Ready() && i < |t.kids| == |vs| && item == t.kids[i].ptr && IsNode(base, item)
      requires base[item].node.next == PtrAt(t.kids, i + 1) && (PtrAt(t.kids, i + 1) == 0 <==> i + 1 == |vs|)
      requires View(base, t) && Known(base, t) && vs == Values(base, t.kids) && PrintableItems(vs[i..])
      modifies this, buffer, mem
      ensures Valid() && Kept() && PrintableItems(vs[i + 1..])
      ensures ok ==> Ready() && depth == old(depth) && offset < length && next == PtrAt(t.kids, i + 1)
      ensures ok ==>
        out + RenderItems(vs[i + 1..], format, old(depth)) == old(out + RenderItems(vs[i..], format, depth))
      ensures !ok ==> Full(|old(out + RenderItems(vs[i..], format, depth))| + 2)
      decreases t, 0
    {
      hide Beyond, Ledger, RenderItems, Values, View, Known, Value, PrintableItems, Render, ItemEnd, Valid, Full;
      ItemFacts(base, t, vs, i, format, depth);
      ghost var n := |out| + |Render(vs[i], format, depth) + ItemEnd(format, i + 1 == |vs|)|;
      ghost var total := out + RenderItems(vs[i..], format, depth);
      next := 0;
      ok := PrintItem(item, t.kids[i], vs[i], i + 1 == |vs|);
      if ok {
        next := Next(item);
      } else {
        FullMore(n + 2, |total| + 2);
      }
    }

    /** One turn of the `print_array` loop. */
    method PrintItem(item: Ptr, ghost t: Tree, ghost v: Json, ghost last: bool) returns (ok: bool)
      requires Ready() && item == t.ptr && IsNode(base, item) && (last <==> base[item].node.next == 0)
      requires View(base, t) && Known(base, t) && v == Value(base, t) && Printable(v)
      modifies this, buffer, mem
      ensures Moved(ok, Render(v, format, old(depth)) + ItemEnd(format, last))
      decreases t, 4
    {
      hide Beyond, Ledger, Render, View, Known, Value, Printable, Terminated, Valid;
      ok := PrintValue(item, t, v);
      if ok {
        UpdateOffset();
        Unchanged(item);
        if mem.cells[item].node.next != 0 {
          ok := PutSeparator(if format then [COMMA, SPACE] else [COMMA], true);
        }
      }
    }

    /** `print_object`. */
    method PrintObject(item: Ptr, ghost t: Tree, ghost v: Json) returns (ok: bool)
      requires Ready() && item == t.ptr
      requires View(base, t) && Known(base, t) && v == Value(base, t) && Printable(v) && v.Object?
      modifies this, buffer, mem
      ensures Printed(ok, Render(v, format, old(depth)))
      decreases t, 2
    {
      hide Beyond, Ledger, RenderMembers, View, Known, Value, PrintableMembers, ObjectClose, ObjectOpen, Terminated,
        Valid, Ready;
      ObjectValue(base, t, v);
      ok := PutSeparator(ObjectOpen(format), false);
      if ok {
        depth := depth + 1;
        ok := PrintMembers(item, t, v.members);
      }
      if ok {
        ok := PrintClose();
      }
    }

    /** The closing brace of `print_object` behind its indentation. */
    method PrintClose() returns (ok: bool)
      requires Ready() && 0 < depth
      modifies this, buffer, mem
      ensures Valid() && Kept()
      ensures ok ==> out == old(out) + ObjectClose(format, old(depth) - 1) && Terminated() && depth == old(depth) - 1
      ensures !ok ==> Full(|old(out)| + |ObjectClose(format, old(depth) - 1)| + 2)
    {
      hide Beyond, Ledger;
      var close := ObjectClose(format, depth - 1);
      ok := Emit(if format then depth + 1 else 2, close, true);
      if ok {
        assert out[offset..] == close;
        depth := depth - 1;
      }
    }

    /** The loop of `print_object`. */
    method PrintMembers(item: Ptr, ghost t: Tree, ghost ms: seq<Member>) returns (ok: bool)
      requires Ready() && item == t.ptr && offset < length
      requires View(base, t) && Known(base, t) && ms == Members(base, t.kids) && PrintableMembers(ms)
      modifies this, buffer, mem
      ensures Moved(ok, RenderMembers(ms, format, old(depth)))
      decreases t, 1
    {
      hide Beyond, Ledger, RenderMembers, Members, View, Known, Value, PrintableMembers, MemberText, MemberOf, Valid,
        Full, Printable;
      ghost var d, total := depth, out + RenderMembers(ms, format, depth);
      ViewRoot(base, t);
      assert ms[0..] == ms;
      Unchanged(item);
      var current := mem.cells[item].node.child;
      ghost var i := 0;
      while current != 0
        invariant Ready() && Kept() && depth == d && offset < length
        invariant i <= |t.kids| == |ms| && current == PtrAt(t.kids, i) && PrintableMembers(ms[i..])
        invariant out + RenderMembers(ms[i..], format, d) == total
        decreases |t.kids| - i
      {
        PtrAtNull(base, t.kids, i);
        ok, current := MemberTurn(current, t, ms, i);
        if !ok {
          return;
        }
        i := i + 1;
      }
      PtrAtNull(base, t.kids, i);
      NoMemberLeft(ms, i, format, d);
      ok := true;
    }

    /** One turn of that loop with what it leaves to print. */
    method MemberTurn(item: Ptr, ghost t: Tree, ghost ms: seq<Member>, ghost i: nat) returns (ok: bool, next: Ptr)
      requires Ready() && i < |t.kids| == |ms| && item == t.kids[i].ptr && IsNode(base, item)
      requires base[item].node.next == PtrAt(t.kids, i + 1) && (PtrAt(t.kids, i + 1) == 0 <==> i + 1 == |ms|)
      requires View(base, t) && Known(base, t) && ms == Members(base, t.kids) && PrintableMembers(ms[i..])
      modifies this, buffer, mem
      ensures Valid() && Kept() && PrintableMembers(ms[i + 1..])
      ensures ok ==> Ready() && depth == old(depth) && offset < length && next == PtrAt(t.kids, i + 1)
      ensures ok ==>
        out + RenderMembers(ms[i + 1..], format, old(depth)) == old(out + RenderMembers(ms[i..], format, depth))
      ensures !ok ==> Full(|old(out + RenderMembers(ms[i..], format, depth))| + 2)
      decreases t, 0
    {
      hide Beyond, Ledger, RenderMembers, Members, View, Known, Value, PrintableMembers, MemberText, MemberOf, Valid,
        Full, Printable;
      MemberFacts(base, t, ms, i, format, depth);
      ghost var n := |out| + |MemberText(ms[i], format, depth, i + 1 == |ms|)|;
      ghost var total := out + RenderMembers(ms[i..], format, depth);
      next := 0;
      ok := PrintMember(item, t.kids[i], ms[i], i + 1 == |ms|);
      if ok {
        next := Next(item);
      } else {
        FullMore(n + 2, |total| + 2);
      }
    }

    /** One turn of the `print_object` loop: indentation, key, colon, value, comma and newline. */
    method PrintMember(item: Ptr, ghost t: Tree, ghost m: Member, ghost last: bool) returns (ok: bool)
      requires Ready() && item == t.ptr && IsNode(base, item) && (last <==> base[item].node.next == 0)
      requires View(base, t) && Known(base, t) && m == MemberOf(base, t) && 0 !in m.key && Printable(m.value)
      modifies this, buffer, mem
      ensures Moved(ok, MemberText(m, format, old(depth), last))
      decreases t, 5
    {
      hide Beyond, Ledger, Render, View, Known, Value, Printable, RenderString, Terminated, Valid, KeyEnd, Indent,
        MemberEnd, MemberOf;
      MemberValue(base, t, m);
      ok := PrintKey(item, t, m);
      if ok {
        ok := PrintMemberValue(item, t, m.value, last);
      }
    }

    /** The value of a member, a comma unless it is the last, and the newline. */
    method PrintMemberValue(item: Ptr, ghost t: Tree, ghost v: Json, ghost last: bool) returns (ok: bool)
      requires Ready() && item == t.ptr && IsNode(base, item) && (last <==> base[item].node.next == 0)
      requires View(base, t) && Known(base, t) && v == Value(base, t) && Printable(v)
      modifies this, buffer, mem
      ensures Moved(ok, Render(v, format, old(depth)) + MemberEnd(format, last))
      decreases t, 4
    {
      hide Beyond, Ledger, Render, View, Known, Value, Printable, Terminated, Valid;
      ok := PrintValue(item, t, v);
      if ok {
        UpdateOffset();
        Unchanged(item);
        var comma := if mem.cells[item].node.next != 0 then [COMMA] else [];
        ok := PutSeparator(comma + (if format then [NEWLINE] else []), true);
      }
    }

    /** The indentation of a member. */
    method PutIndent() returns (ok: bool)
      requires Ready()
      modifies this`buffer, this`length, this`block, mem, this`offset, this`out, buffer
      ensures Valid() && Kept() && depth == old(depth)
      ensures ok ==> out == old(out) + Indent(format, depth) && Ready()
      ensures !ok ==> Full(|old(out)| + |Indent(format, depth)| + 2)
    {
      hide Beyond, Ledger;
      ok := true;
      if format {
        ok := PutTight(Repeat(TAB, depth));
      }
    }

    method PutColon() returns (ok: bool)
      requires Ready()
      modifies this`buffer, this`length, this`block, mem, this`offset, this`out, buffer
      ensures Moved(ok, KeyEnd(format))
    {
      hide Beyond, Ledger;
      ok := PutTight(if format then [COLON, TAB] else [COLON]);
    }

    /** The indentation, the key and its colon. */
    method PrintKey(item: Ptr, ghost t: Tree, ghost m: Member) returns (ok: bool)
      requires Ready() && item == t.ptr && View(base, t) && m == MemberOf(base, t) && 0 !in m.key
      modifies this`buffer, this`length, this`block, mem, this`offset, this`out, buffer
      ensures Moved(ok, Indent(format, depth) + RenderString(m.key) + KeyEnd(format))
    {
      hide Beyond, Ledger, View, RenderString, CString, Value, Terminated, Valid, Indent, KeyEnd, Ready;
      KeyValue(base, t, m);
      ok := PutIndent();
      if ok {
        Unchanged(item);
        var name := mem.cells[item].node.name;
        if name != 0 {
          Unchanged(name);
        }
        ok := PrintString(if name == 0 then None else Some(CString(mem.cells[name].content)));
      }
      if ok {
        UpdateOffset();
        ok := PutColon();
      }
    }

    /** The last step of `print`: `realloc` to size, or allocate, copy, terminate and free. */
    method Shrink() returns (ok: bool)
      requires Ready() && offset < length && buffer[offset] == 0 && !noalloc
      modifies this`buffer, this`length, this`block, mem
      ensures Valid() && mem.requests == old(mem.requests) + 1 && (buffer != null ==> fresh(buffer))
      ensures ok ==> buffer != null && buffer.Length == |out| + 1 && buffer[|out|] == 0
      ensures !ok ==> buffer == null
    {
      hide Refusals;
      var small := mem.Allocate(Block([]));
      ExchangeCells(base, block, small);
      if small == 0 {
        mem.Free(block);
        buffer, length, block := null, 0, 0;
        return false;
      }
      var printed :=
        CopyInto(buffer, if canRealloc || length >= offset + 1 then offset + 1 else length, offset + 1, offset);
      if !canRealloc {
        printed[offset] := 0;
      }
      mem.Free(block);
      buffer, length, block := printed, offset + 1, small;
      ok := true;
    }

    /** The end of printing into a block of one's own: it is freed, unless it was before, or handed to
        the caller. */
    method HandOver(ok: bool) returns (r: Ptr)
      requires Valid() && !noalloc && (ok ==> buffer != null)
      modifies mem`cells
      ensures r == 0 <==> !ok
      ensures r == 0 ==> mem.cells == base
      ensures r != 0 ==> r !in base && mem.cells == base[r := Block(buffer[..])]
    {
      r := 0;
      if ok {
        mem.Fill(block, buffer[..]);
        r := block;
      } else if buffer != null {
        mem.Free(block);
      }
    }
  }

  /** One block of the ledger for another, or for none. */
  lemma ExchangeCells(base: Cells, block: Ptr, other: Ptr)
    requires block !in base
    ensures base[block := Block([])] - {block} == base
    ensures other !in base && other != block ==>
      base[block := Block([])][other := Block([])] - {block} == base[other := Block([])]
  {
  }

  /** A larger or smaller array that begins with `n` bytes of the old one, as far as both go. */
  method CopyInto(from: array<byte>, n: nat, size: nat, kept: nat) returns (to: array<byte>)
    requires kept <= n <= from.Length && kept <= size
    ensures fresh(to) && to.Length == size && to[..kept] == from[..kept]
    ensures kept < n && kept < size ==> to[kept] == from[kept]
  {
    to := new byte[size];
    forall i | 0 <= i < n && i < size {
      to[i] := from[i];
    }
  }

  function MemberText(m: Member, f: bool, d: nat, last: bool): bytes
    requires 0 !in m.key && Printable(m.value)
  {
    Indent(f, d) + RenderString(m.key) + KeyEnd(f) + Render(m.value, f, d) + MemberEnd(f, last)
  }

  lemma MemberValue(h: Cells, t: Tree, m: Member)
    requires m == MemberOf(h, t)
    ensures m.value == Value(h, t)
  {
  }

  lemma KeyValue(h: Cells, t: Tree, m: Member)
    requires View(h, t) && m == MemberOf(h, t)
    ensures IsNode(h, t.ptr)
    ensures var name := h[t.ptr].node.name;
      if name == 0 then m.key == [] else IsBlock(h, name) && m.key == CString(h[name].content)
  {
    hide CString;
  }

  lemma ObjectValue(h: Cells, t: Tree, v: Json)
    requires View(h, t) && v == Value(h, t) && v.Object? && Printable(v)
    ensures v.members == Members(h, t.kids) && PrintableMembers(v.members)
  {
    hide View, Members, CString, PrintableMembers;
  }

  lemma MemberFacts(h: Cells, t: Tree, ms: seq<Member>, i: nat, f: bool, d: nat)
    requires View(h, t) && Known(h, t) && ms == Members(h, t.kids) && i < |ms| && PrintableMembers(ms[i..])
    ensures View(h, t.kids[i]) && Known(h, t.kids[i]) && ms[i] == MemberOf(h, t.kids[i])
    ensures ms[i].value == Value(h, t.kids[i])
    ensures 0 !in ms[i].key && Printable(ms[i].value) && PrintableMembers(ms[i + 1..])
    ensures RenderMembers(ms[i..], f, d) == MemberText(ms[i], f, d, i + 1 == |ms|) + RenderMembers(ms[i + 1..], f, d)
  {
    hide Indent, RenderString, KeyEnd, Render, MemberEnd, StringOf;
    ValuesIndex(h, t.kids, i);
    assert ms[i..][1..] == ms[i + 1..];
  }

  lemma NoMemberLeft(ms: seq<Member>, i: nat, f: bool, d: nat)
    requires i == |ms|
    ensures PrintableMembers(ms[i..]) && RenderMembers(ms[i..], f, d) == []
  {
  }

  function Text(input: Option<bytes>): bytes {
    if input == None then [] else input.value
  }

  lemma EmptyString()
    ensures RenderString([]) == [QUOTE, QUOTE] && Escape([]) == []
  {
  }

  lemma QuotedPrinted(a: bytes, off: nat, text: bytes, prefix: bytes)
    requires off + |text| < |a| && a[..off] == prefix && a[off..off + |text|] == text
    ensures a[..off + |text|] == prefix + text && (prefix + text)[off..] == text
  {
  }

  lemma ContainerValue(h: Cells, t: Tree, v: Json)
    requires View(h, t) && v == Value(h, t)
    ensures IsNode(h, t.ptr) && (h[t.ptr].node.kind == KArray <==> v.Array?)
    ensures h[t.ptr].node.kind == KObject <==> v.Object?
  {
    hide Values, Members, CString, Chain;
  }

  lemma LeafValue(h: Cells, t: Tree, v: Json)
    requires View(h, t) && Known(h, t) && v == Value(h, t) && Printable(v)
    ensures IsNode(h, t.ptr) && h[t.ptr].node.kind != KInvalid
    ensures var n := h[t.ptr].node;
      && (n.kind == KNull ==> v == Null) && (n.kind == KFalse ==> v == Bool(false))
      && (n.kind == KTrue ==> v == Bool(true))
      && (n.kind == KNumber ==> v == Number(n.valuedouble) && n.valueint == n.valuedouble.Floor)
      && (n.kind == KString && n.text != 0 ==> IsBlock(h, n.text))
      && (n.kind == KString ==> v == String(if n.text == 0 then [] else CString(h[n.text].content)))
      && (n.kind == KRaw ==> IsBlock(h, n.text) && v == Raw(CString(h[n.text].content)))
  {
    hide CString;
  }

  lemma ArrayValue(h: Cells, t: Tree, v: Json)
    requires View(h, t) && v == Value(h, t) && v.Array? && Printable(v)
    ensures v.items == Values(h, t.kids) && PrintableItems(v.items)
  {
    hide Chain, StringOf, Values, PrintableItems;
  }

  /** What printing item `i` needs and leaves. */
  lemma ItemFacts(h: Cells, t: Tree, vs: seq<Json>, i: nat, f: bool, d: nat)
    requires View(h, t) && Known(h, t) && vs == Values(h, t.kids) && i < |vs| && PrintableItems(vs[i..])
    ensures View(h, t.kids[i]) && Known(h, t.kids[i]) && vs[i] == Value(h, t.kids[i])
    ensures Printable(vs[i]) && PrintableItems(vs[i + 1..])
    ensures RenderItems(vs[i..], f, d)
      == Render(vs[i], f, d) + ItemEnd(f, i + 1 == |vs|) + RenderItems(vs[i + 1..], f, d)
  {
    ValuesIndex(h, t.kids, i);
    assert vs[i..][1..] == vs[i + 1..];
  }

  lemma NothingLeft(vs: seq<Json>, i: nat, f: bool, d: nat)
    requires i == |vs|
    ensures PrintableItems(vs[i..]) && RenderItems(vs[i..], f, d) == []
  {
  }

  method PutQuoted(out: array<byte>, off: nat, s: bytes, extra: nat)
    requires off + |Escape(s)| + 3 <= out.Length && 0 !in s && extra == EscapeExtra(s)
    modifies out
    ensures out[off..off + |RenderString(s)|] == RenderString(s) && out[off + |RenderString(s)|] == 0
    ensures out[..off] == old(out[..off])
    ensures forall j :: off + |RenderString(s)| < j < out.Length ==> out[j] == old(out[j])
  {
    hide Escape;
    if extra == 0 {
      NothingToEscape(s);
      CopyQuoted(out, off, s);
    } else {
      EscapeQuoted(out, off, s);
    }
  }

  /** The first loop of `print_string_ptr`. */
  method CountEscapes(s: bytes) returns (extra: nat)
    requires 0 !in s
    ensures extra == EscapeExtra(s)
  {
    extra := 0;
    var i := 0;
    while i < |s|
      invariant 0 <= i <= |s|
      invariant EscapeExtra(s) == extra + EscapeExtra(s[i..])
    {
      if s[i] in [QUOTE, BACKSLASH, 8, 12, 10, 13, 9] {
        extra := extra + 1;
      } else if s[i] < 32 {
        extra := extra + 5;
      }
      assert s[i..][1..] == s[i + 1..];
      i := i + 1;
    }
  }

  lemma EscapedOnce(c: byte)
    ensures |EscapeByte(c)| == 1 ==> EscapeByte(c) == [c]
  {
  }

  lemma {:induction false} NothingToEscape(s: bytes)
    requires EscapeExtra(s) == 0
    ensures Escape(s) == s
    decreases |s|
  {
    hide EscapeByte;
    if s != [] {
      EscapedOnce(s[0]);
      NothingToEscape(s[1..]);
      assert Escape(s) == [s[0]] + s[1..];
    }
  }

  /** The branch without escapes: quote, `memcpy`, quote, terminator. */
  method CopyQuoted(out: array<byte>, off: nat, s: bytes)
    requires off + |s| + 3 <= out.Length && Escape(s) == s
    modifies out
    ensures out[off..off + |s| + 2] == RenderString(s) && out[off + |s| + 2] == 0 && out[..off] == old(out[..off])
    ensures forall j :: off + |s| + 2 < j < out.Length ==> out[j] == old(out[j])
  {
    out[off] := QUOTE;
    forall i | 0 <= i < |s| {
      out[off + 1 + i] := s[i];
    }
    out[off + |s| + 1] := QUOTE;
    out[off + |s| + 2] := 0;
    assert out[off..off + |s| + 2] == [QUOTE] + s + [QUOTE];
  }

  /** The escaping loop. */
  method EscapeQuoted(out: array<byte>, off: nat, s: bytes)
    requires off + |Escape(s)| + 3 <= out.Length && 0 !in s
    modifies out
    ensures out[off..off + |Escape(s)| + 2] == RenderString(s) && out[off + |Escape(s)| + 2] == 0
    ensures out[..off] == old(out[..off])
    ensures forall j :: off + |Escape(s)| + 2 < j < out.Length ==> out[j] == old(out[j])
  {
    hide EscapeByte, HexDigit, Escape;
    ghost var before := out[..off];
    out[off] := QUOTE;
    var i, w := 0, off + 1;
    ghost var done: bytes := [];
    EscapeEnd(s);
    while i < |s|
      invariant 0 <= i <= |s| && w == off + 1 + |done| && w + 2 <= out.Length
      invariant done + Escape(s[i..]) == Escape(s) && out[..w] == before + [QUOTE] + done
      invariant forall j :: off + |Escape(s)| + 2 < j < out.Length ==> out[j] == old(out[j])
    {
      EscapeStep(s, i, done);
      var n := PutEscape(out, w, s[i]);
      Appended(out, w, before + [QUOTE], done, EscapeByte(s[i]));
      done := done + EscapeByte(s[i]);
      i, w := i + 1, w + n;
    }
    out[w] := QUOTE;
    out[w + 1] := 0;
    assert done == Escape(s);
    Closed(out, w, before, done);
    Suffix(out, before, [QUOTE] + done + [QUOTE]);
  }

  lemma Appended(out: array<byte>, w: nat, lead: bytes, done: bytes, e: bytes)
    requires w + |e| <= out.Length && out[..w] == lead + done && out[w..w + |e|] == e
    ensures out[..w + |e|] == lead + (done + e)
  {
    assert out[..w + |e|] == out[..w] + out[w..w + |e|];
  }

  lemma Closed(out: array<byte>, w: nat, before: bytes, done: bytes)
    requires w < out.Length && out[..w] == before + [QUOTE] + done && out[w] == QUOTE
    ensures out[..w + 1] == before + ([QUOTE] + done + [QUOTE])
  {
  }

  lemma Suffix(out: array<byte>, before: bytes, text: bytes)
    requires |before| + |text| <= out.Length && out[..|before| + |text|] == before + text
    ensures out[|before|..|before| + |text|] == text && out[..|before|] == before
  {
    var all := out[..|before| + |text|];
    assert all[..|before|] == before && all[|before|..] == text;
    assert out[..|before|] == all[..|before|] && out[|before|..|before| + |text|] == all[|before|..];
  }

  lemma EscapeEnd(s: bytes)
    ensures Escape(s[|s|..]) == [] && s[0..] == s
  {
  }

  lemma EscapeStep(s: bytes, i: nat, done: bytes)
    requires i < |s| && done + Escape(s[i..]) == Escape(s) && 0 !in s
    ensures done + EscapeByte(s[i]) + Escape(s[i + 1..]) == Escape(s) && s[i] != 0
    ensures |done| + |EscapeByte(s[i])| <= |Escape(s)|
  {
    hide EscapeByte, Escape;
    EscapeUnfold(s, i);
    Reassociate(done, EscapeByte(s[i]), Escape(s[i + 1..]), []);
  }

  lemma EscapeUnfold(s: bytes, i: nat)
    requires i < |s|
    ensures Escape(s[i..]) == EscapeByte(s[i]) + Escape(s[i + 1..])
  {
    hide EscapeByte;
    assert s[i..][1..] == s[i + 1..];
  }

  /** The switch inside the escaping loop. */
  method PutEscape(out: array<byte>, w: nat, c: byte) returns (n: nat)
    requires w + |EscapeByte(c)| <= out.Length && c != 0
    modifies out
    ensures n == |EscapeByte(c)| && out[w..w + n] == EscapeByte(c) && out[..w] == old(out[..w])
    ensures forall j :: w + n <= j < out.Length ==> out[j] == old(out[j])
  {
    hide EscapeByte, HexDigit, EscapeLetter;
    EscapeForms(c);
    if c > 31 && c != QUOTE && c != BACKSLASH {
      out[w] := c;
      return 1;
    }
    out[w] := BACKSLASH;
    if EscapeLetter(c) != LOWER_U {
      out[w + 1] := EscapeLetter(c);
      n := 2;
    } else {
      PutHex(out, w + 1, c);
      n := 6;
      assert out[w..w + 6] == [out[w]] + out[w + 1..w + 6];
    }
  }

  /** The letter behind the backslash: the cases of the switch in `print_string_ptr`. */
  function EscapeLetter(c: byte): byte {
    if c == BACKSLASH || c == QUOTE then c
    else if c == 8 then 98
    else if c == 12 then 102
    else if c == 10 then 110
    else if c == 13 then 114
    else if c == 9 then 116
    else LOWER_U
  }

  /** The three shapes of an escaped character. */
  lemma EscapeForms(c: byte)
    ensures c > 31 && c != QUOTE && c != BACKSLASH ==> EscapeByte(c) == [c]
    ensures (c <= 31 || c == QUOTE || c == BACKSLASH) && EscapeLetter(c) != LOWER_U
      ==> EscapeByte(c) == [BACKSLASH, EscapeLetter(c)]
    ensures (c <= 31 || c == QUOTE || c == BACKSLASH) && EscapeLetter(c) == LOWER_U
      ==> c < 32 && EscapeByte(c) == [BACKSLASH] + [LOWER_U, 48, 48, HexDigit(c / 16), HexDigit(c % 16)]
  {
  }

  /** The `sprintf` of a control character behind its backslash. */
  method PutHex(out: array<byte>, w: nat, c: byte)
    requires w + 5 <= out.Length && c < 32
    modifies out
    ensures out[w..w + 5] == [LOWER_U, 48, 48, HexDigit(c / 16), HexDigit(c % 16)]
    ensures out[..w] == old(out[..w])
    ensures forall j :: w + 5 <= j < out.Length ==> out[j] == old(out[j])
  {
    out[w], out[w + 1], out[w + 2] := LOWER_U, 48, 48;
    out[w + 3], out[w + 4] := HexDigit(c / 16), HexDigit(c % 16);
  }

  // ---------------------------------------------------------------- entry points

  /** The rendering of `v` with its terminator stands at the start of the block. */
  ghost predicate Holds(a: array<byte>, v: Json, format: bool)
    requires Printable(v)
    reads a
  {
    var text := Render(v, format, 0);
    |text| < a.Length && a[..|text|] == text && a[|text|] == 0
  }

  /** `cJSON_PrintPreallocated`. It succeeds exactly when the buffer has room for the text and two
      bytes more. It asks for no memory, and writes within the length it was given. */
  method PrintPreallocated(mem: Memory, item: Ptr, buffer: array?<byte>, length: int, format: bool, ghost t: Tree,
                           ghost v: Json)
    returns (ok: bool)
    requires item != 0 ==> item == t.ptr && View(mem.cells, t) && Known(mem.cells, t)
    requires Printable(v) && (item != 0 ==> v == Value(mem.cells, t))
    requires length <= INT_MAX && (buffer != null ==> length <= buffer.Length)
    modifies buffer, mem
    ensures mem.cells == old(mem.cells) && mem.requests == old(mem.requests)
    ensures buffer != null ==>
      forall j :: 0 <= j < buffer.Length && length <= j ==> buffer[j] == old(buffer[j])
    ensures ok <==> item != 0 && buffer != null && length >= |Render(v, format, 0)| + 2
    ensures ok ==> Holds(buffer, v, format)
  {
    hide Refusals, Render, View, Known, Value, Printable;
    if length < 0 || buffer == null {
      return false;
    }
    var p := new PrintBuffer(mem, 0, buffer, length, true, format, false, mem.cells);
    if item == 0 {
      return false;
    }
    ok := p.PrintValue(item, t, v);
    if ok {
      assert p.out == Render(v, format, 0);
    }
  }

  /** The text with its terminator leads the content of a block. */
  ghost predicate Printout(content: bytes, v: Json, format: bool)
    requires Printable(v)
  {
    Render(v, format, 0) + [0] <= content
  }

  /** What both allocating printers begin with: a first block, then `print_value`. */
  method Begin(mem: Memory, item: Ptr, size: nat, format: bool, canRealloc: bool, ghost t: Tree, ghost v: Json)
    returns (p: PrintBuffer?, ok: bool)
    requires item != 0 ==> item == t.ptr && View(mem.cells, t) && Known(mem.cells, t)
    requires Printable(v) && (item != 0 ==> v == Value(mem.cells, t))
    requires size <= INT_MAX && (size == 0 ==> canRealloc)
    modifies mem
    ensures p == null ==>
      !ok && mem.cells == old(mem.cells) && mem.requests > old(mem.requests) && !mem.grants(old(mem.requests))
    ensures p != null ==>
      && fresh(p) && p.Valid() && !p.noalloc && p.mem == mem && p.base == old(mem.cells)
      && p.start == old(mem.requests) + 1 && mem.grants(old(mem.requests))
    ensures ok ==> p != null && item != 0 && p.Terminated() && p.out == Render(v, format, 0) && fresh(p.buffer)
    ensures !ok && p != null ==> item == 0 || p.buffer == null || |Render(v, format, 0)| + 2 > INT_MAX
    ensures ok ==> p.canRealloc == canRealloc
  {
    hide Refusals, Render, View, Known, Value, Printable;
    ghost var h := mem.cells;
    var block := mem.Allocate(Block([]));
    ok := false;
    if block == 0 {
      return null, false;
    }
    var first := new byte[size];
    p := new PrintBuffer(mem, block, first, size, false, format, canRealloc, h);
    if item != 0 {
      ok := p.PrintValue(item, t, v);
    }
    assert ok ==> p.out == Render(v, format, 0);
  }

  /** `cJSON_PrintBuffered`, from any positive first capacity, or any at all where `realloc` is
      available. When every request of the call is granted it succeeds exactly for texts whose size
      with two bytes more fits an `int`. A failed call frees every block it took. */
  method PrintBuffered(mem: Memory, item: Ptr, prebuffer: int, format: bool, canRealloc: bool, ghost t: Tree,
                       ghost v: Json)
    returns (r: Ptr)
    requires item != 0 ==> item == t.ptr && View(mem.cells, t) && Known(mem.cells, t)
    requires Printable(v) && (item != 0 ==> v == Value(mem.cells, t))
    requires prebuffer <= INT_MAX && (prebuffer == 0 ==> canRealloc)
    modifies mem
    ensures mem.requests >= old(mem.requests) && (r != 0 ==> mem.GrantedSince(old(mem.requests)))
    ensures mem.GrantedSince(old(mem.requests)) ==>
      (r != 0 <==> prebuffer >= 0 && item != 0 && |Render(v, format, 0)| + 2 <= INT_MAX)
    ensures r == 0 ==> mem.cells == old(mem.cells)
    ensures r != 0 ==> Published(old(mem.cells), mem.cells, r) && Printout(mem.cells[r].content, v, format)
  {
    hide Refusals, Render, View, Known, Value, Printable, PrintBuffer.Beyond, PrintBuffer.Ledger;
    if prebuffer < 0 {
      return 0;
    }
    var p, ok := Begin(mem, item, prebuffer, format, canRealloc, t, v);
    if p == null {
      return 0;
    }
    p.Standing();
    if ok {
      assert p.buffer[..|p.out| + 1] == p.out + [0];
    }
    r := p.HandOver(ok);
  }

  /** The block `r` is all that is new. */
  ghost predicate Published(h: Cells, h': Cells, r: Ptr) {
    r != 0 && r !in h && r in h' && h'[r].Block? && h' == h[r := h'[r]]
  }

  /** `print`: the text in a block of exactly its size. */
  method Print(mem: Memory, item: Ptr, format: bool, canRealloc: bool, ghost t: Tree, ghost v: Json) returns (r: Ptr)
    requires item != 0 ==> item == t.ptr && View(mem.cells, t) && Known(mem.cells, t)
    requires Printable(v) && (item != 0 ==> v == Value(mem.cells, t))
    modifies mem
    ensures mem.requests >= old(mem.requests) && (r != 0 ==> mem.GrantedSince(old(mem.requests)))
    ensures mem.GrantedSince(old(mem.requests)) ==> (r != 0 <==> item != 0 && |Render(v, format, 0)| + 2 <= INT_MAX)
    ensures r == 0 ==> mem.cells == old(mem.cells)
    ensures r != 0 ==> Published(old(mem.cells), mem.cells, r) && mem.cells[r].content == Render(v, format, 0) + [0]
  {
    hide Refusals, Render, View, Known, Value, Printable, PrintBuffer.Beyond, PrintBuffer.Ledger;
    var p, ok := Begin(mem, item, 256, format, canRealloc, t, v);
    if p == null {
      return 0;
    }
    p.Standing();
    if ok {
      p.UpdateOffset();
      ok := p.Shrink();
      p.Standing();
    }
    if ok {
      assert p.buffer[..] == p.out + [0];
    }
    r := p.HandOver(ok);
  }
}
