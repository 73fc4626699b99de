/** Printer and parser together on the heap: a tree sent as text comes back as an equal tree, and a text
    read and written again keeps its meaning. */
module Client {
  import opened Bytes
  import opened JsonTree
  import opened CHeap
  import opened CHeapFacts
  import opened TreeOps
  import opened SoundTrees
  import opened Grammar
  import opened RoundTrip
  import opened Printer
  import opened Parser
  import opened Compare

  /** `cJSON_Print` or `cJSON_PrintUnformatted`, `cJSON_ParseWithLengthOpts` on the block it returned,
      and the block freed. When every request is granted and the text fits an `int`, the result is a
      new sound tree that shares nothing with the original and has the same value; otherwise the heap is
      as before. `cJSON_Compare` takes the two for equal exactly if no object gives one key two values,
      provided it can compare the original with anything. */
  method PrintAndParse(mem: Memory, item: Ptr, format: bool, canRealloc: bool, ghost t: Tree, ghost v: Json)
    returns (copy: Ptr, ghost c: Tree)
    requires item == t.ptr && View(mem.cells, t) && Known(mem.cells, t) && v == Value(mem.cells, t)
    requires Printable(v) && RawFree(v) && Nesting(v) <= NESTING_LIMIT
    modifies mem
    ensures mem.requests >= old(mem.requests)
    ensures mem.GrantedSince(old(mem.requests)) ==> (copy != 0 <==> |Render(v, format, 0)| + 2 <= INT_MAX)
    ensures copy != 0 ==> mem.GrantedSince(old(mem.requests))
    ensures copy == 0 ==> mem.cells == old(mem.cells)
    ensures copy != 0 ==> copy == c.ptr && NewTree(old(mem.cells), mem.cells, c) && Value(mem.cells, c) == v
    ensures copy != 0 ==> Plain(mem.cells, c) && Sound(mem.cells, c)
    ensures copy != 0 ==> View(mem.cells, c) && Known(mem.cells, c) && Proper(mem.cells, c)
    ensures copy != 0 && Proper(old(mem.cells), t) ==> forall cs: bool ::
      (Same(mem.cells, t, c, cs) <==> Coherent(v, cs)) && (Same(mem.cells, c, t, cs) <==> Coherent(v, cs))
    ensures View(mem.cells, t) && Value(mem.cells, t) == v
  {
    hide View, Known, Value, Printable, RawFree, Render, NewTree, Document, Nesting, Plain, Detached, Sound, Proper,
      Same, Coherent, IntNumbers;
    copy, c := 0, t;
    ghost var h := mem.cells;
    ViewRoot(h, t);
    var text := Print(mem, item, format, canRealloc, t, v);
    if text == 0 {
      return;
    }
    ghost var h1 := mem.cells;
    DocumentRoundTrip(v, format);
    var end;
    copy, end, c := Parse(mem, mem.cells[text].content, true);
    ghost var h2 := mem.cells;
    if copy != 0 {
      WithoutText(h, h1, h2, text, c);
      ViewExtends(h, h2 - {text}, t);
      assert MemberOf(h, t).value == v && MemberOf(h2 - {text}, t).value == v;
      Usable(h, t, h2 - {text}, c, v);
    } else {
      assert h1 - {text} == h;
    }
    mem.Free(text);
  }

  /** What can be done with the parsed tree. */
  lemma Usable(h0: Cells, t: Tree, h: Cells, c: Tree, v: Json)
    requires View(h0, t) && NewTree(h0, h, c) && Plain(h, c) && Sound(h, c)
    requires Printable(v) && Value(h0, t) == v && Value(h, c) == v
    ensures View(h, c) && Known(h, c) && Proper(h, c)
    ensures Proper(h0, t) ==> forall cs: bool ::
      (Same(h, t, c, cs) <==> Coherent(v, cs)) && (Same(h, c, t, cs) <==> Coherent(v, cs))
  {
    hide View, Known, Value, Printable, Plain, Sound, Proper, Same, Coherent, IntNumbers, Rep, Sep, Foot;
    PlainView(h, c);
    SoundKnown(h, c);
    SoundProper(h, c);
    PrintableInts(v);
    if Proper(h0, t) {
      forall cs: bool
        ensures (Same(h, t, c, cs) <==> Coherent(v, cs)) && (Same(h, c, t, cs) <==> Coherent(v, cs))
      {
        ParsedComparesEqual(h0, t, h, c, cs);
      }
    }
  }

  /** Freeing the text leaves the parsed tree alone. */
  lemma WithoutText(h: Cells, h1: Cells, h2: Cells, text: Ptr, c: Tree)
    requires Published(h, h1, text) && NewTree(h1, h2, c) && Plain(h2, c) && Sound(h2, c)
    ensures text in h2 && Extends(h, h2 - {text})
    ensures NewTree(h, h2 - {text}, c) && Value(h2 - {text}, c) == Value(h2, c)
    ensures Plain(h2 - {text}, c) && Sound(h2 - {text}, c)
  {
    hide Rep, Sep, Foot, Plain, Value, Sound;
    var h3 := h2 - {text};
    FootLive(h2, c);
    RepIsNode(h2, c);
    assert Agree(h2, h3, c);
    Frame(h2, h3, c);
    assert MemberOf(h3, c).value == MemberOf(h2, c).value;
    SoundFrame(h2, h3, c);
  }

  /** The tree that came back, printed in its turn and deleted: the text is the one the original prints
      to, and it is all that is new in the heap. */
  method PrintAgain(mem: Memory, item: Ptr, format: bool, canRealloc: bool, ghost t: Tree, ghost v: Json)
    returns (again: Ptr)
    requires item == t.ptr && View(mem.cells, t) && Known(mem.cells, t) && v == Value(mem.cells, t)
    requires Printable(v) && RawFree(v) && Nesting(v) <= NESTING_LIMIT
    modifies mem
    ensures mem.GrantedSince(old(mem.requests)) ==> (again != 0 <==> |Render(v, format, 0)| + 2 <= INT_MAX)
    ensures again == 0 ==> mem.cells == old(mem.cells)
    ensures again != 0 ==>
      Published(old(mem.cells), mem.cells, again) && mem.cells[again].content == Render(v, format, 0) + [0]
  {
    hide View, Known, Value, Printable, RawFree, Render, NewTree, Nesting, Plain, Sound, Proper, Same, Coherent,
      Published;
    ghost var h := mem.cells;
    again := 0;
    var copy;
    ghost var c;
    copy, c := PrintAndParse(mem, item, format, canRealloc, t, v);
    if copy != 0 {
      again := PrintOut(mem, copy, format, canRealloc, c, v, h);
    }
  }

  /** Prints a new tree and deletes it. */
  method PrintOut(mem: Memory, x: Ptr, format: bool, canRealloc: bool, ghost c: Tree, ghost v: Json, ghost h0: Cells)
    returns (text: Ptr)
    requires x == c.ptr && NewTree(h0, mem.cells, c) && View(mem.cells, c) && Known(mem.cells, c)
    requires Printable(v) && v == Value(mem.cells, c)
    modifies mem
    ensures mem.requests >= old(mem.requests) && (text != 0 ==> mem.GrantedSince(old(mem.requests)))
    ensures mem.GrantedSince(old(mem.requests)) ==> (text != 0 <==> |Render(v, format, 0)| + 2 <= INT_MAX)
    ensures text == 0 ==> mem.cells == h0
    ensures text != 0 ==> Published(h0, mem.cells, text) && mem.cells[text].content == Render(v, format, 0) + [0]
  {
    hide View, Known, Value, Printable, Render, NewTree;
    ghost var h := mem.cells;
    NotNull(h, c);
    text := Print(mem, x, format, canRealloc, c, v);
    if text == 0 {
      Discard(mem, x, c, h0);
    } else {
      ghost var block := mem.cells[text];
      BesideText(h0, h, mem.cells, text, c);
      Discard(mem, x, c, h0[text := block]);
    }
  }

  lemma NotNull(h: Cells, c: Tree)
    requires View(h, c)
    ensures c.ptr != 0
  {
  }

  lemma BesideText(h0: Cells, h: Cells, h1: Cells, text: Ptr, c: Tree)
    requires NewTree(h0, h, c) && Published(h, h1, text)
    ensures text !in h0 && NewTree(h0[text := h1[text]], h1, c)
  {
    hide Rep, Sep, Foot, Tidy, Plain;
    FootLive(h, c);
    RepIsNode(h, c);
    AgreeExtends(h, h1, c);
    Frame(h, h1, c);
  }

  /** Reading a text and writing it again, the tree in between deleted. When every request is granted it
      works exactly for the documents whose text fits an `int`; the new text is that of the tree read,
      it reads as the same tree, and it is all that is new in the heap. */
  method Reformat(mem: Memory, value: bytes, requireTerminator: bool, format: bool, canRealloc: bool)
    returns (text: Ptr)
    requires var r := Document(value, requireTerminator); r.Ok? ==> Printable(r.value)
    modifies mem
    ensures var r := Document(value, requireTerminator);
      && (mem.GrantedSince(old(mem.requests)) ==>
            (text != 0 <==> r.Ok? && |Render(r.value, format, 0)| + 2 <= INT_MAX))
      && (text == 0 ==> mem.cells == old(mem.cells))
      && (text != 0 ==>
            && r.Ok? && Published(old(mem.cells), mem.cells, text)
            && mem.cells[text].content == Render(r.value, format, 0) + [0]
            && Document(mem.cells[text].content, true) == Ok(r.value, |Render(r.value, format, 0)|))
  {
    hide View, Known, Value, Printable, Render, NewTree, Plain, Sound, Document, Detached, Published;
    ghost var h := mem.cells;
    var item, end;
    ghost var t;
    item, end, t := Parse(mem, value, requireTerminator);
    text := 0;
    if item != 0 {
      ghost var v := Value(mem.cells, t);
      PlainView(mem.cells, t) by {
        NewIsRep(h, mem.cells, t);
      }
      SoundKnown(mem.cells, t);
      ReadBack(value, requireTerminator, v, format);
      text := PrintOut(mem, item, format, canRealloc, t, v, h);
    }
  }

  lemma NewIsRep(h0: Cells, h: Cells, t: Tree)
    requires NewTree(h0, h, t)
    ensures Rep(h, t)
  {
  }

  /** What the parser accepted can be printed and parsed again. */
  lemma ReadBack(s: bytes, requireTerminator: bool, v: Json, format: bool)
    requires var r := Document(s, requireTerminator); r.Ok? && r.value == v && Printable(v)
    ensures Document(Render(v, format, 0) + [0], true) == Ok(v, |Render(v, format, 0)|)
  {
    hide Render, ValueAt, Skip, Printable, RawFree, Nesting;
    DocumentNesting(s, requireTerminator);
    DocumentRoundTrip(v, format);
  }

  lemma DocumentNesting(s: bytes, requireTerminator: bool)
    requires Document(s, requireTerminator).Ok?
    ensures var v := Document(s, requireTerminator).value; RawFree(v) && Nesting(v) <= NESTING_LIMIT
  {
    hide ValueAt, Skip, RawFree, Nesting;
    ValueNesting(s, Skip(s, BomEnd(s)), 0);
  }
}
