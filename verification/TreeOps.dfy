/** Deletion and deep copy of cJSON trees in the C heap. Deleting frees exactly what a tree owns; a copy
    is made from what the pointers show, shared nodes and cycles included, owns all it consists of, and
    is freed again when the copying fails. */
module TreeOps {
  import opened Bytes
  import opened JsonTree
  import opened CHeap
  import opened CHeapFacts

  // ---------------------------------------------------------------- deletion

  lemma DeletedPrefix(ts: seq<Tree>, i: nat)
    requires i < |ts|
    ensures FootAll(ts[..i + 1]) == FootAll(ts[..i]) + Foot(ts[i])
  {
    assert ts[..i + 1] == ts[..i] + [ts[i]];
    FootAllAppend(ts[..i], ts[i]);
  }

  lemma {:induction false} PrefixDisjoint(ts: seq<Tree>, i: nat)
    requires SepAll(ts) && i < |ts|
    ensures Sep(ts[i]) && FootAll(ts[..i]) !! Foot(ts[i])
    decreases |ts|
  {
    if i < |ts| - 1 {
      PrefixDisjoint(ts[..|ts| - 1], i);
      assert ts[..|ts| - 1][..i] == ts[..i];
    }
  }

  /** After the trees before `i` are gone, tree `i` is still there. */
  lemma StillThere(h: Cells, h': Cells, ts: seq<Tree>, i: nat)
    requires RepAll(h, ts) && SepAll(ts) && i < |ts|
    requires h' == h - FootAll(ts[..i])
    ensures Rep(h', ts[i]) && Sep(ts[i]) && ts[i].ptr in h' && h'[ts[i].ptr] == h[ts[i].ptr]
  {
    hide FootAll, SepAll, Foot, Sep, Shell;
    PrefixDisjoint(ts, i);
    FootLive(h, ts[i]);
    Frame(h, h', ts[i]);
  }

  /** `cJSON_Delete`: frees a chain of siblings, exactly what its trees own, each address once. */
  method Delete(mem: Memory, item: Ptr, ghost ts: seq<Tree>)
    requires item == First(ts) && RepAll(mem.cells, ts) && SepAll(ts)
    modifies mem`cells
    ensures mem.cells == old(mem.cells) - FootAll(ts)
    decreases ts, 1
  {
    hide Rep, Foot, FootAll, Sep, SepAll;
    ghost var h := mem.cells;
    var p := item;
    ghost var i := 0;
    assert FootAll(ts[..0]) == {} by { EmptyFoot(); }
    while p != 0
      invariant i <= |ts| && p == PtrAt(ts, i)
      invariant mem.cells == h - FootAll(ts[..i])
      decreases |ts| - i
    {
      StillThere(h, mem.cells, ts, i);
      PtrAtNull(h, ts, i);
      var next := mem.cells[p].node.next;
      DeleteNode(mem, p, ts[i]);
      DeletedPrefix(ts, i);
      p, i := next, i + 1;
    }
    PtrAtNull(h, ts, i);
    assert ts[..i] == ts;
  }

  lemma EmptyFoot()
    ensures FootAll([]) == {} && SepAll([])
  {
  }

  lemma ChildOf(h: Cells, ts: seq<Tree>)
    requires RepAll(h, ts)
    ensures First(ts) == 0 <==> ts == []
  {
    PtrAtNull(h, ts, 0);
  }

  /** What a node owns, part by part. */
  lemma NodeParts(h: Cells, t: Tree)
    requires Rep(h, t) && Sep(t)
    ensures Shell(h, t) && RepAll(h, t.kids) && SepAll(t.kids)
    ensures t.ptr != t.text && t.ptr != t.name && (t.text == t.name ==> t.text == 0)
    ensures {t.ptr, t.text, t.name} !! FootAll(t.kids)
    ensures Foot(t) == FootAll(t.kids) + ({t.ptr, t.text, t.name} - {0})
  {
    hide FootAll, SepAll, Chain, Shell;
  }

  /** One turn of the loop: children, strings, node. */
  method DeleteNode(mem: Memory, p: Ptr, ghost t: Tree)
    requires p == t.ptr && Rep(mem.cells, t) && Sep(t)
    modifies mem`cells
    ensures mem.cells == old(mem.cells) - Foot(t)
    decreases t, 0
  {
    hide Foot, FootAll, Sep, SepAll, Rep, RepAll;
    ghost var h := mem.cells;
    NodeParts(h, t);
    ChildOf(h, t.kids);
    var n := mem.cells[p].node;
    if !n.isReference && n.child != 0 {
      Delete(mem, n.child, t.kids);
    } else {
      EmptyFoot();
    }
    assert mem.cells == h - FootAll(t.kids);
    if !n.isReference && n.text != 0 {
      mem.Free(n.text);
    }
    if !n.constName && n.name != 0 {
      mem.Free(n.name);
    }
    mem.Free(p);
    assert mem.cells == h - Foot(t);
  }

  // ---------------------------------------------------------------- deep copy

  /** A read-only view of a tree: the full unfolding of the pointers, whoever owns them. Subtrees
      may be shared, as references do. */
  ghost predicate View(h: Cells, t: Tree) {
    && IsNode(h, t.ptr)
    && var n := h[t.ptr].node;
    && n.child == First(t.kids) && n.text == t.text && n.name == t.name
    && (t.text != 0 ==> IsBlock(h, t.text))
    && (t.name != 0 ==> IsBlock(h, t.name))
    && Chain(h, t.kids)
    && forall i :: 0 <= i < |t.kids| ==> View(h, t.kids[i])
  }

  lemma {:induction false} ViewExtends(h: Cells, h': Cells, t: Tree)
    requires View(h, t) && Extends(h, h')
    ensures View(h', t) && MemberOf(h', t) == MemberOf(h, t)
    decreases t
  {
    hide Chain, Value, MemberOf, Extends;
    forall i | 0 <= i < |t.kids|
      ensures View(h', t.kids[i]) && MemberOf(h', t.kids[i]) == MemberOf(h, t.kids[i])
    {
      ViewExtends(h, h', t.kids[i]);
    }
    ValuesSame(h, h', t.kids);
    ViewRootExtends(h, h', t);
  }

  lemma ViewRootExtends(h: Cells, h': Cells, t: Tree)
    requires View(h, t) && Extends(h, h')
    requires Values(h', t.kids) == Values(h, t.kids) && Members(h', t.kids) == Members(h, t.kids)
    ensures IsNode(h', t.ptr) && h'[t.ptr] == h[t.ptr] && Chain(h', t.kids)
    ensures (t.text != 0 ==> IsBlock(h', t.text)) && (t.name != 0 ==> IsBlock(h', t.name))
    ensures MemberOf(h', t) == MemberOf(h, t)
  {
    hide Values, Members, View, CString;
    ViewRoot(h, t);
  }

  lemma ViewKid(h: Cells, v: Tree, k: nat)
    requires View(h, v) && k < |v.kids|
    ensures View(h, v.kids[k])
  {
  }

  /** Node and strings of `t` are live. */
  ghost predicate BackedNode(h: Cells, t: Tree) {
    && IsNode(h, t.ptr)
    && var n := h[t.ptr].node;
    && n.text == t.text && n.name == t.name
    && (t.text != 0 ==> IsBlock(h, t.text)) && (t.name != 0 ==> IsBlock(h, t.name))
  }

  /** So are those of everything below. */
  ghost predicate Backed(h: Cells, t: Tree) {
    BackedNode(h, t) && forall i :: 0 <= i < |t.kids| ==> Backed(h, t.kids[i])
  }

  /** `t` is the unfolding of the pointers down to level `n`, where it is cut off. Child pointers may
      form a cycle; every list of siblings ends. */
  ghost predicate Unfolds(h: Cells, t: Tree, n: nat)
    decreases n
  {
    && BackedNode(h, t)
    && if n == 0 then t.kids == []
       else
         && h[t.ptr].node.child == First(t.kids) && Chain(h, t.kids)
         && forall i :: 0 <= i < |t.kids| ==> Unfolds(h, t.kids[i], n - 1)
  }

  lemma {:induction false} UnfoldsBacked(h: Cells, t: Tree, n: nat)
    requires Unfolds(h, t, n)
    ensures Backed(h, t)
    decreases n
  {
    hide BackedNode, Chain;
    forall i | 0 <= i < |t.kids| ensures Backed(h, t.kids[i]) {
      UnfoldsBacked(h, t.kids[i], n - 1);
    }
  }

  lemma UnfoldsRoot(h: Cells, t: Tree, n: nat)
    requires Unfolds(h, t, n)
    ensures BackedNode(h, t) && (n == 0 ==> t.kids == [])
    ensures n > 0 ==> h[t.ptr].node.child == First(t.kids) && Chain(h, t.kids)
    ensures forall i :: 0 <= i < |t.kids| ==> n > 0 && Unfolds(h, t.kids[i], n - 1)
  {
  }

  lemma {:induction false} UnfoldsExtends(h: Cells, h': Cells, t: Tree, n: nat)
    requires Unfolds(h, t, n) && Extends(h, h')
    ensures Unfolds(h', t, n)
    decreases n
  {
    hide Chain, BackedNode, Extends;
    UnfoldsRoot(h, t, n);
    NodeExtends(h, h', t);
    forall i | 0 <= i < |t.kids| ensures Unfolds(h', t.kids[i], n - 1) {
      UnfoldsExtends(h, h', t.kids[i], n - 1);
    }
  }

  lemma NodeExtends(h: Cells, h': Cells, t: Tree)
    requires BackedNode(h, t) && Extends(h, h')
    ensures BackedNode(h', t) && IsNode(h, t.ptr) && IsNode(h', t.ptr) && h'[t.ptr] == h[t.ptr]
    ensures Chain(h, t.kids) ==> Chain(h', t.kids)
  {
  }

  /** The unfolding of a node that is its own child. */
  ghost function Spiral(h: Cells, x: Ptr, n: nat): Tree
    requires IsNode(h, x)
  {
    Tree(x, h[x].node.text, h[x].node.name, if n == 0 then [] else [Spiral(h, x, n - 1)])
  }

  /** It can be unfolded to any level and never ends, so that duplicating it always fails. */
  lemma {:induction false} SpiralUnfolds(h: Cells, x: Ptr, n: nat)
    requires IsNode(h, x) && h[x].node.child == x && h[x].node.next == 0
    requires h[x].node.text != 0 ==> IsBlock(h, h[x].node.text)
    requires h[x].node.name != 0 ==> IsBlock(h, h[x].node.name)
    ensures Unfolds(h, Spiral(h, x, n), n) && !View(h, Spiral(h, x, n))
  {
    if n > 0 {
      SpiralUnfolds(h, x, n - 1);
      assert Spiral(h, x, n).kids[0] == Spiral(h, x, n - 1);
    }
  }

  /** The node `k` steps along the `next` links, or NULL. */
  ghost function Sibling(h: Cells, first: Ptr, k: nat): Ptr {
    if k == 0 then first
    else
      var p := Sibling(h, first, k - 1);
      if IsNode(h, p) then h[p].node.next else 0
  }

  /** `q` is in the child list of `p`. */
  ghost predicate ListedUnder(h: Cells, p: Ptr, q: Ptr) {
    IsNode(h, p) && q != 0 && exists k: nat :: q == Sibling(h, h[p].node.child, k)
  }

  /** A way down through child lists. */
  ghost predicate Descends(h: Cells, path: seq<Ptr>) {
    path != [] && forall k :: 0 < k < |path| ==> ListedUnder(h, path[k - 1], path[k])
  }

  lemma {:induction false} SiblingIsKid(h: Cells, t: Tree, k: nat)
    requires View(h, t)
    ensures Sibling(h, h[t.ptr].node.child, k) == PtrAt(t.kids, k)
    decreases k
  {
    hide View;
    ViewRoot(h, t);
    if k > 0 {
      SiblingIsKid(h, t, k - 1);
      if k - 1 < |t.kids| {
        PtrAtNull(h, t.kids, k - 1);
      }
    }
  }

  /** No way down is longer than the tree is high. */
  lemma {:induction false} DescentBound(h: Cells, t: Tree, path: seq<Ptr>)
    requires View(h, t) && Descends(h, path) && path[0] == t.ptr
    ensures |path| <= Height(t) + 1
    decreases |path|
  {
    hide View, ListedUnder;
    if |path| > 1 {
      assert ListedUnder(h, path[0], path[1]);
      var k := KidBelow(h, t, path[1]);
      ViewKid(h, t, k);
      var rest := path[1..];
      assert Descends(h, rest) by {
        forall j | 0 < j < |rest| ensures ListedUnder(h, rest[j - 1], rest[j]) {
          assert rest[j - 1] == path[j] && rest[j] == path[j + 1];
        }
      }
      DescentBound(h, t.kids[k], rest);
      HeightKid(t, k);
    }
  }

  lemma KidBelow(h: Cells, t: Tree, q: Ptr) returns (k: nat)
    requires View(h, t) && ListedUnder(h, t.ptr, q)
    ensures k < |t.kids| && t.kids[k].ptr == q
  {
    k :| q == Sibling(h, h[t.ptr].node.child, k);
    SiblingIsKid(h, t, k);
  }

  /** Going round a cycle `n` times more. */
  ghost function Rounds(path: seq<Ptr>, i: nat, j: nat, n: nat): seq<Ptr>
    requires i < j < |path|
  {
    if n == 0 then path[..j + 1] else Rounds(path, i, j, n - 1) + path[i + 1..j + 1]
  }

  lemma {:induction false} RoundsDescend(h: Cells, path: seq<Ptr>, i: nat, j: nat, n: nat)
    requires Descends(h, path) && i < j < |path| && path[i] == path[j]
    ensures var r := Rounds(path, i, j, n);
      Descends(h, r) && |r| > n && r[0] == path[0] && r[|r| - 1] == path[j]
    decreases n
  {
    hide ListedUnder;
    if n > 0 {
      RoundsDescend(h, path, i, j, n - 1);
      var a, b := Rounds(path, i, j, n - 1), path[i + 1..j + 1];
      forall k | 0 < k < |a + b| ensures ListedUnder(h, (a + b)[k - 1], (a + b)[k]) {
        if k < |a| {
          assert ListedUnder(h, a[k - 1], a[k]);
        } else {
          assert (a + b)[k] == path[i + 1 + (k - |a|)] && (a + b)[k - 1] == path[i + (k - |a|)];
        }
      }
    }
  }

  /** An item from which child lists lead into a cycle has no complete unfolding, so that duplicating
      it always fails. */
  lemma CycleHasNoView(h: Cells, t: Tree, path: seq<Ptr>, i: nat, j: nat)
    requires Descends(h, path) && path[0] == t.ptr && i < j < |path| && path[i] == path[j]
    ensures !View(h, t)
  {
    if View(h, t) {
      RoundsDescend(h, path, i, j, Height(t) + 1);
      DescentBound(h, t, Rounds(path, i, j, Height(t) + 1));
    }
  }

  /** A complete unfolding was complete before the heap grew. */
  lemma {:induction false} ViewShrinks(h: Cells, h': Cells, t: Tree)
    requires Backed(h, t) && Extends(h, h') && View(h', t)
    ensures View(h, t)
    decreases t
  {
    forall i | 0 <= i < |t.kids| ensures View(h, t.kids[i]) {
      ViewShrinks(h, h', t.kids[i]);
    }
  }

  /** A tree cut off at level `n`. */
  ghost function Cut(t: Tree, n: nat): Tree {
    t.(kids := if n == 0 then [] else seq(|t.kids|, i requires 0 <= i < |t.kids| => Cut(t.kids[i], n - 1)))
  }

  /** Of a finite tree, the part down to level `n` is everything exactly if there is nothing deeper. */
  lemma {:induction false} CutView(h: Cells, t: Tree, n: nat)
    requires View(h, t)
    ensures Unfolds(h, Cut(t, n), n)
    ensures View(h, Cut(t, n)) <==> Height(t) <= n
    ensures Height(t) <= n ==> Cut(t, n) == t
    decreases n
  {
    hide Chain;
    var c := Cut(t, n);
    ViewRoot(h, t);
    if n == 0 {
      PtrAtNull(h, t.kids, 0);
    } else {
      forall i | 0 <= i < |t.kids|
        ensures Unfolds(h, c.kids[i], n - 1) && (View(h, c.kids[i]) <==> Height(t.kids[i]) <= n - 1)
        ensures Height(t.kids[i]) <= n - 1 ==> c.kids[i] == t.kids[i]
        ensures Height(t.kids[i]) < Height(t) && c.kids[i].ptr == t.kids[i].ptr
      {
        CutView(h, t.kids[i], n - 1);
        HeightKid(t, i);
      }
      SameChain(h, t.kids, c.kids);
      if View(h, c) && t.kids != [] {
        HeightBound(t.kids, n - 1);
      }
      if Height(t) <= n {
        assert c.kids == t.kids;
      }
    }
  }

  lemma SameChain(h: Cells, ts: seq<Tree>, us: seq<Tree>)
    requires Chain(h, ts) && |us| == |ts| && forall i :: 0 <= i < |ts| ==> us[i].ptr == ts[i].ptr
    ensures Chain(h, us) && First(us) == First(ts)
  {
  }

  lemma BackedRoot(h: Cells, t: Tree)
    requires Backed(h, t)
    ensures BackedNode(h, t)
  {
  }

  lemma BackedKid(h: Cells, t: Tree, i: nat)
    requires Backed(h, t) && i < |t.kids|
    ensures Backed(h, t.kids[i])
  {
  }

  ghost function Size(t: Tree): nat {
    1 + SizeAll(t.kids)
  }

  ghost function SizeAll(ts: seq<Tree>): nat {
    if ts == [] then 0 else SizeAll(ts[..|ts| - 1]) + Size(ts[|ts| - 1])
  }

  lemma {:induction false} SizeIndex(ts: seq<Tree>, i: nat)
    requires i < |ts|
    ensures Size(ts[i]) <= SizeAll(ts)
    decreases |ts|
  {
    if i < |ts| - 1 {
      SizeIndex(ts[..|ts| - 1], i);
    }
  }

  lemma {:induction false} SizePrefix(ts: seq<Tree>, i: nat)
    requires i < |ts|
    ensures SizeAll(ts[..i + 1]) == SizeAll(ts[..i]) + Size(ts[i])
    ensures SizeAll(ts[..i + 1]) <= SizeAll(ts)
    decreases |ts|
  {
    if i < |ts| - 1 {
      SizePrefix(ts[..|ts| - 1], i);
      assert ts[..|ts| - 1][..i + 1] == ts[..i + 1] && ts[..|ts| - 1][..i] == ts[..i];
    } else {
      assert ts[..i + 1] == ts && ts[..i] == ts[..|ts| - 1];
    }
  }

  /** Levels below the root. */
  ghost function Height(t: Tree): nat {
    if t.kids == [] then 0 else 1 + HeightAll(t.kids)
  }

  ghost function HeightAll(ts: seq<Tree>): nat {
    if ts == [] then 0 else Max(HeightAll(ts[..|ts| - 1]), Height(ts[|ts| - 1]))
  }

  lemma {:induction false} HeightIndex(ts: seq<Tree>, i: nat)
    requires i < |ts|
    ensures Height(ts[i]) <= HeightAll(ts)
    decreases |ts|
  {
    if i < |ts| - 1 {
      HeightIndex(ts[..|ts| - 1], i);
    }
  }

  /** Same node data at `q` in `h'` as at `p` in `h`, with the reference flag cleared. */
  ghost predicate SameData(h: Cells, p: Ptr, h': Cells, q: Ptr) {
    && IsNode(h, p) && IsNode(h', q)
    && var m, n := h[p].node, h'[q].node;
    && n == m.(isReference := false, child := n.child, next := n.next, prev := n.prev, text := n.text, name := n.name)
    && (n.text == 0 <==> m.text == 0) && (n.name == 0 <==> m.name == 0)
    && (n.constName ==> n.name == m.name)
    && StringOf(h', n.text) == StringOf(h, m.text) && StringOf(h', n.name) == StringOf(h, m.name)
  }

  ghost predicate CopyOf(h: Cells, v: Tree, h': Cells, c: Tree) {
    && SameData(h, v.ptr, h', c.ptr)
    && |c.kids| == |v.kids|
    && forall i :: 0 <= i < |v.kids| ==> CopyOf(h, v.kids[i], h', c.kids[i])
  }

  /** A copy stands for the same value. */
  lemma {:induction false} CopyValue(h: Cells, v: Tree, h': Cells, c: Tree)
    requires CopyOf(h, v, h', c)
    ensures MemberOf(h', c) == MemberOf(h, v)
    decreases v
  {
    hide MemberOf, Values, Members, SameData;
    forall i | 0 <= i < |v.kids| ensures MemberOf(h', c.kids[i]) == MemberOf(h, v.kids[i]) {
      CopyValue(h, v.kids[i], h', c.kids[i]);
    }
    CopyValues(h, v.kids, h', c.kids);
    CopyRoot(h, v, h', c);
  }

  lemma CopyRoot(h: Cells, v: Tree, h': Cells, c: Tree)
    requires SameData(h, v.ptr, h', c.ptr) && Values(h', c.kids) == Values(h, v.kids)
    requires Members(h', c.kids) == Members(h, v.kids)
    ensures MemberOf(h', c) == MemberOf(h, v)
  {
    hide Values, Members, StringOf;
  }

  lemma {:induction false} CopyValues(h: Cells, vs: seq<Tree>, h': Cells, cs: seq<Tree>)
    requires |cs| == |vs| && forall i :: 0 <= i < |vs| ==> MemberOf(h', cs[i]) == MemberOf(h, vs[i])
    ensures Values(h', cs) == Values(h, vs) && Members(h', cs) == Members(h, vs)
    decreases |vs|
  {
    if vs != [] {
      CopyValues(h, vs[..|vs| - 1], h', cs[..|cs| - 1]);
      assert MemberOf(h', cs[|cs| - 1]).value == MemberOf(h, vs[|vs| - 1]).value;
    }
  }

  lemma CStringTerminated(s: bytes)
    ensures CString(CString(s) + [0]) == CString(s)
  {
    var t := CString(s);
    CStringOfPrefix(t, [0]);
    CStringNulFree(t);
  }

  /** `cJSON_strdup` of a non-NULL string. */
  method Strdup(mem: Memory, p: Ptr) returns (q: Ptr)
    requires IsBlock(mem.cells, p)
    modifies mem
    ensures mem.requests == old(mem.requests) + 1 && mem.Refused() >= old(mem.Refused())
    ensures q == 0 ==> mem.Refused() > old(mem.Refused()) && mem.cells == old(mem.cells)
    ensures q != 0 ==> q !in old(mem.cells) && mem.cells.Keys == old(mem.cells.Keys) + {q}
    ensures q != 0 ==>
      Extends(old(mem.cells), mem.cells) && IsBlock(mem.cells, q) && mem.Refused() == old(mem.Refused())
    ensures q != 0 ==> StringOf(mem.cells, q) == StringOf(old(mem.cells), p)
  {
    var content := mem.cells[p].content;
    CStringTerminated(content);
    q := mem.Allocate(Block(CString(content) + [0]));
  }

  /** `t` is new since `h0`, and is everything new. */
  ghost predicate NewTree(h0: Cells, h: Cells, t: Tree) {
    && Rep(h, t) && Sep(t)
    && Foot(t) !! h0.Keys && h.Keys == h0.Keys + Foot(t) && Extends(h0, h)
    && h[t.ptr].node.next == 0
  }

  /** `cJSON_Delete` of a new tree takes the heap back to where it was. */
  method Discard(mem: Memory, x: Ptr, ghost t: Tree, ghost h0: Cells)
    requires x == t.ptr && NewTree(h0, mem.cells, t)
    modifies mem`cells
    ensures mem.cells == h0
  {
    hide Rep, Sep, Foot;
    FootAllAppend([], t);
    EmptyFoot();
    assert [] + [t] == [t];
    RepIsNode(mem.cells, t);
    Delete(mem, x, [t]);
  }

  lemma NewLeaf(h0: Cells, h: Cells, t: Tree)
    requires t.kids == [] && t.ptr != 0 && t.ptr !in h0
    requires t.text != 0 ==> t.text !in h0 && t.text != t.ptr && IsBlock(h, t.text)
    requires t.name != 0 ==> t.name !in h0 && t.name != t.ptr && t.name != t.text && IsBlock(h, t.name)
    requires h.Keys == h0.Keys + ({t.ptr, t.text, t.name} - {0}) && Extends(h0, h)
    requires IsNode(h, t.ptr) && h[t.ptr].node.next == 0 && h[t.ptr].node.child == 0 && !h[t.ptr].node.isReference
    requires h[t.ptr].node.text == t.text
    requires if h[t.ptr].node.constName then t.name == 0 else h[t.ptr].node.name == t.name
    ensures NewTree(h0, h, t)
  {
    EmptyFoot();
    assert Foot(t) == {t.ptr, t.text, t.name} - {0};
  }

  lemma ViewRoot(h: Cells, v: Tree)
    requires View(h, v)
    ensures IsNode(h, v.ptr)
    ensures var n := h[v.ptr].node; n.text == v.text && n.name == v.name && n.child == First(v.kids)
    ensures (v.text != 0 ==> IsBlock(h, v.text)) && (v.name != 0 ==> IsBlock(h, v.name)) && Chain(h, v.kids)
  {
  }

  /** The node-local part of `cJSON_Duplicate_rec`: a childless copy, or nothing at all. */
  method DuplicateNode(mem: Memory, item: Ptr, ghost v: Tree) returns (x: Ptr, ghost t: Tree)
    requires BackedNode(mem.cells, v) && item == v.ptr
    modifies mem
    ensures old(mem.requests) <= mem.requests <= old(mem.requests) + 3 && mem.Refused() >= old(mem.Refused())
    ensures x == 0 ==> mem.Refused() > old(mem.Refused()) && mem.cells == old(mem.cells)
    ensures x != 0 ==> NewTree(old(mem.cells), mem.cells, t) && t.ptr == x && t.kids == []
    ensures x != 0 ==> SameData(old(mem.cells), item, mem.cells, x) && mem.Refused() == old(mem.Refused())
    ensures x != 0 ==> mem.cells[x].node.child == 0 && mem.cells[x].node.prev == 0
  {
    hide Refusals, NewTree, StringOf;
    ghost var h := mem.cells;
    var n := mem.cells[item].node;
    x := mem.Allocate(NodeCell(BLANK));
    t := Tree(x, 0, 0, []);
    if x == 0 {
      return;
    }
    var copy := BLANK.(kind := n.kind, valueint := n.valueint, valuedouble := n.valuedouble, constName := n.constName);
    mem.Store(x, copy);
    NewLeaf(h, mem.cells, t);
    var ok;
    ok, copy, t := CopyText(mem, x, n, copy, t, h);
    if ok {
      ok, copy, t := CopyName(mem, x, n, copy, t, h);
    }
    if !ok {
      x := 0;
    }
  }

  /** A copy under construction: a childless node that holds `copy`. */
  ghost predicate Leaf(h0: Cells, h: Cells, t: Tree, copy: Node) {
    && NewTree(h0, h, t) && t.kids == []
    && IsNode(h, t.ptr) && h[t.ptr].node == copy && copy.child == 0 && copy.prev == 0 && !copy.isReference
  }

  method CopyText(mem: Memory, x: Ptr, n: Node, copy: Node, ghost t: Tree, ghost h: Cells)
    returns (ok: bool, copy': Node, ghost t': Tree)
    requires Leaf(h, mem.cells, t, copy) && x == t.ptr && t.text == 0 && t.name == 0 && copy.text == 0 && copy.name == 0
    requires n.text != 0 ==> IsBlock(h, n.text)
    modifies mem
    ensures old(mem.requests) <= mem.requests <= old(mem.requests) + 1 && mem.Refused() >= old(mem.Refused())
    ensures !ok ==> mem.Refused() > old(mem.Refused()) && mem.cells == h
    ensures ok ==> Leaf(h, mem.cells, t', copy') && t' == t.(text := copy'.text) && copy' == copy.(text := copy'.text)
    ensures ok ==> mem.Refused() == old(mem.Refused())
    ensures ok ==> (copy'.text == 0 <==> n.text == 0) && StringOf(mem.cells, copy'.text) == StringOf(h, n.text)
  {
    ok, copy', t' := true, copy, t;
    if n.text != 0 {
      var text := Strdup(mem, n.text);
      if text == 0 {
        Discard(mem, x, t, h);
        return false, copy, t;
      }
      copy' := copy.(text := text);
      mem.Store(x, copy');
      t' := t.(text := text);
      NewLeaf(h, mem.cells, t');
    }
  }

  method CopyName(mem: Memory, x: Ptr, n: Node, copy: Node, ghost t: Tree, ghost h: Cells)
    returns (ok: bool, copy': Node, ghost t': Tree)
    requires Leaf(h, mem.cells, t, copy) && x == t.ptr && t.text == copy.text && t.name == 0 && copy.name == 0
    requires (n.name != 0 ==> IsBlock(h, n.name)) && copy.constName == n.constName
    modifies mem
    ensures old(mem.requests) <= mem.requests <= old(mem.requests) + 1 && mem.Refused() >= old(mem.Refused())
    ensures !ok ==> mem.Refused() > old(mem.Refused()) && mem.cells == h
    ensures ok ==> Leaf(h, mem.cells, t', copy') && t' == t.(name := t'.name) && copy' == copy.(name := copy'.name)
    ensures ok ==> mem.Refused() == old(mem.Refused())
    ensures ok ==> (copy'.name == 0 <==> n.name == 0) && StringOf(mem.cells, copy'.name) == StringOf(h, n.name)
    ensures ok ==>
      (n.constName ==> copy'.name == n.name) && StringOf(mem.cells, copy.text) == StringOf(old(mem.cells), copy.text)
  {
    ok, copy', t' := true, copy, t;
    if n.name != 0 {
      var name := n.name;
      if !n.constName {
        name := Strdup(mem, n.name);
        if name == 0 {
          Discard(mem, x, t, h);
          return false, copy, t;
        }
        t' := t.(name := name);
      }
      copy' := copy.(name := name);
      mem.Store(x, copy');
      NewLeaf(h, mem.cells, t');
    }
  }

  /** A copy survives changes elsewhere. */
  lemma {:induction false} CopyFrame(h0: Cells, v: Tree, h: Cells, h': Cells, c: Tree)
    requires Backed(h0, v) && CopyOf(h0, v, h, c) && Rep(h, c) && Sep(c) && Agree(h, h', c)
    requires Extends(h0, h) && Extends(h0, h')
    ensures CopyOf(h0, v, h', c)
    decreases c
  {
    hide Shell, Chain, SameData, Foot, Sep, Agree, Extends;
    forall i | 0 <= i < |c.kids| ensures CopyOf(h0, v.kids[i], h', c.kids[i]) {
      FrameKid(h, h', c, i);
      CopyFrame(h0, v.kids[i], h, h', c.kids[i]);
    }
    CopyFrameRoot(h0, v, h, h', c);
  }

  lemma CopyFrameRoot(h0: Cells, v: Tree, h: Cells, h': Cells, c: Tree)
    requires Backed(h0, v) && SameData(h0, v.ptr, h, c.ptr) && Shell(h, c) && Sep(c) && Agree(h, h', c)
    requires Extends(h0, h) && Extends(h0, h')
    ensures SameData(h0, v.ptr, h', c.ptr)
  {
    hide Backed, CString;
    BackedRoot(h0, v);
  }

  /** A copy made from a grown heap is a copy of the original. */
  lemma {:induction false} CopySource(h0: Cells, h1: Cells, v: Tree, h: Cells, c: Tree)
    requires Backed(h0, v) && Extends(h0, h1) && CopyOf(h1, v, h, c)
    ensures CopyOf(h0, v, h, c)
    decreases v
  {
    hide SameData, Extends;
    forall i | 0 <= i < |v.kids| ensures CopyOf(h0, v.kids[i], h, c.kids[i]) {
      CopySource(h0, h1, v.kids[i], h, c.kids[i]);
    }
    CopySourceRoot(h0, h1, v, h, c);
  }

  lemma CopySourceRoot(h0: Cells, h1: Cells, v: Tree, h: Cells, c: Tree)
    requires Backed(h0, v) && Extends(h0, h1) && SameData(h1, v.ptr, h, c.ptr)
    ensures SameData(h0, v.ptr, h, c.ptr)
  {
    hide Backed, CString;
    BackedRoot(h0, v);
  }

  /** The copy of `v` while its children are walked: `i` of them are done. */
  ghost predicate Building(h0: Cells, h: Cells, v: Tree, t: Tree, i: nat) {
    && NewTree(h0, h, t) && SameData(h0, v.ptr, h, t.ptr) && h[t.ptr].node.prev == 0
    && |t.kids| == i <= |v.kids| && Growing(h, t.kids)
    && forall k :: 0 <= k < i ==> CopyOf(h0, v.kids[k], h, t.kids[k])
  }

  /** The heap after a finished child is hung in. */
  function HangIn(h: Cells, x: Ptr, tail: Ptr, c: Ptr): Cells
    requires x in h && h[x].NodeCell? && c in h && h[c].NodeCell? && (tail == 0 || (tail in h && h[tail].NodeCell?))
  {
    if tail == 0 then h[x := NodeCell(h[x].node.(child := c))] else LinkTail(h, tail, c)
  }

  function Tail(ts: seq<Tree>): Ptr {
    if ts == [] then 0 else ts[|ts| - 1].ptr
  }

  lemma TailIsNode(h: Cells, ts: seq<Tree>)
    requires Chain(h, ts)
    ensures Tail(ts) == 0 <==> ts == []
    ensures ts != [] ==> IsNode(h, Tail(ts)) && Tail(ts) == ts[|ts| - 1].ptr
  {
    if ts != [] {
      assert IsNode(h, ts[|ts| - 1].ptr);
    }
  }

  /** Making the next copy leaves what is built so far intact. */
  lemma BuildingExtends(h0: Cells, h1: Cells, h2: Cells, v: Tree, t: Tree, i: nat)
    requires Backed(h0, v) && Building(h0, h1, v, t, i) && Extends(h1, h2)
    ensures Rep(h2, t) && Growing(h2, t.kids) && SameData(h0, v.ptr, h2, t.ptr) && h2[t.ptr] == h1[t.ptr]
    ensures Extends(h0, h2) && forall k :: 0 <= k < i ==> CopyOf(h0, v.kids[k], h2, t.kids[k])
  {
    hide Backed, Foot, Sep, SameData, CopyOf, Rep, Agree, Growing;
    AgreeExtends(h1, h2, t);
    Frame(h1, h2, t);
    GrowingExtends(h1, h2, t.kids);
    CopiesExtend(h0, h1, h2, v, t, i);
    RepShell(h1, t);
    CopyFrameRoot(h0, v, h1, h2, t);
  }

  lemma CopiesExtend(h0: Cells, h1: Cells, h2: Cells, v: Tree, t: Tree, i: nat)
    requires Backed(h0, v) && Building(h0, h1, v, t, i) && Extends(h1, h2)
    ensures forall k :: 0 <= k < i ==> CopyOf(h0, v.kids[k], h2, t.kids[k])
  {
    hide Backed, Foot, SameData, CopyOf, Agree;
    forall k | 0 <= k < i ensures CopyOf(h0, v.kids[k], h2, t.kids[k]) {
      BackedKid(h0, v, k);
      SepAllIndex(t.kids, k, k);
      AgreeExtends(h1, h2, t.kids[k]);
      CopyFrame(h0, v.kids[k], h1, h2, t.kids[k]);
    }
  }

  lemma RepShell(h: Cells, t: Tree)
    requires Rep(h, t)
    ensures Shell(h, t)
  {
  }

  /** What is known just before child `c` is hung in below `t`. */
  ghost predicate Ready(h0: Cells, h: Cells, v: Tree, t: Tree, c: Tree, i: nat) {
    && Backed(h0, v) && Extends(h0, h) && i < |v.kids| && |t.kids| == i
    && Rep(h, t) && Sep(t) && Foot(t) !! h0.Keys && Growing(h, t.kids)
    && SameData(h0, v.ptr, h, t.ptr) && h[t.ptr].node.next == 0 && h[t.ptr].node.prev == 0
    && Detached(h, c) && Foot(c) !! h0.Keys && Foot(c) !! Foot(t)
    && h.Keys == h0.Keys + Foot(t) + Foot(c)
    && (forall k :: 0 <= k < i ==> CopyOf(h0, v.kids[k], h, t.kids[k])) && CopyOf(h0, v.kids[i], h, c)
  }

  /** What the two cases of hanging in share. */
  ghost predicate Hanging(h: Cells, h': Cells, t: Tree, c: Tree) {
    && Rep(h, t) && Sep(t) && Growing(h, t.kids) && Detached(h, c) && Foot(c) !! Foot(t)
    && IsNode(h, t.ptr) && IsNode(h, c.ptr)
    && (t.kids != [] ==> IsNode(h, Tail(t.kids)) && Tail(t.kids) == t.kids[|t.kids| - 1].ptr)
    && h' == HangIn(h, t.ptr, Tail(t.kids), c.ptr)
  }

  /** What they change. */
  ghost predicate HungIn(h: Cells, h': Cells, t: Tree, c: Tree) {
    && Growing(h', t.kids + [c]) && h'.Keys == h.Keys
    && (forall p :: p in h && p !in {t.ptr, c.ptr} + FootAll(t.kids) ==> h'[p] == h[p])
    && IsNode(h, t.ptr) && t.ptr in h' && h'[t.ptr] == NodeCell(h[t.ptr].node.(child := First(t.kids + [c])))
  }

  lemma HangInList(h: Cells, h': Cells, t: Tree, c: Tree)
    requires Hanging(h, h', t, c)
    ensures HungIn(h, h', t, c)
  {
    hide Hanging, HungIn;
    if t.kids == [] {
      HangFirst(h, h', t, c);
    } else {
      HangNext(h, h', t, c);
    }
  }

  lemma HangApart(h: Cells, h': Cells, t: Tree, c: Tree)
    requires Hanging(h, h', t, c)
    ensures FootAll(t.kids) !! Foot(c) && t.ptr !in FootAll(t.kids) && t.ptr !in Foot(c) && c.ptr in Foot(c)
    ensures t.kids != [] ==> Tail(t.kids) in FootAll(t.kids)
    ensures Rep(h, c) && Sep(c) && SepAll(t.kids + [c])
    ensures forall k :: 0 <= k <= |t.kids| ==> Rep(h, (t.kids + [c])[k])
  {
    hide Foot, FootAll, Tidy, SepAll, Sep, HangIn;
    RootApart(t);
    FootLive(h, t);
    FootLive(h, c);
    if t.kids != [] {
      FootAllLive(h, t.kids);
    }
    FootAllAppend(t.kids, c);
  }

  lemma HangFirst(h: Cells, h': Cells, t: Tree, c: Tree)
    requires Hanging(h, h', t, c) && t.kids == []
    ensures HungIn(h, h', t, c)
  {
    hide Foot, FootAll, Tidy, Sep, SepAll, Rep, Detached, Growing, FootAll;
    HangApart(h, h', t, c);
    FootLive(h, c);
    AgreeLinks(h, h', t, c, c);
    Frame(h, h', c);
    DetachedFrame(h, h', c);
    GrowFirst(h', c);
    assert t.kids + [c] == [c];
  }

  lemma DetachedFrame(h: Cells, h': Cells, c: Tree)
    requires Detached(h, c) && Rep(h', c) && (Tidy(h, c) ==> Tidy(h', c)) && c.ptr in h && c.ptr in h'
    requires h'[c.ptr] == h[c.ptr]
    ensures Detached(h', c)
  {
    hide Rep, Sep, Tidy;
  }

  lemma HangNext(h: Cells, h': Cells, t: Tree, c: Tree)
    requires Hanging(h, h', t, c) && t.kids != []
    ensures HungIn(h, h', t, c)
  {
    hide Foot, FootAll, Tidy, Sep, SepAll, Rep, Detached, Growing, FootAll;
    HangApart(h, h', t, c);
    RepShell(h, t);
    Grow(h, h', t.kids, c);
  }

  lemma RootApart(t: Tree)
    requires Sep(t)
    ensures t.ptr !in FootAll(t.kids) && FootAll(t.kids) <= Foot(t)
    ensures t.text !in FootAll(t.kids) && t.name !in FootAll(t.kids)
  {
  }

  lemma HangInRoot(h: Cells, h': Cells, t: Tree, c: Tree)
    requires Hanging(h, h', t, c) && HungIn(h, h', t, c) && !h[t.ptr].node.isReference
    ensures var t' := t.(kids := t.kids + [c]); Rep(h', t') && Sep(t') && Foot(t') == Foot(t) + Foot(c)
  {
    hide Rep, Tidy, Hanging, HungIn, SepAll, Sep;
    HangRootCells(h, h', t, c);
    HangRootSep(h, h', t, c);
  }

  lemma HangRootSep(h: Cells, h': Cells, t: Tree, c: Tree)
    requires Hanging(h, h', t, c)
    ensures var t' := t.(kids := t.kids + [c]); Sep(t') && Foot(t') == Foot(t) + Foot(c)
  {
    hide Tidy, SepAll, Rep, Growing, HangIn, FootAll;
    FootAllAppend(t.kids, c);
    HangApart(h, h', t, c);
    FootLive(h, c);
  }

  lemma HangRootCells(h: Cells, h': Cells, t: Tree, c: Tree)
    requires Hanging(h, h', t, c) && HungIn(h, h', t, c) && !h[t.ptr].node.isReference
    ensures Rep(h', t.(kids := t.kids + [c]))
  {
    hide Tidy, SepAll, FootAll, HangIn, Detached;
    HangApart(h, h', t, c);
    RootApart(t);
    assert t.text != 0 ==> t.text in Foot(t);
    assert t.name != 0 ==> t.name in Foot(t);
  }

  lemma HangInCopies(h0: Cells, h: Cells, h': Cells, v: Tree, t: Tree, c: Tree, i: nat)
    requires Ready(h0, h, v, t, c, i) && Extends(h0, h') && h'.Keys == h.Keys
    requires forall k :: 0 <= k <= i ==> Agree(h, h', (t.kids + [c])[k])
    ensures forall k :: 0 <= k <= i ==> CopyOf(h0, v.kids[k], h', (t.kids + [c])[k])
  {
    hide Backed, Foot, SameData, CopyOf, Agree, SepAll;
    var us := t.kids + [c];
    forall k | 0 <= k <= i ensures CopyOf(h0, v.kids[k], h', us[k]) {
      BackedKid(h0, v, k);
      if k < i {
        SepAllIndex(t.kids, k, k);
      }
      CopyFrame(h0, v.kids[k], h, h', us[k]);
    }
  }

  lemma HangInAgree(h: Cells, h': Cells, t: Tree, c: Tree)
    requires Hanging(h, h', t, c)
    ensures forall k :: 0 <= k <= |t.kids| ==> Agree(h, h', (t.kids + [c])[k])
  {
    hide Foot, FootAll, Tidy, SepAll, Sep, Rep, Growing, Detached, Agree;
    var us := t.kids + [c];
    HangApart(h, h', t, c);
    FootAllAppend(t.kids, c);
    forall k | 0 <= k <= |t.kids| ensures Agree(h, h', us[k]) {
      FootAllIndex(us, k);
      FootLive(h, us[k]);
      if t.kids != [] {
        OnlyRoot(h, us, |t.kids| - 1, k);
      }
      OnlyRoot(h, us, |t.kids|, k);
      RepIsNode(h, us[k]);
      AgreeLinks(h, h', t, c, us[k]);
    }
  }

  lemma AgreeLinks(h: Cells, h': Cells, t: Tree, c: Tree, u: Tree)
    requires IsNode(h, t.ptr) && IsNode(h, c.ptr) && (t.kids != [] ==> IsNode(h, Tail(t.kids)))
    requires h' == HangIn(h, t.ptr, Tail(t.kids), c.ptr)
    requires Tail(t.kids) == (if t.kids == [] then 0 else t.kids[|t.kids| - 1].ptr)
    requires IsNode(h, u.ptr) && Foot(u) <= h.Keys && t.ptr !in Foot(u) && u.ptr in Foot(u)
    requires t.kids != [] && Tail(t.kids) in Foot(u) ==> Tail(t.kids) == u.ptr
    requires c.ptr in Foot(u) ==> c.ptr == u.ptr
    ensures Agree(h, h', u)
  {
    hide Foot;
  }

  /** Hanging in the finished copy of child `i`. */
  lemma HangInStep(h0: Cells, h: Cells, h': Cells, v: Tree, t: Tree, c: Tree, i: nat)
    requires Ready(h0, h, v, t, c, i)
    requires IsNode(h, t.ptr) && IsNode(h, c.ptr)
    requires t.kids != [] ==> IsNode(h, Tail(t.kids)) && Tail(t.kids) == t.kids[|t.kids| - 1].ptr
    requires h' == HangIn(h, t.ptr, Tail(t.kids), c.ptr)
    ensures Building(h0, h', v, t.(kids := t.kids + [c]), i + 1)
  {
    hide Backed, Rep, Sep, Foot, Growing, Detached, CopyOf;
    assert Hanging(h, h', t, c);
    HangInList(h, h', t, c);
    HangInAgree(h, h', t, c);
    DetachedRep(h, c);
    HangInRoot(h, h', t, c);
    RootApart(t);
    FootLive(h, t);
    FootLive(h, c);
    HangInCopies(h0, h, h', v, t, c, i);
    RepShell(h, t);
    HangInData(h0, h, h', v, t, First(t.kids + [c]));
  }

  lemma ReadyNodes(h0: Cells, h: Cells, v: Tree, t: Tree, c: Tree, i: nat)
    requires Ready(h0, h, v, t, c, i)
    ensures IsNode(h, t.ptr) && IsNode(h, c.ptr)
    ensures t.kids == [] ==> Tail(t.kids) == 0
    ensures t.kids != [] ==> IsNode(h, Tail(t.kids)) && Tail(t.kids) == t.kids[|t.kids| - 1].ptr
  {
    TailIsNode(h, t.kids);
  }

  lemma DetachedRep(h: Cells, c: Tree)
    requires Detached(h, c)
    ensures Rep(h, c) && Sep(c)
  {
  }

  lemma HangInData(h0: Cells, h: Cells, h': Cells, v: Tree, t: Tree, child: Ptr)
    requires SameData(h0, v.ptr, h, t.ptr) && h'.Keys == h.Keys && Shell(h, t) && Backed(h0, v) && Extends(h0, h)
    requires Extends(h0, h')
    requires t.ptr in h' && h'[t.ptr] == NodeCell(h[t.ptr].node.(child := child))
    requires (t.text != 0 ==> h'[t.text] == h[t.text]) && (t.name != 0 ==> h'[t.name] == h[t.name])
    ensures SameData(h0, v.ptr, h', t.ptr)
  {
    hide Backed, CString;
    BackedRoot(h0, v);
  }

  lemma LeafBuilding(h0: Cells, h: Cells, v: Tree, t: Tree)
    requires NewTree(h0, h, t) && t.kids == [] && SameData(h0, v.ptr, h, t.ptr) && h[t.ptr].node.prev == 0
    ensures Building(h0, h, v, t, 0)
  {
    EmptyFoot();
  }

  lemma LeafDetached(h: Cells, t: Tree)
    requires Rep(h, t) && Sep(t) && t.kids == [] && h[t.ptr].node.next == 0 && h[t.ptr].node.prev == 0
    ensures Detached(h, t)
  {
  }

  lemma MakeReady(h0: Cells, h1: Cells, h: Cells, v: Tree, t: Tree, c: Tree, i: nat)
    requires Backed(h0, v) && Building(h0, h1, v, t, i) && i < |v.kids|
    requires NewTree(h1, h, c) && Detached(h, c) && CopyOf(h1, v.kids[i], h, c)
    ensures Ready(h0, h, v, t, c, i)
  {
    hide Backed, Rep, Sep, Foot, SameData, CopyOf, Growing, Tidy;
    BuildingExtends(h0, h1, h, v, t, i);
    BackedKid(h0, v, i);
    CopySource(h0, h1, v.kids[i], h, c);
  }

  lemma HeightKid(v: Tree, i: nat)
    requires i < |v.kids|
    ensures 1 + Height(v.kids[i]) <= Height(v)
  {
    HeightIndex(v.kids, i);
  }

  lemma {:induction false} HeightBound(ts: seq<Tree>, b: nat)
    requires forall k :: 0 <= k < |ts| ==> Height(ts[k]) <= b
    ensures HeightAll(ts) <= b
    decreases |ts|
  {
    if ts != [] {
      HeightBound(ts[..|ts| - 1], b);
    }
  }

  /** The finished copy, its list closed. */
  lemma Finish(h0: Cells, h: Cells, h': Cells, v: Tree, t: Tree)
    requires Backed(h0, v) && Building(h0, h, v, t, |v.kids|)
    requires t.kids == [] ==> h' == h
    requires t.kids != [] ==> IsNode(h, t.kids[0].ptr) && h' == SetPrev(h, t.kids[0].ptr, t.kids[|t.kids| - 1].ptr)
    ensures NewTree(h0, h', t) && Detached(h', t) && CopyOf(h0, v, h', t)
  {
    hide Backed, Foot, SameData, CopyOf, Sep, Rep, Extends, Tidy, Growing;
    if t.kids == [] {
      EmptyTidy(h, t);
    } else {
      FinishData(h0, h, h', v, t);
      FinishCopies(h0, h, h', v, t);
      FinishTree(h0, h, h', v, t);
    }
    AllCopied(h0, h', v, t);
  }

  lemma EmptyTidy(h: Cells, t: Tree)
    requires t.kids == []
    ensures Tidy(h, t)
  {
  }

  lemma FinishTree(h0: Cells, h: Cells, h': Cells, v: Tree, t: Tree)
    requires Building(h0, h, v, t, |v.kids|) && Extends(h0, h')
    requires t.kids != [] && IsNode(h, t.kids[0].ptr) && h' == SetPrev(h, t.kids[0].ptr, t.kids[|t.kids| - 1].ptr)
    ensures NewTree(h0, h', t) && Detached(h', t)
  {
    hide Foot, SameData, CopyOf, Sep, SepAll, Plain, Rep;
    RootApart(t);
    FootLive(h, t);
    FootAllLive(h, t.kids);
    Close(h, h', t.kids);
    FinishRoot(h, h', t);
  }

  lemma FinishRoot(h: Cells, h': Cells, t: Tree)
    requires Rep(h, t) && Sep(t) && t.kids != [] && LinksOnly(h, h', {t.kids[0].ptr})
    requires t.kids[0].ptr in FootAll(t.kids)
    requires RepAll(h', t.kids) && t.ptr !in FootAll(t.kids)
    ensures Rep(h', t) && t.ptr in h' && h'[t.ptr] == h[t.ptr]
  {
  }

  lemma FinishData(h0: Cells, h: Cells, h': Cells, v: Tree, t: Tree)
    requires Backed(h0, v) && Building(h0, h, v, t, |v.kids|)
    requires t.kids != [] && IsNode(h, t.kids[0].ptr) && h' == SetPrev(h, t.kids[0].ptr, t.kids[|t.kids| - 1].ptr)
    ensures Extends(h0, h') && SameData(h0, v.ptr, h', t.ptr)
  {
    hide Backed, Foot, SameData, CopyOf, Sep, Shell, Tidy;
    RootApart(t);
    FootLive(h, t);
    FootAllLive(h, t.kids);
    RepShell(h, t);
    BuiltChild(h0, h, v, t, |v.kids|);
    HangInData(h0, h, h', v, t, h[t.ptr].node.child);
  }

  lemma FinishCopies(h0: Cells, h: Cells, h': Cells, v: Tree, t: Tree)
    requires Backed(h0, v) && Building(h0, h, v, t, |v.kids|) && Extends(h0, h')
    requires t.kids != [] && IsNode(h, t.kids[0].ptr) && h' == SetPrev(h, t.kids[0].ptr, t.kids[|t.kids| - 1].ptr)
    ensures forall k :: 0 <= k < |v.kids| ==> CopyOf(h0, v.kids[k], h', t.kids[k])
  {
    hide Backed, Foot, SameData, CopyOf, Sep, SepAll, Rep, Tidy, Agree, Chain, FootAll;
    forall k | 0 <= k < |v.kids| ensures CopyOf(h0, v.kids[k], h', t.kids[k]) {
      BackedKid(h0, v, k);
      SepAllIndex(t.kids, k, k);
      FinishAgree(h, h', t.kids, k);
      CopyFrame(h0, v.kids[k], h, h', t.kids[k]);
    }
  }

  lemma FinishAgree(h: Cells, h': Cells, ts: seq<Tree>, k: nat)
    requires k < |ts| && SepAll(ts) && forall i :: 0 <= i < |ts| ==> Rep(h, ts[i])
    requires IsNode(h, ts[0].ptr) && h' == SetPrev(h, ts[0].ptr, ts[|ts| - 1].ptr)
    ensures Agree(h, h', ts[k])
  {
    hide Foot, Sep, SepAll, Rep;
    OnlyRoot(h, ts, 0, k);
    FootLive(h, ts[k]);
    RepIsNode(h, ts[k]);
  }

  lemma AllCopied(h0: Cells, h: Cells, v: Tree, t: Tree)
    requires SameData(h0, v.ptr, h, t.ptr) && |t.kids| == |v.kids|
    requires forall k :: 0 <= k < |v.kids| ==> CopyOf(h0, v.kids[k], h, t.kids[k])
    ensures CopyOf(h0, v, h, t)
  {
  }

  /** `cJSON_Duplicate`. On success the copy is a detached tree of new addresses only, with all links
      in place, the same data node by node, and no reference flag; the heap the original lives in is
      untouched. On failure the heap is as before. When every request of the call is granted, it fails
      exactly for a NULL item or when the pointers go on below level 10000, as they do in a
      tree that deep or in a cycle. */
  method Duplicate(mem: Memory, item: Ptr, recurse: bool, ghost v: Tree) returns (r: Ptr, ghost c: Tree)
    requires item != 0 ==> Unfolds(mem.cells, v, 10000) && item == v.ptr
    modifies mem
    ensures old(mem.requests) <= mem.requests <= old(mem.requests) + 3 * Size(v)
    ensures r == 0 ==> mem.cells == old(mem.cells)
    ensures r != 0 ==> mem.GrantedSince(old(mem.requests))
    ensures mem.GrantedSince(old(mem.requests)) ==> (r != 0 <==> item != 0 && (recurse ==> View(old(mem.cells), v)))
    ensures r != 0 ==> c.ptr == r && NewTree(old(mem.cells), mem.cells, c) && Detached(mem.cells, c)
    ensures r != 0 ==> if recurse then CopyOf(old(mem.cells), v, mem.cells, c)
                       else c.kids == [] && SameData(old(mem.cells), item, mem.cells, r)
  {
    hide View, Unfolds, NewTree, Detached, CopyOf, SameData;
    r, c := DuplicateRec(mem, item, 0, recurse, v);
    mem.SinceRefused(old(mem.requests));
  }

  /** `cJSON_Duplicate_rec`. */
  method DuplicateRec(mem: Memory, item: Ptr, depth: nat, recurse: bool, ghost v: Tree) returns (r: Ptr, ghost c: Tree)
    requires depth <= CIRCULAR_LIMIT
    requires item != 0 ==> Unfolds(mem.cells, v, CIRCULAR_LIMIT - depth) && item == v.ptr
    modifies mem
    ensures old(mem.requests) <= mem.requests <= old(mem.requests) + 3 * Size(v) && mem.Refused() >= old(mem.Refused())
    ensures r == 0 ==> mem.cells == old(mem.cells)
    ensures r == 0 && mem.Refused() == old(mem.Refused()) ==> item == 0 || (recurse && !View(old(mem.cells), v))
    ensures r != 0 ==> item != 0 && c.ptr == r && (recurse ==> View(old(mem.cells), v))
    ensures r != 0 ==> mem.Refused() == old(mem.Refused())
    ensures r != 0 ==> NewTree(old(mem.cells), mem.cells, c) && Detached(mem.cells, c)
    ensures r != 0 ==> if recurse then CopyOf(old(mem.cells), v, mem.cells, c)
                       else c.kids == [] && SameData(old(mem.cells), item, mem.cells, r)
    decreases v, 1
  {
    hide Refusals, View, Unfolds, Backed, Rep, Sep, Foot, SameData, CopyOf, Building, Chain, SizeAll;
    r, c := 0, v;
    if item == 0 {
      return;
    }
    ghost var h0 := mem.cells;
    UnfoldsRoot(h0, v, CIRCULAR_LIMIT - depth);
    UnfoldsBacked(h0, v, CIRCULAR_LIMIT - depth);
    var x;
    x, c := DuplicateNode(mem, item, v);
    if x == 0 {
      return;
    }
    LeafBuilding(h0, mem.cells, v, c);
    LeafDetached(mem.cells, c);
    if !recurse {
      return x, c;
    }
    var child, tail := mem.cells[item].node.child, 0;
    ghost var i := 0;
    NoSize(v.kids);
    while child != 0
      invariant i <= |v.kids| && c.ptr == x && tail == Tail(c.kids)
      invariant if depth < CIRCULAR_LIMIT then child == PtrAt(v.kids, i) else child == h0[item].node.child
      invariant Building(h0, mem.cells, v, c, i) && mem.Refused() == old(mem.Refused())
      invariant old(mem.requests) <= mem.requests <= old(mem.requests) + 3 + 3 * SizeAll(v.kids[..i])
      invariant SizeAll(v.kids[..i]) <= SizeAll(v.kids)
      invariant forall k :: 0 <= k < i ==> View(h0, v.kids[k])
      decreases |v.kids| - i
    {
      if depth >= CIRCULAR_LIMIT {
        CutOff(h0, v);
        DiscardBuilding(mem, x, v, c, h0, i);
        return;
      }
      PtrAtNull(h0, v.kids, i);
      SizePrefix(v.kids, i);
      var k;
      ghost var c';
      k, c' := DuplicateKid(mem, child, x, tail, depth, h0, v, c, i);
      if k == 0 {
        if View(h0, v) {
          ViewKid(h0, v, i);
        }
        DiscardBuilding(mem, x, v, c, h0, i);
        return;
      }
      tail, c, i := k, c', i + 1;
      BuildingKeeps(h0, mem.cells, v, c, i, child);
      child := mem.cells[child].node.next;
    }
    if depth < CIRCULAR_LIMIT {
      PtrAtNull(h0, v.kids, i);
    }
    KidsView(h0, v);
    BuiltChild(h0, mem.cells, v, c, |v.kids|);
    child := mem.cells[x].node.child;
    if child != 0 {
      Finish(h0, mem.cells, SetPrev(mem.cells, child, tail), v, c);
      mem.Store(child, mem.cells[child].node.(prev := tail));
    } else {
      Finish(h0, mem.cells, mem.cells, v, c);
    }
    r := x;
  }

  lemma NoSize(ts: seq<Tree>)
    ensures SizeAll(ts[..0]) == 0
  {
  }

  /** An unfolding that was cut off is not complete. */
  lemma CutOff(h: Cells, v: Tree)
    requires IsNode(h, v.ptr) && v.kids == [] && h[v.ptr].node.child != 0
    ensures !View(h, v)
  {
  }

  lemma KidsView(h: Cells, v: Tree)
    requires BackedNode(h, v) && h[v.ptr].node.child == First(v.kids) && Chain(h, v.kids)
    requires forall k :: 0 <= k < |v.kids| ==> View(h, v.kids[k])
    ensures View(h, v)
  {
  }

  method DiscardBuilding(mem: Memory, x: Ptr, ghost v: Tree, ghost c: Tree, ghost h0: Cells, ghost i: nat)
    requires x == c.ptr && Building(h0, mem.cells, v, c, i)
    modifies mem`cells
    ensures mem.cells == h0
  {
    Discard(mem, x, c, h0);
  }

  lemma BuildingKeeps(h0: Cells, h: Cells, v: Tree, c: Tree, i: nat, p: Ptr)
    requires Building(h0, h, v, c, i) && p in h0
    ensures p in h && h[p] == h0[p]
  {
  }

  /** One turn of the child loop. */
  method DuplicateKid(mem: Memory, child: Ptr, x: Ptr, tail: Ptr, depth: nat, ghost h0: Cells, ghost v: Tree,
                      ghost c: Tree, ghost i: nat)
    returns (k: Ptr, ghost c': Tree)
    requires depth < CIRCULAR_LIMIT && Unfolds(h0, v, CIRCULAR_LIMIT - depth)
    requires i < |v.kids| && child == v.kids[i].ptr && child != 0
    requires Building(h0, mem.cells, v, c, i) && x == c.ptr && tail == Tail(c.kids)
    modifies mem
    ensures old(mem.requests) <= mem.requests <= old(mem.requests) + 3 * Size(v.kids[i])
    ensures mem.Refused() >= old(mem.Refused())
    ensures k == 0 ==> mem.cells == old(mem.cells)
    ensures k == 0 && mem.Refused() == old(mem.Refused()) ==> !View(h0, v.kids[i])
    ensures k != 0 ==> Building(h0, mem.cells, v, c', i + 1) && c'.ptr == x && k == Tail(c'.kids)
    ensures k != 0 ==> mem.Refused() == old(mem.Refused()) && View(h0, v.kids[i])
    decreases v, 0
  {
    hide Refusals, View, Unfolds, Backed, Rep, Sep, Foot, SameData, CopyOf, Building, Ready, Detached, Size;
    ghost var h1 := mem.cells;
    UnfoldsRoot(h0, v, CIRCULAR_LIMIT - depth);
    UnfoldsBacked(h0, v, CIRCULAR_LIMIT - depth);
    BackedKid(h0, v, i);
    BuildingGrows(h0, h1, v, c, i);
    UnfoldsExtends(h0, h1, v.kids[i], CIRCULAR_LIMIT - depth - 1);
    ghost var kid;
    k, kid := DuplicateRec(mem, child, depth + 1, true, v.kids[i]);
    c' := c;
    if k == 0 {
      if View(h0, v.kids[i]) {
        ViewExtends(h0, h1, v.kids[i]);
      }
      return;
    }
    ViewShrinks(h0, h1, v.kids[i]);
    MakeReady(h0, h1, mem.cells, v, c, kid, i);
    ReadyNodes(h0, mem.cells, v, c, kid, i);
    HangInStep(h0, mem.cells, HangIn(mem.cells, x, tail, k), v, c, kid, i);
    if tail != 0 {
      mem.Store(tail, mem.cells[tail].node.(next := k));
      mem.Store(k, mem.cells[k].node.(prev := tail));
    } else {
      mem.Store(x, mem.cells[x].node.(child := k));
    }
    c' := c.(kids := c.kids + [kid]);
  }

  lemma BuildingGrows(h0: Cells, h: Cells, v: Tree, c: Tree, i: nat)
    requires Building(h0, h, v, c, i)
    ensures Extends(h0, h) && |c.kids| == i
  {
  }

  lemma BuiltChild(h0: Cells, h: Cells, v: Tree, t: Tree, i: nat)
    requires Building(h0, h, v, t, i)
    ensures IsNode(h, t.ptr) && h[t.ptr].node.child == First(t.kids)
    ensures First(t.kids) == 0 <==> t.kids == []
    ensures t.kids != [] ==>
      IsNode(h, t.kids[0].ptr) && First(t.kids) == t.kids[0].ptr && Tail(t.kids) == t.kids[|t.kids| - 1].ptr
  {
  }
}
