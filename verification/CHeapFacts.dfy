/** Ownership and framing facts about trees in the C heap: what a tree owns is live and separate, a
    tree away from the changed cells keeps its shape, links and value, and a list of trees that grows
    by one stays a list. */
module CHeapFacts {
  import opened CHeap

  // ---------------------------------------------------------------- footprints

  lemma {:induction false} FootAllIndex(ts: seq<Tree>, i: nat)
    requires i < |ts|
    ensures Foot(ts[i]) <= FootAll(ts)
    decreases |ts|
  {
    if i < |ts| - 1 {
      FootAllIndex(ts[..|ts| - 1], i);
    }
  }

  lemma {:induction false} FootAllOwner(ts: seq<Tree>, p: Ptr) returns (i: nat)
    requires p in FootAll(ts)
    ensures i < |ts| && p in Foot(ts[i])
    decreases |ts|
  {
    if p in Foot(ts[|ts| - 1]) {
      i := |ts| - 1;
    } else {
      i := FootAllOwner(ts[..|ts| - 1], p);
    }
  }

  lemma FootAllAppend(ts: seq<Tree>, t: Tree)
    ensures FootAll(ts + [t]) == FootAll(ts) + Foot(t)
    ensures SepAll(ts + [t]) <==> SepAll(ts) && Sep(t) && FootAll(ts) !! Foot(t)
  {
    assert (ts + [t])[..|ts|] == ts;
  }

  lemma {:induction false} FootAllConcat(a: seq<Tree>, b: seq<Tree>)
    ensures FootAll(a + b) == FootAll(a) + FootAll(b)
    ensures SepAll(a + b) <==> SepAll(a) && SepAll(b) && FootAll(a) !! FootAll(b)
    decreases |b|
  {
    if b == [] {
      assert a + b == a;
    } else {
      var front, last := b[..|b| - 1], b[|b| - 1];
      FootAllConcat(a, front);
      FootAllAppend(front, last);
      FootAllAppend(a + front, last);
      assert a + b == (a + front) + [last];
      assert b == front + [last];
    }
  }

  lemma {:induction false} SepAllIndex(ts: seq<Tree>, i: nat, j: nat)
    requires SepAll(ts) && i < |ts| && j < |ts|
    ensures Sep(ts[i]) && (i != j ==> Foot(ts[i]) !! Foot(ts[j]))
    decreases |ts|
  {
    var last := |ts| - 1;
    if i < last && j < last {
      SepAllIndex(ts[..last], i, j);
    } else if i < last {
      SepAllIndex(ts[..last], i, i);
      FootAllIndex(ts[..last], i);
    } else if j < last {
      FootAllIndex(ts[..last], j);
    }
  }

  lemma {:induction false} FootLive(h: Cells, t: Tree)
    requires Rep(h, t)
    ensures Foot(t) <= h.Keys && 0 !in Foot(t) && t.ptr in Foot(t)
    decreases t
  {
    forall p | p in FootAll(t.kids) ensures p in h && p != 0 {
      var i := FootAllOwner(t.kids, p);
      FootLive(h, t.kids[i]);
    }
  }

  lemma FootAllLive(h: Cells, ts: seq<Tree>)
    requires forall i :: 0 <= i < |ts| ==> Rep(h, ts[i])
    ensures FootAll(ts) <= h.Keys && 0 !in FootAll(ts)
    ensures forall i :: 0 <= i < |ts| ==> ts[i].ptr in FootAll(ts)
  {
    forall p | p in FootAll(ts) ensures p in h && p != 0 {
      var i := FootAllOwner(ts, p);
      FootLive(h, ts[i]);
    }
    forall i | 0 <= i < |ts| ensures ts[i].ptr in FootAll(ts) {
      FootLive(h, ts[i]);
      FootAllIndex(ts, i);
    }
  }

  // ---------------------------------------------------------------- values

  lemma {:induction false} ValuesIndex(h: Cells, ts: seq<Tree>, i: nat)
    requires i < |ts|
    ensures Values(h, ts)[i] == Value(h, ts[i]) && Members(h, ts)[i] == MemberOf(h, ts[i])
    decreases |ts|
  {
    if i < |ts| - 1 {
      ValuesIndex(h, ts[..|ts| - 1], i);
    }
  }

  lemma ValuesAppend(h: Cells, ts: seq<Tree>, t: Tree)
    ensures Values(h, ts + [t]) == Values(h, ts) + [Value(h, t)]
    ensures Members(h, ts + [t]) == Members(h, ts) + [MemberOf(h, t)]
  {
    assert (ts + [t])[..|ts|] == ts;
  }

  lemma {:induction false} ValuesSame(h: Cells, h': Cells, ts: seq<Tree>)
    requires forall i :: 0 <= i < |ts| ==> MemberOf(h', ts[i]) == MemberOf(h, ts[i])
    ensures Values(h', ts) == Values(h, ts) && Members(h', ts) == Members(h, ts)
    decreases |ts|
  {
    if ts != [] {
      ValuesSame(h, h', ts[..|ts| - 1]);
      assert MemberOf(h', ts[|ts| - 1]).value == MemberOf(h, ts[|ts| - 1]).value;
    }
  }

  // ---------------------------------------------------------------- framing

  /** Equal but for the sibling links. */
  ghost predicate SameButLinks(c: Cell, c': Cell) {
    c.NodeCell? && c'.NodeCell? && c'.node == c.node.(next := c'.node.next, prev := c'.node.prev)
  }

  /** `h'` agrees with `h` on what `t` owns, except perhaps for the links of its root. */
  ghost predicate Agree(h: Cells, h': Cells, t: Tree) {
    && t.ptr in h && t.ptr in h' && SameButLinks(h[t.ptr], h'[t.ptr])
    && forall p :: p in Foot(t) && p != t.ptr ==> p in h && p in h' && h'[p] == h[p]
  }

  lemma {:induction false} Frame(h: Cells, h': Cells, t: Tree)
    requires Rep(h, t) && Sep(t) && Agree(h, h', t)
    ensures Rep(h', t)
    ensures Tidy(h, t) ==> Tidy(h', t)
    ensures Plain(h, t) ==> Plain(h', t) && MemberOf(h', t) == MemberOf(h, t)
    decreases t
  {
    hide Shell, Chain, Backward, Foot, FootAll, Sep, Agree, Value, MemberOf;
    forall i | 0 <= i < |t.kids|
      ensures t.kids[i].ptr in h && t.kids[i].ptr in h' && h'[t.kids[i].ptr] == h[t.kids[i].ptr]
      ensures Rep(h', t.kids[i])
      ensures Tidy(h, t.kids[i]) ==> Tidy(h', t.kids[i])
      ensures Plain(h, t.kids[i]) ==> Plain(h', t.kids[i]) && MemberOf(h', t.kids[i]) == MemberOf(h, t.kids[i])
    {
      FrameKid(h, h', t, i);
      Frame(h, h', t.kids[i]);
    }
    FrameShell(h, h', t);
    if Plain(h, t) {
      ValuesSame(h, h', t.kids);
      FrameValue(h, h', t);
    }
  }

  lemma FrameShell(h: Cells, h': Cells, t: Tree)
    requires Rep(h, t) && Sep(t) && Agree(h, h', t)
    requires forall i :: 0 <= i < |t.kids| ==>
      t.kids[i].ptr in h && t.kids[i].ptr in h' && h'[t.kids[i].ptr] == h[t.kids[i].ptr]
    ensures Shell(h', t) && Chain(h', t.kids) && IsNode(h', t.ptr)
    ensures Backward(h, t.kids) ==> Backward(h', t.kids)
    ensures Plain(h, t) ==> !h'[t.ptr].node.isReference && !h'[t.ptr].node.constName
  {
  }

  lemma FrameValue(h: Cells, h': Cells, t: Tree)
    requires Rep(h, t) && Sep(t) && Agree(h, h', t) && Plain(h, t)
    requires Values(h', t.kids) == Values(h, t.kids) && Members(h', t.kids) == Members(h, t.kids)
    ensures MemberOf(h', t) == MemberOf(h, t)
  {
    hide Chain, Values, Members, FootAll, SepAll;
    FrameString(h, h', t, t.text);
    FrameString(h, h', t, t.name);
  }

  lemma FrameString(h: Cells, h': Cells, t: Tree, p: Ptr)
    requires Shell(h, t) && Sep(t) && Agree(h, h', t) && p in {t.text, t.name}
    ensures StringOf(h', p) == StringOf(h, p)
  {
  }

  lemma AgreeExtends(h: Cells, h': Cells, t: Tree)
    requires Rep(h, t) && Extends(h, h')
    ensures Agree(h, h', t) && h'[t.ptr] == h[t.ptr]
  {
    FootLive(h, t);
  }

  lemma FrameKid(h: Cells, h': Cells, t: Tree, i: nat)
    requires Rep(h, t) && Sep(t) && Agree(h, h', t) && i < |t.kids|
    ensures Sep(t.kids[i]) && Agree(h, h', t.kids[i])
    ensures t.kids[i].ptr in h' && h'[t.kids[i].ptr] == h[t.kids[i].ptr]
  {
    SepAllIndex(t.kids, i, i);
    FootAllIndex(t.kids, i);
    FootLive(h, t.kids[i]);
  }

  /** A list none of whose cells changed. */
  lemma FrameAll(h: Cells, h': Cells, ts: seq<Tree>)
    requires RepAll(h, ts) && SepAll(ts)
    requires forall p :: p in FootAll(ts) ==> p in h && p in h' && h'[p] == h[p]
    ensures RepAll(h', ts)
    ensures TidyAll(h, ts) ==> TidyAll(h', ts)
    ensures PlainAll(h, ts) ==> PlainAll(h', ts) && Values(h', ts) == Values(h, ts) && Members(h', ts) == Members(h, ts)
  {
    FootAllLive(h, ts);
    forall i | 0 <= i < |ts|
      ensures Rep(h', ts[i])
      ensures Tidy(h, ts[i]) ==> Tidy(h', ts[i])
      ensures Plain(h, ts[i]) ==> Plain(h', ts[i]) && MemberOf(h', ts[i]) == MemberOf(h, ts[i])
    {
      SepAllIndex(ts, i, i);
      FootAllIndex(ts, i);
      Frame(h, h', ts[i]);
    }
    if PlainAll(h, ts) {
      ValuesSame(h, h', ts);
    }
  }

  // ---------------------------------------------------------------- relinking

  /** `h'` is `h` with the sibling links of the nodes in `links` rewritten. */
  ghost predicate LinksOnly(h: Cells, h': Cells, links: set<Ptr>) {
    && h'.Keys == h.Keys
    && (forall p :: p in h && p !in links ==> h'[p] == h[p])
    && (forall p :: p in h && p in links ==> SameButLinks(h[p], h'[p]))
  }

  /** Rewriting links of list members only leaves every member intact; what is left to show for a
      new order of the list is its chain. */
  lemma Relink(h: Cells, h': Cells, links: set<Ptr>, ts: seq<Tree>)
    requires LinksOnly(h, h', links) && SepAll(ts)
    requires forall i :: 0 <= i < |ts| ==> Rep(h, ts[i])
    requires forall i, p :: 0 <= i < |ts| && p in links && p in Foot(ts[i]) ==> p == ts[i].ptr
    ensures forall i :: 0 <= i < |ts| ==> Rep(h', ts[i])
    ensures TidyAll(h, ts) ==> TidyAll(h', ts)
    ensures PlainAll(h, ts) ==> PlainAll(h', ts) && Values(h', ts) == Values(h, ts) && Members(h', ts) == Members(h, ts)
  {
    hide Rep, Tidy, Foot, Sep, SepAll, Plain;
    forall i | 0 <= i < |ts|
      ensures Rep(h', ts[i])
      ensures Tidy(h, ts[i]) ==> Tidy(h', ts[i])
      ensures Plain(h, ts[i]) ==> Plain(h', ts[i]) && MemberOf(h', ts[i]) == MemberOf(h, ts[i])
    {
      SepAllIndex(ts, i, i);
      FootLive(h, ts[i]);
      RepIsNode(h, ts[i]);
      assert Agree(h, h', ts[i]);
      Frame(h, h', ts[i]);
    }
    if PlainAll(h, ts) {
      ValuesSame(h, h', ts);
    }
  }

  lemma RepIsNode(h: Cells, t: Tree)
    requires Rep(h, t)
    ensures IsNode(h, t.ptr)
  {
  }

  /** The root of one member lies in no other member. */
  lemma OnlyRoot(h: Cells, ts: seq<Tree>, i: nat, j: nat)
    requires SepAll(ts) && i < |ts| && j < |ts| && Rep(h, ts[i])
    ensures ts[i].ptr in Foot(ts[j]) ==> i == j
  {
    FootLive(h, ts[i]);
    SepAllIndex(ts, i, j);
  }

  lemma DistinctRoots(h: Cells, ts: seq<Tree>)
    requires SepAll(ts) && forall i :: 0 <= i < |ts| ==> Rep(h, ts[i])
    ensures forall i, j :: 0 <= i < |ts| && 0 <= j < |ts| && ts[i].ptr == ts[j].ptr ==> i == j
  {
    forall i, j | 0 <= i < |ts| && 0 <= j < |ts| && ts[i].ptr == ts[j].ptr ensures i == j {
      FootLive(h, ts[j]);
      OnlyRoot(h, ts, i, j);
    }
  }

  // ---------------------------------------------------------------- lists under construction

  function OpenPrev(ts: seq<Tree>, i: nat): Ptr
    requires i < |ts|
  {
    if i == 0 then 0 else ts[i - 1].ptr
  }

  /** `prev` links of a list whose head does not point to the tail yet. */
  ghost predicate OpenList(h: Cells, ts: seq<Tree>) {
    forall i :: 0 <= i < |ts| ==> IsNode(h, ts[i].ptr) && h[ts[i].ptr].node.prev == OpenPrev(ts, i)
  }

  /** Writes `next` or `prev` of a node, as an assignment through a pointer does. */
  function SetNext(h: Cells, p: Ptr, next: Ptr): Cells
    requires p in h && h[p].NodeCell?
  {
    h[p := NodeCell(h[p].node.(next := next))]
  }

  function SetPrev(h: Cells, p: Ptr, prev: Ptr): Cells
    requires p in h && h[p].NodeCell?
  {
    h[p := NodeCell(h[p].node.(prev := prev))]
  }

  function SetChild(h: Cells, p: Ptr, child: Ptr): Cells
    requires p in h && h[p].NodeCell?
  {
    h[p := NodeCell(h[p].node.(child := child))]
  }

  /** The heap after `tail->next = c; c->prev = tail`. */
  function LinkTail(h: Cells, tail: Ptr, c: Ptr): Cells
    requires tail in h && h[tail].NodeCell? && c in h && h[c].NodeCell?
  {
    SetPrev(SetNext(h, tail, c), c, tail)
  }

  /** What holds of a list being built from detached trees. */
  ghost predicate Growing(h: Cells, ts: seq<Tree>) {
    RepAll(h, ts) && SepAll(ts) && OpenList(h, ts) && TidyAll(h, ts)
  }

  /** A tree that is in no list. */
  ghost predicate Detached(h: Cells, c: Tree) {
    Rep(h, c) && Sep(c) && Tidy(h, c) && h[c.ptr].node.next == 0 && h[c.ptr].node.prev == 0
  }

  lemma GrowingExtends(h: Cells, h': Cells, ts: seq<Tree>)
    requires Growing(h, ts) && Extends(h, h')
    ensures Growing(h', ts)
  {
    hide Rep, Tidy, SepAll, Plain;
    FootAllLive(h, ts);
    FrameAll(h, h', ts);
  }

  lemma GrowFirst(h: Cells, c: Tree)
    requires Detached(h, c)
    ensures Growing(h, [c])
  {
    RepIsNode(h, c);
    FootAllAppend([], c);
    assert [] + [c] == [c];
    assert FootAll([]) == {};
  }

  /** Appending a detached tree to a list under construction. */
  lemma Grow(h: Cells, h': Cells, ts: seq<Tree>, c: Tree)
    requires ts != [] && Growing(h, ts) && Detached(h, c) && FootAll(ts) !! Foot(c)
    requires IsNode(h, ts[|ts| - 1].ptr) && IsNode(h, c.ptr) && h' == LinkTail(h, ts[|ts| - 1].ptr, c.ptr)
    ensures LinksOnly(h, h', {ts[|ts| - 1].ptr, c.ptr}) && Growing(h', ts + [c])
    ensures PlainAll(h, ts) && Plain(h, c) ==>
      PlainAll(h', ts + [c]) && Values(h', ts) == Values(h, ts) && Members(h', ts) == Members(h, ts)
      && MemberOf(h', c) == MemberOf(h, c)
  {
    hide Rep, Tidy, Plain, Foot, Sep, FootAll, SepAll, MemberOf, LinksOnly, OpenList, Chain, LinkTail;
    var us, tail := ts + [c], ts[|ts| - 1].ptr;
    FootAllAppend(ts, c);
    GrowMembers(h, ts, c);
    GrowTouches(h, h', ts, c);
    Relink(h, h', {tail, c.ptr}, us);
    DistinctRoots(h, us);
    RootsDiffer(ts, c);
    GrowLinks(h, h', ts, c);
    if PlainAll(h, ts) && Plain(h, c) {
      assert PlainAll(h, us);
      ValuesPrefix(h, h', ts, c);
    }
  }

  lemma GrowMembers(h: Cells, ts: seq<Tree>, c: Tree)
    requires Growing(h, ts) && Detached(h, c)
    ensures forall i :: 0 <= i <= |ts| ==>
      Rep(h, (ts + [c])[i]) && Tidy(h, (ts + [c])[i]) && IsNode(h, (ts + [c])[i].ptr)
    ensures h[c.ptr].node.next == 0 && Chain(h, ts) && OpenList(h, ts)
  {
    hide Rep, Tidy, Sep, SepAll, Chain, OpenList;
    forall i | 0 <= i <= |ts| ensures IsNode(h, (ts + [c])[i].ptr) && Rep(h, (ts + [c])[i]) {
      RepIsNode(h, (ts + [c])[i]);
    }
  }

  /** Both changed nodes are roots of the new list. */
  lemma GrowTouches(h: Cells, h': Cells, ts: seq<Tree>, c: Tree)
    requires ts != [] && SepAll(ts + [c]) && forall i :: 0 <= i <= |ts| ==> Rep(h, (ts + [c])[i])
    requires IsNode(h, ts[|ts| - 1].ptr) && IsNode(h, c.ptr) && h' == LinkTail(h, ts[|ts| - 1].ptr, c.ptr)
    ensures var us, links := ts + [c], {ts[|ts| - 1].ptr, c.ptr};
      LinksOnly(h, h', links) && forall i, p :: 0 <= i < |us| && p in links && p in Foot(us[i]) ==> p == us[i].ptr
  {
    hide Rep, Sep, SepAll, Foot;
    var us, tail := ts + [c], ts[|ts| - 1].ptr;
    forall i, p | 0 <= i < |us| && p in {tail, c.ptr} && p in Foot(us[i]) ensures p == us[i].ptr {
      OnlyRoot(h, us, if p == tail then |ts| - 1 else |ts|, i);
    }
  }

  lemma RootsDiffer(ts: seq<Tree>, c: Tree)
    requires ts != []
    requires var us := ts + [c]; forall i, j :: 0 <= i < |us| && 0 <= j < |us| && us[i].ptr == us[j].ptr ==> i == j
    ensures forall i :: 0 <= i < |ts| ==> ts[i].ptr != c.ptr && (i < |ts| - 1 ==> ts[i].ptr != ts[|ts| - 1].ptr)
  {
    var us := ts + [c];
    forall i | 0 <= i < |ts| ensures ts[i].ptr != c.ptr && (i < |ts| - 1 ==> ts[i].ptr != ts[|ts| - 1].ptr) {
      assert us[i] == ts[i] && us[|ts|] == c && us[|ts| - 1] == ts[|ts| - 1];
    }
  }

  lemma ValuesPrefix(h: Cells, h': Cells, ts: seq<Tree>, c: Tree)
    requires Values(h', ts + [c]) == Values(h, ts + [c]) && Members(h', ts + [c]) == Members(h, ts + [c])
    ensures Values(h', ts) == Values(h, ts) && Members(h', ts) == Members(h, ts) && MemberOf(h', c) == MemberOf(h, c)
  {
    ValuesAppend(h, ts, c);
    ValuesAppend(h', ts, c);
    assert Members(h', ts) == Members(h', ts + [c])[..|ts|];
    assert Members(h, ts) == Members(h, ts + [c])[..|ts|];
    assert Values(h', ts) == Values(h', ts + [c])[..|ts|];
    assert Values(h, ts) == Values(h, ts + [c])[..|ts|];
    assert MemberOf(h', c) == Members(h', ts + [c])[|ts|];
  }

  lemma GrowLinks(h: Cells, h': Cells, ts: seq<Tree>, c: Tree)
    requires ts != [] && Chain(h, ts) && OpenList(h, ts) && IsNode(h, c.ptr) && h[c.ptr].node.next == 0
    requires h' == LinkTail(h, ts[|ts| - 1].ptr, c.ptr)
    requires forall i :: 0 <= i < |ts| ==> ts[i].ptr != c.ptr && (i < |ts| - 1 ==> ts[i].ptr != ts[|ts| - 1].ptr)
    ensures Chain(h', ts + [c]) && OpenList(h', ts + [c])
  {
  }

  /** `head->prev = tail` closes the list. */
  lemma Close(h: Cells, h': Cells, ts: seq<Tree>)
    requires ts != [] && Growing(h, ts) && IsNode(h, ts[0].ptr) && h' == SetPrev(h, ts[0].ptr, ts[|ts| - 1].ptr)
    ensures LinksOnly(h, h', {ts[0].ptr}) && RepAll(h', ts) && TidyAll(h', ts) && Backward(h', ts)
    ensures PlainAll(h, ts) ==> PlainAll(h', ts) && Values(h', ts) == Values(h, ts) && Members(h', ts) == Members(h, ts)
  {
    hide Rep, Tidy, Plain, Foot, Sep, FootAll, SepAll, MemberOf;
    forall i, p | 0 <= i < |ts| && p in {ts[0].ptr} && p in Foot(ts[i]) ensures p == ts[i].ptr {
      OnlyRoot(h, ts, 0, i);
    }
    Relink(h, h', {ts[0].ptr}, ts);
    DistinctRoots(h, ts);
    forall i | 0 < i < |ts| ensures ts[i].ptr != ts[0].ptr {
    }
    CloseLinks(h, h', ts);
  }

  lemma CloseLinks(h: Cells, h': Cells, ts: seq<Tree>)
    requires ts != [] && Chain(h, ts) && OpenList(h, ts) && IsNode(h, ts[0].ptr)
    requires h' == SetPrev(h, ts[0].ptr, ts[|ts| - 1].ptr)
    requires forall i :: 0 < i < |ts| ==> ts[i].ptr != ts[0].ptr
    ensures Chain(h', ts) && Backward(h', ts)
  {
  }

  /** The list `ts` is under construction, and is all that is new since `h0`. */
  ghost predicate Listing(h0: Cells, h: Cells, ts: seq<Tree>) {
    && Growing(h, ts) && PlainAll(h, ts)
    && FootAll(ts) !! h0.Keys && h.Keys == h0.Keys + FootAll(ts) && Extends(h0, h)
  }

  /** A node's own cells changed and perhaps grew; everything else stayed. `u` is what it roots now. */
  ghost predicate Regrown(h: Cells, h': Cells, t: Tree, u: Tree) {
    && u.ptr == t.ptr && Rep(h', u) && Sep(u) && Tidy(h', u) && Plain(h', u)
    && IsNode(h, t.ptr) && IsNode(h', t.ptr)
    && h'[t.ptr].node.next == h[t.ptr].node.next && h'[t.ptr].node.prev == h[t.ptr].node.prev
    && h'.Keys == h.Keys + Foot(u) && Foot(t) <= Foot(u) && (Foot(u) - Foot(t)) !! h.Keys
    && forall p :: p in h && p != t.ptr ==> h'[p] == h[p]
  }

  /** The last tree of a list under construction may be regrown. */
  lemma Refill(h0: Cells, h: Cells, h': Cells, ts: seq<Tree>, t: Tree, u: Tree)
    requires Listing(h0, h, ts + [t]) && Regrown(h, h', t, u)
    ensures Listing(h0, h', ts + [u])
    ensures Values(h', ts) == Values(h, ts) && Members(h', ts) == Members(h, ts)
  {
    hide Rep, Tidy, Plain, Foot, Sep, FootAll, SepAll, Chain, OpenList;
    FootAllAppend(ts, t);
    FootAllAppend(ts, u);
    ListPrefix(h, ts, t);
    FootAllLive(h, ts);
    FootLive(h, t);
    RefillApart(h, ts, t);
    FrontKept(h, h', ts);
    RefillLinks(h, h', ts, t, u);
    RefillSets(h0, h, h', ts, t, u);
    assert forall i :: 0 <= i < |ts| + 1 ==> (ts + [u])[i] == if i < |ts| then ts[i] else u;
  }

  lemma ListPrefix(h: Cells, ts: seq<Tree>, t: Tree)
    requires Growing(h, ts + [t]) && PlainAll(h, ts + [t])
    ensures (forall i :: 0 <= i < |ts| ==> Rep(h, ts[i])) && SepAll(ts) && TidyAll(h, ts) && PlainAll(h, ts)
    ensures Rep(h, t) && Sep(t) && FootAll(ts) !! Foot(t) && Plain(h, t)
  {
    hide Rep, Tidy, Plain, Foot, Sep, FootAll, SepAll, Chain, OpenList;
    var us := ts + [t];
    FootAllAppend(ts, t);
    forall i | 0 <= i < |ts| ensures Rep(h, ts[i]) && Tidy(h, ts[i]) && Plain(h, ts[i]) {
      assert us[i] == ts[i];
    }
    assert us[|ts|] == t;
  }

  lemma RefillApart(h: Cells, ts: seq<Tree>, t: Tree)
    requires Rep(h, t) && FootAll(ts) !! Foot(t)
    ensures t.ptr !in FootAll(ts)
  {
    FootLive(h, t);
  }

  /** The trees of a list none of whose cells changed; the links of the list itself are not asked. */
  lemma FrontKept(h: Cells, h': Cells, ts: seq<Tree>)
    requires (forall i :: 0 <= i < |ts| ==> Rep(h, ts[i])) && SepAll(ts) && TidyAll(h, ts) && PlainAll(h, ts)
    requires forall p :: p in FootAll(ts) ==> p in h && p in h' && h'[p] == h[p]
    ensures (forall i :: 0 <= i < |ts| ==> Rep(h', ts[i])) && TidyAll(h', ts) && PlainAll(h', ts)
    ensures Values(h', ts) == Values(h, ts) && Members(h', ts) == Members(h, ts)
  {
    hide Tidy, Plain, Sep, SepAll, Rep;
    forall i | 0 <= i < |ts|
      ensures Rep(h', ts[i]) && Tidy(h', ts[i]) && Plain(h', ts[i]) && MemberOf(h', ts[i]) == MemberOf(h, ts[i])
    {
      SepAllIndex(ts, i, i);
      FootAllIndex(ts, i);
      FootLive(h, ts[i]);
      RepIsNode(h, ts[i]);
      assert Agree(h, h', ts[i]);
      Frame(h, h', ts[i]);
    }
    ValuesSame(h, h', ts);
  }

  lemma RefillLinks(h: Cells, h': Cells, ts: seq<Tree>, t: Tree, u: Tree)
    requires Chain(h, ts + [t]) && OpenList(h, ts + [t]) && u.ptr == t.ptr
    requires IsNode(h, t.ptr) && IsNode(h', t.ptr)
    requires h'[t.ptr].node.next == h[t.ptr].node.next && h'[t.ptr].node.prev == h[t.ptr].node.prev
    requires h.Keys <= h'.Keys && forall p :: p in h && p != t.ptr ==> h'[p] == h[p]
    ensures Chain(h', ts + [u]) && OpenList(h', ts + [u])
  {
    var vs, us := ts + [t], ts + [u];
    forall i | 0 <= i < |us|
      ensures IsNode(h', us[i].ptr) && h'[us[i].ptr].node.next == NextOf(us, i)
      ensures h'[us[i].ptr].node.prev == OpenPrev(us, i)
    {
      assert us[i].ptr == vs[i].ptr && IsNode(h, vs[i].ptr);
      assert i + 1 < |us| ==> us[i + 1].ptr == vs[i + 1].ptr;
      assert i > 0 ==> us[i - 1].ptr == vs[i - 1].ptr;
    }
  }

  lemma RefillSets(h0: Cells, h: Cells, h': Cells, ts: seq<Tree>, t: Tree, u: Tree)
    requires Listing(h0, h, ts + [t]) && Regrown(h, h', t, u) && t.ptr in Foot(t)
    ensures FootAll(ts) !! Foot(u) && FootAll(ts + [u]) !! h0.Keys && h'.Keys == h0.Keys + FootAll(ts + [u])
    ensures Extends(h0, h')
  {
    hide Rep, Tidy, Plain, Foot, Sep, FootAll, SepAll, Chain, OpenList;
    FootAllAppend(ts, t);
    FootAllAppend(ts, u);
    ListPrefix(h, ts, t);
    FootAllLive(h, ts);
  }
}
