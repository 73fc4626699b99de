/** What the data of parsed nodes look like, and that rewriting sibling links does not matter to it. */
module SoundTrees {
  import opened Numbers
  import opened CHeap
  import opened CHeapFacts
  import opened TreeOps

  /** The kind, text and number fields of one node as the parser leaves them. */
  ghost predicate SoundNode(n: Node) {
    && n.kind !in {KInvalid, KRaw}
    && (n.kind == KString <==> n.text != 0)
    && (n.kind == KNumber ==> n.valueint == Saturate(n.valuedouble))
    && (n.kind != KNumber ==> n.valuedouble == 0.0 && n.valueint == if n.kind == KTrue then 1 else 0)
  }

  /** Every node below `t` is like that, and the members of objects have names. */
  ghost predicate Sound(h: Cells, t: Tree) {
    && IsNode(h, t.ptr) && SoundNode(h[t.ptr].node)
    && (h[t.ptr].node.kind == KObject ==> Named(h, t.kids))
    && forall i :: 0 <= i < |t.kids| ==> Sound(h, t.kids[i])
  }

  ghost predicate Named(h: Cells, ts: seq<Tree>) {
    forall i :: 0 <= i < |ts| ==> IsNode(h, ts[i].ptr) && h[ts[i].ptr].node.name != 0
  }

  /** The same of a list, whose nodes have names if it is one of members. */
  ghost predicate SoundAll(h: Cells, ts: seq<Tree>, named: bool) {
    (forall i :: 0 <= i < |ts| ==> Sound(h, ts[i])) && (named ==> Named(h, ts))
  }

  /** Of the cells in `s` at most sibling links differ. */
  ghost predicate Relinks(h: Cells, h': Cells, s: set<Ptr>) {
    forall p :: p in s ==> p in h && p in h' && (h'[p] == h[p] || SameButLinks(h[p], h'[p]))
  }

  lemma {:induction false} SoundFrame(h: Cells, h': Cells, t: Tree)
    requires Rep(h, t) && Relinks(h, h', Foot(t)) && Sound(h, t)
    ensures Sound(h', t)
    decreases t
  {
    hide Foot, FootAll, SoundNode, Shell, Chain;
    FootLive(h, t);
    forall i | 0 <= i < |t.kids| ensures Sound(h', t.kids[i]) && t.kids[i].ptr in Foot(t) {
      KidInside(h, t, i);
      SoundFrame(h, h', t.kids[i]);
    }
    assert SoundNode(h'[t.ptr].node) by {
      SoundLinks(h[t.ptr].node, h'[t.ptr].node);
    }
  }

  lemma SoundLinks(n: Node, m: Node)
    requires m == n.(next := m.next, prev := m.prev)
    ensures SoundNode(m) <==> SoundNode(n)
  {
  }

  lemma KidInside(h: Cells, t: Tree, i: nat)
    requires Rep(h, t) && i < |t.kids|
    ensures Foot(t.kids[i]) <= Foot(t) && t.kids[i].ptr in Foot(t)
  {
    hide FootAll;
    FootAllIndex(t.kids, i);
    FootLive(h, t.kids[i]);
  }

  /** A list of whole trees stays sound. */
  lemma StillSound(h: Cells, h': Cells, ts: seq<Tree>, named: bool)
    requires (forall i :: 0 <= i < |ts| ==> Rep(h, ts[i])) && Relinks(h, h', FootAll(ts)) && SoundAll(h, ts, named)
    ensures SoundAll(h', ts, named)
  {
    hide Foot, FootAll, Rep, Sound;
    forall i | 0 <= i < |ts|
      ensures Sound(h', ts[i])
      ensures named ==> IsNode(h', ts[i].ptr) && h'[ts[i].ptr].node.name != 0
    {
      FootAllIndex(ts, i);
      FootLive(h, ts[i]);
      SoundFrame(h, h', ts[i]);
    }
  }

  lemma SoundAppend(h: Cells, ts: seq<Tree>, u: Tree, named: bool)
    requires SoundAll(h, ts, named) && Sound(h, u) && (named ==> h[u.ptr].node.name != 0)
    ensures SoundAll(h, ts + [u], named)
  {
    hide Sound;
    assert Sound(h, u) ==> IsNode(h, u.ptr) by {
      RootIsNode(h, u);
    }
  }

  lemma RootIsNode(h: Cells, u: Tree)
    requires Sound(h, u)
    ensures IsNode(h, u.ptr)
  {
  }

  /** A tree that owns all its strings and children is what a reader of the pointers sees. */
  lemma {:induction false} PlainView(h: Cells, t: Tree)
    requires Rep(h, t) && Plain(h, t)
    ensures View(h, t)
    decreases t
  {
    hide Chain;
    forall i | 0 <= i < |t.kids| ensures View(h, t.kids[i]) {
      PlainView(h, t.kids[i]);
    }
  }
}
