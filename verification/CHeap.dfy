/** The C heap of cJSON: one address space of nodes and string blocks, malloc and free. */
module CHeap {
  import opened Bytes
  import opened JsonTree

  /** An address; 0 is NULL. */
  type Ptr = nat

  datatype Kind = KInvalid | KFalse | KTrue | KNull | KNumber | KString | KArray | KObject | KRaw

  /** `struct cJSON`; the two flag bits of `type` are fields of their own. */
  datatype Node = Node(
    next: Ptr, prev: Ptr, child: Ptr,
    kind: Kind, isReference: bool, constName: bool,
    text: Ptr, valueint: int, valuedouble: real, name: Ptr)

  /** What `memset` leaves in a new node. */
  const BLANK := Node(0, 0, 0, KInvalid, false, false, 0, 0, 0.0, 0)

  datatype Cell = NodeCell(node: Node) | Block(content: bytes)

  type Cells = map<Ptr, Cell>

  ghost predicate IsNode(h: Cells, p: Ptr) {
    p != 0 && p in h && h[p].NodeCell?
  }

  ghost predicate IsBlock(h: Cells, p: Ptr) {
    p != 0 && p in h && h[p].Block?
  }

  /** `h'` has everything `h` has. */
  ghost predicate Extends(h: Cells, h': Cells) {
    forall p :: p in h ==> p in h' && h'[p] == h[p]
  }

  lemma FreshAddress(used: set<Ptr>) returns (p: Ptr)
    ensures p !in used && p != 0
  {
    p := 1 + Sum(used);
    if p in used {
      SumBounds(used, p);
    }
  }

  ghost function Sum(s: set<Ptr>): nat {
    if s == {} then 0 else var x :| x in s; x + Sum(s - {x})
  }

  lemma SumBounds(s: set<Ptr>, x: Ptr)
    requires x in s
    ensures x <= Sum(s)
  {
    var y :| y in s && Sum(s) == y + Sum(s - {y});
    if x != y {
      SumBounds(s - {y}, x);
    }
  }

  /** How many of the first `n` requests a pattern refuses. */
  ghost function Refusals(grants: nat -> bool, n: nat): nat {
    if n == 0 then 0 else Refusals(grants, n - 1) + if grants(n - 1) then 0 else 1
  }

  /** Requests with no refusal among them, and the other way round. */
  lemma {:induction false} NoRefusals(grants: nat -> bool, a: nat, b: nat)
    requires a <= b
    ensures Refusals(grants, a) <= Refusals(grants, b)
    ensures Refusals(grants, a) == Refusals(grants, b) <==> forall i :: a <= i < b ==> grants(i)
    decreases b - a
  {
    if a < b {
      NoRefusals(grants, a, b - 1);
    }
  }

  /** The allocator. Every access goes through a live address, and `Free` asks for one, so that a
      verified caller neither reads freed memory nor frees twice. `grants` says of every request that
      will ever be made whether it succeeds; nothing is known of it. */
  class Memory {
    const grants: nat -> bool
    var cells: Cells
    var requests: nat

    constructor (grants: nat -> bool)
      ensures this.grants == grants && cells == map[] && requests == 0
    {
      this.grants, cells, requests := grants, map[], 0;
    }

    ghost function Refused(): nat
      reads `requests
    {
      Refusals(grants, requests)
    }

    /** All requests from number `first` on have succeeded so far. */
    ghost predicate GrantedSince(first: nat)
      reads `requests
    {
      forall i :: first <= i < requests ==> grants(i)
    }

    /** The same as a count. */
    lemma SinceRefused(first: nat)
      requires first <= requests
      ensures Refusals(grants, first) <= Refused()
      ensures Refusals(grants, first) == Refused() <==> GrantedSince(first)
    {
      NoRefusals(grants, first, requests);
    }

    method Allocate(initial: Cell) returns (p: Ptr)
      modifies this
      ensures requests == old(requests) + 1 && (p != 0 <==> grants(old(requests)))
      ensures p == 0 ==> Refused() == old(Refused()) + 1 && cells == old(cells)
      ensures p != 0 ==> Refused() == old(Refused()) && p !in old(cells) && cells == old(cells)[p := initial]
    {
      requests := requests + 1;
      if !grants(requests - 1) {
        return 0;
      }
      ghost var unused := FreshAddress(cells.Keys);
      p :| p != 0 && p !in cells;
      cells := cells[p := initial];
    }

    method Free(p: Ptr)
      requires p in cells
      modifies this`cells
      ensures cells == old(cells) - {p}
    {
      cells := cells - {p};
    }

    /** Overwrites a live string block. */
    method Fill(p: Ptr, content: bytes)
      requires IsBlock(cells, p)
      modifies this`cells
      ensures cells == old(cells)[p := Block(content)]
    {
      cells := cells[p := Block(content)];
    }

    /** Overwrites a live node. */
    method Store(p: Ptr, n: Node)
      requires IsNode(cells, p)
      modifies this`cells
      ensures cells == old(cells)[p := NodeCell(n)]
    {
      cells := cells[p := NodeCell(n)];
    }
  }

  // ---------------------------------------------------------------- shapes

  /** The shape of a tree in the heap: node addresses, and the addresses of its two strings. */
  datatype Tree = Tree(ptr: Ptr, text: Ptr, name: Ptr, kids: seq<Tree>)

  function First(ts: seq<Tree>): Ptr {
    PtrAt(ts, 0)
  }

  function PtrAt(ts: seq<Tree>, i: nat): Ptr {
    if i < |ts| then ts[i].ptr else 0
  }

  function NextOf(ts: seq<Tree>, i: nat): Ptr {
    PtrAt(ts, i + 1)
  }

  function PrevOf(ts: seq<Tree>, i: nat): Ptr
    requires i < |ts|
  {
    if i == 0 then ts[|ts| - 1].ptr else ts[i - 1].ptr
  }

  /** The siblings form a `next` chain that ends in NULL. */
  ghost predicate Chain(h: Cells, ts: seq<Tree>) {
    forall i :: 0 <= i < |ts| ==> IsNode(h, ts[i].ptr) && h[ts[i].ptr].node.next == NextOf(ts, i)
  }

  lemma PtrAtNull(h: Cells, ts: seq<Tree>, i: nat)
    requires Chain(h, ts) && i <= |ts|
    ensures PtrAt(ts, i) == 0 <==> i == |ts|
    ensures i < |ts| ==> IsNode(h, ts[i].ptr) && h[ts[i].ptr].node.next == NextOf(ts, i)
  {
    if i < |ts| {
      assert IsNode(h, ts[i].ptr);
    }
  }

  /** The circular `prev` links: the first sibling points to the last. */
  ghost predicate Backward(h: Cells, ts: seq<Tree>) {
    forall i :: 0 <= i < |ts| ==> IsNode(h, ts[i].ptr) && h[ts[i].ptr].node.prev == PrevOf(ts, i)
  }

  /** What a node must hold for the shape it roots. A reference owns neither child nor text; a
      constant name is not owned. */
  ghost predicate Shell(h: Cells, t: Tree) {
    && IsNode(h, t.ptr)
    && var n := h[t.ptr].node;
    && (if n.isReference then t.kids == [] && t.text == 0 else n.child == First(t.kids) && n.text == t.text)
    && (if n.constName then t.name == 0 else n.name == t.name)
    && (t.text != 0 ==> IsBlock(h, t.text))
    && (t.name != 0 ==> IsBlock(h, t.name))
  }

  /** The owned structure below `t` is in the heap. */
  ghost predicate Rep(h: Cells, t: Tree) {
    Shell(h, t) && Chain(h, t.kids) && forall i :: 0 <= i < |t.kids| ==> Rep(h, t.kids[i])
  }

  ghost predicate RepAll(h: Cells, ts: seq<Tree>) {
    Chain(h, ts) && forall i :: 0 <= i < |ts| ==> Rep(h, ts[i])
  }

  /** All sibling lists below `t` have their `prev` links. */
  ghost predicate Tidy(h: Cells, t: Tree) {
    Backward(h, t.kids) && forall i :: 0 <= i < |t.kids| ==> Tidy(h, t.kids[i])
  }

  ghost predicate TidyAll(h: Cells, ts: seq<Tree>) {
    forall i :: 0 <= i < |ts| ==> Tidy(h, ts[i])
  }

  /** The addresses `t` owns. */
  ghost function Foot(t: Tree): set<Ptr> {
    ({t.ptr, t.text, t.name} - {0}) + FootAll(t.kids)
  }

  ghost function FootAll(ts: seq<Tree>): set<Ptr> {
    if ts == [] then {} else FootAll(ts[..|ts| - 1]) + Foot(ts[|ts| - 1])
  }

  /** No address is owned twice. */
  ghost predicate Sep(t: Tree) {
    && t.ptr != 0 && t.ptr != t.text && t.ptr != t.name && (t.text == t.name ==> t.text == 0)
    && {t.ptr, t.text, t.name} !! FootAll(t.kids)
    && SepAll(t.kids)
  }

  ghost predicate SepAll(ts: seq<Tree>) {
    ts == [] || (SepAll(ts[..|ts| - 1]) && Sep(ts[|ts| - 1]) && FootAll(ts[..|ts| - 1]) !! Foot(ts[|ts| - 1]))
  }

  /** No references and no constant names below `t`. */
  ghost predicate Plain(h: Cells, t: Tree) {
    && IsNode(h, t.ptr) && !h[t.ptr].node.isReference && !h[t.ptr].node.constName
    && forall i :: 0 <= i < |t.kids| ==> Plain(h, t.kids[i])
  }

  ghost predicate PlainAll(h: Cells, ts: seq<Tree>) {
    forall i :: 0 <= i < |ts| ==> Plain(h, ts[i])
  }

  // ---------------------------------------------------------------- abstract value

  ghost function StringOf(h: Cells, p: Ptr): bytes {
    if IsBlock(h, p) then CString(h[p].content) else []
  }

  /** The value a node and the shape below it stand for. */
  ghost function Value(h: Cells, t: Tree): Json
    decreases t, 0
  {
    if !IsNode(h, t.ptr) then Null
    else
      var n := h[t.ptr].node;
      match n.kind
      case KFalse => Bool(false)
      case KTrue => Bool(true)
      case KNumber => Number(n.valuedouble)
      case KString => String(StringOf(h, n.text))
      case KRaw => Raw(StringOf(h, n.text))
      case KArray => Array(Values(h, t.kids))
      case KObject => Object(Members(h, t.kids))
      case _ => Null
  }

  ghost function Values(h: Cells, ts: seq<Tree>): (r: seq<Json>)
    ensures |r| == |ts|
    decreases ts
  {
    if ts == [] then [] else Values(h, ts[..|ts| - 1]) + [Value(h, ts[|ts| - 1])]
  }

  ghost function MemberOf(h: Cells, t: Tree): Member
    decreases t, 1
  {
    Member(if IsNode(h, t.ptr) then StringOf(h, h[t.ptr].node.name) else [], Value(h, t))
  }

  ghost function Members(h: Cells, ts: seq<Tree>): (r: seq<Member>)
    ensures |r| == |ts|
    decreases ts
  {
    if ts == [] then [] else Members(h, ts[..|ts| - 1]) + [MemberOf(h, ts[|ts| - 1])]
  }
}
