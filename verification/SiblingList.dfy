/** The child list of arrays and objects: append, insert, detach and replace on the circular-prev
    list refine the operations on a sequence, change nothing else in the heap, and do to the value of
    the container what they do to the list. */
module SiblingList {
  import opened Bytes
  import opened JsonTree
  import opened CHeap
  import opened CHeapFacts
  import opened TreeOps

  /** A container in good order: owned structure, no sharing, all links. */
  ghost predicate Family(h: Cells, p: Tree) {
    Rep(h, p) && Sep(p) && Tidy(h, p) && IsNode(h, p.ptr) && !h[p.ptr].node.isReference
  }

  /** A tree in no list, apart from the container. */
  ghost predicate Outside(h: Cells, p: Tree, t: Tree) {
    Detached(h, t) && Foot(t) !! Foot(p)
  }

  ghost function RootSet(ts: seq<Tree>): set<Ptr> {
    set t | t in ts :: t.ptr
  }

  /** The container's children become the trees `us`, by rewriting links of the trees in `all` and
      the child pointer. */
  ghost predicate Relisted(h: Cells, h': Cells, p: Tree, us: seq<Tree>, all: seq<Tree>) {
    && h'.Keys == h.Keys
    && (forall q :: q in h && q !in RootSet(all) && q != p.ptr ==> h'[q] == h[q])
    && (forall q :: q in h && q in RootSet(all) ==> SameButLinks(h[q], h'[q]))
    && p.ptr in h && h[p.ptr].NodeCell? && h'[p.ptr] == NodeCell(h[p.ptr].node.(child := First(us)))
  }

  /** `all` are whole, separate trees beside the container's own cells. */
  ghost predicate Pool(h: Cells, p: Tree, all: seq<Tree>) {
    && SepAll(all) && {p.ptr, p.text, p.name} !! FootAll(all)
    && forall i :: 0 <= i < |all| ==> Rep(h, all[i]) && Tidy(h, all[i])
  }

  lemma PoolMember(h: Cells, h': Cells, p: Tree, us: seq<Tree>, all: seq<Tree>, u: Tree)
    requires Pool(h, p, all) && Relisted(h, h', p, us, all) && u in all
    ensures Rep(h', u) && Tidy(h', u) && Foot(u) <= FootAll(all)
    ensures Plain(h, u) ==> Plain(h', u) && MemberOf(h', u) == MemberOf(h, u)
  {
    hide Foot, Sep, SepAll, Plain, FootAll, Rep, Tidy;
    var i :| 0 <= i < |all| && all[i] == u;
    SepAllIndex(all, i, i);
    FootLive(h, u);
    FootAllIndex(all, i);
    RepIsNode(h, u);
    forall q | q in RootSet(all) && q in Foot(u) ensures q == u.ptr {
      var j :| 0 <= j < |all| && all[j].ptr == q;
      OnlyRoot(h, all, j, i);
    }
    assert Agree(h, h', u);
    Frame(h, h', u);
  }

  /** If the new links form a proper list, the container is in good order with the new children,
      and every child stands for the same value as before. */
  lemma Relist(h: Cells, h': Cells, p: Tree, us: seq<Tree>, all: seq<Tree>)
    requires Family(h, p) && Pool(h, p, all) && Relisted(h, h', p, us, all)
    requires SepAll(us) && FootAll(us) <= FootAll(all) && forall i :: 0 <= i < |us| ==> us[i] in all
    requires Chain(h', us) && Backward(h', us)
    ensures Family(h', p.(kids := us))
    ensures PlainAll(h, us) ==> PlainAll(h', us) && Values(h', us) == Values(h, us) && Members(h', us) == Members(h, us)
  {
    hide Foot, Sep, SepAll, Plain, Chain, Backward, Relisted, Pool, Rep, Tidy, Family;
    forall i | 0 <= i < |us|
      ensures Rep(h', us[i]) && Tidy(h', us[i])
      ensures Plain(h, us[i]) ==> Plain(h', us[i]) && MemberOf(h', us[i]) == MemberOf(h, us[i])
    {
      PoolMember(h, h', p, us, all, us[i]);
    }
    if PlainAll(h, us) {
      ValuesSame(h, h', us);
    }
    RelistRoot(h, h', p, us, all);
  }

  lemma RelistRoot(h: Cells, h': Cells, p: Tree, us: seq<Tree>, all: seq<Tree>)
    requires Family(h, p) && Pool(h, p, all) && Relisted(h, h', p, us, all)
    requires SepAll(us) && FootAll(us) <= FootAll(all)
    requires (forall i :: 0 <= i < |us| ==> Rep(h', us[i]) && Tidy(h', us[i])) && Chain(h', us) && Backward(h', us)
    ensures Family(h', p.(kids := us))
  {
    hide FootAll, SepAll, Chain, Backward;
    forall q | q in RootSet(all) ensures q in FootAll(all) {
      var j :| 0 <= j < |all| && all[j].ptr == q;
      FootLive(h, all[j]);
      FootAllIndex(all, j);
    }
    FootLive(h, p);
  }

  // ---------------------------------------------------------------- reading

  /** `get_array_item`: the node at an index, or NULL behind the end. */
  method GetArrayItem(mem: Memory, list: Ptr, index: nat, ghost p: Tree) returns (r: Ptr)
    requires list != 0 ==> Family(mem.cells, p) && list == p.ptr
    ensures r == if list == 0 then 0 else PtrAt(p.kids, index)
  {
    hide Rep, Sep, Tidy, Chain, Backward, SepAll, Family, Foot;
    if list == 0 {
      return 0;
    }
    FamilyLinks(mem.cells, p);
    var k := index;
    r := mem.cells[list].node.child;
    ghost var i := 0;
    while r != 0 && k > 0
      invariant i <= |p.kids| && r == PtrAt(p.kids, i) && k == index - i
      decreases k
    {
      PtrAtNull(mem.cells, p.kids, i);
      k := k - 1;
      r := mem.cells[r].node.next;
      i := i + 1;
    }
    PtrAtNull(mem.cells, p.kids, i);
  }

  /** The C conversion of `size_t` to `int`. */
  function ToInt(n: nat): (r: int)
    ensures INT_MIN <= r <= INT_MAX && (n - r) % 0x1_0000_0000 == 0
  {
    (n + 0x8000_0000) % 0x1_0000_0000 - 0x8000_0000
  }

  /** `cJSON_GetArraySize`: the number of children, as long as it fits an `int`. */
  method GetArraySize(mem: Memory, list: Ptr, ghost p: Tree) returns (r: int)
    requires list != 0 ==> Family(mem.cells, p) && list == p.ptr
    ensures r == if list == 0 then 0 else ToInt(|p.kids|)
    ensures list != 0 && |p.kids| <= INT_MAX ==> r == |p.kids|
  {
    hide Rep, Sep, Tidy, Chain;
    if list == 0 {
      return 0;
    }
    FamilyLinks(mem.cells, p);
    var child, size := mem.cells[list].node.child, 0;
    while child != 0
      invariant size <= |p.kids| && child == PtrAt(p.kids, size)
      decreases |p.kids| - size
    {
      PtrAtNull(mem.cells, p.kids, size);
      size := size + 1;
      child := mem.cells[child].node.next;
    }
    PtrAtNull(mem.cells, p.kids, size);
    r := ToInt(size);
  }

  // ---------------------------------------------------------------- what the operations mean

  /** A value with one child more, before position `i`: an item of an array, a member of an object. */
  function Inserted(v: Json, i: nat, m: Member): Json {
    match v
    case Array(items) => if i <= |items| then Array(items[..i] + [m.value] + items[i..]) else v
    case Object(members) => if i <= |members| then Object(members[..i] + [m] + members[i..]) else v
    case _ => v
  }

  /** A value without its child `i`. */
  function Removed(v: Json, i: nat): Json {
    match v
    case Array(items) => if i < |items| then Array(items[..i] + items[i + 1..]) else v
    case Object(members) => if i < |members| then Object(members[..i] + members[i + 1..]) else v
    case _ => v
  }

  /** A value with its child `i` exchanged. */
  function Exchanged(v: Json, i: nat, m: Member): Json {
    match v
    case Array(items) => if i < |items| then Array(items[i := m.value]) else v
    case Object(members) => if i < |members| then Object(members[i := m]) else v
    case _ => v
  }

  /** Removing what was inserted gives the value back, and exchanging is removing and inserting. */
  lemma OperationLaws(v: Json, i: nat, m: Member)
    ensures i <= Count(v) ==> Removed(Inserted(v, i, m), i) == v
    ensures i < Count(v) ==> Exchanged(v, i, m) == Inserted(Removed(v, i), i, m)
  {
    match v
    case Array(items) => SequenceLaws(items, i, m.value);
    case Object(members) => SequenceLaws(members, i, m);
    case _ =>
  }

  lemma SequenceLaws<T>(s: seq<T>, i: nat, x: T)
    ensures i <= |s| ==> var t := s[..i] + [x] + s[i..]; t[..i] + t[i + 1..] == s
    ensures i < |s| ==> var t := s[..i] + s[i + 1..]; i <= |t| && t[..i] + [x] + t[i..] == s[i := x]
  {
    if i <= |s| {
      var t := s[..i] + [x] + s[i..];
      assert t[..i] == s[..i] && t[i + 1..] == s[i..];
      assert s[..i] + s[i..] == s;
    }
  }

  function Count(v: Json): nat {
    match v
    case Array(items) => |items|
    case Object(members) => |members|
    case _ => 0
  }

  /** The container `p` stands for `v` now, under the key it had as member `m`. */
  ghost predicate StandsFor(h: Cells, p: Tree, m: Member, v: Json) {
    MemberOf(h, p) == Member(m.key, v)
  }

  /** The value of a container that lists `us` now, in terms of the heap before. */
  ghost function Holding(h: Cells, p: Tree, us: seq<Tree>): Json {
    var v := Value(h, p);
    match v
    case Array(_) => Array(Values(h, us))
    case Object(_) => Object(Members(h, us))
    case _ => v
  }

  /** No string anywhere is touched. */
  lemma StringsStay(h: Cells, h': Cells, p: Tree, us: seq<Tree>, all: seq<Tree>, q: Ptr)
    requires Relisted(h, h', p, us, all)
    ensures StringOf(h', q) == StringOf(h, q)
  {
    hide RootSet, CString;
  }

  lemma ListedValue(h: Cells, h': Cells, p: Tree, us: seq<Tree>, all: seq<Tree>)
    requires IsNode(h, p.ptr) && NowListed(h, h', p, us, all) && PlainAll(h, us)
    ensures StandsFor(h', p.(kids := us), MemberOf(h, p), Holding(h, p, us))
  {
    hide Family, PlainAll, Values, Members, RootSet, CString;
    var n := h[p.ptr].node;
    StringsStay(h, h', p, us, all, n.text);
    StringsStay(h, h', p, us, all, n.name);
    assert h'[p.ptr].node == n.(child := First(us));
    assert Value(h', p.(kids := us)) == Holding(h, p, us);
  }

  lemma InsertedValue(h: Cells, h': Cells, p: Tree, i: nat, t: Tree)
    requires IsNode(h, p.ptr) && i <= |p.kids|
    requires NowListed(h, h', p, InsertAt(p.kids, i, t), InsertAt(p.kids, i, t))
    ensures PlainAll(h, p.kids) && Plain(h, t) ==>
      StandsFor(h', p.(kids := InsertAt(p.kids, i, t)), MemberOf(h, p), Inserted(Value(h, p), i, MemberOf(h, t)))
  {
    hide NowListed, Plain, StandsFor, StringOf, Values, Members;
    if PlainAll(h, p.kids) && Plain(h, t) {
      assert PlainAll(h, InsertAt(p.kids, i, t));
      ListedValue(h, h', p, InsertAt(p.kids, i, t), InsertAt(p.kids, i, t));
      InsertedValues(h, p.kids, i, t);
    }
  }

  lemma InsertedValues(h: Cells, ts: seq<Tree>, i: nat, t: Tree)
    requires i <= |ts|
    ensures Values(h, InsertAt(ts, i, t)) == Values(h, ts)[..i] + [MemberOf(h, t).value] + Values(h, ts)[i..]
    ensures Members(h, InsertAt(ts, i, t)) == Members(h, ts)[..i] + [MemberOf(h, t)] + Members(h, ts)[i..]
  {
    hide Values, Members;
    ValuesConcat(h, ts[..i] + [t], ts[i..]);
    ValuesAppend(h, ts[..i], t);
    ValuesSplit(h, ts, i);
  }

  lemma {:induction false} ValuesConcat(h: Cells, a: seq<Tree>, b: seq<Tree>)
    ensures Values(h, a + b) == Values(h, a) + Values(h, b) && Members(h, a + b) == Members(h, a) + Members(h, b)
    decreases |b|
  {
    hide MemberOf, Value;
    if b == [] {
      assert a + b == a;
    } else {
      hide Values, Members;
      var front, last := b[..|b| - 1], b[|b| - 1];
      ValuesConcat(h, a, front);
      ValuesAppend(h, a + front, last);
      ValuesAppend(h, front, last);
      assert a + b == (a + front) + [last] && b == front + [last];
    }
  }

  lemma ValuesSplit(h: Cells, ts: seq<Tree>, i: nat)
    requires i <= |ts|
    ensures Values(h, ts)[..i] == Values(h, ts[..i]) && Values(h, ts)[i..] == Values(h, ts[i..])
    ensures Members(h, ts)[..i] == Members(h, ts[..i]) && Members(h, ts)[i..] == Members(h, ts[i..])
  {
    hide Values, Members;
    ValuesConcat(h, ts[..i], ts[i..]);
    assert ts == ts[..i] + ts[i..];
  }

  lemma RemovedValue(h: Cells, h': Cells, p: Tree, i: nat)
    requires IsNode(h, p.ptr) && i < |p.kids| && NowListed(h, h', p, RemoveAt(p.kids, i), p.kids)
    ensures PlainAll(h, p.kids) ==>
      StandsFor(h', p.(kids := RemoveAt(p.kids, i)), MemberOf(h, p), Removed(Value(h, p), i))
  {
    hide NowListed, Plain, StandsFor, StringOf, Values, Members;
    if PlainAll(h, p.kids) {
      assert PlainAll(h, RemoveAt(p.kids, i));
      ListedValue(h, h', p, RemoveAt(p.kids, i), p.kids);
      RemovedValues(h, p.kids, i);
    }
  }

  lemma RemovedValues(h: Cells, ts: seq<Tree>, i: nat)
    requires i < |ts|
    ensures Values(h, RemoveAt(ts, i)) == Values(h, ts)[..i] + Values(h, ts)[i + 1..]
    ensures Members(h, RemoveAt(ts, i)) == Members(h, ts)[..i] + Members(h, ts)[i + 1..]
  {
    hide Values, Members;
    ValuesConcat(h, ts[..i], ts[i + 1..]);
    ValuesSplit(h, ts, i);
    ValuesSplit(h, ts, i + 1);
  }

  lemma ExchangedValues(h: Cells, ts: seq<Tree>, i: nat, t: Tree)
    requires i < |ts|
    ensures Values(h, ts[i := t]) == Values(h, ts)[i := MemberOf(h, t).value]
    ensures Members(h, ts[i := t]) == Members(h, ts)[i := MemberOf(h, t)]
  {
    hide Values, Members;
    assert ts[i := t] == InsertAt(RemoveAt(ts, i), i, t);
    RemovedValues(h, ts, i);
    InsertedValues(h, RemoveAt(ts, i), i, t);
  }

  // ---------------------------------------------------------------- append

  /** Facts about the last child that append relies on. */
  lemma LastChild(h: Cells, p: Tree)
    requires Family(h, p) && p.kids != []
    ensures IsNode(h, p.kids[0].ptr) && IsNode(h, p.kids[|p.kids| - 1].ptr)
    ensures h[p.ptr].node.child == p.kids[0].ptr && h[p.kids[0].ptr].node.prev == p.kids[|p.kids| - 1].ptr
  {
    assert IsNode(h, p.kids[0].ptr) && IsNode(h, p.kids[|p.kids| - 1].ptr);
  }

  lemma Roots(h: Cells, p: Tree)
    requires Family(h, p)
    ensures forall i :: 0 <= i < |p.kids| ==>
      IsNode(h, p.kids[i].ptr) && Rep(h, p.kids[i]) && Tidy(h, p.kids[i]) && p.kids[i].ptr in FootAll(p.kids)
      && h[p.kids[i].ptr].node.next == NextOf(p.kids, i) && h[p.kids[i].ptr].node.prev == PrevOf(p.kids, i)
    ensures forall i, j :: 0 <= i < |p.kids| && 0 <= j < |p.kids| && p.kids[i].ptr == p.kids[j].ptr ==> i == j
    ensures p.ptr !in FootAll(p.kids) && First(p.kids) == h[p.ptr].node.child && SepAll(p.kids)
    ensures {p.ptr, p.text, p.name} !! FootAll(p.kids) && FootAll(p.kids) <= Foot(p)
    ensures p.ptr in Foot(p) && ({p.text, p.name} - {0}) <= Foot(p) && 0 !in Foot(p)
  {
    hide Foot, SepAll, FootAll;
    FootAllLive(h, p.kids);
    FootLive(h, p);
    DistinctRoots(h, p.kids);
    RootApart(p);
    RootStrings(p);
  }

  lemma RootStrings(p: Tree)
    ensures ({p.ptr, p.text, p.name} - {0}) <= Foot(p)
  {
  }

  /** The list with a detached tree inserted before position `i`. */
  function InsertAt(ts: seq<Tree>, i: nat, t: Tree): seq<Tree>
    requires i <= |ts|
  {
    ts[..i] + [t] + ts[i..]
  }

  lemma InsertOwned(ts: seq<Tree>, i: nat, t: Tree)
    requires i <= |ts| && SepAll(ts) && Sep(t) && FootAll(ts) !! Foot(t)
    ensures SepAll(InsertAt(ts, i, t)) && FootAll(InsertAt(ts, i, t)) == FootAll(ts) + Foot(t)
  {
    hide Foot, Sep, FootAll, SepAll;
    assert ts == ts[..i] + ts[i..];
    FootAllConcat(ts[..i], ts[i..]);
    FootAllAppend(ts[..i], t);
    FootAllConcat(ts[..i] + [t], ts[i..]);
  }

  lemma InsertPool(h: Cells, p: Tree, i: nat, t: Tree)
    requires Family(h, p) && Outside(h, p, t) && i <= |p.kids|
    ensures Pool(h, p, InsertAt(p.kids, i, t)) && IsNode(h, t.ptr)
  {
    hide Foot, SepAll, FootAll, Rep, Tidy, Chain, Backward;
    Roots(h, p);
    InsertSeparate(h, p, i, t);
    RepIsNode(h, t);
    var us := InsertAt(p.kids, i, t);
    forall k | 0 <= k < |us| ensures Rep(h, us[k]) && Tidy(h, us[k]) {
      assert us[k] == if k < i then p.kids[k] else if k == i then t else p.kids[k - 1];
    }
  }

  lemma InsertSeparate(h: Cells, p: Tree, i: nat, t: Tree)
    requires Family(h, p) && Outside(h, p, t) && i <= |p.kids|
    ensures SepAll(InsertAt(p.kids, i, t)) && {p.ptr, p.text, p.name} !! FootAll(InsertAt(p.kids, i, t))
    ensures FootAll(InsertAt(p.kids, i, t)) == FootAll(p.kids) + Foot(t)
  {
    hide Foot, SepAll, FootAll, Rep, Tidy, Chain, Backward;
    Roots(h, p);
    InsertOwned(p.kids, i, t);
    FootLive(h, t);
  }

  /** All roots of `all` are distinct nodes; the container is apart from them. */
  ghost predicate DistinctNodes(h: Cells, p: Tree, all: seq<Tree>) {
    && (forall i :: 0 <= i < |all| ==> IsNode(h, all[i].ptr) && all[i].ptr != p.ptr)
    && (forall i, j :: 0 <= i < |all| && 0 <= j < |all| && all[i].ptr == all[j].ptr ==> i == j)
    && IsNode(h, p.ptr)
  }

  lemma PoolDistinct(h: Cells, p: Tree, all: seq<Tree>)
    requires Pool(h, p, all) && IsNode(h, p.ptr)
    ensures DistinctNodes(h, p, all)
  {
    hide Foot, SepAll, FootAll, Rep, Tidy;
    FootAllLive(h, all);
    DistinctRoots(h, all);
    forall i | 0 <= i < |all| ensures IsNode(h, all[i].ptr) {
      RepIsNode(h, all[i]);
    }
  }

  /** Roots written through links only, and the container's child pointer. */
  lemma RelistedBy(h: Cells, h': Cells, p: Tree, us: seq<Tree>, all: seq<Tree>, touched: set<Ptr>)
    requires DistinctNodes(h, p, all) && touched <= RootSet(all) && h'.Keys == h.Keys
    requires forall q :: q in h && q !in touched && q != p.ptr ==> h'[q] == h[q]
    requires forall q :: q in h && q in touched ==> SameButLinks(h[q], h'[q])
    requires h'[p.ptr] == NodeCell(h[p.ptr].node.(child := First(us)))
    ensures Relisted(h, h', p, us, all)
  {
    forall q | q in h && q in RootSet(all) ensures SameButLinks(h[q], h'[q]) {
      var i :| 0 <= i < |all| && all[i].ptr == q;
      assert IsNode(h, all[i].ptr);
    }
  }

  function AppendHeap(h: Cells, list: Ptr, first: Ptr, last: Ptr, item: Ptr): Cells
    requires list in h && h[list].NodeCell? && item in h && h[item].NodeCell?
    requires first != 0 ==> first in h && h[first].NodeCell? && last in h && h[last].NodeCell?
  {
    if first == 0 then SetNext(SetPrev(SetChild(h, list, item), item, item), item, 0)
    else SetPrev(SetPrev(SetNext(h, last, item), item, last), first, item)
  }

  lemma AppendChain(h: Cells, h': Cells, p: Tree, t: Tree)
    requires DistinctNodes(h, p, p.kids + [t]) && Chain(h, p.kids) && p.kids != []
    requires IsNode(h, t.ptr) && h[t.ptr].node.next == 0 && IsNode(h, p.kids[0].ptr) && IsNode(h, Tail(p.kids))
    requires h' == AppendHeap(h, p.ptr, p.kids[0].ptr, Tail(p.kids), t.ptr)
    ensures Chain(h', p.kids + [t])
  {
    var us := p.kids + [t];
    forall i | 0 <= i < |us| ensures IsNode(h', us[i].ptr) && h'[us[i].ptr].node.next == NextOf(us, i) {
      assert us[|us| - 1] == t && us[|us| - 2] == p.kids[|p.kids| - 1];
      if i < |p.kids| {
        assert us[i] == p.kids[i] && IsNode(h, p.kids[i].ptr);
      }
    }
  }

  lemma AppendBackward(h: Cells, h': Cells, p: Tree, t: Tree)
    requires DistinctNodes(h, p, p.kids + [t]) && Backward(h, p.kids) && p.kids != []
    requires IsNode(h, t.ptr) && IsNode(h, p.kids[0].ptr) && IsNode(h, Tail(p.kids))
    requires h' == AppendHeap(h, p.ptr, p.kids[0].ptr, Tail(p.kids), t.ptr)
    ensures Backward(h', p.kids + [t])
  {
    var us := p.kids + [t];
    forall i | 0 <= i < |us| ensures IsNode(h', us[i].ptr) && h'[us[i].ptr].node.prev == PrevOf(us, i) {
      assert us[|us| - 1] == t && us[0] == p.kids[0] && us[|us| - 2] == p.kids[|p.kids| - 1];
      if i < |p.kids| {
        assert us[i] == p.kids[i] && IsNode(h, p.kids[i].ptr);
      }
    }
  }

  lemma AppendLinks(h: Cells, h': Cells, p: Tree, t: Tree)
    requires DistinctNodes(h, p, p.kids + [t]) && Chain(h, p.kids) && Backward(h, p.kids)
    requires IsNode(h, p.ptr) && h[p.ptr].node.child == First(p.kids) && IsNode(h, t.ptr) && h[t.ptr].node.next == 0
    requires p.kids != [] ==> IsNode(h, p.kids[0].ptr) && IsNode(h, Tail(p.kids))
    requires h' == AppendHeap(h, p.ptr, First(p.kids), Tail(p.kids), t.ptr)
    ensures Relisted(h, h', p, p.kids + [t], p.kids + [t]) && Chain(h', p.kids + [t]) && Backward(h', p.kids + [t])
  {
    hide Relisted, DistinctNodes, RootSet, Chain, Backward;
    var us := p.kids + [t];
    AppendRoots(h, p, t);
    if p.kids == [] {
      RelistedBy(h, h', p, us, us, {t.ptr});
      SingleList(h', t);
    } else {
      RelistedBy(h, h', p, us, us, {Tail(p.kids), t.ptr, p.kids[0].ptr});
      AppendChain(h, h', p, t);
      AppendBackward(h, h', p, t);
    }
  }

  lemma SingleList(h: Cells, t: Tree)
    requires IsNode(h, t.ptr) && h[t.ptr].node.next == 0 && h[t.ptr].node.prev == t.ptr
    ensures Chain(h, [t]) && Backward(h, [t])
  {
  }

  lemma AppendRoots(h: Cells, p: Tree, t: Tree)
    requires DistinctNodes(h, p, p.kids + [t])
    ensures t.ptr in RootSet(p.kids + [t]) && t.ptr != p.ptr
    ensures p.kids != [] ==> p.kids[0].ptr in RootSet(p.kids + [t]) && Tail(p.kids) in RootSet(p.kids + [t])
    ensures p.kids != [] ==> p.kids[0].ptr != p.ptr && Tail(p.kids) != p.ptr
    ensures p.kids == [] ==> p.kids + [t] == [t]
  {
    var us := p.kids + [t];
    assert us[|us| - 1] == t;
    if p.kids != [] {
      assert us[0] == p.kids[0] && us[|us| - 2] == p.kids[|p.kids| - 1];
    }
  }

  /** The container holds the trees `us` in order. Of the heap only sibling links of the roots of
      `all` and the container's child pointer have changed, and the children stand for the values they
      stood for. */
  ghost predicate NowListed(h: Cells, h': Cells, p: Tree, us: seq<Tree>, all: seq<Tree>) {
    && Family(h', p.(kids := us)) && Relisted(h, h', p, us, all)
    && (PlainAll(h, us) ==> PlainAll(h', us) && Values(h', us) == Values(h, us) && Members(h', us) == Members(h, us))
  }

  lemma Appended(h: Cells, h': Cells, p: Tree, t: Tree)
    requires Family(h, p) && Outside(h, p, t) && IsNode(h, t.ptr)
    requires p.kids != [] ==> IsNode(h, p.kids[0].ptr) && IsNode(h, Tail(p.kids))
    requires h' == AppendHeap(h, p.ptr, First(p.kids), Tail(p.kids), t.ptr)
    ensures NowListed(h, h', p, p.kids + [t], p.kids + [t])
    ensures PlainAll(h, p.kids) && Plain(h, t) ==>
      StandsFor(h', p.(kids := p.kids + [t]), MemberOf(h, p), Inserted(Value(h, p), |p.kids|, MemberOf(h, t)))
  {
    hide Foot, Sep, SepAll, FootAll, Plain, Rep, Tidy, Chain, Backward, Relisted, StandsFor, Inserted, Value, MemberOf;
    var us := p.kids + [t];
    assert InsertAt(p.kids, |p.kids|, t) == us;
    InsertPool(h, p, |p.kids|, t);
    PoolDistinct(h, p, us);
    FamilyLinks(h, p);
    AppendLinks(h, h', p, t);
    Relist(h, h', p, us, us);
    InsertedValue(h, h', p, |p.kids|, t);
  }

  lemma FamilyLinks(h: Cells, p: Tree)
    requires Family(h, p)
    ensures Chain(h, p.kids) && Backward(h, p.kids)
    ensures IsNode(h, p.ptr) && h[p.ptr].node.child == First(p.kids)
    ensures Sep(p) && SepAll(p.kids)
  {
  }

  /** `add_item_to_array`: appends a detached item. */
  method AddItem(mem: Memory, list: Ptr, item: Ptr, ghost p: Tree, ghost t: Tree) returns (ok: bool)
    requires list != 0 ==> Family(mem.cells, p) && list == p.ptr
    requires item != 0 && list != 0 && item != list ==> Outside(mem.cells, p, t) && item == t.ptr
    modifies mem`cells
    ensures ok <==> item != 0 && list != 0 && list != item
    ensures !ok ==> mem.cells == old(mem.cells)
    ensures ok ==> NowListed(old(mem.cells), mem.cells, p, p.kids + [t], p.kids + [t])
    ensures ok && PlainAll(old(mem.cells), p.kids) && Plain(old(mem.cells), t) ==>
      StandsFor(mem.cells, p.(kids := p.kids + [t]), MemberOf(old(mem.cells), p),
        Inserted(Value(old(mem.cells), p), |p.kids|, MemberOf(old(mem.cells), t)))
  {
    if item == 0 || list == 0 || list == item {
      return false;
    }
    hide Foot, Sep, SepAll, FootAll, Plain, PlainAll, Rep, Tidy, Chain, Backward, NowListed, StandsFor, Inserted, Value,
      MemberOf;
    ghost var h := mem.cells;
    RepIsNode(h, t);
    FamilyLinks(h, p);
    PtrAtNull(h, p.kids, 0);
    if p.kids != [] {
      LastChild(h, p);
    }
    var child := mem.cells[list].node.child;
    if child == 0 {
      mem.Store(list, mem.cells[list].node.(child := item));
      mem.Store(item, mem.cells[item].node.(prev := item));
      mem.Store(item, mem.cells[item].node.(next := 0));
    } else {
      var last := mem.cells[child].node.prev;
      if last != 0 {
        mem.Store(last, mem.cells[last].node.(next := item));
        mem.Store(item, mem.cells[item].node.(prev := last));
        mem.Store(child, mem.cells[child].node.(prev := item));
      }
    }
    Appended(h, mem.cells, p, t);
    return true;
  }

  // ---------------------------------------------------------------- detach

  function RemoveAt(ts: seq<Tree>, i: nat): seq<Tree>
    requires i < |ts|
  {
    ts[..i] + ts[i + 1..]
  }

  lemma RemoveOwned(ts: seq<Tree>, i: nat)
    requires i < |ts| && SepAll(ts)
    ensures SepAll(RemoveAt(ts, i)) && Sep(ts[i]) && FootAll(RemoveAt(ts, i)) !! Foot(ts[i])
    ensures FootAll(RemoveAt(ts, i)) + Foot(ts[i]) == FootAll(ts)
  {
    hide Foot, Sep, FootAll, SepAll;
    assert ts == (ts[..i] + [ts[i]]) + ts[i + 1..];
    FootAllConcat(ts[..i] + [ts[i]], ts[i + 1..]);
    FootAllAppend(ts[..i], ts[i]);
    FootAllConcat(ts[..i], ts[i + 1..]);
  }

  /** The assignments of `cJSON_DetachItemViaPointer`, in order. */
  function DetachHeap(h: Cells, parent: Ptr, item: Ptr): Cells
    requires parent in h && h[parent].NodeCell? && item in h && h[item].NodeCell? && parent != item
    requires var n, first := h[item].node, h[parent].node.child;
      && (item != first ==>
        n.prev in h && h[n.prev].NodeCell? && n.prev != item && n.prev != parent && first in h && h[first].NodeCell?)
      && (n.next != 0 ==> n.next in h && h[n.next].NodeCell? && n.next != item && n.next != parent)
  {
    var n, first := h[item].node, h[parent].node.child;
    var h1 := if item != first then SetNext(h, n.prev, n.next) else h;
    var h2 := if n.next != 0 then SetPrev(h1, n.next, n.prev) else h1;
    var h3 := if item == first then SetChild(h2, parent, n.next) else
      if n.next == 0 then SetPrev(h2, first, n.prev) else h2;
    SetNext(SetPrev(h3, item, 0), item, 0)
  }

  /** A child, seen from its container. */
  lemma ChildFacts(h: Cells, p: Tree, i: nat)
    requires Family(h, p) && i < |p.kids|
    ensures IsNode(h, p.kids[i].ptr) && p.kids[i].ptr != p.ptr && p.kids[i].ptr in RootSet(p.kids)
    ensures h[p.kids[i].ptr].node.next == NextOf(p.kids, i) && h[p.kids[i].ptr].node.prev == PrevOf(p.kids, i)
  {
    hide Foot, Sep, SepAll, FootAll, Plain, Rep, Tidy;
    Roots(h, p);
  }

  lemma ChildrenDiffer(h: Cells, p: Tree, i: nat, j: nat)
    requires Family(h, p) && i < |p.kids| && j < |p.kids|
    ensures p.kids[i].ptr == p.kids[j].ptr <==> i == j
  {
    hide Foot, Sep, SepAll, FootAll, Plain, Rep, Tidy;
    Roots(h, p);
  }

  /** What the detach code reads, in terms of the list. */
  lemma DetachReads(h: Cells, p: Tree, i: nat)
    requires Family(h, p) && i < |p.kids|
    ensures var item := p.kids[i].ptr;
      && IsNode(h, item) && item != p.ptr
      && (item == h[p.ptr].node.child <==> i == 0)
      && h[item].node.next == NextOf(p.kids, i) && h[item].node.prev == PrevOf(p.kids, i)
    ensures i > 0 ==> IsNode(h, p.kids[i - 1].ptr) && p.kids[i - 1].ptr !in {p.ptr, p.kids[i].ptr}
    ensures NextOf(p.kids, i) == 0 <==> i + 1 == |p.kids|
    ensures i + 1 < |p.kids| ==> IsNode(h, p.kids[i + 1].ptr) && p.kids[i + 1].ptr !in {p.ptr, p.kids[i].ptr}
    ensures IsNode(h, p.kids[0].ptr) && p.kids[0].ptr != p.ptr && h[p.ptr].node.child == p.kids[0].ptr
  {
    hide Family, RootSet;
    FamilyChild(h, p);
    ChildFacts(h, p, i);
    ChildFacts(h, p, 0);
    ChildrenDiffer(h, p, i, 0);
    if i > 0 {
      ChildFacts(h, p, i - 1);
      ChildrenDiffer(h, p, i, i - 1);
    }
    if i + 1 < |p.kids| {
      ChildFacts(h, p, i + 1);
      ChildrenDiffer(h, p, i, i + 1);
    }
  }

  lemma FamilyChild(h: Cells, p: Tree)
    requires Family(h, p)
    ensures IsNode(h, p.ptr) && h[p.ptr].node.child == First(p.kids)
  {
  }

  lemma KidsPool(h: Cells, p: Tree)
    requires Family(h, p)
    ensures Pool(h, p, p.kids) && DistinctNodes(h, p, p.kids)
  {
    hide Foot, Sep, SepAll, FootAll, Plain, Rep, Tidy;
    Roots(h, p);
  }

  ghost predicate DetachResult(h: Cells, h': Cells, p: Tree, i: nat)
    requires Family(h, p) && i < |p.kids|
  {
    DetachReads(h, p, i);
    h' == DetachHeap(h, p.ptr, p.kids[i].ptr)
  }

  /** The links of another child afterwards. */
  lemma DetachCell(h: Cells, h': Cells, p: Tree, i: nat, j: nat)
    requires Family(h, p) && i < |p.kids| && DetachResult(h, h', p, i) && j < |p.kids| && j != i
    ensures IsNode(h', p.kids[j].ptr)
    ensures h'[p.kids[j].ptr].node.next == if j + 1 == i then NextOf(p.kids, i) else NextOf(p.kids, j)
    ensures h'[p.kids[j].ptr].node.prev
      == if j == i + 1 || (j == 0 && i + 1 == |p.kids|) then PrevOf(p.kids, i) else PrevOf(p.kids, j)
  {
    hide Family, RootSet;
    DetachReads(h, p, i);
    ChildFacts(h, p, j);
    ChildrenDiffer(h, p, i, j);
    ChildrenDiffer(h, p, 0, j);
    if i > 0 {
      ChildrenDiffer(h, p, i - 1, j);
    }
    if i + 1 < |p.kids| {
      ChildrenDiffer(h, p, i + 1, j);
    }
  }

  lemma DetachChain(h: Cells, h': Cells, p: Tree, i: nat)
    requires Family(h, p) && i < |p.kids| && DetachResult(h, h', p, i)
    ensures Chain(h', RemoveAt(p.kids, i)) && Backward(h', RemoveAt(p.kids, i))
  {
    hide Family, DetachResult;
    var us := RemoveAt(p.kids, i);
    forall k | 0 <= k < |us|
      ensures IsNode(h', us[k].ptr) && h'[us[k].ptr].node.next == NextOf(us, k)
      ensures h'[us[k].ptr].node.prev == PrevOf(us, k)
    {
      DetachCell(h, h', p, i, if k < i then k else k + 1);
    }
  }

  /** The children next to child `i`, the first one, and child `i` itself. */
  ghost function Neighbours(p: Tree, i: nat): set<Ptr>
    requires i < |p.kids|
  {
    {p.kids[i].ptr, p.kids[0].ptr} + (if i > 0 then {p.kids[i - 1].ptr} else {})
    + (if i + 1 < |p.kids| then {p.kids[i + 1].ptr} else {})
  }

  lemma NeighboursAreRoots(h: Cells, p: Tree, i: nat)
    requires Family(h, p) && i < |p.kids|
    ensures Neighbours(p, i) <= RootSet(p.kids)
  {
    hide Family;
    ChildFacts(h, p, i);
    ChildFacts(h, p, 0);
    if i > 0 {
      ChildFacts(h, p, i - 1);
    }
    if i + 1 < |p.kids| {
      ChildFacts(h, p, i + 1);
    }
  }

  lemma DetachTouched(h: Cells, h': Cells, p: Tree, i: nat)
    requires Family(h, p) && i < |p.kids| && DetachResult(h, h', p, i)
    ensures h'.Keys == h.Keys && IsNode(h, p.ptr) && p.ptr !in Neighbours(p, i)
    ensures forall q :: q in h && q !in Neighbours(p, i) && q != p.ptr ==> h'[q] == h[q]
    ensures forall q :: q in h && q in Neighbours(p, i) ==> SameButLinks(h[q], h'[q])
    ensures h'[p.ptr] == NodeCell(h[p.ptr].node.(child := if i == 0 then NextOf(p.kids, 0) else p.kids[0].ptr))
    ensures IsNode(h', p.kids[i].ptr) && h'[p.kids[i].ptr].node.next == 0 && h'[p.kids[i].ptr].node.prev == 0
  {
    hide Family, RootSet;
    FamilyChild(h, p);
    DetachReads(h, p, i);
  }

  lemma DetachRelisted(h: Cells, h': Cells, p: Tree, i: nat)
    requires Family(h, p) && i < |p.kids| && DetachResult(h, h', p, i)
    ensures Relisted(h, h', p, RemoveAt(p.kids, i), p.kids)
    ensures IsNode(h', p.kids[i].ptr) && h'[p.kids[i].ptr].node.next == 0 && h'[p.kids[i].ptr].node.prev == 0
  {
    hide Family, RootSet, Relisted, DistinctNodes, DetachResult, Neighbours;
    KidsPool(h, p);
    NeighboursAreRoots(h, p, i);
    DetachTouched(h, h', p, i);
    assert First(RemoveAt(p.kids, i)) == if i == 0 then NextOf(p.kids, 0) else p.kids[0].ptr;
    RelistedBy(h, h', p, RemoveAt(p.kids, i), p.kids, Neighbours(p, i));
  }

  /** Detaching child `i`: the container lists the others in order, and the child is a detached
      tree of its own that stands for the same value. */
  lemma DetachStep(h: Cells, h': Cells, p: Tree, i: nat)
    requires Family(h, p) && i < |p.kids| && DetachResult(h, h', p, i)
    ensures NowListed(h, h', p, RemoveAt(p.kids, i), p.kids)
    ensures Outside(h', p.(kids := RemoveAt(p.kids, i)), p.kids[i])
    ensures Plain(h, p.kids[i]) ==> Plain(h', p.kids[i]) && MemberOf(h', p.kids[i]) == MemberOf(h, p.kids[i])
  {
    hide Foot, Sep, SepAll, FootAll, Plain, Rep, Tidy, Chain, Backward, Relisted, DetachResult, DistinctNodes;
    var us := RemoveAt(p.kids, i);
    FamilyLinks(h, p);
    KidsPool(h, p);
    RemoveOwned(p.kids, i);
    DetachChain(h, h', p, i);
    DetachRelisted(h, h', p, i);
    forall k | 0 <= k < |us| ensures us[k] in p.kids {
      assert us[k] == p.kids[if k < i then k else k + 1];
    }
    Relist(h, h', p, us, p.kids);
    PoolMember(h, h', p, us, p.kids, p.kids[i]);
    DetachApart(h, h', p, i);
  }

  lemma DetachApart(h: Cells, h': Cells, p: Tree, i: nat)
    requires Family(h, p) && i < |p.kids| && Relisted(h, h', p, RemoveAt(p.kids, i), p.kids)
    ensures Foot(p.kids[i]) !! Foot(p.(kids := RemoveAt(p.kids, i)))
  {
    hide Sep, SepAll, FootAll, Rep, Tidy, Chain, Backward;
    Roots(h, p);
    RemoveOwned(p.kids, i);
    FootAllIndex(p.kids, i);
    FootLive(h, p.kids[i]);
  }

  /** `cJSON_DetachItemViaPointer`. `i` tells where the item stands; an item that is in no list is
      refused. */
  method DetachItem(mem: Memory, parent: Ptr, item: Ptr, ghost p: Tree, ghost i: nat) returns (r: Ptr)
    requires parent != 0 ==> Family(mem.cells, p) && parent == p.ptr
    requires parent != 0 && item != 0 ==>
      if i < |p.kids| then item == p.kids[i].ptr
      else IsNode(mem.cells, item) && item != mem.cells[parent].node.child && mem.cells[item].node.prev == 0
    modifies mem`cells
    ensures r == if parent != 0 && item != 0 && i < |p.kids| then item else 0
    ensures r == 0 ==> mem.cells == old(mem.cells)
    ensures r != 0 ==> NowListed(old(mem.cells), mem.cells, p, RemoveAt(p.kids, i), p.kids)
    ensures r != 0 && PlainAll(old(mem.cells), p.kids) ==>
      StandsFor(mem.cells, p.(kids := RemoveAt(p.kids, i)), MemberOf(old(mem.cells), p),
        Removed(Value(old(mem.cells), p), i))
    ensures r != 0 ==> Outside(mem.cells, p.(kids := RemoveAt(p.kids, i)), p.kids[i])
    ensures r != 0 && Plain(old(mem.cells), p.kids[i]) ==>
      Plain(mem.cells, p.kids[i]) && MemberOf(mem.cells, p.kids[i]) == MemberOf(old(mem.cells), p.kids[i])
  {
    hide Foot, Sep, SepAll, FootAll, Plain, Rep, Tidy, Chain, Backward, NowListed, Outside, RootSet, DistinctNodes;
    if parent == 0 || item == 0 {
      return 0;
    }
    ghost var h := mem.cells;
    if i < |p.kids| {
      DetachReads(h, p, i);
    }
    var n := mem.cells[item].node;
    if item != mem.cells[parent].node.child && n.prev == 0 {
      return 0;
    }
    var first := mem.cells[parent].node.child;
    if item != first {
      mem.Store(n.prev, mem.cells[n.prev].node.(next := n.next));
    }
    if n.next != 0 {
      mem.Store(n.next, mem.cells[n.next].node.(prev := n.prev));
    }
    if item == first {
      mem.Store(parent, mem.cells[parent].node.(child := n.next));
    } else if n.next == 0 {
      mem.Store(first, mem.cells[first].node.(prev := n.prev));
    }
    mem.Store(item, mem.cells[item].node.(prev := 0));
    mem.Store(item, mem.cells[item].node.(next := 0));
    assert DetachResult(h, mem.cells, p, i);
    DetachStep(h, mem.cells, p, i);
    RemovedValue(h, mem.cells, p, i);
    r := item;
  }

  // ---------------------------------------------------------------- insert

  /** The assignments of `cJSON_InsertItemInArray` before an existing item. */
  function InsertHeap(h: Cells, list: Ptr, after: Ptr, item: Ptr): Cells
    requires list in h && h[list].NodeCell? && item in h && h[item].NodeCell? && after in h && h[after].NodeCell?
    requires list != item && list != after && after != item
    requires after != h[list].node.child ==>
      h[after].node.prev in h && h[h[after].node.prev].NodeCell?
  {
    var prev, first := h[after].node.prev, h[list].node.child;
    var h1 := SetPrev(SetPrev(SetNext(h, item, after), item, prev), after, item);
    if after == first then SetChild(h1, list, item) else SetNext(h1, prev, item)
  }

  ghost predicate InsertResult(h: Cells, h': Cells, p: Tree, i: nat, t: Tree)
    requires Family(h, p) && i < |p.kids| && Outside(h, p, t)
  {
    DetachReads(h, p, i);
    OutsideFacts(h, p, t, i);
    h' == InsertHeap(h, p.ptr, p.kids[i].ptr, t.ptr)
  }

  lemma OutsideFacts(h: Cells, p: Tree, t: Tree, j: nat)
    requires Family(h, p) && Outside(h, p, t)
    ensures IsNode(h, t.ptr) && t.ptr != p.ptr && (j < |p.kids| ==> p.kids[j].ptr != t.ptr)
    ensures h[t.ptr].node.next == 0 && h[t.ptr].node.prev == 0
  {
    hide Foot, Sep, SepAll, FootAll, Plain, Rep, Tidy;
    Roots(h, p);
    FootLive(h, t);
    RepIsNode(h, t);
  }

  lemma InsertCell(h: Cells, h': Cells, p: Tree, i: nat, t: Tree, j: nat)
    requires Family(h, p) && i < |p.kids| && Outside(h, p, t) && InsertResult(h, h', p, i, t) && j < |p.kids|
    ensures IsNode(h', p.kids[j].ptr)
    ensures h'[p.kids[j].ptr].node.next == if j + 1 == i then t.ptr else NextOf(p.kids, j)
    ensures h'[p.kids[j].ptr].node.prev == if j == i then t.ptr else PrevOf(p.kids, j)
    ensures IsNode(h', t.ptr) && h'[t.ptr].node.next == p.kids[i].ptr && h'[t.ptr].node.prev == PrevOf(p.kids, i)
  {
    hide Family, RootSet, Outside;
    DetachReads(h, p, i);
    OutsideFacts(h, p, t, i);
    OutsideFacts(h, p, t, j);
    ChildFacts(h, p, j);
    ChildrenDiffer(h, p, i, j);
    if i > 0 {
      ChildrenDiffer(h, p, i - 1, j);
      OutsideFacts(h, p, t, i - 1);
    }
  }

  lemma InsertLinks(h: Cells, h': Cells, p: Tree, i: nat, t: Tree)
    requires Family(h, p) && i < |p.kids| && Outside(h, p, t) && InsertResult(h, h', p, i, t)
    ensures Chain(h', InsertAt(p.kids, i, t)) && Backward(h', InsertAt(p.kids, i, t))
  {
    hide Family, InsertResult, Outside;
    var us := InsertAt(p.kids, i, t);
    forall k | 0 <= k < |us|
      ensures IsNode(h', us[k].ptr) && h'[us[k].ptr].node.next == NextOf(us, k)
      ensures h'[us[k].ptr].node.prev == PrevOf(us, k)
    {
      InsertCell(h, h', p, i, t, if k < i then k else if k == i then i else k - 1);
    }
  }

  /** Links of nodes in `s` and the child pointer of `list` are all that changed. */
  ghost predicate Touched(h: Cells, h': Cells, s: set<Ptr>, list: Ptr, child: Ptr) {
    && IsNode(h, list) && list !in s && h'.Keys == h.Keys
    && (forall q :: q in h && q !in s && q != list ==> h'[q] == h[q])
    && (forall q :: q in h && q in s ==> SameButLinks(h[q], h'[q]))
    && h'[list] == NodeCell(h[list].node.(child := child))
  }

  lemma TouchNothing(h: Cells, s: set<Ptr>, list: Ptr)
    requires IsNode(h, list) && list !in s && forall q :: q in h && q in s ==> h[q].NodeCell?
    ensures Touched(h, h, s, list, h[list].node.child)
  {
  }

  /** One more link, or the child pointer. */
  lemma TouchLink(h: Cells, h': Cells, s: set<Ptr>, list: Ptr, child: Ptr, p: Ptr, x: Ptr)
    requires Touched(h, h', s, list, child) && p in s && p in h
    ensures p in h' && h'[p].NodeCell?
    ensures Touched(h, SetNext(h', p, x), s, list, child) && Touched(h, SetPrev(h', p, x), s, list, child)
  {
    assert SameButLinks(h[p], h'[p]);
  }

  lemma TouchChild(h: Cells, h': Cells, s: set<Ptr>, list: Ptr, child: Ptr, x: Ptr)
    requires Touched(h, h', s, list, child)
    ensures list in h' && h'[list].NodeCell? && Touched(h, SetChild(h', list, x), s, list, x)
  {
  }

  /** What the code may touch around child `i`: nodes other than the list itself. */
  lemma Touchable(h: Cells, p: Tree, i: nat, t: Tree)
    requires Family(h, p) && i < |p.kids| && Outside(h, p, t)
    ensures var s := Neighbours(p, i) + {t.ptr};
      && (forall q :: q in s ==> q in h && h[q].NodeCell?) && IsNode(h, p.ptr) && p.ptr !in s
      && h[p.ptr].node.child == p.kids[0].ptr
      && p.kids[0].ptr in s && p.kids[i].ptr in s && t.ptr in s && (i > 0 ==> PrevOf(p.kids, i) in s)
      && (i + 1 < |p.kids| ==> NextOf(p.kids, i) in s)
      && Touched(h, h, s, p.ptr, p.kids[0].ptr)
  {
    hide Family, RootSet, Outside, Touched;
    FamilyChild(h, p);
    DetachReads(h, p, i);
    OutsideFacts(h, p, t, i);
    TouchNothing(h, Neighbours(p, i) + {t.ptr}, p.ptr);
  }

  lemma InsertTouched(h: Cells, h': Cells, p: Tree, i: nat, t: Tree)
    requires Family(h, p) && i < |p.kids| && Outside(h, p, t) && InsertResult(h, h', p, i, t)
    ensures Touched(h, h', Neighbours(p, i) + {t.ptr}, p.ptr, if i == 0 then t.ptr else p.kids[0].ptr)
  {
    hide Family, RootSet, Outside, Touched, Neighbours, SetNext, SetPrev, SetChild;
    DetachReads(h, p, i);
    Touchable(h, p, i, t);
    var s, list, first, item, after, prev :=
      Neighbours(p, i) + {t.ptr}, p.ptr, p.kids[0].ptr, t.ptr, p.kids[i].ptr, PrevOf(p.kids, i);
    TouchLink(h, h, s, list, first, item, after);
    var h1 := SetNext(h, item, after);
    TouchLink(h, h1, s, list, first, item, prev);
    var h2 := SetPrev(h1, item, prev);
    TouchLink(h, h2, s, list, first, after, item);
    var h3 := SetPrev(h2, after, item);
    if i == 0 {
      TouchChild(h, h3, s, list, first, item);
    } else {
      TouchLink(h, h3, s, list, first, prev, item);
    }
  }

  lemma RootSetInsert(ts: seq<Tree>, i: nat, t: Tree)
    requires i <= |ts|
    ensures RootSet(InsertAt(ts, i, t)) == RootSet(ts) + {t.ptr}
  {
    var us := InsertAt(ts, i, t);
    assert us[i] == t;
    forall x | x in ts ensures x in us {
      var k :| 0 <= k < |ts| && ts[k] == x;
      assert us[if k < i then k else k + 1] == x;
    }
  }

  /** Inserting before child `i`. */
  lemma InsertStep(h: Cells, h': Cells, p: Tree, i: nat, t: Tree)
    requires Family(h, p) && i < |p.kids| && Outside(h, p, t) && InsertResult(h, h', p, i, t)
    ensures NowListed(h, h', p, InsertAt(p.kids, i, t), InsertAt(p.kids, i, t))
  {
    hide Foot, Sep, SepAll, FootAll, Plain, Rep, Tidy, Chain, Backward, InsertResult, DistinctNodes, RootSet,
      Neighbours, Family;
    hide Outside, Relisted;
    var us := InsertAt(p.kids, i, t);
    InsertPool(h, p, i, t);
    FamilyChild(h, p);
    PoolDistinct(h, p, us);
    InsertLinks(h, h', p, i, t);
    NeighboursAreRoots(h, p, i);
    RootSetInsert(p.kids, i, t);
    InsertTouched(h, h', p, i, t);
    assert First(us) == if i == 0 then t.ptr else p.kids[0].ptr;
    RelistedBy(h, h', p, us, us, Neighbours(p, i) + {t.ptr});
    Relist(h, h', p, us, us);
  }

  /** `cJSON_InsertItemInArray`: before the item at `which`, at the end when there is none. */
  method InsertItem(mem: Memory, list: Ptr, which: int, item: Ptr, ghost p: Tree, ghost t: Tree) returns (ok: bool)
    requires list != 0 ==> Family(mem.cells, p) && list == p.ptr
    requires item != 0 && list != 0 && item != list ==> Outside(mem.cells, p, t) && item == t.ptr
    requires list != 0 && item == list ==> which >= |p.kids|
    modifies mem`cells
    ensures ok <==> which >= 0 && item != 0 && list != 0 && item != list
    ensures !ok ==> mem.cells == old(mem.cells)
    ensures ok ==>
      var i := if which < |p.kids| then which else |p.kids|;
      NowListed(old(mem.cells), mem.cells, p, InsertAt(p.kids, i, t), InsertAt(p.kids, i, t))
    ensures ok && PlainAll(old(mem.cells), p.kids) && Plain(old(mem.cells), t) ==>
      var i := if which < |p.kids| then which else |p.kids|;
      StandsFor(mem.cells, p.(kids := InsertAt(p.kids, i, t)), MemberOf(old(mem.cells), p),
        Inserted(Value(old(mem.cells), p), i, MemberOf(old(mem.cells), t)))
  {
    hide Foot, Sep, SepAll, FootAll, Plain, Rep, Tidy, Chain, Backward, NowListed, RootSet, DistinctNodes, Family,
      Outside;
    if which < 0 || item == 0 {
      return false;
    }
    ghost var h := mem.cells;
    var after := GetArrayItem(mem, list, which, p);
    if list != 0 {
      FamilyLinks(h, p);
      PtrAtNull(h, p.kids, if which < |p.kids| then which else |p.kids|);
    }
    if after == 0 {
      assert list != 0 ==> InsertAt(p.kids, |p.kids|, t) == p.kids + [t];
      ok := AddItem(mem, list, item, p, t);
      return;
    }
    FamilyChild(h, p);
    DetachReads(h, p, which);
    OutsideFacts(h, p, t, which);
    var n := mem.cells[after].node;
    if after != mem.cells[list].node.child && n.prev == 0 {
      return false;
    }
    mem.Store(item, mem.cells[item].node.(next := after));
    mem.Store(item, mem.cells[item].node.(prev := n.prev));
    mem.Store(after, mem.cells[after].node.(prev := item));
    if after == mem.cells[list].node.child {
      mem.Store(list, mem.cells[list].node.(child := item));
    } else {
      var prev := mem.cells[item].node.prev;
      mem.Store(prev, mem.cells[prev].node.(next := item));
    }
    assert InsertResult(h, mem.cells, p, which, t);
    InsertStep(h, mem.cells, p, which, t);
    InsertedValue(h, mem.cells, p, which, t);
    ok := true;
  }

  // ---------------------------------------------------------------- replace

  /** The assignments of `cJSON_ReplaceItemViaPointer` up to the deletion. */
  function ReplaceHeap(h: Cells, parent: Ptr, item: Ptr, rep: Ptr): Cells
    requires parent in h && h[parent].NodeCell? && item in h && h[item].NodeCell? && rep in h && h[rep].NodeCell?
    requires parent != item && parent != rep && item != rep
    requires var n, first := h[item].node, h[parent].node.child;
      && first in h && h[first].NodeCell? && first != rep && first != parent
      && (item != first ==> n.prev in h && h[n.prev].NodeCell? && n.prev !in {parent, rep})
      && (n.next != 0 ==> n.next in h && h[n.next].NodeCell? && n.next !in {parent, rep})
  {
    var n, first := h[item].node, h[parent].node.child;
    var h1 := SetPrev(SetNext(h, rep, n.next), rep, n.prev);
    var h2 := if n.next != 0 then SetPrev(h1, n.next, rep) else h1;
    var h3 :=
      if first == item then
        SetChild(if h2[first].node.prev == first then SetPrev(h2, rep, rep) else h2, parent, rep)
      else
        var h4 := if n.prev != 0 then SetNext(h2, n.prev, rep) else h2;
        if n.next == 0 then SetPrev(h4, first, rep) else h4;
    SetPrev(SetNext(h3, item, 0), item, 0)
  }

  ghost predicate ReplaceResult(h: Cells, h': Cells, p: Tree, i: nat, t: Tree)
    requires Family(h, p) && i < |p.kids| && Outside(h, p, t)
  {
    DetachReads(h, p, i);
    OutsideAll(h, p, t);
    h' == ReplaceHeap(h, p.ptr, p.kids[i].ptr, t.ptr)
  }

  lemma OutsideAll(h: Cells, p: Tree, t: Tree)
    requires Family(h, p) && Outside(h, p, t)
    ensures IsNode(h, t.ptr) && t.ptr != p.ptr && IsNode(h, p.ptr)
    ensures forall j :: 0 <= j < |p.kids| ==> p.kids[j].ptr != t.ptr
  {
    FamilyChild(h, p);
    OutsideFacts(h, p, t, 0);
    forall j | 0 <= j < |p.kids| ensures p.kids[j].ptr != t.ptr {
      OutsideFacts(h, p, t, j);
    }
  }

  lemma ReplaceCell(h: Cells, h': Cells, p: Tree, i: nat, t: Tree, j: nat)
    requires Family(h, p) && i < |p.kids| && Outside(h, p, t) && ReplaceResult(h, h', p, i, t) && j < |p.kids| && j != i
    ensures IsNode(h', p.kids[j].ptr)
    ensures h'[p.kids[j].ptr].node.next == if j + 1 == i then t.ptr else NextOf(p.kids, j)
    ensures h'[p.kids[j].ptr].node.prev
      == if j == i + 1 || (j == 0 && i + 1 == |p.kids|) then t.ptr else PrevOf(p.kids, j)
  {
    hide Family, RootSet, Outside;
    DetachReads(h, p, i);
    OutsideAll(h, p, t);
    ChildFacts(h, p, j);
    ChildrenDiffer(h, p, i, j);
    ChildrenDiffer(h, p, 0, j);
    if i > 0 {
      ChildrenDiffer(h, p, i - 1, j);
    }
    if i + 1 < |p.kids| {
      ChildrenDiffer(h, p, i + 1, j);
    }
  }

  lemma ReplaceNewCell(h: Cells, h': Cells, p: Tree, i: nat, t: Tree)
    requires Family(h, p) && i < |p.kids| && Outside(h, p, t) && ReplaceResult(h, h', p, i, t)
    ensures IsNode(h', t.ptr) && h'[t.ptr].node.next == NextOf(p.kids, i)
    ensures h'[t.ptr].node.prev == if |p.kids| == 1 then t.ptr else PrevOf(p.kids, i)
    ensures IsNode(h', p.kids[i].ptr) && h'[p.kids[i].ptr].node.next == 0 && h'[p.kids[i].ptr].node.prev == 0
  {
    hide Family, RootSet, Outside;
    DetachReads(h, p, i);
    OutsideAll(h, p, t);
    ChildrenDiffer(h, p, 0, |p.kids| - 1);
  }

  lemma ReplaceLinks(h: Cells, h': Cells, p: Tree, i: nat, t: Tree)
    requires Family(h, p) && i < |p.kids| && Outside(h, p, t) && ReplaceResult(h, h', p, i, t)
    ensures Chain(h', p.kids[i := t]) && Backward(h', p.kids[i := t])
  {
    hide Family, ReplaceResult, Outside;
    var us := p.kids[i := t];
    ReplaceNewCell(h, h', p, i, t);
    forall k | 0 <= k < |us|
      ensures IsNode(h', us[k].ptr) && h'[us[k].ptr].node.next == NextOf(us, k)
      ensures h'[us[k].ptr].node.prev == PrevOf(us, k)
    {
      if k != i {
        ReplaceCell(h, h', p, i, t, k);
      }
    }
  }

  ghost predicate ReplaceFrame(h: Cells, h': Cells, p: Tree, i: nat, t: Tree)
    requires i < |p.kids|
  {
    Touched(h, h', Neighbours(p, i) + {t.ptr}, p.ptr, if i == 0 then t.ptr else p.kids[0].ptr)
  }

  /** The replacement takes over the links, its successor points back to it. */
  lemma ReplaceTakesOver(h: Cells, p: Tree, i: nat, t: Tree) returns (h2: Cells)
    requires Family(h, p) && i < |p.kids| && Outside(h, p, t)
    ensures var s, next := Neighbours(p, i) + {t.ptr}, NextOf(p.kids, i);
      && t.ptr in h && h[t.ptr].NodeCell? && (next != 0 ==> next in h && h[next].NodeCell? && next != t.ptr)
      && var h1 := SetPrev(SetNext(h, t.ptr, next), t.ptr, PrevOf(p.kids, i));
      && h2 == (if next != 0 then SetPrev(h1, next, t.ptr) else h1) && Touched(h, h2, s, p.ptr, p.kids[0].ptr)
  {
    hide Family, RootSet, Outside, Touched, Neighbours;
    DetachReads(h, p, i);
    Touchable(h, p, i, t);
    OutsideAll(h, p, t);
    var s, list, first, next := Neighbours(p, i) + {t.ptr}, p.ptr, p.kids[0].ptr, NextOf(p.kids, i);
    TouchLink(h, h, s, list, first, t.ptr, next);
    var h0 := SetNext(h, t.ptr, next);
    TouchLink(h, h0, s, list, first, t.ptr, PrevOf(p.kids, i));
    h2 := SetPrev(h0, t.ptr, PrevOf(p.kids, i));
    if next != 0 {
      TouchLink(h, h2, s, list, first, next, t.ptr);
      h2 := SetPrev(h2, next, t.ptr);
    }
  }

  /** The replaced node loses its links. */
  lemma ReplaceLetsGo(h: Cells, h3: Cells, s: set<Ptr>, list: Ptr, child: Ptr, item: Ptr)
    requires Touched(h, h3, s, list, child) && item in s && item in h
    ensures item in h3 && h3[item].NodeCell? && Touched(h, SetPrev(SetNext(h3, item, 0), item, 0), s, list, child)
  {
    hide Touched;
    TouchLink(h, h3, s, list, child, item, 0);
    TouchLink(h, SetNext(h3, item, 0), s, list, child, item, 0);
  }

  lemma ReplaceTouchedFirst(h: Cells, h': Cells, p: Tree, t: Tree)
    requires Family(h, p) && 0 < |p.kids| && Outside(h, p, t) && ReplaceResult(h, h', p, 0, t)
    ensures ReplaceFrame(h, h', p, 0, t)
  {
    hide Family, RootSet, Outside, Touched, Neighbours, SetNext, SetPrev, SetChild;
    DetachReads(h, p, 0);
    Touchable(h, p, 0, t);
    var s, list, first, rep := Neighbours(p, 0) + {t.ptr}, p.ptr, p.kids[0].ptr, t.ptr;
    var h2 := ReplaceTakesOver(h, p, 0, t);
    TouchLink(h, h2, s, list, first, first, 0);
    TouchLink(h, h2, s, list, first, rep, rep);
    var h3 := if h2[first].node.prev == first then SetPrev(h2, rep, rep) else h2;
    TouchChild(h, h3, s, list, first, rep);
    ReplaceLetsGo(h, SetChild(h3, list, rep), s, list, rep, first);
  }

  lemma ReplaceTouchedLater(h: Cells, h': Cells, p: Tree, i: nat, t: Tree)
    requires Family(h, p) && 0 < i < |p.kids| && Outside(h, p, t) && ReplaceResult(h, h', p, i, t)
    ensures ReplaceFrame(h, h', p, i, t)
  {
    hide Family, RootSet, Outside, Touched, Neighbours, SetNext, SetPrev, SetChild;
    DetachReads(h, p, i);
    Touchable(h, p, i, t);
    var s, list, first, rep, prev := Neighbours(p, i) + {t.ptr}, p.ptr, p.kids[0].ptr, t.ptr, PrevOf(p.kids, i);
    var h2 := ReplaceTakesOver(h, p, i, t);
    TouchLink(h, h2, s, list, first, prev, rep);
    var h4 := SetNext(h2, prev, rep);
    TouchLink(h, h4, s, list, first, first, rep);
    var h3 := if i + 1 == |p.kids| then SetPrev(h4, first, rep) else h4;
    ReplaceLetsGo(h, h3, s, list, first, p.kids[i].ptr);
  }

  lemma ReplaceTouched(h: Cells, h': Cells, p: Tree, i: nat, t: Tree)
    requires Family(h, p) && i < |p.kids| && Outside(h, p, t) && ReplaceResult(h, h', p, i, t)
    ensures ReplaceFrame(h, h', p, i, t)
  {
    hide Family, RootSet, Outside, ReplaceResult, ReplaceFrame;
    if i == 0 {
      ReplaceTouchedFirst(h, h', p, t);
    } else {
      ReplaceTouchedLater(h, h', p, i, t);
    }
  }

  lemma OutsideApart(h: Cells, p: Tree, t: Tree)
    requires Family(h, p) && Outside(h, p, t)
    ensures SepAll(p.kids) && Sep(t) && FootAll(p.kids) !! Foot(t)
  {
    hide SepAll, FootAll, Plain, Rep, Tidy;
    RootApart(p);
  }

  lemma ReplaceOwned(h: Cells, p: Tree, i: nat, t: Tree)
    requires Family(h, p) && i < |p.kids| && Outside(h, p, t)
    ensures SepAll(p.kids[i := t]) && FootAll(p.kids[i := t]) <= FootAll(p.kids + [t])
    ensures Foot(p.kids[i]) !! FootAll(p.kids[i := t]) && Sep(p.kids[i])
  {
    hide Foot, SepAll, FootAll, Sep, Family, Outside;
    OutsideApart(h, p, t);
    RemoveOwned(p.kids, i);
    InsertOwned(RemoveAt(p.kids, i), i, t);
    assert InsertAt(RemoveAt(p.kids, i), i, t) == p.kids[i := t];
    FootAllAppend(p.kids, t);
    FootAllIndex(p.kids, i);
  }

  /** After relinking, before the deletion: the container lists the replacement in place of child
      `i`, which is now a detached tree apart. */
  lemma ReplaceStep(h: Cells, h': Cells, p: Tree, i: nat, t: Tree)
    requires Family(h, p) && i < |p.kids| && Outside(h, p, t) && ReplaceResult(h, h', p, i, t)
    ensures NowListed(h, h', p, p.kids[i := t], p.kids + [t])
    ensures Rep(h', p.kids[i]) && Sep(p.kids[i]) && IsNode(h', p.kids[i].ptr) && h'[p.kids[i].ptr].node.next == 0
    ensures Foot(p.kids[i]) !! Foot(p.(kids := p.kids[i := t]))
  {
    hide Foot, Sep, SepAll, FootAll, Plain, Rep, Tidy, Chain, Backward, ReplaceResult, DistinctNodes, RootSet,
      Neighbours, Family;
    hide Outside, Relisted;
    var us, all := p.kids[i := t], p.kids + [t];
    assert InsertAt(p.kids, |p.kids|, t) == all;
    InsertPool(h, p, |p.kids|, t);
    FamilyChild(h, p);
    PoolDistinct(h, p, all);
    ReplaceLinks(h, h', p, i, t);
    NeighboursAreRoots(h, p, i);
    RootSetInsert(p.kids, |p.kids|, t);
    ReplaceTouched(h, h', p, i, t);
    RelistedBy(h, h', p, us, all, Neighbours(p, i) + {t.ptr});
    ReplaceOwned(h, p, i, t);
    forall k | 0 <= k < |us| ensures us[k] in all {
      assert us[k] == all[if k == i then |p.kids| else k];
    }
    Relist(h, h', p, us, all);
    assert all[i] == p.kids[i];
    PoolMember(h, h', p, us, all, p.kids[i]);
    ReplaceNewCell(h, h', p, i, t);
    ReplacedApart(h, p, i, us);
  }

  lemma ReplacedApart(h: Cells, p: Tree, i: nat, us: seq<Tree>)
    requires Family(h, p) && i < |p.kids| && Foot(p.kids[i]) !! FootAll(us)
    ensures Foot(p.kids[i]) !! Foot(p.(kids := us))
  {
    hide SepAll, FootAll, Plain, Rep, Tidy, Chain, Backward;
    Roots(h, p);
    FootAllIndex(p.kids, i);
    FootLive(h, p.kids[i]);
  }

  /** Freeing cells apart from the container leaves the container as it is. */
  lemma FamilyKeeps(h: Cells, h': Cells, p: Tree, gone: set<Ptr>)
    requires Family(h, p) && h' == h - gone && gone !! Foot(p)
    ensures Family(h', p)
    ensures PlainAll(h, p.kids) ==>
      && PlainAll(h', p.kids) && Values(h', p.kids) == Values(h, p.kids) && Members(h', p.kids) == Members(h, p.kids)
      && Value(h', p) == Value(h, p) && (!h[p.ptr].node.constName ==> MemberOf(h', p) == MemberOf(h, p))
  {
    hide Foot, Sep, Plain, Rep, Tidy, Values, Members, Value, MemberOf;
    FamilyAgrees(h, h', p, gone);
    Frame(h, h', p);
    KidsKept(h, h', p);
    if PlainAll(h, p.kids) {
      OwnValue(h, h', p, gone);
    }
  }

  lemma FamilyAgrees(h: Cells, h': Cells, p: Tree, gone: set<Ptr>)
    requires Family(h, p) && h' == h - gone && gone !! Foot(p)
    ensures Agree(h, h', p) && IsNode(h', p.ptr) && h'[p.ptr] == h[p.ptr]
  {
    hide Foot, Sep, Rep, Tidy;
    FootLive(h, p);
  }

  lemma OwnValue(h: Cells, h': Cells, p: Tree, gone: set<Ptr>)
    requires Family(h, p) && h' == h - gone && gone !! Foot(p)
    requires Values(h', p.kids) == Values(h, p.kids) && Members(h', p.kids) == Members(h, p.kids)
    ensures Value(h', p) == Value(h, p) && (!h[p.ptr].node.constName ==> MemberOf(h', p) == MemberOf(h, p))
  {
    hide Family, Foot, Values, Members, StringOf;
    OwnStrings(h, h', p, gone);
  }

  lemma OwnStrings(h: Cells, h': Cells, p: Tree, gone: set<Ptr>)
    requires Family(h, p) && h' == h - gone && gone !! Foot(p)
    ensures IsNode(h, p.ptr) && IsNode(h', p.ptr) && h'[p.ptr] == h[p.ptr]
    ensures StringOf(h', h[p.ptr].node.text) == StringOf(h, h[p.ptr].node.text)
    ensures !h[p.ptr].node.constName ==> StringOf(h', h[p.ptr].node.name) == StringOf(h, h[p.ptr].node.name)
  {
    hide FootAll, Sep, Chain, Tidy, CString;
  }

  lemma KidsKept(h: Cells, h': Cells, p: Tree)
    requires Family(h, p) && Agree(h, h', p)
    ensures PlainAll(h, p.kids) ==>
      PlainAll(h', p.kids) && Values(h', p.kids) == Values(h, p.kids) && Members(h', p.kids) == Members(h, p.kids)
  {
    hide Foot, Sep, FootAll, Plain, SepAll, Tidy, Backward;
    Roots(h, p);
    FrameAll(h, h', p.kids);
  }

  lemma ExchangedValue(h: Cells, h1: Cells, h': Cells, p: Tree, i: nat, t: Tree, gone: set<Ptr>)
    requires IsNode(h, p.ptr) && i < |p.kids| && NowListed(h, h1, p, p.kids[i := t], p.kids + [t])
    requires h' == h1 - gone && gone !! Foot(p.(kids := p.kids[i := t]))
    requires PlainAll(h, p.kids) && Plain(h, t)
    ensures Value(h', p.(kids := p.kids[i := t])) == Exchanged(Value(h, p), i, MemberOf(h, t))
    ensures !h[p.ptr].node.constName ==>
      StandsFor(h', p.(kids := p.kids[i := t]), MemberOf(h, p), Exchanged(Value(h, p), i, MemberOf(h, t)))
  {
    hide Family, Foot, Plain, StringOf, Values, Members, RootSet;
    var us := p.kids[i := t];
    assert PlainAll(h, us);
    ListedValue(h, h1, p, us, p.kids + [t]);
    ExchangedValues(h, p.kids, i, t);
    FamilyKeeps(h1, h', p.(kids := us), gone);
  }

  /** What stays is relinked only. */
  lemma ReplacedCells(h: Cells, h1: Cells, h': Cells, p: Tree, i: nat, t: Tree)
    requires i < |p.kids| && Relisted(h, h1, p, p.kids[i := t], p.kids + [t]) && h' == h1 - Foot(p.kids[i])
    requires p.kids[i].ptr in Foot(p.kids[i]) && p.ptr !in Foot(p.kids[i])
    ensures Relisted(h - Foot(p.kids[i]), h', p, p.kids[i := t], p.kids[i := t])
  {
    hide Foot;
    var us, all := p.kids[i := t], p.kids + [t];
    forall x | x in all ensures x in us || x == p.kids[i] {
      var k :| 0 <= k < |all| && all[k] == x;
      assert x == if k == |p.kids| then us[i] else if k == i then p.kids[i] else us[k];
    }
    forall x | x in us ensures x in all {
      var k :| 0 <= k < |us| && us[k] == x;
      assert x == all[if k == i then |p.kids| else k];
    }
  }

  /** `cJSON_ReplaceItemViaPointer`: child `i` gives way to the replacement, and exactly what it
      owned is freed. */
  method ReplaceItem(mem: Memory, parent: Ptr, item: Ptr, rep: Ptr, ghost p: Tree, ghost i: nat, ghost t: Tree)
    returns (ok: bool)
    requires parent != 0 ==> Family(mem.cells, p) && parent == p.ptr
    requires parent != 0 && item != 0 && rep != 0 && rep != item && mem.cells[parent].node.child != 0 ==>
      && i < |p.kids| && item == p.kids[i].ptr
      && Outside(mem.cells, p, t) && rep == t.ptr
    modifies mem`cells
    ensures ok <==> parent != 0 && old(mem.cells[parent].node.child) != 0 && rep != 0 && item != 0
    ensures !ok || rep == item ==> mem.cells == old(mem.cells)
    ensures ok && rep != item ==>
      Replaced(old(mem.cells), mem.cells, p, i, t)
  {
    hide Foot, Sep, SepAll, FootAll, Plain, Rep, Tidy, Chain, Backward, RootSet, DistinctNodes, Family, Outside;
    if parent == 0 {
      return false;
    }
    ghost var h := mem.cells;
    FamilyChild(h, p);
    var first := mem.cells[parent].node.child;
    if first == 0 || rep == 0 || item == 0 {
      return false;
    }
    if rep == item {
      return true;
    }
    DetachReads(h, p, i);
    OutsideAll(h, p, t);
    var n := mem.cells[item].node;
    mem.Store(rep, mem.cells[rep].node.(next := n.next));
    mem.Store(rep, mem.cells[rep].node.(prev := n.prev));
    if n.next != 0 {
      mem.Store(n.next, mem.cells[n.next].node.(prev := rep));
    }
    if first == item {
      if mem.cells[first].node.prev == first {
        mem.Store(rep, mem.cells[rep].node.(prev := rep));
      }
      mem.Store(parent, mem.cells[parent].node.(child := rep));
    } else {
      if n.prev != 0 {
        mem.Store(n.prev, mem.cells[n.prev].node.(next := rep));
      }
      if n.next == 0 {
        mem.Store(first, mem.cells[first].node.(prev := rep));
      }
    }
    mem.Store(item, mem.cells[item].node.(next := 0));
    mem.Store(item, mem.cells[item].node.(prev := 0));
    assert ReplaceResult(h, mem.cells, p, i, t);
    DeleteReplaced(mem, item, h, p, i, t);
    ok := true;
  }

  /** The container lists the replacement in place of child `i`, whose cells are gone. Of the others
      only sibling links of the children and the child pointer have changed, and the children stand for
      the values they stood for. */
  ghost predicate Replaced(h: Cells, h': Cells, p: Tree, i: nat, t: Tree)
    requires i < |p.kids| && IsNode(h, p.ptr)
  {
    var us := p.kids[i := t];
    && Family(h', p.(kids := us)) && Relisted(h - Foot(p.kids[i]), h', p, us, us)
    && (PlainAll(h, us) ==> PlainAll(h', us) && Values(h', us) == Values(h, us) && Members(h', us) == Members(h, us))
    && (PlainAll(h, p.kids) && Plain(h, t) ==>
          && Value(h', p.(kids := us)) == Exchanged(Value(h, p), i, MemberOf(h, t))
          && (!h[p.ptr].node.constName ==>
                StandsFor(h', p.(kids := us), MemberOf(h, p), Exchanged(Value(h, p), i, MemberOf(h, t)))))
  }

  method DeleteReplaced(mem: Memory, item: Ptr, ghost h: Cells, ghost p: Tree, ghost i: nat, ghost t: Tree)
    requires Family(h, p) && i < |p.kids| && Outside(h, p, t) && ReplaceResult(h, mem.cells, p, i, t)
    requires item == p.kids[i].ptr
    modifies mem`cells
    ensures Replaced(h, mem.cells, p, i, t)
  {
    hide Foot, Sep, SepAll, FootAll, Plain, Rep, Tidy, Backward, ReplaceResult, Outside, Replaced, NowListed, Family;
    ghost var h1 := mem.cells;
    ReplaceStep(h, h1, p, i, t);
    SingleOwned(p.kids[i]);
    Delete(mem, item, [p.kids[i]]);
    ReplacedAll(h, h1, mem.cells, p, i, t);
  }

  lemma ReplacedAll(h: Cells, h1: Cells, h': Cells, p: Tree, i: nat, t: Tree)
    requires Family(h, p) && i < |p.kids| && NowListed(h, h1, p, p.kids[i := t], p.kids + [t])
    requires Rep(h1, p.kids[i]) && Foot(p.kids[i]) !! Foot(p.(kids := p.kids[i := t])) && h' == h1 - Foot(p.kids[i])
    ensures Replaced(h, h', p, i, t)
  {
    hide Foot, Family, Plain, Rep, Relisted, Value, MemberOf, Exchanged, StandsFor;
    var gone, us := Foot(p.kids[i]), p.kids[i := t];
    FamilyChild(h, p);
    FootLive(h1, p.kids[i]);
    RootInside(h1, p.(kids := us));
    FamilyKeeps(h1, h', p.(kids := us), gone);
    ReplacedCells(h, h1, h', p, i, t);
    if PlainAll(h, p.kids) && Plain(h, t) {
      ExchangedValue(h, h1, h', p, i, t, gone);
    }
  }

  lemma RootInside(h: Cells, p: Tree)
    requires Family(h, p)
    ensures p.ptr in Foot(p)
  {
  }

  lemma SingleOwned(t: Tree)
    requires Sep(t)
    ensures SepAll([t]) && FootAll([t]) == Foot(t)
  {
    FootAllAppend([], t);
    EmptyFoot();
    assert [] + [t] == [t];
  }
}
