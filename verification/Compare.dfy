/** `cJSON_Compare`: what it computes, and when that is equality up to the order of object members. */
module Compare {
  import opened Bytes
  import opened JsonTree
  import opened CHeap
  import opened CHeapFacts
  import opened TreeOps
  import opened Keys
  import opened SoundTrees

  // ---------------------------------------------------------------- numbers

  const EPSILON: real := 1.0 / 4503599627370496.0

  function Abs(x: real): real {
    if x < 0.0 then -x else x
  }

  /** `compare_double`: equal up to a relative error. */
  predicate CompareDouble(a: real, b: real) {
    Abs(a - b) <= (if Abs(a) > Abs(b) then Abs(a) else Abs(b)) * EPSILON
  }

  /** On int-valued numbers the tolerance never matters. */
  lemma CompareIntValued(a: real, b: real)
    requires IntValued(a) && IntValued(b)
    ensures CompareDouble(a, b) <==> a == b
  {
    var m := if Abs(a) > Abs(b) then Abs(a) else Abs(b);
    assert 0.0 <= m <= 2147483648.0;
    assert m * EPSILON < 1.0;
    assert 0.0 <= m * EPSILON;
    if a != b {
      assert a.Floor != b.Floor;
      assert a - b == (a.Floor - b.Floor) as real;
    }
  }

  /** Two numbers of 53 bits, in the same unit, compare equal exactly if they are the same or neighbours:
      the tolerance is one unit in the last place of the larger one as a double. Signs have to agree, and
      do not matter otherwise. */
  lemma CompareUlps(m: int, n: int, unit: real, a: real, b: real)
    requires unit > 0.0 && 0x10_0000_0000_0000 <= m <= n <= 0x20_0000_0000_0000
    requires a == m as real * unit && b == n as real * unit
    ensures CompareDouble(a, b) <==> n - m <= if n < 0x20_0000_0000_0000 then 1 else 2
    ensures (CompareDouble(b, a) <==> CompareDouble(a, b)) && (CompareDouble(-a, -b) <==> CompareDouble(a, b))
    ensures !CompareDouble(a, -b) && !CompareDouble(-a, b)
  {
    hide CompareDouble;
    var x, y := m as real, n as real;
    CompareScaled(x, y, unit, a, b);
    Tolerance(x, y, n - m);
  }

  lemma Tolerance(x: real, y: real, difference: int)
    requires 4503599627370496.0 <= y <= 9007199254740992.0 && y - x == difference as real
    ensures y - x <= y * EPSILON <==> difference <= if y < 9007199254740992.0 then 1 else 2
  {
    assert if y < 9007199254740992.0 then 1.0 <= y * EPSILON < 2.0 else y * EPSILON == 2.0;
  }

  lemma CompareScaled(x: real, y: real, unit: real, a: real, b: real)
    requires unit > 0.0 && 0.0 < x <= y && a == x * unit && b == y * unit
    ensures CompareDouble(a, b) <==> y - x <= y * EPSILON
    ensures (CompareDouble(b, a) <==> CompareDouble(a, b)) && (CompareDouble(-a, -b) <==> CompareDouble(a, b))
    ensures !CompareDouble(a, -b) && !CompareDouble(-a, b)
  {
    hide CompareDouble;
    InUnits(x, y, unit);
    CompareOrdered(a, b);
    Scaled(y - x, y * EPSILON, unit);
  }

  lemma InUnits(x: real, y: real, unit: real)
    requires unit > 0.0 && 0.0 < x <= y
    ensures 0.0 < x * unit <= y * unit && y * unit - x * unit == (y - x) * unit
    ensures y * unit * EPSILON == y * EPSILON * unit
  {
    assert x * unit > 0.0 && (y - x) * unit >= 0.0;
  }

  lemma CompareOrdered(a: real, b: real)
    requires 0.0 < a <= b
    ensures CompareDouble(a, b) <==> b - a <= b * EPSILON
    ensures (CompareDouble(b, a) <==> CompareDouble(a, b)) && (CompareDouble(-a, -b) <==> CompareDouble(a, b))
    ensures !CompareDouble(a, -b) && !CompareDouble(-a, b)
  {
    assert b * EPSILON < b;
  }

  lemma Scaled(x: real, y: real, unit: real)
    requires unit > 0.0
    ensures x * unit <= y * unit <==> x <= y
  {
    if x <= y {
      assert (y - x) * unit >= 0.0;
    } else {
      assert (x - y) * unit > 0.0;
    }
  }

  // ---------------------------------------------------------------- canonical form

  /** A value with the order and, where asked, the case of its keys forgotten. */
  datatype Canon =
    | CanonNull
    | CanonBool(b: bool)
    | CanonNumber(d: real)
    | CanonString(s: bytes)
    | CanonRaw(s: bytes)
    | CanonArray(items: seq<Canon>)
    | CanonObject(members: map<bytes, Canon>)

  function Norm(v: Json, cs: bool): Canon
    decreases v
  {
    match v
    case Null => CanonNull
    case Bool(b) => CanonBool(b)
    case Number(d) => CanonNumber(d)
    case String(s) => CanonString(s)
    case Raw(s) => CanonRaw(s)
    case Array(items) => CanonArray(NormItems(items, cs))
    case Object(members) => CanonObject(NormMembers(members, cs))
  }

  function NormItems(items: seq<Json>, cs: bool): (r: seq<Canon>)
    ensures |r| == |items|
    decreases items
  {
    if items == [] then [] else NormItems(items[..|items| - 1], cs) + [Norm(items[|items| - 1], cs)]
  }

  function NormMembers(members: seq<Member>, cs: bool): map<bytes, Canon>
    decreases members
  {
    if members == [] then map[]
    else
      var last := members[|members| - 1];
      NormMembers(members[..|members| - 1], cs)[Fold(last.key, cs) := Norm(last.value, cs)]
  }

  /** Members that share a key under the case rule share their value as well. */
  ghost predicate KeysAgree(members: seq<Member>, cs: bool) {
    forall i, j :: 0 <= i < |members| && 0 <= j < |members| ==> Agreeing(members[i], members[j], cs)
  }

  ghost predicate AllAgree(members: seq<Member>, m: Member, cs: bool) {
    forall i :: 0 <= i < |members| ==> Agreeing(members[i], m, cs)
  }

  ghost predicate Agreeing(m: Member, n: Member, cs: bool) {
    Fold(m.key, cs) == Fold(n.key, cs) ==> Norm(m.value, cs) == Norm(n.value, cs)
  }

  /** No object anywhere gives one key two values. */
  ghost predicate Coherent(v: Json, cs: bool) {
    match v
    case Array(items) => forall i :: 0 <= i < |items| ==> Coherent(items[i], cs)
    case Object(members) => KeysAgree(members, cs) && forall i :: 0 <= i < |members| ==> Coherent(members[i].value, cs)
    case _ => true
  }

  /** All numbers are C ints. */
  ghost predicate IntNumbers(v: Json) {
    match v
    case Number(d) => IntValued(d)
    case Array(items) => forall i :: 0 <= i < |items| ==> IntNumbers(items[i])
    case Object(members) => forall i :: 0 <= i < |members| ==> IntNumbers(members[i].value)
    case _ => true
  }

  lemma {:induction false} NormItemsIndex(items: seq<Json>, cs: bool, i: nat)
    requires i < |items|
    ensures NormItems(items, cs)[i] == Norm(items[i], cs)
    decreases |items|
  {
    if i < |items| - 1 {
      NormItemsIndex(items[..|items| - 1], cs, i);
    }
  }

  /** Every member's folded key is mapped to its value. */
  ghost predicate MapsAll(m: map<bytes, Canon>, members: seq<Member>, cs: bool) {
    forall i :: 0 <= i < |members| ==>
      Fold(members[i].key, cs) in m && m[Fold(members[i].key, cs)] == Norm(members[i].value, cs)
  }

  /** Every mapped key is a member's. */
  ghost predicate MapsOnly(m: map<bytes, Canon>, members: seq<Member>, cs: bool) {
    forall k :: k in m ==> HasKey(members, k, cs)
  }

  ghost predicate HasKey(members: seq<Member>, k: bytes, cs: bool) {
    exists i :: 0 <= i < |members| && Fold(members[i].key, cs) == k
  }

  /** The canonical object maps exactly the folded keys, each to its members' value. */
  lemma {:induction false} NormMembersIndex(members: seq<Member>, cs: bool)
    requires KeysAgree(members, cs)
    ensures MapsAll(NormMembers(members, cs), members, cs) && MapsOnly(NormMembers(members, cs), members, cs)
    decreases |members|
  {
    hide Agreeing;
    if members != [] {
      var front, last := members[..|members| - 1], members[|members| - 1];
      AgreeFront(members, cs);
      NormMembersIndex(front, cs);
      MapsMore(NormMembers(front, cs), front, last, cs);
      assert front + [last] == members;
    }
  }

  lemma AgreeFront(members: seq<Member>, cs: bool)
    requires KeysAgree(members, cs) && members != []
    ensures KeysAgree(members[..|members| - 1], cs)
    ensures AllAgree(members[..|members| - 1], members[|members| - 1], cs)
  {
    hide Agreeing;
  }

  lemma MapsMore(m: map<bytes, Canon>, front: seq<Member>, last: Member, cs: bool)
    requires MapsAll(m, front, cs) && MapsOnly(m, front, cs)
    requires AllAgree(front, last, cs)
    ensures MapsAll(m[Fold(last.key, cs) := Norm(last.value, cs)], front + [last], cs)
    ensures MapsOnly(m[Fold(last.key, cs) := Norm(last.value, cs)], front + [last], cs)
  {
    hide Fold, Norm;
    forall k | k in m || k == Fold(last.key, cs) ensures HasKey(front + [last], k, cs) {
      KeyMore(front, last, k, cs);
    }
  }

  lemma KeyMore(front: seq<Member>, last: Member, k: bytes, cs: bool)
    requires HasKey(front, k, cs) || k == Fold(last.key, cs)
    ensures HasKey(front + [last], k, cs)
  {
    hide Fold;
    var all := front + [last];
    if k == Fold(last.key, cs) {
      assert Fold(all[|front|].key, cs) == k;
    } else {
      var i :| 0 <= i < |front| && Fold(front[i].key, cs) == k;
      assert Fold(all[i].key, cs) == k;
    }
  }

  /** The canonical form does not depend on the order of members. */
  lemma NormUnordered(ms: seq<Member>, ns: seq<Member>, cs: bool)
    requires KeysAgree(ms, cs) && KeysAgree(ns, cs) && forall m :: m in ms <==> m in ns
    ensures Norm(Object(ms), cs) == Norm(Object(ns), cs)
  {
    NormMembersIndex(ms, cs);
    NormMembersIndex(ns, cs);
    NormIncluded(ms, ns, cs);
    NormIncluded(ns, ms, cs);
  }

  lemma NormIncluded(ms: seq<Member>, ns: seq<Member>, cs: bool)
    requires KeysAgree(ms, cs) && KeysAgree(ns, cs) && forall m :: m in ms ==> m in ns
    ensures forall k :: k in NormMembers(ms, cs) ==>
      k in NormMembers(ns, cs) && NormMembers(ns, cs)[k] == NormMembers(ms, cs)[k]
  {
    NormMembersIndex(ms, cs);
    NormMembersIndex(ns, cs);
    forall k | k in NormMembers(ms, cs) ensures k in NormMembers(ns, cs)
      && NormMembers(ns, cs)[k] == NormMembers(ms, cs)[k] {
      var i :| 0 <= i < |ms| && Fold(ms[i].key, cs) == k;
      assert ms[i] in ns;
      var j :| 0 <= j < |ns| && ns[j] == ms[i];
      assert Fold(ns[j].key, cs) == k;
    }
  }

  // ---------------------------------------------------------------- what the code computes

  ghost function NameOf(h: Cells, t: Tree): Ptr {
    if IsNode(h, t.ptr) then h[t.ptr].node.name else 0
  }

  /** `get_object_item` from child `i`: the first child with the name, or `|ts|`. A nameless child
      stops the case-sensitive search and is passed over by the other. */
  ghost function Find(h: Cells, ts: seq<Tree>, i: nat, name: bytes, cs: bool): (j: nat)
    requires i <= |ts|
    ensures i <= j <= |ts|
    decreases |ts| - i
  {
    if i == |ts| then i
    else if NameOf(h, ts[i]) == 0 then if cs then |ts| else Find(h, ts, i + 1, name, cs)
    else if Fold(StringOf(h, NameOf(h, ts[i])), cs) == Fold(name, cs) then i
    else Find(h, ts, i + 1, name, cs)
  }

  /** The comparison as the code makes it, on any two trees. */
  ghost predicate Same(h: Cells, a: Tree, b: Tree, cs: bool)
    decreases Size(a) + Size(b), 0
  {
    && IsNode(h, a.ptr) && IsNode(h, b.ptr)
    && var m, n := h[a.ptr].node, h[b.ptr].node;
    && m.kind == n.kind && m.kind != KInvalid
    && (a.ptr == b.ptr
        || match m.kind
           case KNumber => CompareDouble(m.valuedouble, n.valuedouble)
           case KString => m.text != 0 && n.text != 0 && StringOf(h, m.text) == StringOf(h, n.text)
           case KRaw => m.text != 0 && n.text != 0 && StringOf(h, m.text) == StringOf(h, n.text)
           case KArray => |a.kids| == |b.kids| && SameFrom(h, a.kids, b.kids, 0, cs)
           case KObject => Subsumed(h, a.kids, b.kids, 0, cs) && Subsumed(h, b.kids, a.kids, 0, cs)
           case _ => true)
  }

  /** Elements from `i` on, pairwise. */
  ghost predicate SameFrom(h: Cells, a: seq<Tree>, b: seq<Tree>, i: nat, cs: bool)
    requires i <= |a| == |b|
    decreases SizeAll(a) + SizeAll(b), |a| - i + 1
  {
    i == |a|
    || (SizeIndex(a, i); SizeIndex(b, i); Same(h, a[i], b[i], cs) && SameFrom(h, a, b, i + 1, cs))
  }

  /** Every member of `a` from `i` on is found in `b` with the same value. */
  ghost predicate Subsumed(h: Cells, a: seq<Tree>, b: seq<Tree>, i: nat, cs: bool)
    requires i <= |a|
    decreases SizeAll(a) + SizeAll(b), |a| - i + 1
  {
    i == |a|
    || (NameOf(h, a[i]) != 0
        && var j := Find(h, b, 0, StringOf(h, NameOf(h, a[i])), cs);
        j < |b| && (SizeIndex(a, i); SizeIndex(b, j); Same(h, a[i], b[j], cs)) && Subsumed(h, a, b, i + 1, cs))
  }

  // ---------------------------------------------------------------- equality up to order

  /** Strings and names are there where the kind asks for them. */
  ghost predicate Proper(h: Cells, t: Tree) {
    && IsNode(h, t.ptr)
    && var n := h[t.ptr].node;
    && n.kind != KInvalid && (n.kind in {KString, KRaw} ==> n.text != 0)
    && (n.kind == KObject ==> forall i :: 0 <= i < |t.kids| ==> NameOf(h, t.kids[i]) != 0)
    && forall i :: 0 <= i < |t.kids| ==> Proper(h, t.kids[i])
  }

  /** A sound tree can be compared. */
  lemma {:induction false} SoundProper(h: Cells, t: Tree)
    requires Sound(h, t)
    ensures Proper(h, t)
    decreases t
  {
    forall i | 0 <= i < |t.kids| ensures Proper(h, t.kids[i]) {
      SoundProper(h, t.kids[i]);
    }
  }

  /** What the comparison theorems ask of a tree. */
  ghost predicate Fit(h: Cells, t: Tree) {
    View(h, t) && Proper(h, t) && IntNumbers(Value(h, t))
  }

  /** The nodes of a tree. */
  ghost function Nodes(t: Tree): set<Ptr> {
    {t.ptr} + NodesAll(t.kids)
  }

  ghost function NodesAll(ts: seq<Tree>): set<Ptr> {
    if ts == [] then {} else NodesAll(ts[..|ts| - 1]) + Nodes(ts[|ts| - 1])
  }

  lemma {:induction false} NodesIndex(ts: seq<Tree>, i: nat)
    requires i < |ts|
    ensures Nodes(ts[i]) <= NodesAll(ts)
    decreases |ts|
  {
    if i < |ts| - 1 {
      NodesIndex(ts[..|ts| - 1], i);
    }
  }

  /** No node belongs to both trees. */
  ghost predicate Apart(a: Tree, b: Tree) {
    Nodes(a) !! Nodes(b)
  }

  lemma ApartSwapped(a: Tree, b: Tree)
    ensures Apart(a, b) <==> Apart(b, a)
  {
    hide Nodes;
  }

  lemma ApartKids(a: Tree, b: Tree, i: nat, j: nat)
    requires Apart(a, b) && i < |a.kids| && j < |b.kids|
    ensures Apart(a.kids[i], b.kids[j])
  {
    NodesIndex(a.kids, i);
    NodesIndex(b.kids, j);
  }

  /** An address has only one unfolding. */
  lemma {:induction false} ViewUnique(h: Cells, a: Tree, b: Tree)
    requires View(h, a) && View(h, b) && a.ptr == b.ptr
    ensures a == b
    decreases a
  {
    ChainUnique(h, a.kids, b.kids);
    forall i | 0 <= i < |a.kids| ensures a.kids[i] == b.kids[i] {
      ChainUniqueAt(h, a.kids, b.kids, i);
      ViewUnique(h, a.kids[i], b.kids[i]);
    }
    assert a.kids == b.kids;
  }

  lemma {:induction false} ChainUniqueAt(h: Cells, a: seq<Tree>, b: seq<Tree>, i: nat)
    requires Chain(h, a) && Chain(h, b) && PtrAt(a, 0) == PtrAt(b, 0) && i <= |a|
    ensures i <= |b| && PtrAt(a, i) == PtrAt(b, i)
  {
    if i > 0 {
      ChainUniqueAt(h, a, b, i - 1);
      PtrAtNull(h, a, i - 1);
      PtrAtNull(h, b, i - 1);
    }
  }

  lemma ChainUnique(h: Cells, a: seq<Tree>, b: seq<Tree>)
    requires Chain(h, a) && Chain(h, b) && PtrAt(a, 0) == PtrAt(b, 0)
    ensures |a| == |b|
  {
    ChainUniqueAt(h, a, b, |a|);
    PtrAtNull(h, a, |a|);
    PtrAtNull(h, b, |a|);
  }

  lemma {:induction false} SameFromAll(h: Cells, a: seq<Tree>, b: seq<Tree>, i: nat, cs: bool)
    requires i <= |a| == |b|
    ensures SameFrom(h, a, b, i, cs) <==> forall k :: i <= k < |a| ==> Same(h, a[k], b[k], cs)
    decreases |a| - i
  {
    hide Same;
    if i < |a| {
      SameFromAll(h, a, b, i + 1, cs);
    }
  }

  ghost predicate FoundSame(h: Cells, a: Tree, b: seq<Tree>, cs: bool) {
    NameOf(h, a) != 0
    && var j := Find(h, b, 0, StringOf(h, NameOf(h, a)), cs); j < |b| && Same(h, a, b[j], cs)
  }

  lemma {:induction false} SubsumedAll(h: Cells, a: seq<Tree>, b: seq<Tree>, i: nat, cs: bool)
    requires i <= |a|
    ensures Subsumed(h, a, b, i, cs) <==> forall k :: i <= k < |a| ==> FoundSame(h, a[k], b, cs)
    decreases |a| - i
  {
    hide Same, Find, Subsumed, FoundSame;
    if i < |a| {
      SubsumedStep(h, a, b, i, cs);
      SubsumedAll(h, a, b, i + 1, cs);
    } else {
      SubsumedEnd(h, a, b, cs);
    }
  }

  /** Where all children are named, the search finds the first match, if there is one. */
  lemma {:induction false} FindFirst(h: Cells, ts: seq<Tree>, i: nat, name: bytes, cs: bool)
    requires i <= |ts| && forall k :: 0 <= k < |ts| ==> NameOf(h, ts[k]) != 0
    ensures var j := Find(h, ts, i, name, cs);
      && (forall k :: i <= k < j ==> Fold(StringOf(h, NameOf(h, ts[k])), cs) != Fold(name, cs))
      && (j < |ts| ==> Fold(StringOf(h, NameOf(h, ts[j])), cs) == Fold(name, cs))
    decreases |ts| - i
  {
    hide Fold, StringOf;
    if i < |ts| {
      FindFirst(h, ts, i + 1, name, cs);
    }
  }

  /** Every member of one list has a partner in the other. */
  ghost predicate Matched(ms: seq<Member>, ns: seq<Member>, cs: bool) {
    forall i :: 0 <= i < |ms| ==> Partner(ms[i], ns, cs)
  }

  ghost predicate Partner(m: Member, ns: seq<Member>, cs: bool) {
    exists j :: 0 <= j < |ns| && Fold(m.key, cs) == Fold(ns[j].key, cs) && Norm(m.value, cs) == Norm(ns[j].value, cs)
  }

  lemma MatchedIsEqual(ms: seq<Member>, ns: seq<Member>, cs: bool)
    requires KeysAgree(ms, cs) && KeysAgree(ns, cs)
    ensures Matched(ms, ns, cs) && Matched(ns, ms, cs) <==> NormMembers(ms, cs) == NormMembers(ns, cs)
  {
    MatchedIncluded(ms, ns, cs);
    MatchedIncluded(ns, ms, cs);
    if NormMembers(ms, cs) == NormMembers(ns, cs) {
      EqualMatched(ms, ns, cs);
      EqualMatched(ns, ms, cs);
    }
  }

  lemma MatchedIncluded(ms: seq<Member>, ns: seq<Member>, cs: bool)
    requires KeysAgree(ms, cs) && KeysAgree(ns, cs)
    ensures Matched(ms, ns, cs) ==>
      forall k :: k in NormMembers(ms, cs) ==>
        k in NormMembers(ns, cs) && NormMembers(ns, cs)[k] == NormMembers(ms, cs)[k]
  {
    hide NormMembers, Norm, Fold;
    NormMembersIndex(ms, cs);
    NormMembersIndex(ns, cs);
    if Matched(ms, ns, cs) {
      forall k | k in NormMembers(ms, cs) ensures k in NormMembers(ns, cs)
        && NormMembers(ns, cs)[k] == NormMembers(ms, cs)[k] {
        var i :| 0 <= i < |ms| && Fold(ms[i].key, cs) == k;
        assert Partner(ms[i], ns, cs);
        var j :| 0 <= j < |ns| && Fold(ms[i].key, cs) == Fold(ns[j].key, cs)
          && Norm(ms[i].value, cs) == Norm(ns[j].value, cs);
      }
    }
  }

  lemma EqualMatched(ms: seq<Member>, ns: seq<Member>, cs: bool)
    requires KeysAgree(ms, cs) && KeysAgree(ns, cs) && NormMembers(ms, cs) == NormMembers(ns, cs)
    ensures Matched(ms, ns, cs)
  {
    hide NormMembers, Norm, Fold;
    NormMembersIndex(ms, cs);
    NormMembersIndex(ns, cs);
    forall i | 0 <= i < |ms| ensures Partner(ms[i], ns, cs) {
      var k := Fold(ms[i].key, cs);
      assert k in NormMembers(ns, cs);
      var j :| 0 <= j < |ns| && Fold(ns[j].key, cs) == k;
    }
  }

  lemma FitKid(h: Cells, t: Tree, i: nat)
    requires Fit(h, t) && i < |t.kids| && h[t.ptr].node.kind in {KArray, KObject}
    ensures Fit(h, t.kids[i]) && Size(t.kids[i]) < Size(t)
  {
    hide View, Proper, IntNumbers, Values, Members, StringOf;
    FitNode(h, t);
    FitKidShape(h, t, i);
    FitKidValue(h, t, i);
    SizeIndex(t.kids, i);
  }

  lemma FitKidShape(h: Cells, t: Tree, i: nat)
    requires View(h, t) && Proper(h, t) && i < |t.kids|
    ensures View(h, t.kids[i]) && Proper(h, t.kids[i])
  {
    hide StringOf, Chain;
  }

  lemma FitKidValue(h: Cells, t: Tree, i: nat)
    requires IsNode(h, t.ptr) && h[t.ptr].node.kind in {KArray, KObject} && IntNumbers(Value(h, t)) && i < |t.kids|
    ensures IntNumbers(Value(h, t.kids[i]))
  {
    hide StringOf, Values, Members;
    ValuesIndex(h, t.kids, i);
  }

  lemma FitNode(h: Cells, t: Tree)
    requires Fit(h, t)
    ensures IsNode(h, t.ptr) && h[t.ptr].node.kind != KInvalid
    ensures h[t.ptr].node.kind in {KString, KRaw} ==> h[t.ptr].node.text != 0
    ensures h[t.ptr].node.kind == KObject ==> forall i :: 0 <= i < |t.kids| ==> NameOf(h, t.kids[i]) != 0
  {
  }

  ghost predicate Equal(h: Cells, a: Tree, b: Tree, cs: bool) {
    Norm(Value(h, a), cs) == Norm(Value(h, b), cs)
  }

  ghost predicate BothCoherent(h: Cells, a: Tree, b: Tree, cs: bool) {
    Coherent(Value(h, a), cs) && Coherent(Value(h, b), cs)
  }

  /** What the comparison of two fit trees says about their values. */
  ghost predicate Verdict(h: Cells, a: Tree, b: Tree, cs: bool) {
    && (BothCoherent(h, a, b, cs) ==> (Same(h, a, b, cs) <==> Equal(h, a, b, cs)))
    && (Apart(a, b) && Same(h, a, b, cs) ==> BothCoherent(h, a, b, cs) && Equal(h, a, b, cs))
  }

  /** On fit trees without a node in common the code says equal exactly if no object on either side
      gives one key two values and the values are equal up to the order of members. */
  lemma SameExact(h: Cells, a: Tree, b: Tree, cs: bool)
    requires Fit(h, a) && Fit(h, b) && Apart(a, b)
    ensures Same(h, a, b, cs) <==>
      && Coherent(Value(h, a), cs) && Coherent(Value(h, b), cs)
      && Norm(Value(h, a), cs) == Norm(Value(h, b), cs)
  {
    hide Fit, Same, Norm, Coherent, Apart;
    SameVerdict(h, a, b, cs);
  }

  /** On coherent fit trees, also where they share nodes, it is equality up to the order of members. */
  lemma SameIsEqual(h: Cells, a: Tree, b: Tree, cs: bool)
    requires Fit(h, a) && Fit(h, b) && Coherent(Value(h, a), cs) && Coherent(Value(h, b), cs)
    ensures Same(h, a, b, cs) <==> Norm(Value(h, a), cs) == Norm(Value(h, b), cs)
  {
    hide Fit, Same, Norm, Coherent, Apart;
    SameVerdict(h, a, b, cs);
  }

  lemma {:induction false} SameVerdict(h: Cells, a: Tree, b: Tree, cs: bool)
    requires Fit(h, a) && Fit(h, b)
    ensures Verdict(h, a, b, cs)
    decreases Size(a) + Size(b), 5
  {
    hide Fit, Fold, CString, CompareDouble, SameFrom, Subsumed, Norm, Value, Coherent, Verdict;
    FitNode(h, a);
    FitNode(h, b);
    if a.ptr == b.ptr {
      SharedVerdict(h, a, b, cs);
    } else if h[a.ptr].node.kind == h[b.ptr].node.kind == KArray {
      ArrayVerdict(h, a, b, cs);
    } else if h[a.ptr].node.kind == h[b.ptr].node.kind == KObject {
      ObjectVerdict(h, a, b, cs);
    } else {
      LeafVerdict(h, a, b, cs);
    }
  }

  lemma SharedVerdict(h: Cells, a: Tree, b: Tree, cs: bool)
    requires Fit(h, a) && Fit(h, b) && a.ptr == b.ptr
    ensures Verdict(h, a, b, cs)
  {
    hide View, Value, Norm, Coherent, SameFrom, Subsumed, NodesAll;
    FitNode(h, a);
    ViewUnique(h, a, b);
  }

  /** The kinds without children, and different kinds. */
  lemma LeafVerdict(h: Cells, a: Tree, b: Tree, cs: bool)
    requires Fit(h, a) && Fit(h, b) && IsNode(h, a.ptr) && IsNode(h, b.ptr) && a.ptr != b.ptr
    requires h[a.ptr].node.kind == h[b.ptr].node.kind ==> h[a.ptr].node.kind !in {KArray, KObject}
    ensures Verdict(h, a, b, cs)
  {
    hide CompareDouble, CString, View, Fold, SameFrom, Subsumed, Coherent, Apart;
    FitNode(h, a);
    FitNode(h, b);
    if h[a.ptr].node.kind == h[b.ptr].node.kind {
      LeafCoherent(h, a, cs);
      LeafCoherent(h, b, cs);
    }
    if h[a.ptr].node.kind == KNumber && h[b.ptr].node.kind == KNumber {
      CompareIntValued(h[a.ptr].node.valuedouble, h[b.ptr].node.valuedouble);
    }
  }

  lemma LeafCoherent(h: Cells, a: Tree, cs: bool)
    requires IsNode(h, a.ptr) && h[a.ptr].node.kind !in {KArray, KObject}
    ensures Coherent(Value(h, a), cs)
  {
    hide CString;
  }

  lemma ContainerNorm(h: Cells, a: Tree, cs: bool)
    requires IsNode(h, a.ptr)
    ensures h[a.ptr].node.kind == KArray ==> Norm(Value(h, a), cs) == CanonArray(NormItems(Values(h, a.kids), cs))
    ensures h[a.ptr].node.kind == KObject ==> Norm(Value(h, a), cs) == CanonObject(NormMembers(Members(h, a.kids), cs))
  {
    hide Values, Members, NormItems, NormMembers, CString;
  }

  lemma ArrayCoherent(h: Cells, a: Tree, cs: bool)
    requires IsNode(h, a.ptr) && h[a.ptr].node.kind == KArray
    ensures Coherent(Value(h, a), cs) <==> forall k :: 0 <= k < |a.kids| ==> Coherent(Value(h, a.kids[k]), cs)
  {
    hide Values, CString;
    var vs := Values(h, a.kids);
    assert Value(h, a) == Array(vs);
    forall k | 0 <= k < |a.kids| ensures vs[k] == Value(h, a.kids[k]) {
      ValuesIndex(h, a.kids, k);
    }
  }

  lemma ArrayEqual(h: Cells, a: Tree, b: Tree, cs: bool)
    requires IsNode(h, a.ptr) && IsNode(h, b.ptr) && h[a.ptr].node.kind == h[b.ptr].node.kind == KArray
    ensures Equal(h, a, b, cs) <==> |a.kids| == |b.kids| && forall k :: 0 <= k < |a.kids| ==>
      Equal(h, a.kids[k], b.kids[k], cs)
  {
    hide Value, Norm, Values, NormItems;
    var vs, ws := Values(h, a.kids), Values(h, b.kids);
    ContainerNorm(h, a, cs);
    ContainerNorm(h, b, cs);
    if |a.kids| == |b.kids| {
      forall k | 0 <= k < |a.kids| ensures Equal(h, a.kids[k], b.kids[k], cs) <==>
        NormItems(vs, cs)[k] == NormItems(ws, cs)[k] {
        ValuesIndex(h, a.kids, k);
        ValuesIndex(h, b.kids, k);
        NormItemsIndex(vs, cs, k);
        NormItemsIndex(ws, cs, k);
      }
    }
  }

  lemma ArraySame(h: Cells, a: Tree, b: Tree, cs: bool)
    requires IsNode(h, a.ptr) && IsNode(h, b.ptr) && h[a.ptr].node.kind == h[b.ptr].node.kind == KArray
    requires a.ptr != b.ptr
    ensures Same(h, a, b, cs) <==> |a.kids| == |b.kids| && forall k :: 0 <= k < |a.kids| ==>
      Same(h, a.kids[k], b.kids[k], cs)
  {
    hide SameFrom;
    if |a.kids| == |b.kids| {
      SameFromAll(h, a.kids, b.kids, 0, cs);
    }
  }

  lemma {:induction false} ArrayVerdict(h: Cells, a: Tree, b: Tree, cs: bool)
    requires Fit(h, a) && Fit(h, b) && IsNode(h, a.ptr) && IsNode(h, b.ptr) && a.ptr != b.ptr
    requires h[a.ptr].node.kind == h[b.ptr].node.kind == KArray
    ensures Verdict(h, a, b, cs)
    decreases Size(a) + Size(b), 4
  {
    hide Fit, Same, Value, Coherent, Equal, Apart;
    ArraySame(h, a, b, cs);
    ArrayEqual(h, a, b, cs);
    ArrayCoherent(h, a, cs);
    ArrayCoherent(h, b, cs);
    if |a.kids| == |b.kids| {
      forall k | 0 <= k < |a.kids|
        ensures Verdict(h, a.kids[k], b.kids[k], cs) && (Apart(a, b) ==> Apart(a.kids[k], b.kids[k]))
      {
        FitKid(h, a, k);
        FitKid(h, b, k);
        SameVerdict(h, a.kids[k], b.kids[k], cs);
        if Apart(a, b) {
          ApartKids(a, b, k, k);
        }
      }
    }
  }

  lemma ObjectCoherent(h: Cells, a: Tree, cs: bool)
    requires IsNode(h, a.ptr) && h[a.ptr].node.kind == KObject
    ensures Coherent(Value(h, a), cs) <==>
      KeysAgree(Members(h, a.kids), cs) && forall k :: 0 <= k < |a.kids| ==> Coherent(Value(h, a.kids[k]), cs)
  {
    hide Members, CString, KeysAgree;
    var ms := Members(h, a.kids);
    assert Value(h, a) == Object(ms);
    forall k | 0 <= k < |a.kids| ensures ms[k].value == Value(h, a.kids[k]) {
      ValuesIndex(h, a.kids, k);
    }
  }

  lemma ObjectEqual(h: Cells, a: Tree, b: Tree, cs: bool)
    requires IsNode(h, a.ptr) && IsNode(h, b.ptr) && h[a.ptr].node.kind == h[b.ptr].node.kind == KObject
    requires KeysAgree(Members(h, a.kids), cs) && KeysAgree(Members(h, b.kids), cs)
    ensures Equal(h, a, b, cs) <==>
      Matched(Members(h, a.kids), Members(h, b.kids), cs) && Matched(Members(h, b.kids), Members(h, a.kids), cs)
  {
    hide Value, Norm, NormMembers, Members, KeysAgree, Matched;
    ContainerNorm(h, a, cs);
    ContainerNorm(h, b, cs);
    MatchedIsEqual(Members(h, a.kids), Members(h, b.kids), cs);
  }

  lemma ObjectSame(h: Cells, a: Tree, b: Tree, cs: bool)
    requires IsNode(h, a.ptr) && IsNode(h, b.ptr) && h[a.ptr].node.kind == h[b.ptr].node.kind == KObject
    requires a.ptr != b.ptr
    ensures Same(h, a, b, cs) <==>
      && (forall k :: 0 <= k < |a.kids| ==> FoundSame(h, a.kids[k], b.kids, cs))
      && (forall k :: 0 <= k < |b.kids| ==> FoundSame(h, b.kids[k], a.kids, cs))
  {
    hide Subsumed, FoundSame;
    SubsumedAll(h, a.kids, b.kids, 0, cs);
    SubsumedAll(h, b.kids, a.kids, 0, cs);
  }

  lemma {:induction false} ObjectVerdict(h: Cells, a: Tree, b: Tree, cs: bool)
    requires Fit(h, a) && Fit(h, b) && IsNode(h, a.ptr) && IsNode(h, b.ptr) && a.ptr != b.ptr
    requires h[a.ptr].node.kind == h[b.ptr].node.kind == KObject
    ensures Verdict(h, a, b, cs)
    decreases Size(a) + Size(b), 4
  {
    hide Fit, Same, Value, Coherent, Equal, Apart, FoundSame, Matched, KeysAgree, Members;
    ObjectSame(h, a, b, cs);
    ObjectCoherent(h, a, cs);
    ObjectCoherent(h, b, cs);
    if Apart(a, b) && Same(h, a, b, cs) {
      ApartSwapped(a, b);
      ObjectForced(h, a, b, cs);
      ObjectForced(h, b, a, cs);
    }
    if BothCoherent(h, a, b, cs) {
      ObjectEqual(h, a, b, cs);
      FoundMatched(h, a, b, cs);
      FoundMatched(h, b, a, cs);
    }
  }

  /** The members of `ts` in terms of their nodes. */
  lemma MembersAre(h: Cells, ts: seq<Tree>)
    ensures forall k :: 0 <= k < |ts| ==> Members(h, ts)[k] == MemberOf(h, ts[k])
  {
    hide Members, MemberOf;
    forall k | 0 <= k < |ts| ensures Members(h, ts)[k] == MemberOf(h, ts[k]) {
      ValuesIndex(h, ts, k);
    }
  }

  /** Where keys agree, what the search finds is as good as any partner. */
  lemma {:induction false} FoundMatched(h: Cells, a: Tree, b: Tree, cs: bool)
    requires Fit(h, a) && Fit(h, b) && IsNode(h, a.ptr) && IsNode(h, b.ptr)
    requires h[a.ptr].node.kind == h[b.ptr].node.kind == KObject && BothCoherent(h, a, b, cs)
    ensures (forall k :: 0 <= k < |a.kids| ==> FoundSame(h, a.kids[k], b.kids, cs))
      <==> Matched(Members(h, a.kids), Members(h, b.kids), cs)
    decreases Size(a) + Size(b), 3
  {
    hide Fit, Value, FoundSame, Partner, Members, Coherent;
    forall k | 0 <= k < |a.kids|
      ensures FoundSame(h, a.kids[k], b.kids, cs) <==> Partner(Members(h, a.kids)[k], Members(h, b.kids), cs)
    {
      MemberFound(h, a, b, k, cs);
    }
  }

  lemma {:induction false} MemberFound(h: Cells, a: Tree, b: Tree, k: nat, cs: bool)
    requires Fit(h, a) && Fit(h, b) && IsNode(h, a.ptr) && IsNode(h, b.ptr) && k < |a.kids|
    requires h[a.ptr].node.kind == h[b.ptr].node.kind == KObject && BothCoherent(h, a, b, cs)
    ensures FoundSame(h, a.kids[k], b.kids, cs) <==> Partner(Members(h, a.kids)[k], Members(h, b.kids), cs)
    decreases Size(a) + Size(b), 2
  {
    hide Fit, Value, Fold, Norm, Same, Find, CString, Members, Coherent, KeysAgree;
    var u, ns := a.kids[k], Members(h, b.kids);
    FitNode(h, a);
    FitNode(h, b);
    ObjectCoherent(h, a, cs);
    ObjectCoherent(h, b, cs);
    MembersAre(h, a.kids);
    MembersAre(h, b.kids);
    var name := StringOf(h, NameOf(h, u));
    FindFirst(h, b.kids, 0, name, cs);
    var j := Find(h, b.kids, 0, name, cs);
    if j < |b.kids| {
      FitKid(h, a, k);
      FitKid(h, b, j);
      SameVerdict(h, u, b.kids[j], cs);
      AgreeWith(ns, j, cs);
    }
  }

  lemma AgreeWith(ns: seq<Member>, j: nat, cs: bool)
    requires KeysAgree(ns, cs) && j < |ns|
    ensures forall i :: 0 <= i < |ns| && Fold(ns[i].key, cs) == Fold(ns[j].key, cs) ==>
      Norm(ns[i].value, cs) == Norm(ns[j].value, cs)
  {
    hide Fold, Norm;
    assert forall i :: 0 <= i < |ns| ==> Agreeing(ns[i], ns[j], cs);
  }

  /** The search depends on the folded name only. */
  lemma {:induction false} FindFolded(h: Cells, ts: seq<Tree>, i: nat, m: bytes, n: bytes, cs: bool)
    requires i <= |ts| && Fold(m, cs) == Fold(n, cs)
    ensures Find(h, ts, i, m, cs) == Find(h, ts, i, n, cs)
    decreases |ts| - i
  {
    hide Fold, StringOf;
    if i < |ts| {
      FindFolded(h, ts, i + 1, m, n, cs);
    }
  }

  /** A member found equal in a tree apart is coherent and has the value of what was found. */
  lemma {:induction false} FoundForced(h: Cells, a: Tree, b: Tree, k: nat, cs: bool)
    requires Fit(h, a) && Fit(h, b) && IsNode(h, a.ptr) && IsNode(h, b.ptr) && k < |a.kids| && Apart(a, b)
    requires h[a.ptr].node.kind == h[b.ptr].node.kind == KObject && FoundSame(h, a.kids[k], b.kids, cs)
    ensures var j := Find(h, b.kids, 0, StringOf(h, NameOf(h, a.kids[k])), cs);
      && j < |b.kids| && Coherent(Value(h, a.kids[k]), cs) && Equal(h, a.kids[k], b.kids[j], cs)
      && Fold(StringOf(h, NameOf(h, a.kids[k])), cs) == Fold(StringOf(h, NameOf(h, b.kids[j])), cs)
    decreases Size(a) + Size(b), 2
  {
    hide Fit, Value, Fold, Norm, Same, Find, CString, Coherent, Apart;
    var name := StringOf(h, NameOf(h, a.kids[k]));
    var j := Find(h, b.kids, 0, name, cs);
    FitNode(h, b);
    FindFirst(h, b.kids, 0, name, cs);
    FitKid(h, a, k);
    FitKid(h, b, j);
    ApartKids(a, b, k, j);
    SameVerdict(h, a.kids[k], b.kids[j], cs);
  }

  /** If every member is found equal in an object apart, the object is coherent. */
  lemma {:induction false} ObjectForced(h: Cells, a: Tree, b: Tree, cs: bool)
    requires Fit(h, a) && Fit(h, b) && IsNode(h, a.ptr) && IsNode(h, b.ptr) && Apart(a, b)
    requires h[a.ptr].node.kind == h[b.ptr].node.kind == KObject
    requires forall k :: 0 <= k < |a.kids| ==> FoundSame(h, a.kids[k], b.kids, cs)
    ensures Coherent(Value(h, a), cs)
    decreases Size(a) + Size(b), 3
  {
    hide Fit, Value, Fold, Norm, Same, Find, CString, Members, Coherent, FoundSame, Apart;
    var ms := Members(h, a.kids);
    MembersAre(h, a.kids);
    ObjectCoherent(h, a, cs);
    FitNode(h, a);
    forall k | 0 <= k < |a.kids| ensures Coherent(Value(h, a.kids[k]), cs) {
      FoundForced(h, a, b, k, cs);
    }
    forall i, j | 0 <= i < |ms| && 0 <= j < |ms| ensures Agreeing(ms[i], ms[j], cs) {
      if Fold(ms[i].key, cs) == Fold(ms[j].key, cs) {
        FoundForced(h, a, b, i, cs);
        FoundForced(h, a, b, j, cs);
        FindFolded(h, b.kids, 0, ms[i].key, ms[j].key, cs);
      }
    }
  }

  /** On coherent fit trees the comparison is an equivalence relation. */
  lemma SameEquivalence(h: Cells, a: Tree, b: Tree, c: Tree, cs: bool)
    requires Fit(h, a) && Fit(h, b) && Fit(h, c)
    requires Coherent(Value(h, a), cs) && Coherent(Value(h, b), cs) && Coherent(Value(h, c), cs)
    ensures Same(h, a, a, cs)
    ensures Same(h, a, b, cs) ==> Same(h, b, a, cs)
    ensures Same(h, a, b, cs) && Same(h, b, c, cs) ==> Same(h, a, c, cs)
  {
    hide Same, Fit, Norm, Coherent;
    SameIsEqual(h, a, a, cs);
    SameIsEqual(h, a, b, cs);
    SameIsEqual(h, b, a, cs);
    SameIsEqual(h, b, c, cs);
    SameIsEqual(h, a, c, cs);
  }

  function NumberNode(next: Ptr, prev: Ptr, d: int, name: Ptr): Cell {
    NodeCell(BLANK.(next := next, prev := prev, kind := KNumber, valueint := d, valuedouble := d as real, name := name))
  }

  /** Two separate objects with the members "a": 1, "a": 2. */
  function TwinObjects(): Cells {
    map[1 := NodeCell(BLANK.(kind := KObject, child := 2)), 2 := NumberNode(3, 3, 1, 4), 3 := NumberNode(0, 2, 2, 5),
        4 := Block([97, 0]), 5 := Block([97, 0]),
        6 := NodeCell(BLANK.(kind := KObject, child := 7)), 7 := NumberNode(8, 8, 1, 9), 8 := NumberNode(0, 7, 2, 10),
        9 := Block([97, 0]), 10 := Block([97, 0])]
  }

  function Twin(root: Ptr): Tree {
    Tree(root, 0, 0, [TwinKid(root, 0), TwinKid(root, 1)])
  }

  function TwinKid(root: Ptr, k: nat): Tree {
    Tree(root + 1 + k, 0, root + 3 + k, [])
  }

  const TWIN_VALUE: Json := Object([Member([97], Number(1.0)), Member([97], Number(2.0))])

  /** Why coherence is needed: equal trees, well-formed and apart, that the code calls different,
      although it calls each of them equal to itself. */
  lemma DuplicateKeysUnequal()
    ensures var h, a, b := TwinObjects(), Twin(1), Twin(6);
      && Rep(h, a) && Sep(a) && Tidy(h, a) && Rep(h, b) && Sep(b) && Tidy(h, b) && Foot(a) !! Foot(b)
      && View(h, a) && View(h, b) && Value(h, a) == Value(h, b) == TWIN_VALUE
      && Same(h, a, a, true) && !Same(h, a, b, true)
  {
    hide Rep, Tidy, View, Value, Same, Proper, Foot, Sep, Apart, Norm, Coherent, Fit;
    TwinOwned(1);
    TwinOwned(6);
    TwinsApart();
    TwinView(1);
    TwinView(6);
    TwinValue(1);
    TwinValue(6);
    TwinFit(1);
    TwinFit(6);
    TwinIncoherent();
    SameExact(TwinObjects(), Twin(1), Twin(6), true);
    assert Same(TwinObjects(), Twin(1), Twin(1), true) by { TwinSelf(); }
  }

  lemma TwinSelf()
    ensures Same(TwinObjects(), Twin(1), Twin(1), true)
  {
    hide SameFrom, Subsumed;
  }

  lemma TwinKidFoot(root: Ptr, k: nat)
    requires root > 0
    ensures Foot(TwinKid(root, k)) == {root + 1 + k, root + 3 + k} && Sep(TwinKid(root, k))
    ensures Nodes(TwinKid(root, k)) == {root + 1 + k}
  {
  }

  lemma TwinFoot(root: Ptr)
    requires root > 0
    ensures Sep(Twin(root)) && Foot(Twin(root)) == {root, root + 1, root + 2, root + 3, root + 4}
    ensures Nodes(Twin(root)) == {root, root + 1, root + 2}
  {
    var u, v := TwinKid(root, 0), TwinKid(root, 1);
    TwinKidFoot(root, 0);
    TwinKidFoot(root, 1);
    FootAllAppend([], u);
    FootAllAppend([u], v);
    assert [] + [u] == [u] && [u] + [v] == [u, v] == Twin(root).kids;
    assert [u, v][..1] == [u] && [u][..0] == [];
    assert NodesAll([u]) == Nodes(u) && NodesAll([u, v]) == NodesAll([u]) + Nodes(v);
  }

  lemma TwinsApart()
    ensures Apart(Twin(1), Twin(6)) && Foot(Twin(1)) !! Foot(Twin(6)) && Sep(Twin(1)) && Sep(Twin(6))
  {
    hide Foot, Sep, Nodes;
    TwinFoot(1);
    TwinFoot(6);
  }

  lemma TwinCells(root: Ptr)
    requires root == 1 || root == 6
    ensures var h, u, v := TwinObjects(), TwinKid(root, 0), TwinKid(root, 1);
      && IsNode(h, root) && h[root].node == BLANK.(kind := KObject, child := u.ptr)
      && h[u.ptr] == NumberNode(v.ptr, v.ptr, 1, u.name) && h[v.ptr] == NumberNode(0, u.ptr, 2, v.name)
      && u.ptr in h && v.ptr in h && IsBlock(h, u.name) && IsBlock(h, v.name)
      && h[u.name].content == h[v.name].content == [97, 0]
  {
  }

  lemma TwinOwned(root: Ptr)
    requires root == 1 || root == 6
    ensures Rep(TwinObjects(), Twin(root)) && Tidy(TwinObjects(), Twin(root))
  {
    hide TwinObjects;
    var h, t := TwinObjects(), Twin(root);
    TwinCells(root);
    assert Rep(h, t.kids[0]) && Rep(h, t.kids[1]) && Tidy(h, t.kids[0]) && Tidy(h, t.kids[1]);
  }

  lemma TwinView(root: Ptr)
    requires root == 1 || root == 6
    ensures View(TwinObjects(), Twin(root)) && Proper(TwinObjects(), Twin(root))
  {
    hide TwinObjects;
    var h, t := TwinObjects(), Twin(root);
    TwinCells(root);
    assert View(h, t.kids[0]) && View(h, t.kids[1]) && Proper(h, t.kids[0]) && Proper(h, t.kids[1]);
  }

  lemma TwinKidValue(root: Ptr, k: nat)
    requires (root == 1 || root == 6) && k < 2
    ensures MemberOf(TwinObjects(), TwinKid(root, k)) == Member([97], Number((k + 1) as real))
  {
    hide TwinObjects;
    TwinCells(root);
    assert [97, 0][1..] == [0];
    assert CString([97, 0]) == [97] + CString([0]);
  }

  lemma TwinValue(root: Ptr)
    requires root == 1 || root == 6
    ensures Value(TwinObjects(), Twin(root)) == TWIN_VALUE
  {
    hide CString, MemberOf, TwinObjects, Members;
    var h, ts := TwinObjects(), Twin(root).kids;
    TwinCells(root);
    TwinKidValue(root, 0);
    TwinKidValue(root, 1);
    ValuesIndex(h, ts, 0);
    ValuesIndex(h, ts, 1);
    assert Members(h, ts) == [MemberOf(h, ts[0]), MemberOf(h, ts[1])];
    assert Value(h, Twin(root)) == Object(Members(h, ts));
  }

  lemma TwinFit(root: Ptr)
    requires View(TwinObjects(), Twin(root)) && Proper(TwinObjects(), Twin(root))
    requires Value(TwinObjects(), Twin(root)) == TWIN_VALUE
    ensures Fit(TwinObjects(), Twin(root))
  {
    hide View, Proper, Value;
    assert 1.0 == 1 as real && 2.0 == 2 as real;
  }

  lemma TwinIncoherent()
    ensures !Coherent(TWIN_VALUE, true)
  {
    var ms := TWIN_VALUE.members;
    assert !Agreeing(ms[0], ms[1], true);
  }

  // ---------------------------------------------------------------- copies

  /** A copy read as any other tree: with the constant names it shares with its original. */
  ghost function Reading(h: Cells, c: Tree): Tree {
    if !IsNode(h, c.ptr) then c
    else
      Tree(c.ptr, h[c.ptr].node.text, h[c.ptr].node.name,
           seq(|c.kids|, i requires 0 <= i < |c.kids| => Reading(h, c.kids[i])))
  }

  lemma {:induction false} ReadingCopies(h0: Cells, v: Tree, h: Cells, c: Tree)
    requires View(h0, v) && Proper(h0, v) && Rep(h, c) && CopyOf(h0, v, h, c) && Extends(h0, h)
    ensures View(h, Reading(h, c)) && CopyOf(h0, v, h, Reading(h, c)) && Proper(h, Reading(h, c))
    decreases v
  {
    hide CString, Value;
    var r := Reading(h, c);
    ViewRoot(h0, v);
    forall i | 0 <= i < |c.kids|
      ensures View(h, r.kids[i]) && CopyOf(h0, v.kids[i], h, r.kids[i]) && Proper(h, r.kids[i])
      ensures r.kids[i].ptr == c.kids[i].ptr
    {
      ReadingCopies(h0, v.kids[i], h, c.kids[i]);
    }
  }

  lemma {:induction false} ProperExtends(h0: Cells, h: Cells, v: Tree)
    requires Proper(h0, v) && Extends(h0, h)
    ensures Proper(h, v)
    decreases v
  {
    forall i | 0 <= i < |v.kids| ensures Proper(h, v.kids[i]) {
      ProperExtends(h0, h, v.kids[i]);
    }
  }

  /** The nodes of a copy are new. */
  lemma {:induction false} ReadingNodes(h: Cells, c: Tree)
    requires Rep(h, c)
    ensures Nodes(Reading(h, c)) <= Foot(c)
    decreases c
  {
    hide Shell, Chain;
    var r := Reading(h, c);
    RepIsNode(h, c);
    FootLive(h, c);
    forall i | 0 <= i < |c.kids| ensures Nodes(r.kids[i]) <= FootAll(c.kids) {
      ReadingNodes(h, c.kids[i]);
      FootAllIndex(c.kids, i);
    }
    NodesBound(r.kids, FootAll(c.kids));
  }

  lemma {:induction false} NodesBound(ts: seq<Tree>, s: set<Ptr>)
    requires forall i :: 0 <= i < |ts| ==> Nodes(ts[i]) <= s
    ensures NodesAll(ts) <= s
    decreases |ts|
  {
    if ts != [] {
      NodesBound(ts[..|ts| - 1], s);
    }
  }

  lemma {:induction false} ViewNodes(h: Cells, t: Tree)
    requires View(h, t)
    ensures Nodes(t) <= h.Keys
    decreases t
  {
    forall i | 0 <= i < |t.kids| ensures Nodes(t.kids[i]) <= h.Keys {
      ViewNodes(h, t.kids[i]);
    }
    NodesBound(t.kids, h.Keys);
  }

  /** A recursive duplicate compares equal to its original exactly if the value is coherent. */
  lemma CopyComparesEqual(h0: Cells, v: Tree, h: Cells, c: Tree, cs: bool)
    requires Fit(h0, v) && CopyOf(h0, v, h, c) && NewTree(h0, h, c)
    ensures View(h, v) && View(h, Reading(h, c)) && Reading(h, c).ptr == c.ptr
    ensures Same(h, v, Reading(h, c), cs) <==> Coherent(Value(h0, v), cs)
    ensures Same(h, Reading(h, c), v, cs) <==> Coherent(Value(h0, v), cs)
  {
    hide Rep, Sep, Foot, CopyOf, View, Value, Proper, Same, Norm, Coherent, IntNumbers, CString, Nodes;
    RepIsNode(h, c);
    ReadingCopies(h0, v, h, c);
    CopyValue(h0, v, h, Reading(h, c));
    ViewExtends(h0, h, v);
    ProperExtends(h0, h, v);
    assert MemberOf(h, v).value == MemberOf(h0, v).value == MemberOf(h, Reading(h, c)).value;
    ReadingNodes(h, c);
    ViewNodes(h0, v);
    ApartSwapped(v, Reading(h, c));
    SameExact(h, v, Reading(h, c), cs);
    SameExact(h, Reading(h, c), v, cs);
  }

  // ---------------------------------------------------------------- the code

  lemma KidOf(h: Cells, t: Tree, i: nat)
    requires View(h, t) && i < |t.kids|
    ensures View(h, t.kids[i]) && IsNode(h, t.kids[i].ptr) && Size(t.kids[i]) < Size(t)
    ensures var name := h[t.kids[i].ptr].node.name; name == NameOf(h, t.kids[i]) && (name != 0 ==> IsBlock(h, name))
  {
    SizeIndex(t.kids, i);
  }

  /** The child carries the name wanted. */
  ghost predicate Named(h: Cells, t: Tree, name: bytes, cs: bool) {
    NameOf(h, t) != 0 && SameKey(StringOf(h, NameOf(h, t)), name, cs)
  }

  /** A nameless child before `k` keeps the case-sensitive search from getting there. */
  ghost predicate Hidden(h: Cells, ts: seq<Tree>, i: nat, k: nat, cs: bool) {
    cs && exists m :: i <= m < k && m < |ts| && NameOf(h, ts[m]) == 0
  }

  /** The search from child `i` stops at the first child of the name that nothing hides. */
  lemma {:induction false} FindMeans(h: Cells, ts: seq<Tree>, i: nat, name: bytes, cs: bool)
    requires i <= |ts|
    ensures var j := Find(h, ts, i, name, cs);
      && (j < |ts| ==> Named(h, ts[j], name, cs) && !Hidden(h, ts, i, j, cs))
      && (forall k :: i <= k < j && Named(h, ts[k], name, cs) ==> Hidden(h, ts, i, k, cs))
    decreases |ts| - i
  {
    hide Fold, SameKey, StringOf;
    if i < |ts| {
      FindMeans(h, ts, i + 1, name, cs);
      FoldKeys(StringOf(h, NameOf(h, ts[i])), name, cs);
    }
  }

  /** `get_object_item`. */
  method GetObjectItem(mem: Memory, obj: Ptr, name: Ptr, cs: bool, ghost t: Tree) returns (r: Ptr, ghost j: nat)
    requires obj != 0 ==> View(mem.cells, t) && obj == t.ptr
    requires name != 0 ==> IsBlock(mem.cells, name)
    ensures obj == 0 || name == 0 ==> r == 0
    ensures obj != 0 && name != 0 ==>
      j == Find(mem.cells, t.kids, 0, StringOf(mem.cells, name), cs) && r == PtrAt(t.kids, j)
    ensures r == 0 <==> obj == 0 || name == 0 || j == |t.kids|
    ensures r != 0 ==>
      && j < |t.kids| && r == t.kids[j].ptr
      && Named(mem.cells, t.kids[j], StringOf(mem.cells, name), cs) && !Hidden(mem.cells, t.kids, 0, j, cs)
    ensures obj != 0 && name != 0 ==>
      forall k :: 0 <= k < |t.kids| && (r == 0 || k < j) && Named(mem.cells, t.kids[k], StringOf(mem.cells, name), cs) ==>
        Hidden(mem.cells, t.kids, 0, k, cs)
  {
    hide View, Fold, SameKey, CString;
    j := 0;
    if obj == 0 || name == 0 {
      return 0, j;
    }
    ghost var h, wanted := mem.cells, StringOf(mem.cells, name);
    var key := CString(mem.cells[name].content);
    ViewRoot(h, t);
    r := mem.cells[obj].node.child;
    ghost var i := 0;
    while r != 0
      invariant i <= |t.kids| && r == PtrAt(t.kids, i)
      invariant Find(h, t.kids, 0, wanted, cs) == Find(h, t.kids, i, wanted, cs)
      decreases |t.kids| - i
    {
      PtrAtNull(h, t.kids, i);
      KidOf(h, t, i);
      var n := mem.cells[r].node;
      var differ := NamesDiffer(mem, name, n.name, cs);
      if !differ || (cs && n.name == 0) {
        break;
      }
      r := n.next;
      i := i + 1;
    }
    PtrAtNull(h, t.kids, i);
    j := Find(h, t.kids, 0, wanted, cs);
    PtrAtNull(h, t.kids, j);
    FindMeans(h, t.kids, 0, wanted, cs);
    if r == 0 || mem.cells[r].node.name == 0 {
      r := 0;
    }
  }

  /** The loop conditions of the two searches. */
  method NamesDiffer(mem: Memory, name: Ptr, other: Ptr, cs: bool) returns (differ: bool)
    requires IsBlock(mem.cells, name) && (other != 0 ==> IsBlock(mem.cells, other))
    ensures !differ <==> other != 0 && Fold(StringOf(mem.cells, other), cs) == Fold(StringOf(mem.cells, name), cs)
    ensures !differ <==> other != 0 && SameKey(StringOf(mem.cells, other), StringOf(mem.cells, name), cs)
  {
    hide CString, Fold;
    if other == 0 {
      return true;
    }
    FoldKeys(StringOf(mem.cells, other), StringOf(mem.cells, name), cs);
    if cs {
      differ := CString(mem.cells[name].content) != CString(mem.cells[other].content);
    } else {
      var d := CaseCompare(mem, name, other);
      differ := d != 0;
    }
  }

  /** `cJSON_Compare`. */
  method CompareItems(mem: Memory, a: Ptr, b: Ptr, cs: bool, ghost s: Tree, ghost t: Tree) returns (r: bool)
    requires a != 0 ==> View(mem.cells, s) && a == s.ptr
    requires b != 0 ==> View(mem.cells, t) && b == t.ptr
    ensures r <==> a != 0 && b != 0 && Same(mem.cells, s, t, cs)
    decreases Size(s) + Size(t), 1
  {
    hide View, CompareDouble, CString, SameFrom, Subsumed;
    if a == 0 || b == 0 {
      return false;
    }
    ViewRoot(mem.cells, s);
    ViewRoot(mem.cells, t);
    var m, n := mem.cells[a].node, mem.cells[b].node;
    if m.kind != n.kind || m.kind == KInvalid {
      return false;
    }
    if a == b {
      return true;
    }
    match m.kind
    case KNumber =>
      r := CompareDouble(m.valuedouble, n.valuedouble);
    case KString =>
      r := m.text != 0 && n.text != 0 && CString(mem.cells[m.text].content) == CString(mem.cells[n.text].content);
    case KRaw =>
      r := m.text != 0 && n.text != 0 && CString(mem.cells[m.text].content) == CString(mem.cells[n.text].content);
    case KArray =>
      r := CompareElements(mem, m.child, n.child, cs, s, t);
    case KObject =>
      r := CompareMembers(mem, m.child, b, cs, s, t);
      if r {
        r := CompareMembers(mem, n.child, a, cs, t, s);
      }
    case _ =>
      r := true;
  }

  /** The array loop: both lists in step, to the end of both. */
  method CompareElements(mem: Memory, a: Ptr, b: Ptr, cs: bool, ghost s: Tree, ghost t: Tree) returns (r: bool)
    requires View(mem.cells, s) && View(mem.cells, t) && a == PtrAt(s.kids, 0) && b == PtrAt(t.kids, 0)
    ensures r <==> |s.kids| == |t.kids| && SameFrom(mem.cells, s.kids, t.kids, 0, cs)
    decreases Size(s) + Size(t), 0
  {
    hide View, Same, Size, SizeAll;
    ghost var h, i := mem.cells, 0;
    ViewRoot(h, s);
    ViewRoot(h, t);
    var x, y := a, b;
    while x != 0 && y != 0
      invariant i <= |s.kids| && i <= |t.kids| && x == PtrAt(s.kids, i) && y == PtrAt(t.kids, i)
      invariant |s.kids| == |t.kids| ==> SameFrom(h, s.kids, t.kids, 0, cs) == SameFrom(h, s.kids, t.kids, i, cs)
      decreases |s.kids| - i
    {
      PtrAtNull(h, s.kids, i);
      PtrAtNull(h, t.kids, i);
      KidOf(h, s, i);
      KidOf(h, t, i);
      var same := CompareItems(mem, x, y, cs, s.kids[i], t.kids[i]);
      if !same {
        return false;
      }
      x, y, i := mem.cells[x].node.next, mem.cells[y].node.next, i + 1;
    }
    PtrAtNull(h, s.kids, i);
    PtrAtNull(h, t.kids, i);
    r := x == y;
  }

  /** The search of one member decides its part of the inclusion. */
  lemma SubsumedStep(h: Cells, a: seq<Tree>, b: seq<Tree>, i: nat, cs: bool)
    requires i < |a|
    ensures Subsumed(h, a, b, i, cs) <==> FoundSame(h, a[i], b, cs) && Subsumed(h, a, b, i + 1, cs)
  {
    hide Same, Find;
  }

  /** One direction of the object loop: every member of one list is found in the other object. */
  method CompareMembers(mem: Memory, first: Ptr, other: Ptr, cs: bool, ghost s: Tree, ghost t: Tree) returns (r: bool)
    requires View(mem.cells, s) && View(mem.cells, t) && first == PtrAt(s.kids, 0) && other == t.ptr
    ensures r <==> Subsumed(mem.cells, s.kids, t.kids, 0, cs)
    decreases Size(s) + Size(t), 0
  {
    hide View, Same, Find, Fold, CString, Size, SizeAll, Subsumed;
    ghost var h, i := mem.cells, 0;
    ViewRoot(h, s);
    ViewRoot(h, t);
    var x := first;
    while x != 0
      invariant i <= |s.kids| && x == PtrAt(s.kids, i)
      invariant Subsumed(h, s.kids, t.kids, 0, cs) == Subsumed(h, s.kids, t.kids, i, cs)
      decreases |s.kids| - i
    {
      PtrAtNull(h, s.kids, i);
      KidOf(h, s, i);
      SubsumedStep(h, s.kids, t.kids, i, cs);
      var y;
      ghost var j;
      y, j := GetObjectItem(mem, other, mem.cells[x].node.name, cs, t);
      if y == 0 {
        return false;
      }
      KidOf(h, t, j);
      var same := CompareItems(mem, x, y, cs, s.kids[i], t.kids[j]);
      if !same {
        return false;
      }
      x, i := mem.cells[x].node.next, i + 1;
    }
    PtrAtNull(h, s.kids, i);
    SubsumedEnd(h, s.kids, t.kids, cs);
    r := true;
  }

  lemma SubsumedEnd(h: Cells, a: seq<Tree>, b: seq<Tree>, cs: bool)
    ensures Subsumed(h, a, b, |a|, cs)
  {
  }

  lemma {:induction false} PrintableInts(v: Json)
    requires Printable(v)
    ensures IntNumbers(v)
    decreases v, 1
  {
    match v {
      case Array(items) => PrintableIntItems(items);
      case Object(members) => PrintableIntMembers(members);
      case _ =>
    }
  }

  lemma {:induction false} PrintableIntItems(items: seq<Json>)
    requires PrintableItems(items)
    ensures forall i :: 0 <= i < |items| ==> IntNumbers(items[i])
    decreases items, 0
  {
    if items != [] {
      PrintableInts(items[0]);
      PrintableIntItems(items[1..]);
    }
  }

  lemma {:induction false} PrintableIntMembers(members: seq<Member>)
    requires PrintableMembers(members)
    ensures forall i :: 0 <= i < |members| ==> IntNumbers(members[i].value)
    decreases members, 0
  {
    if members != [] {
      PrintableInts(members[0].value);
      PrintableIntMembers(members[1..]);
    }
  }

  lemma {:induction false} RepNodes(h: Cells, c: Tree)
    requires Rep(h, c)
    ensures Nodes(c) <= Foot(c)
    decreases c
  {
    hide Shell, Chain;
    FootLive(h, c);
    forall i | 0 <= i < |c.kids| ensures Nodes(c.kids[i]) <= FootAll(c.kids) {
      RepNodes(h, c.kids[i]);
      FootAllIndex(c.kids, i);
    }
    NodesBound(c.kids, FootAll(c.kids));
  }

  /** A new sound tree of the same value, as the parser builds, compares equal to the old one exactly if
      the value is coherent. */
  lemma ParsedComparesEqual(h0: Cells, t: Tree, h: Cells, c: Tree, cs: bool)
    requires Fit(h0, t) && NewTree(h0, h, c) && Plain(h, c) && Sound(h, c) && Value(h, c) == Value(h0, t)
    ensures Same(h, t, c, cs) <==> Coherent(Value(h0, t), cs)
    ensures Same(h, c, t, cs) <==> Coherent(Value(h0, t), cs)
  {
    hide Rep, Sep, Foot, View, Value, Proper, Same, Norm, Coherent, IntNumbers, Nodes, Sound, Plain;
    PlainView(h, c);
    SoundProper(h, c);
    ViewExtends(h0, h, t);
    ProperExtends(h0, h, t);
    assert MemberOf(h, t).value == MemberOf(h0, t).value;
    RepNodes(h, c);
    ViewNodes(h0, t);
    ApartSwapped(t, c);
    SameExact(h, t, c, cs);
    SameExact(h, c, t, cs);
  }
}
