/** The list of bin-lift messages that wait for an acknowledgement in `sg-comm.c`: the spliced linked
    list, and the same operations on a sequence. */
module PendingList {
  import opened Bytes

  const TIMEOUT_SEC := 5
  const MAX_RETRIES := 3

  /** One pending message. `serial` is the number of the `add_pending` call it comes from. */
  datatype Pending = Pending(serial: nat, fd: int, msg: bytes, bincount: int, lastSent: int, retries: nat, acked: bool)

  /** What a sweep hands to `SgTcpServer_send`. */
  datatype Send = Send(fd: int, msg: bytes)

  /** The list without the messages of one client. */
  function Without(es: seq<Pending>, fd: int): seq<Pending> {
    if es == [] then []
    else if es[0].fd == fd then Without(es[1..], fd)
    else [es[0]] + Without(es[1..], fd)
  }

  function Added(es: seq<Pending>, serial: nat, fd: int, msg: bytes, bincount: int, now: int): seq<Pending> {
    [Pending(serial, fd, msg, bincount, now, 0, false)] + Without(es, fd)
  }

  predicate Finished(e: Pending) {
    e.acked || e.retries >= MAX_RETRIES
  }

  predicate Due(e: Pending, now: int) {
    !Finished(e) && now - e.lastSent >= TIMEOUT_SEC
  }

  function Touched(e: Pending, now: int): Pending {
    if Due(e, now) then e.(lastSent := now, retries := e.retries + 1) else e
  }

  /** What a sweep leaves. */
  function Swept(es: seq<Pending>, now: int): seq<Pending> {
    if es == [] then []
    else (if Finished(es[0]) then [] else [Touched(es[0], now)]) + Swept(es[1..], now)
  }

  /** What a sweep sends again, in list order. */
  function Sends(es: seq<Pending>, now: int): seq<Send> {
    if es == [] then []
    else (if Due(es[0], now) then [Send(es[0].fd, es[0].msg)] else []) + Sends(es[1..], now)
  }

  predicate Matches(e: Pending, fd: int, bincount: int) {
    e.fd == fd && e.bincount == bincount
  }

  /** The first match is marked, and only that one. */
  function Marked(es: seq<Pending>, fd: int, bincount: int): seq<Pending> {
    if es == [] then []
    else if Matches(es[0], fd, bincount) then [es[0].(acked := true)] + es[1..]
    else [es[0]] + Marked(es[1..], fd, bincount)
  }

  /** The entry at `i` is the first that waits for this acknowledgement. */
  predicate Answered(es: seq<Pending>, fd: int, bincount: int, i: nat)
    requires i < |es|
  {
    && es[i].fd == fd && es[i].bincount == bincount
    && forall j :: 0 <= j < i ==> es[j].fd != fd || es[j].bincount != bincount
  }

  lemma {:induction false} MarkedAt(es: seq<Pending>, fd: int, bincount: int)
    ensures |Marked(es, fd, bincount)| == |es|
    ensures forall i :: 0 <= i < |es| ==>
      Marked(es, fd, bincount)[i] == if Answered(es, fd, bincount, i) then es[i].(acked := true) else es[i]
  {
    if es != [] && !Matches(es[0], fd, bincount) {
      MarkedAt(es[1..], fd, bincount);
      forall i | 0 < i < |es| ensures Answered(es, fd, bincount, i) <==> Answered(es[1..], fd, bincount, i - 1) {
        assert forall j :: 0 < j < i ==> es[j] == es[1..][j - 1];
        assert forall j :: 0 <= j < i - 1 ==> es[1..][j] == es[j + 1];
      }
    }
  }

  // ---------------------------------------------------------------- the linked list

  class PendingAck {
    var clientFd: int
    var msg: bytes
    var bincount: int
    var lastSent: int
    var retries: nat
    var acked: bool
    var next: PendingAck?
    ghost var serial: nat

    constructor (fd: int, str: bytes, bincount: int, now: int, ghost serial: nat)
      ensures Entry() == Pending(serial, fd, CString(str), bincount, now, 0, false) && next == null
    {
      clientFd, msg, this.bincount, lastSent := fd, CString(str), bincount, now;
      retries, acked, next := 0, false, null;
      this.serial := serial;
    }

    ghost function Entry(): Pending
      reads `serial, `clientFd, `msg, `bincount, `lastSent, `retries, `acked
    {
      Pending(serial, clientFd, msg, bincount, lastSent, retries, acked)
    }
  }

  ghost function Entries(ns: seq<PendingAck>): (r: seq<Pending>)
    reads ns`serial, ns`clientFd, ns`msg, ns`bincount, ns`lastSent, ns`retries, ns`acked
    ensures |r| == |ns|
  {
    if ns == [] then [] else [ns[0].Entry()] + Entries(ns[1..])
  }

  lemma {:induction false} EntriesAre(ns: seq<PendingAck>, es: seq<Pending>)
    requires |es| == |ns|
    ensures Entries(ns) == es <==> forall k :: 0 <= k < |ns| ==> ns[k].Entry() == es[k]
  {
    if ns != [] {
      EntriesAre(ns[1..], es[1..]);
      assert es == [es[0]] + es[1..];
      if Entries(ns) == es {
        assert Entries(ns)[1..] == Entries(ns[1..]);
        forall k | 0 <= k < |ns| ensures ns[k].Entry() == es[k] {
          if k > 0 {
            assert ns[1..][k - 1].Entry() == es[1..][k - 1];
          }
        }
      }
    }
  }

  ghost function NodeAt(ns: seq<PendingAck>, i: nat): PendingAck? {
    if i < |ns| then ns[i] else null
  }

  /** The nodes form a `next` chain that ends in NULL. */
  ghost predicate Linked(ns: seq<PendingAck>)
    reads ns`next
  {
    forall i :: 0 <= i < |ns| ==> ns[i].next == NodeAt(ns, i + 1)
  }

  ghost predicate Distinct(ns: seq<PendingAck>) {
    forall i, j :: 0 <= i < j < |ns| ==> ns[i] != ns[j]
  }

  ghost function Cut(ns: seq<PendingAck>, i: nat): (r: seq<PendingAck>)
    requires i < |ns|
    ensures |r| == |ns| - 1
    ensures forall k :: 0 <= k < |r| ==> r[k] == if k < i then ns[k] else ns[k + 1]
  {
    ns[..i] + ns[i + 1..]
  }

  /** All nodes are among those of a set. */
  ghost predicate Within(ns: seq<PendingAck>, all: set<PendingAck>) {
    forall k :: 0 <= k < |ns| ==> ns[k] in all
  }

  lemma WithinSelf(ns: seq<PendingAck>)
    ensures Within(ns, set n | n in ns)
  {
  }

  lemma WithinNext(ns: seq<PendingAck>, i: nat, all: set<PendingAck>)
    requires Within(ns, all)
    ensures i + 1 < |ns| ==> ns[i + 1] in all
  {
  }

  lemma WithinNot(ns: seq<PendingAck>, all: set<PendingAck>, p: PendingAck)
    requires Within(ns, all) && p !in all
    ensures p !in ns
  {
  }

  lemma CutWithin(ns: seq<PendingAck>, i: nat, all: set<PendingAck>)
    requires Within(ns, all) && i < |ns|
    ensures Within(Cut(ns, i), all)
  {
  }

  lemma CutDistinct(ns: seq<PendingAck>, i: nat)
    requires Distinct(ns) && i < |ns|
    ensures Distinct(Cut(ns, i)) && forall n :: n in Cut(ns, i) ==> n in ns
    ensures forall k :: 0 <= k < |ns| && k != i ==> ns[k] != ns[i]
  {
  }

  lemma LinkedAt(ns: seq<PendingAck>)
    requires Linked(ns)
    ensures forall k :: 0 <= k < |ns| ==> ns[k].next == NodeAt(ns, k + 1)
  {
  }

  lemma CutLinked(ns: seq<PendingAck>, i: nat)
    requires i < |ns|
    requires forall k :: 0 <= k < |ns| ==> ns[k].next == NodeAt(ns, if k == i - 1 then k + 2 else k + 1)
    ensures Linked(Cut(ns, i))
  {
    var r := Cut(ns, i);
    forall k | 0 <= k < |r| ensures r[k].next == NodeAt(r, k + 1) {
      assert r[k] == if k < i then ns[k] else ns[k + 1];
    }
  }

  lemma CutEntries(ns: seq<PendingAck>, i: nat, es: seq<Pending>)
    requires i < |ns| == |es| && Entries(ns) == es
    ensures Entries(Cut(ns, i)) == es[..i] + es[i + 1..]
  {
    hide Entries;
    EntriesAre(ns, es);
    EntriesAre(Cut(ns, i), es[..i] + es[i + 1..]);
  }

  lemma Prepend(ns: seq<PendingAck>, p: PendingAck)
    requires Linked(ns) && Distinct(ns) && p !in ns && p.next == NodeAt(ns, 0)
    ensures Linked([p] + ns) && Distinct([p] + ns) && Entries([p] + ns) == [p.Entry()] + Entries(ns)
  {
    assert ([p] + ns)[1..] == ns;
  }

  /** `pending_head`, always read and written with `pending_mtx` held. */
  class AckList {
    var head: PendingAck?
    ghost var nodes: seq<PendingAck>

    ghost predicate Valid()
      reads this, nodes
    {
      head == NodeAt(nodes, 0) && Linked(nodes) && Distinct(nodes)
    }

    ghost function List(): seq<Pending>
      reads this, nodes
    {
      Entries(nodes)
    }

    /** The node at `i` on its way along the list. */
    lemma Walk(i: nat)
      requires Valid() && i < |nodes|
      ensures nodes[i].next == NodeAt(nodes, i + 1) && nodes[i].Entry() == List()[i]
      ensures forall k :: 0 <= k < |nodes| && k != i ==> nodes[k] != nodes[i]
      ensures forall all: set<PendingAck> :: Within(nodes, all) ==>
        nodes[i] in all && (i + 1 < |nodes| ==> nodes[i + 1] in all)
    {
      hide Entries;
      EntriesAre(nodes, List());
    }

    /** The node at `i` is overwritten. */
    lemma Overwritten(ns: seq<PendingAck>, es: seq<Pending>, i: nat, e: Pending)
      requires i < |ns| == |es| && ns[i].Entry() == e && forall k :: 0 <= k < |ns| && k != i ==> ns[k].Entry() == es[k]
      ensures Entries(ns) == es[i := e]
    {
      hide Entries;
      EntriesAre(ns, es[i := e]);
    }

    constructor ()
      ensures Valid() && List() == []
    {
      head, nodes := null, [];
    }

    /** The write through the pointer to pointer: `pp` is the `next` field of the node `prev`, or the
        list head where there is none. It takes the node at `i` out. */
    method Splice(prev: PendingAck?, cur: PendingAck, ghost i: nat)
      requires Valid() && cur == NodeAt(nodes, i) && prev == (if i == 0 then null else NodeAt(nodes, i - 1))
      modifies this, if prev == null then {} else {prev}`next
      ensures Valid() && i < |old(nodes)| && |nodes| == |old(nodes)| - 1
      ensures NodeAt(nodes, i) == old(NodeAt(nodes, i + 1))
      ensures i > 0 ==> NodeAt(nodes, i - 1) == old(NodeAt(nodes, i - 1))
      ensures forall all: set<PendingAck> :: Within(old(nodes), all) ==> Within(nodes, all)
      ensures List()[..i] == old(List())[..i] && List()[i..] == old(List())[i + 1..]
    {
      hide Distinct, Cut, Linked, Entries, Within;
      ghost var ns, es := nodes, List();
      CutDistinct(ns, i);
      if i > 0 {
        CutDistinct(ns, i - 1);
      }
      LinkedAt(ns);
      if prev == null {
        head := cur.next;
      } else {
        prev.next := cur.next;
      }
      nodes := Cut(ns, i);
      forall all: set<PendingAck> | Within(ns, all) ensures Within(Cut(ns, i), all) {
        CutWithin(ns, i, all);
      }
      assert Linked(Cut(ns, i)) by { CutLinked(ns, i); }
      assert Entries(Cut(ns, i)) == es[..i] + es[i + 1..] by { CutEntries(ns, i, es); }
    }

    /** The first part of `add_pending`: the messages of a client leave the list. */
    method RemoveClient(fd: int)
      requires Valid()
      modifies this, nodes`next
      ensures Valid() && List() == Without(old(List()), fd) && Within(nodes, set n | n in old(nodes))
    {
      hide Without, Linked, Distinct, Entries, Within;
      var prev: PendingAck?, cur := null, head;
      ghost var es, i, all := List(), 0, set n | n in nodes;
      WithinSelf(nodes);
      while cur != null
        invariant Valid() && i <= |nodes| && cur == NodeAt(nodes, i)
        invariant prev == (if i == 0 then null else NodeAt(nodes, i - 1))
        invariant (prev != null ==> prev in all) && (cur != null ==> cur in all) && Within(nodes, all)
        invariant Without(es, fd) == List()[..i] + Without(List()[i..], fd)
        decreases |nodes| - i
      {
        Walk(i);
        WithoutStep(List(), i, fd);
        if cur.clientFd == fd {
          var next := cur.next;
          Splice(prev, cur, i);
          cur := next;
        } else {
          prev := cur;
          cur := cur.next;
          i := i + 1;
        }
      }
      WithoutEnd(List(), i, fd);
    }

    /** `add_pending`, with the clock reading and the message number as arguments. */
    method Add(fd: int, str: bytes, bincount: int, now: int, ghost serial: nat)
      requires Valid()
      modifies this, nodes`next
      ensures Valid() && List() == Added(old(List()), serial, fd, CString(str), bincount, now)
    {
      hide CString, Without, Linked, Distinct, Entries, Within;
      var p := new PendingAck(fd, str, bincount, now, serial);
      RemoveClient(fd);
      WithinNot(nodes, (set n | n in old(nodes)), p);
      p.next := head;
      Prepend(nodes, p);
      head := p;
      nodes := [p] + nodes;
    }

    /** What a sweep does with a node it keeps. */
    method Resend(cur: PendingAck, now: int, ghost i: nat) returns (sent: seq<Send>)
      requires Valid() && cur == NodeAt(nodes, i) && !cur.acked && cur.retries < MAX_RETRIES
      modifies cur`lastSent, cur`retries
      ensures Valid() && List() == old(List())[i := Touched(old(List())[i], now)]
      ensures sent == if Due(old(List())[i], now) then [Send(old(List())[i].fd, old(List())[i].msg)] else []
    {
      hide Linked, Distinct, Entries;
      ghost var before := List();
      Walk(i);
      EntriesAre(nodes, before);
      sent := [];
      if now - cur.lastSent >= TIMEOUT_SEC {
        sent := [Send(cur.clientFd, cur.msg)];
        cur.lastSent := now;
        cur.retries := cur.retries + 1;
      }
      Overwritten(nodes, before, i, Touched(before[i], now));
    }

    /** One turn of the sweep: the node goes, or is sent again if it is due, or stays. */
    method SweepNode(prev: PendingAck?, cur: PendingAck, now: int, ghost i: nat)
      returns (kept: bool, next: PendingAck?, sent: seq<Send>)
      requires Valid() && cur == NodeAt(nodes, i) && prev == (if i == 0 then null else NodeAt(nodes, i - 1))
      modifies this, if prev == null then {} else {prev}`next, cur`lastSent, cur`retries
      ensures Valid() && next == old(NodeAt(nodes, i + 1)) && kept == !Finished(old(List())[i])
      ensures kept ==> nodes == old(nodes) && i < |nodes|
      ensures !kept ==> NodeAt(nodes, i) == next && i <= |nodes| && |nodes| < |old(nodes)|
      ensures !kept && i > 0 ==> NodeAt(nodes, i - 1) == prev
      ensures forall all: set<PendingAck> :: Within(old(nodes), all) ==>
        Within(nodes, all) && (next != null ==> next in all)
      ensures var done := if kept then i + 1 else i;
        && List()[..done] == old(List())[..i] + (if kept then [Touched(old(List())[i], now)] else [])
        && List()[done..] == old(List())[i + 1..]
      ensures sent == if Due(old(List())[i], now) then [Send(old(List())[i].fd, old(List())[i].msg)] else []
    {
      hide Linked, Distinct, Entries, Within;
      ghost var ns := nodes;
      Walk(i);
      next := cur.next;
      assert next != null ==> i + 1 < |ns| && next == ns[i + 1];
      if cur.acked || cur.retries >= MAX_RETRIES {
        Splice(prev, cur, i);
        kept, sent := false, [];
      } else {
        sent := Resend(cur, now, i);
        kept := true;
      }
      forall all: set<PendingAck> | Within(ns, all) ensures Within(nodes, all) && (next != null ==> next in all) {
        WithinNext(ns, i, all);
      }
    }

    /** One sweep of `ack_manager` at the clock reading `now`; `sent` is what goes to the queue. */
    method Sweep(now: int) returns (sent: seq<Send>)
      requires Valid()
      modifies this, nodes
      ensures Valid() && List() == Swept(old(List()), now) && sent == Sends(old(List()), now)
      ensures Within(nodes, set n | n in old(nodes))
    {
      hide Swept, Sends, Linked, Distinct, Entries, Within, Finished, Touched, Due;
      var prev: PendingAck?, cur := null, head;
      ghost var es, i, all := List(), 0, set n | n in nodes;
      sent := [];
      WithinSelf(nodes);
      while cur != null
        invariant Valid() && i <= |nodes| && cur == NodeAt(nodes, i)
        invariant prev == (if i == 0 then null else NodeAt(nodes, i - 1))
        invariant (prev != null ==> prev in all) && (cur != null ==> cur in all) && Within(nodes, all)
        invariant Swept(es, now) == List()[..i] + Swept(List()[i..], now)
        invariant Sends(es, now) == sent + Sends(List()[i..], now)
        decreases |nodes| - i
      {
        SweptStep(List(), i, now);
        var kept, next, again := SweepNode(prev, cur, now, i);
        sent := sent + again;
        if kept {
          prev := cur;
          i := i + 1;
        }
        cur := next;
      }
      SweptEnd(List(), i, now);
    }

    /** The list walk of `bin_ack_handler`. */
    method Ack(fd: int, bincount: int)
      requires Valid()
      modifies nodes
      ensures Valid() && nodes == old(nodes) && List() == Marked(old(List()), fd, bincount)
      ensures |List()| == |old(List())|
      ensures forall i :: 0 <= i < |List()| ==>
        List()[i] == if Answered(old(List()), fd, bincount, i) then old(List())[i].(acked := true) else old(List())[i]
    {
      hide Marked, Linked, Distinct, Entries, Answered;
      MarkedAt(List(), fd, bincount);
      var p := head;
      ghost var es, i := List(), 0;
      while p != null
        invariant i <= |nodes| && p == NodeAt(nodes, i) && Valid() && List() == es
        invariant Marked(es, fd, bincount) == es[..i] + Marked(es[i..], fd, bincount)
        decreases |nodes| - i
      {
        Walk(i);
        EntriesAre(nodes, es);
        MarkedStep(es, i, fd, bincount);
        if p.clientFd == fd && p.bincount == bincount {
          p.acked := true;
          Overwritten(nodes, es, i, es[i].(acked := true));
          return;
        }
        p := p.next;
        i := i + 1;
      }
      MarkedEnd(es, i, fd, bincount);
    }
  }

  // ---------------------------------------------------------------- the loops, one step at a time

  lemma WithoutStep(es: seq<Pending>, i: nat, fd: int)
    requires i < |es|
    ensures es[i].fd == fd ==> es[..i] + Without(es[i..], fd) == es[..i] + Without(es[i + 1..], fd)
    ensures es[i].fd != fd ==> es[..i] + Without(es[i..], fd) == es[..i + 1] + Without(es[i + 1..], fd)
  {
    assert es[i..][1..] == es[i + 1..];
  }

  lemma WithoutEnd(es: seq<Pending>, i: nat, fd: int)
    requires i == |es|
    ensures es[..i] + Without(es[i..], fd) == es
  {
  }

  lemma SweptStep(es: seq<Pending>, i: nat, now: int)
    requires i < |es|
    ensures Swept(es[i..], now) == (if Finished(es[i]) then [] else [Touched(es[i], now)]) + Swept(es[i + 1..], now)
    ensures Sends(es[i..], now)
      == (if Due(es[i], now) then [Send(es[i].fd, es[i].msg)] else []) + Sends(es[i + 1..], now)
  {
    assert es[i..][1..] == es[i + 1..];
  }

  lemma SweptEnd(es: seq<Pending>, i: nat, now: int)
    requires i == |es|
    ensures es[..i] + Swept(es[i..], now) == es && Sends(es[i..], now) == []
  {
  }

  lemma MarkedStep(es: seq<Pending>, i: nat, fd: int, bincount: int)
    requires i < |es|
    ensures Matches(es[i], fd, bincount) ==> es[..i] + Marked(es[i..], fd, bincount) == es[i := es[i].(acked := true)]
    ensures !Matches(es[i], fd, bincount) ==>
      es[..i] + Marked(es[i..], fd, bincount) == es[..i + 1] + Marked(es[i + 1..], fd, bincount)
  {
    assert es[i..][1..] == es[i + 1..];
  }

  lemma MarkedEnd(es: seq<Pending>, i: nat, fd: int, bincount: int)
    requires i == |es|
    ensures es[..i] + Marked(es[i..], fd, bincount) == es
  {
  }
}
