/** Broadcasts, single sends and the send loop of `sg-tcp.c` over one ring queue: which copies are
    queued, in which order, and in which order they leave. */
module BroadcastProtocol {
  import opened Bytes
  import opened ClientTables
  import opened RingBuffers
  import R = RingProtocol

  /** A queued message. `origin` records the broadcast it is a copy of, if it is one. */
  datatype Msg = Msg(fd: int, data: bytes, origin: Option<nat>)

  /** A broadcast and the table it started with. */
  datatype Broadcast = Broadcast(data: bytes, audience: seq<int>)

  /** Who holds `clients_mtx` between steps: a broadcast at entry `i`, perhaps inside `rb_push`. */
  datatype Owner = Nobody | Copying(i: nat, call: Option<nat>)

  datatype Server = Server(queue: R.State<Msg>, table: seq<int>, owner: Owner, broadcasts: seq<Broadcast>)

  datatype Step =
    | Begin(data: bytes)
    | Submit
    | Return
    | End
    | Accept(fd: int)
    | Cleanup(fd: int)
    | Queue(step: R.Step<Msg>)

  ghost predicate Init(s: Server) {
    R.Init(s.queue) && s.table == [] && s.owner == Nobody && s.broadcasts == []
  }

  /** The number of the latest broadcast, the one under way if there is one. */
  function Latest(s: Server): int {
    |s.broadcasts| - 1
  }

  ghost predicate Next(s: Server, s': Server, step: Step)
    requires Shaped(s.queue.ring)
  {
    match step
    case Begin(data) =>
      s.owner == Nobody && s' == s.(owner := Copying(0, None), broadcasts := s.broadcasts + [Broadcast(data, s.table)])
    case Submit =>
      && s.owner.Copying? && s.owner.call == None && s.owner.i < |s.table| && Latest(s) >= 0
      && R.Next(s.queue, s'.queue, R.Enter(R.Producer, Copy(s, s.owner.i), false))
      && s' == s.(queue := s'.queue, owner := Copying(s.owner.i, Some(|s.queue.calls|)))
    case Return =>
      && s.owner.Copying? && s.owner.call.Some? && s.owner.call.value < |s.queue.calls|
      && s.queue.calls[s.owner.call.value].phase.Done?
      && s' == s.(owner := Copying(s.owner.i + 1, None))
    case End =>
      s.owner.Copying? && s.owner.call == None && s.owner.i >= |s.table| && s' == s.(owner := Nobody)
    case Accept(fd) => s.owner == Nobody && s' == s.(table := s.table + [fd])
    case Cleanup(fd) => s.owner == Nobody && s' == s.(table := SwapRemoved(s.table, fd))
    case Queue(q) =>
      && (q.Enter? && q.role == R.Producer ==> q.item.origin == None)
      && R.Next(s.queue, s'.queue, q) && s' == s.(queue := s'.queue)
  }

  function Copy(s: Server, i: nat): Msg
    requires i < |s.table| && Latest(s) >= 0
  {
    Msg(s.table[i], s.broadcasts[Latest(s)].data, Some(Latest(s)))
  }

  // ---------------------------------------------------------------- invariant

  /** The clients a broadcast has queued a copy for, in queue order. */
  function Copies(items: seq<Msg>, b: nat): seq<int> {
    if items == [] then []
    else
      var m := items[|items| - 1];
      Copies(items[..|items| - 1], b) + if m.origin == Some(b) then [m.fd] else []
  }

  /** Copies of an earlier broadcast stand before copies of a later one. */
  ghost predicate InBroadcastOrder(items: seq<Msg>) {
    forall i, j :: 0 <= i < j < |items| && items[i].origin.Some? && items[j].origin.Some? ==>
      items[i].origin.value <= items[j].origin.value
  }

  ghost predicate OwnerOk(s: Server) {
    s.owner.Copying? ==>
      && Latest(s) >= 0 && s.owner.i <= |s.table| && s.broadcasts[Latest(s)].audience == s.table
      && (s.owner.call.Some? ==>
            && s.owner.i < |s.table| && s.owner.call.value < |s.queue.calls|
            && s.queue.calls[s.owner.call.value].role == R.Producer
            && !s.queue.calls[s.owner.call.value].timed
            && s.queue.calls[s.owner.call.value].item == Copy(s, s.owner.i))
  }

  /** A push of a copy has gone through, unless it is the one under way. */
  ghost predicate CallOk(s: Server, c: nat)
    requires c < |s.queue.calls|
  {
    var call := s.queue.calls[c];
    call.role == R.Producer && call.item.origin.Some? ==>
      && call.item.origin.value < |s.broadcasts|
      && call.item.data == s.broadcasts[call.item.origin.value].data
      && (call.phase == R.Done(true) || (s.owner.Copying? && s.owner.call == Some(c)))
  }

  /** How far a broadcast has got. */
  ghost function Reached(s: Server, b: nat): seq<int>
    requires b < |s.broadcasts|
  {
    var to := s.broadcasts[b].audience;
    if s.owner.Copying? && b == Latest(s) && s.owner.i <= |to| then
      if s.owner.call.Some? && s.owner.i < |to| && Through(s, s.owner.call.value) then to[..s.owner.i + 1]
      else to[..s.owner.i]
    else to
  }

  ghost predicate Through(s: Server, c: nat) {
    c < |s.queue.calls| && s.queue.calls[c].phase == R.Done(true)
  }

  ghost predicate CopiesOk(s: Server) {
    && (forall b :: 0 <= b < |s.broadcasts| ==> Copies(R.Items(s.queue.pushed), b) == Reached(s, b))
    && (forall b: nat :: b >= |s.broadcasts| ==> Copies(R.Items(s.queue.pushed), b) == [])
  }

  ghost predicate Inv(s: Server) {
    && R.Inv(s.queue) && OwnerOk(s) && CopiesOk(s)
    && (forall c :: 0 <= c < |s.queue.calls| ==> CallOk(s, c))
    && (forall i :: 0 <= i < |s.queue.pushed| && s.queue.pushed[i].item.origin.Some? ==>
          s.queue.pushed[i].item.origin.value < |s.broadcasts|)
    && InBroadcastOrder(R.Items(s.queue.pushed))
  }

  lemma CopiesPushed(log: seq<R.Entry<Msg>>, e: R.Entry<Msg>, b: nat)
    ensures R.Items(log + [e]) == R.Items(log) + [e.item]
    ensures Copies(R.Items(log + [e]), b) == Copies(R.Items(log), b) +
      if e.item.origin == Some(b) then [e.item.fd] else []
  {
    assert R.Items(log + [e])[..|log|] == R.Items(log);
  }

  lemma OrderPushed(items: seq<Msg>, m: Msg, last: int)
    requires InBroadcastOrder(items)
    requires forall i :: 0 <= i < |items| && items[i].origin.Some? ==> items[i].origin.value <= last
    requires m.origin.Some? ==> m.origin.value == last
    ensures InBroadcastOrder(items + [m])
  {
  }

  /** What a queue step means for the server, when it is not the owner's new push. */
  ghost predicate QueueStep(s: Server, s': Server, q: R.Step<Msg>) {
    && Shaped(s.queue.ring) && R.Next(s.queue, s'.queue, q) && s' == s.(queue := s'.queue)
    && (q.Enter? && q.role == R.Producer ==> q.item.origin == None)
  }

  lemma QueueCalls(s: Server, s': Server, q: R.Step<Msg>)
    requires Inv(s) && QueueStep(s, s', q)
    ensures OwnerOk(s') && forall c :: 0 <= c < |s'.queue.calls| ==> CallOk(s', c)
  {
    hide R.Inv, R.Next, R.Items, Copies, InBroadcastOrder, Shaped, R.Stores, CopiesOk;
    R.ProducerEffects(s.queue, s'.queue, q);
    forall c | 0 <= c < |s'.queue.calls| ensures CallOk(s', c) {
      if c < |s.queue.calls| {
        assert CallOk(s, c) && R.SameProducer(s.queue.calls[c], s'.queue.calls[c]);
      }
    }
  }

  /** Only the broadcast that holds the lock pushes a copy, and only its next one. */
  lemma StoredCopy(s: Server, s': Server, q: R.Step<Msg>)
    requires Inv(s) && QueueStep(s, s', q) && R.Stores(s.queue, q)
    ensures q.Run? && q.c < |s.queue.calls|
    ensures s.queue.calls[q.c].item.origin.Some? ==>
      s.owner.Copying? && s.owner.call == Some(q.c) && s.owner.i < |s.table|
    ensures s.queue.calls[q.c].item.origin.Some? ==> s.queue.calls[q.c].item == Copy(s, s.owner.i)
    ensures s.queue.calls[q.c].item.origin == None ==> !(s.owner.Copying? && s.owner.call == Some(q.c))
  {
    hide R.Inv, R.Next, R.Items, Copies, InBroadcastOrder, Shaped, CopiesOk;
    R.ProducerEffects(s.queue, s'.queue, q);
    assert CallOk(s, q.c);
  }

  lemma QueueCopies(s: Server, s': Server, q: R.Step<Msg>)
    requires Inv(s) && QueueStep(s, s', q)
    ensures CopiesOk(s')
  {
    hide R.Inv, R.Next, R.Items, Copies, InBroadcastOrder, Shaped, R.Stores;
    R.ProducerEffects(s.queue, s'.queue, q);
    if R.Stores(s.queue, q) {
      StoredCopy(s, s', q);
      var e := R.Entry(q.c, s.queue.calls[q.c].item);
      forall b: nat ensures Copies(R.Items(s'.queue.pushed), b) == if b < |s.broadcasts| then Reached(s', b) else [] {
        CopiesPushed(s.queue.pushed, e, b);
        if e.item.origin == Some(b) {
          var to, k := s.broadcasts[b].audience, s.owner.i;
          assert to[..k] + [to[k]] == to[..k + 1];
        }
      }
    } else {
      forall b | 0 <= b < |s.broadcasts| ensures Reached(s', b) == Reached(s, b) {
      }
    }
  }

  lemma QueueOrder(s: Server, s': Server, q: R.Step<Msg>)
    requires Inv(s) && QueueStep(s, s', q)
    ensures InBroadcastOrder(R.Items(s'.queue.pushed))
    ensures forall i :: 0 <= i < |s'.queue.pushed| && s'.queue.pushed[i].item.origin.Some? ==>
      s'.queue.pushed[i].item.origin.value < |s'.broadcasts|
  {
    hide R.Inv, R.Next, Copies, InBroadcastOrder, Shaped, R.Stores, CopiesOk;
    R.ProducerEffects(s.queue, s'.queue, q);
    if R.Stores(s.queue, q) {
      StoredCopy(s, s', q);
      var e := R.Entry(q.c, s.queue.calls[q.c].item);
      CopiesPushed(s.queue.pushed, e, 0);
      OrderPushed(R.Items(s.queue.pushed), e.item, Latest(s));
    }
  }

  /** A step of the queue, whoever makes it. */
  lemma QueuePreserves(s: Server, s': Server, q: R.Step<Msg>)
    requires Inv(s) && QueueStep(s, s', q)
    ensures Inv(s')
  {
    hide R.Next, R.Items, InBroadcastOrder, CopiesOk, OwnerOk, CallOk;
    R.NextPreserves(s.queue, s'.queue, q);
    QueueCalls(s, s', q);
    QueueCopies(s, s', q);
    QueueOrder(s, s', q);
  }

  lemma SubmitPreserves(s: Server, s': Server)
    requires Inv(s) && Shaped(s.queue.ring) && Next(s, s', Submit)
    ensures Inv(s')
  {
    hide R.Inv, R.Items, Copies, InBroadcastOrder;
    var q := R.Enter(R.Producer, Copy(s, s.owner.i), false);
    R.NextPreserves(s.queue, s'.queue, q);
    forall c | 0 <= c < |s'.queue.calls| ensures CallOk(s', c) {
      if c < |s.queue.calls| {
        assert CallOk(s, c);
      }
    }
    forall b | 0 <= b < |s.broadcasts| ensures Reached(s', b) == Reached(s, b) {
    }
  }

  lemma ReturnPreserves(s: Server, s': Server)
    requires Inv(s) && Shaped(s.queue.ring) && Next(s, s', Return)
    ensures Inv(s')
  {
    hide R.Items, Copies, InBroadcastOrder, R.Logged, R.NoLostWakeup, R.Fifo;
    forall c | 0 <= c < |s'.queue.calls| ensures CallOk(s', c) {
      assert CallOk(s, c);
    }
    forall b | 0 <= b < |s.broadcasts| ensures Reached(s', b) == Reached(s, b) {
    }
  }

  lemma BeginPreserves(s: Server, s': Server, data: bytes)
    requires Inv(s) && Shaped(s.queue.ring) && Next(s, s', Begin(data))
    ensures Inv(s')
  {
    hide R.Inv, R.Items, Copies, InBroadcastOrder;
    forall c | 0 <= c < |s'.queue.calls| ensures CallOk(s', c) {
      assert CallOk(s, c);
    }
    forall b | 0 <= b < |s.broadcasts| ensures Reached(s', b) == Reached(s, b) {
    }
  }

  /** Releasing the lock, and changing the table while nobody holds it. */
  lemma TablePreserves(s: Server, s': Server, step: Step)
    requires Inv(s) && Shaped(s.queue.ring) && Next(s, s', step) && (step.End? || step.Accept? || step.Cleanup?)
    ensures Inv(s')
  {
    hide R.Inv, R.Items, Copies, InBroadcastOrder, SwapRemoved;
    forall c | 0 <= c < |s'.queue.calls| ensures CallOk(s', c) {
      assert CallOk(s, c);
    }
    forall b | 0 <= b < |s.broadcasts| ensures Reached(s', b) == Reached(s, b) {
    }
  }

  lemma NextPreserves(s: Server, s': Server, step: Step)
    requires Inv(s) && Shaped(s.queue.ring) && Next(s, s', step)
    ensures Inv(s')
  {
    hide Inv;
    match step
    case Begin(data) => BeginPreserves(s, s', data);
    case Submit => SubmitPreserves(s, s');
    case Return => ReturnPreserves(s, s');
    case End => TablePreserves(s, s', step);
    case Accept(fd) => TablePreserves(s, s', step);
    case Cleanup(fd) => TablePreserves(s, s', step);
    case Queue(q) => QueuePreserves(s, s', q);
  }

  // ---------------------------------------------------------------- runs

  ghost predicate IsRun(run: seq<Server>, steps: seq<Step>) {
    && |run| == |steps| + 1 && Init(run[0])
    && forall i :: 0 <= i < |steps| ==> Shaped(run[i].queue.ring) ==> Next(run[i], run[i + 1], steps[i])
  }

  lemma InitInv(s: Server)
    requires Init(s)
    ensures Inv(s)
  {
    R.InitInv(s.queue);
  }

  lemma InvParts(s: Server)
    requires Inv(s)
    ensures R.Inv(s.queue) && Shaped(s.queue.ring) && CopiesOk(s) && InBroadcastOrder(R.Items(s.queue.pushed))
  {
  }

  lemma {:induction false} RunInv(run: seq<Server>, steps: seq<Step>, i: nat)
    requires IsRun(run, steps) && i < |run|
    ensures Inv(run[i])
  {
    hide Inv, Next;
    InitInv(run[0]);
    if i > 0 {
      RunInv(run, steps, i - 1);
      InvParts(run[i - 1]);
      NextPreserves(run[i - 1], run[i], steps[i - 1]);
    }
  }

  /** A finished broadcast has queued exactly one copy for every entry of the table it started with,
      in table order; the one under way has queued the copies of the entries it is past. */
  lemma OneCopyEach(run: seq<Server>, steps: seq<Step>, i: nat, b: nat)
    requires IsRun(run, steps) && i < |run| && b < |run[i].broadcasts|
    ensures var s, audience := run[i], run[i].broadcasts[b].audience;
      && Copies(R.Items(s.queue.pushed), b) <= audience
      && (s.owner == Nobody || b < Latest(s) ==> Copies(R.Items(s.queue.pushed), b) == audience)
  {
    hide Next, Copies, InBroadcastOrder, R.Inv;
    RunInv(run, steps, i);
    assert Copies(R.Items(run[i].queue.pushed), b) == Reached(run[i], b);
  }

  /** Every copy carries the bytes of its broadcast. */
  lemma CopiesCarryTheData(run: seq<Server>, steps: seq<Step>, i: nat, j: nat)
    requires IsRun(run, steps) && i < |run| && j < |run[i].queue.pushed| && run[i].queue.pushed[j].item.origin.Some?
    ensures var m := run[i].queue.pushed[j].item;
      m.origin.value < |run[i].broadcasts| && m.data == run[i].broadcasts[m.origin.value].data
  {
    hide Next, Copies, R.NoLostWakeup, R.Fifo, InBroadcastOrder, CopiesOk;
    RunInv(run, steps, i);
    var e := run[i].queue.pushed[j];
    assert run[i].queue.calls[e.call].item == e.item;
    assert CallOk(run[i], e.call);
  }

  /** Whatever single sends and other broadcasts come between: all copies of one broadcast are queued,
      and leave the queue, before all copies of the next. So every client gets broadcasts in the same
      order. */
  lemma SameOrderForAll(run: seq<Server>, steps: seq<Step>, i: nat, j: nat, k: nat)
    requires IsRun(run, steps) && i < |run|
    ensures var out := R.Items(run[i].queue.popped);
      && out <= R.Items(run[i].queue.pushed)
      && (&& j < |out| && k < |out| && out[j].origin.Some? && out[k].origin.Some?
          && out[j].origin.value < out[k].origin.value
          ==> j < k)
    ensures var all := R.Items(run[i].queue.pushed);
      && j < |all| && k < |all| && all[j].origin.Some? && all[k].origin.Some?
      && all[j].origin.value < all[k].origin.value
      ==> j < k
  {
    hide Next, Copies, R.Logged, R.NoLostWakeup, R.Items, Contents;
    RunInv(run, steps, i);
    var out, all := R.Items(run[i].queue.popped), R.Items(run[i].queue.pushed);
    assert InBroadcastOrder(all);
    if j < |out| {
      assert out[j] == all[j];
    }
    if k < |out| {
      assert out[k] == all[k];
    }
  }
}
