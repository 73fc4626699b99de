/** Broadcasts and sweeps together: when a client is queued an older bin lift behind a newer one. */
module DeliveryOrder {
  import opened Bytes
  import opened PendingList
  import A = AckProtocol

  // The callback of a lift broadcasts the message and only then makes it the pending one of every
  // client; a sweep in between sends an older message again, behind the newer one.

  /** A queued message: for which client, of which lift, and whether a sweep has sent it again. */
  datatype Copy = Copy(fd: int, lift: nat, msg: bytes, again: bool)

  /** Where the callback stands: in `SgTcpServer_broadcast` at an entry of the table, before
      `SgTcpServer_get_clients`, or in its loop of `add_pending` calls. */
  datatype Callback = Idle | Copying(i: nat) | Listing | Adding(clients: seq<int>, i: nat)

  /** The pending list with its history, the lift of every `add_pending` call, the queue as a log of
      pushes, the messages of all lifts, the callback, what a sweep under way has still to push, and the
      client table. */
  datatype Desk = Desk(ack: A.State, lifts: seq<nat>, queue: seq<Copy>, messages: seq<bytes>,
                       callback: Callback, sweep: Option<seq<Copy>>, table: seq<int>)

  datatype Step =
    | Lift(msg: bytes)
    | CopyNext
    | CopiesDone
    | List
    | ListFailed
    | AddNext(bincount: int, at: int)
    | AddsDone
    | Table(clients: seq<int>)
    | SweepBegin(now: int)
    | SweepPush
    | SweepEnd
    | Acked(fd: int, bincount: int)

  const START := Desk(A.START, [], [], [], Idle, None, [])

  /** The two locks: the table is locked while a broadcast copies, the pending list while a sweep
      pushes. There is one callback at a time. */
  predicate Enabled(s: Desk, step: Step) {
    match step
    case Lift(_) => s.callback.Idle?
    case CopyNext => s.callback.Copying? && s.callback.i < |s.table| && s.messages != []
    case CopiesDone => s.callback.Copying? && s.callback.i >= |s.table|
    case List => s.callback.Listing?
    case ListFailed => s.callback.Listing?
    case AddNext(_, _) =>
      s.callback.Adding? && s.callback.i < |s.callback.clients| && s.messages != [] && s.sweep == None
    case AddsDone => s.callback.Adding? && s.callback.i >= |s.callback.clients|
    case Table(_) => !s.callback.Copying?
    case SweepBegin(_) => s.sweep == None
    case SweepPush => s.sweep.Some? && s.sweep.value != []
    case SweepEnd => s.sweep == Some([])
    case Acked(_, _) => s.sweep == None
  }

  /** The copies a sweep makes of the messages it finds due. */
  function Again(es: seq<Pending>, now: int, lifts: seq<nat>): seq<Copy> {
    if es == [] then []
    else
      (if Due(es[0], now) && es[0].serial < |lifts| then [Copy(es[0].fd, lifts[es[0].serial], es[0].msg, true)] else [])
      + Again(es[1..], now, lifts)
  }

  function Apply(s: Desk, step: Step): Desk
    requires Enabled(s, step)
  {
    match step
    case Lift(msg) => s.(messages := s.messages + [msg], callback := Copying(0))
    case CopyNext =>
      s.(queue := s.queue + [Copy(s.table[s.callback.i], |s.messages| - 1, s.messages[|s.messages| - 1], false)],
        callback := Copying(s.callback.i + 1))
    case CopiesDone => s.(callback := Listing)
    case List => s.(callback := Adding(s.table, 0))
    case ListFailed => s.(callback := Idle)
    case AddNext(bincount, at) =>
      s.(ack := A.Apply(s.ack, A.Add(s.callback.clients[s.callback.i], s.messages[|s.messages| - 1], bincount, at)),
        lifts := s.lifts + [|s.messages| - 1], callback := Adding(s.callback.clients, s.callback.i + 1))
    case AddsDone => s.(callback := Idle)
    case Table(clients) => s.(table := clients)
    case SweepBegin(now) =>
      s.(ack := A.Apply(s.ack, A.Sweep(now)), sweep := Some(Again(s.ack.list, now, s.lifts)))
    case SweepPush => s.(queue := s.queue + [s.sweep.value[0]], sweep := Some(s.sweep.value[1..]))
    case SweepEnd => s.(sweep := None)
    case Acked(fd, bincount) => s.(ack := A.Apply(s.ack, A.Ack(fd, bincount)))
  }

  ghost predicate Leads(s: Desk, step: Step, t: Desk) {
    Enabled(s, step) && t == Apply(s, step)
  }

  /** A run from the start: every step is possible when it is made. */
  ghost predicate IsRun(run: seq<Desk>, steps: seq<Step>) {
    && |run| == |steps| + 1 && run[0] == START
    && forall k :: 0 <= k < |steps| ==> Leads(run[k], steps[k], run[k + 1])
  }

  // ---------------------------------------------------------------- the parts

  /** What a step does to the pending list. */
  function ListStep(s: Desk, step: Step): seq<A.Step>
    requires Enabled(s, step)
  {
    match step
    case AddNext(bincount, at) =>
      [A.Add(s.callback.clients[s.callback.i], s.messages[|s.messages| - 1], bincount, at)]
    case SweepBegin(now) => [A.Sweep(now)]
    case Acked(fd, bincount) => [A.Ack(fd, bincount)]
    case _ => []
  }

  ghost function ListSteps(run: seq<Desk>, steps: seq<Step>, n: nat): seq<A.Step>
    requires IsRun(run, steps) && n < |run|
  {
    if n == 0 then []
    else
      assert Leads(run[n - 1], steps[n - 1], run[n - 1 + 1]);
      ListSteps(run, steps, n - 1) + ListStep(run[n - 1], steps[n - 1])
  }

  /** The pending list goes through a run of its own protocol, whose theorems so hold here. */
  lemma {:induction false} ListRuns(run: seq<Desk>, steps: seq<Step>, n: nat)
    requires IsRun(run, steps) && n < |run|
    ensures run[n].ack == A.Run(A.START, ListSteps(run, steps, n))
    decreases n
  {
    hide Apply, ListStep, A.Apply, Again, A.Run;
    if n == 0 {
      A.NoSteps(A.START);
    } else {
      assert Leads(run[n - 1], steps[n - 1], run[n - 1 + 1]);
      ListRuns(run, steps, n - 1);
      ListStepIs(run[n - 1], steps[n - 1]);
      var front, last := ListSteps(run, steps, n - 1), ListStep(run[n - 1], steps[n - 1]);
      if last == [] {
        assert front + last == front;
      } else {
        A.OneStep(A.START, front, last[0]);
        assert front + last == front + [last[0]];
      }
    }
  }

  lemma ListStepIs(s: Desk, step: Step)
    requires Enabled(s, step)
    ensures |ListStep(s, step)| <= 1
    ensures Apply(s, step).ack == if ListStep(s, step) == [] then s.ack else A.Apply(s.ack, ListStep(s, step)[0])
  {
    hide A.Apply, Again;
  }

  /** A sweep pushes what it hands to `SgTcpServer_send`, in list order. */
  lemma {:induction false} AgainIsSent(es: seq<Pending>, now: int, lifts: seq<nat>)
    requires forall e :: e in es ==> e.serial < |lifts|
    ensures var rs, ss := Again(es, now, lifts), Sends(es, now);
      |rs| == |ss| && forall i :: 0 <= i < |rs| ==> rs[i].again && Send(rs[i].fd, rs[i].msg) == ss[i]
  {
    if es != [] {
      assert es[0] in es;
      AgainIsSent(es[1..], now, lifts);
    }
  }

  // ---------------------------------------------------------------- order

  /** No client is queued an older lift behind a newer one. */
  ghost predicate InLiftOrder(queue: seq<Copy>) {
    forall i, j :: 0 <= i < j < |queue| && queue[i].fd == queue[j].fd ==> queue[i].lift <= queue[j].lift
  }

  /** The next push of the sweep comes too late: a broadcast has queued a newer lift for the client. */
  ghost predicate Overtaken(s: Desk) {
    && s.sweep.Some? && s.sweep.value != []
    && exists c :: c in s.queue && !c.again && c.fd == s.sweep.value[0].fd && c.lift > s.sweep.value[0].lift
  }

  /** What a copy in the queue or in a sweep says about the pending message of the same client. */
  ghost predicate NotNewer(c: Copy, s: Desk) {
    forall e :: e in s.ack.list && e.fd == c.fd ==> e.serial < |s.lifts| && c.lift <= s.lifts[e.serial]
  }

  ghost predicate LiftsOk(s: Desk) {
    && A.Inv(s.ack) && |s.lifts| == s.ack.count
    && (s.lifts != [] ==> s.messages != [])
    && (forall n :: 0 <= n < |s.lifts| ==> s.lifts[n] < |s.messages|)
    && (s.callback.Copying? || s.callback.Adding? || s.callback.Listing? ==> s.messages != [])
  }

  ghost predicate QueueOk(s: Desk) {
    && (forall c :: c in s.queue ==> c.lift < |s.messages| && (c.again ==> NotNewer(c, s)))
    && (forall i, j :: 0 <= i < j < |s.queue| && s.queue[i].again && s.queue[j].again && s.queue[i].fd == s.queue[j].fd
          ==> s.queue[i].lift <= s.queue[j].lift)
  }

  ghost predicate ClientsDiffer(rs: seq<Copy>) {
    forall i, j :: 0 <= i < j < |rs| ==> rs[i].fd != rs[j].fd
  }

  ghost predicate SweepOk(s: Desk) {
    s.sweep.Some? ==>
      && (forall r :: r in s.sweep.value ==> r.again && r.lift < |s.messages| && NotNewer(r, s))
      && ClientsDiffer(s.sweep.value)
      && (forall c, r :: c in s.queue && c.again && r in s.sweep.value && c.fd == r.fd ==> c.lift <= r.lift)
  }

  ghost predicate Inv(s: Desk) {
    LiftsOk(s) && QueueOk(s) && SweepOk(s)
  }

  // ---------------------------------------------------------------- every step keeps the invariant

  /** Every listed message was listed before, or is the newest there can be. */
  ghost predicate Follows(s: Desk, s': Desk) {
    && s.lifts <= s'.lifts && |s.messages| <= |s'.messages|
    && forall e :: e in s'.ack.list ==>
         || (e.serial < |s'.lifts| && s'.lifts[e.serial] + 1 == |s'.messages|)
         || (exists o :: o in s.ack.list && o.fd == e.fd && o.serial == e.serial)
  }

  lemma StillNotNewer(c: Copy, s: Desk, s': Desk)
    requires NotNewer(c, s) && Follows(s, s') && c.lift < |s.messages|
    ensures NotNewer(c, s')
  {
    forall e | e in s'.ack.list && e.fd == c.fd ensures e.serial < |s'.lifts| && c.lift <= s'.lifts[e.serial] {
      if !(e.serial < |s'.lifts| && s'.lifts[e.serial] + 1 == |s'.messages|) {
        var o :| o in s.ack.list && o.fd == e.fd && o.serial == e.serial;
        assert s'.lifts[o.serial] == s.lifts[o.serial];
      }
    }
  }

  lemma AddFollows(s: Desk, bincount: int, at: int)
    requires LiftsOk(s) && Enabled(s, AddNext(bincount, at))
    ensures Follows(s, Apply(s, AddNext(bincount, at))) && LiftsOk(Apply(s, AddNext(bincount, at)))
  {
    hide A.Inv;
    var fd, msg := s.callback.clients[s.callback.i], s.messages[|s.messages| - 1];
    A.StepPreserves(s.ack, A.Add(fd, msg, bincount, at));
    A.WithoutFrom(s.ack.list, fd);
  }

  lemma SweepFollows(s: Desk, now: int)
    requires LiftsOk(s) && Enabled(s, SweepBegin(now))
    ensures Follows(s, Apply(s, SweepBegin(now))) && LiftsOk(Apply(s, SweepBegin(now)))
  {
    hide A.Inv, Again;
    A.StepPreserves(s.ack, A.Sweep(now));
    A.SweptFrom(s.ack.list, now);
  }

  lemma AckFollows(s: Desk, fd: int, bincount: int)
    requires LiftsOk(s) && Enabled(s, Acked(fd, bincount))
    ensures Follows(s, Apply(s, Acked(fd, bincount))) && LiftsOk(Apply(s, Acked(fd, bincount)))
  {
    hide A.Inv;
    A.StepPreserves(s.ack, A.Ack(fd, bincount));
    A.RunDistinct(s.ack);
    A.MarkedAll(s.ack.list, fd, bincount);
    var t := Apply(s, Acked(fd, bincount));
    forall e | e in t.ack.list ensures exists o :: o in s.ack.list && o.fd == e.fd && o.serial == e.serial {
      var i :| 0 <= i < |t.ack.list| && t.ack.list[i] == e;
      assert s.ack.list[i] in s.ack.list;
    }
  }

  lemma StepFollows(s: Desk, step: Step)
    requires LiftsOk(s) && Enabled(s, step)
    ensures Follows(s, Apply(s, step)) && LiftsOk(Apply(s, step))
  {
    hide A.Inv, A.Apply, Again;
    match step
    case AddNext(bincount, at) => AddFollows(s, bincount, at);
    case SweepBegin(now) => SweepFollows(s, now);
    case Acked(fd, bincount) => AckFollows(s, fd, bincount);
    case _ =>
  }

  /** What a sweep copies are the messages it finds due, each client at most once. */
  lemma {:induction false} AgainFrom(es: seq<Pending>, now: int, lifts: seq<nat>)
    requires forall e :: e in es ==> e.serial < |lifts|
    ensures forall r :: r in Again(es, now, lifts) <==>
      exists o :: o in es && Due(o, now) && r == Copy(o.fd, lifts[o.serial], o.msg, true)
  {
    if es != [] {
      assert es == [es[0]] + es[1..];
      AgainFrom(es[1..], now, lifts);
      var rest := Again(es[1..], now, lifts);
      forall r | r in Again(es, now, lifts)
        ensures exists o :: o in es && Due(o, now) && r == Copy(o.fd, lifts[o.serial], o.msg, true)
      {
        if r in rest {
          var o :| o in es[1..] && Due(o, now) && r == Copy(o.fd, lifts[o.serial], o.msg, true);
          assert o in es;
        } else {
          assert es[0] in es;
        }
      }
    }
  }

  lemma {:induction false} AgainDiffers(es: seq<Pending>, now: int, lifts: seq<nat>)
    requires A.Distinct(es) && forall e :: e in es ==> e.serial < |lifts|
    ensures ClientsDiffer(Again(es, now, lifts))
  {
    if es != [] {
      A.DistinctTail(es);
      assert es == [es[0]] + es[1..];
      AgainDiffers(es[1..], now, lifts);
      AgainFrom(es[1..], now, lifts);
      var rest := Again(es[1..], now, lifts);
      forall r | r in rest ensures r.fd != es[0].fd {
        var o :| o in es[1..] && Due(o, now) && r == Copy(o.fd, lifts[o.serial], o.msg, true);
      }
      if Due(es[0], now) {
        DifferCons(Copy(es[0].fd, lifts[es[0].serial], es[0].msg, true), rest);
      }
    }
  }

  lemma DifferCons(r: Copy, rest: seq<Copy>)
    requires ClientsDiffer(rest) && forall q :: q in rest ==> q.fd != r.fd
    ensures ClientsDiffer([r] + rest)
  {
  }

  lemma SweepBeginKeeps(s: Desk, now: int)
    requires Inv(s) && Enabled(s, SweepBegin(now))
    ensures SweepOk(Apply(s, SweepBegin(now)))
  {
    hide A.Inv, Again, A.Apply, Swept, ClientsDiffer, LiftsOk;
    InvList(s);
    StepFollows(s, SweepBegin(now));
    LiftsBound(s);
    AgainFrom(s.ack.list, now, s.lifts);
    AgainDiffers(s.ack.list, now, s.lifts);
    var t := Apply(s, SweepBegin(now));
    assert t.queue == s.queue && t.sweep == Some(Again(s.ack.list, now, s.lifts)) && t.messages == s.messages;
    forall r | r in t.sweep.value
      ensures r.again && r.lift < |t.messages| && NotNewer(r, t)
      ensures forall c :: c in t.queue && c.again ==> c.fd == r.fd ==> c.lift <= r.lift
    {
      var o :| o in s.ack.list && Due(o, now) && r == Copy(o.fd, s.lifts[o.serial], o.msg, true);
      assert NotNewer(r, s) by {
        forall e | e in s.ack.list && e.fd == r.fd ensures e == o {
          A.SameSerial(s.ack.list, e, o);
        }
      }
      StillNotNewer(r, s, t);
      forall c | c in t.queue && c.again && c.fd == r.fd ensures c.lift <= r.lift {
        assert NotNewer(c, s);
      }
    }
  }

  lemma LiftsBound(s: Desk)
    requires LiftsOk(s)
    ensures forall n :: 0 <= n < |s.lifts| ==> s.lifts[n] < |s.messages|
  {
  }

  lemma InvList(s: Desk)
    requires Inv(s)
    ensures A.Distinct(s.ack.list) && forall e :: e in s.ack.list ==> e.serial < |s.lifts|
  {
  }

  lemma PushKeeps(s: Desk)
    requires Inv(s) && Enabled(s, SweepPush)
    ensures QueueOk(Apply(s, SweepPush)) && SweepOk(Apply(s, SweepPush))
  {
    hide LiftsOk;
    var t, r := Apply(s, SweepPush), s.sweep.value[0];
    assert s.sweep.value == [r] + s.sweep.value[1..];
    forall c | c in t.queue && c.again ensures NotNewer(c, t) {
      assert NotNewer(c, s);
    }
    forall q | q in t.sweep.value ensures NotNewer(q, t) {
      assert NotNewer(q, s);
    }
  }

  lemma StepPreserves(s: Desk, step: Step)
    requires Inv(s) && Enabled(s, step)
    ensures Inv(Apply(s, step))
  {
    hide LiftsOk, A.Apply, Again, NotNewer, Follows;
    StepFollows(s, step);
    var t := Apply(s, step);
    if step.SweepPush? {
      PushKeeps(s);
    } else {
      StepGrows(s, step);
      forall c | c in s.queue && c.again ensures NotNewer(c, t) {
        StillNotNewer(c, s, t);
      }
      if step.SweepBegin? {
        SweepBeginKeeps(s, step.now);
      } else if t.sweep.Some? {
        forall r | r in t.sweep.value ensures NotNewer(r, t) {
          StillNotNewer(r, s, t);
        }
      }
    }
  }

  /** Apart from sweeps only broadcasts queue anything. */
  lemma StepGrows(s: Desk, step: Step)
    requires LiftsOk(s) && Enabled(s, step) && !step.SweepPush?
    ensures var t := Apply(s, step);
      && |s.messages| <= |t.messages| && (!step.SweepBegin? && t.sweep.Some? ==> t.sweep == s.sweep)
      && (t.queue == s.queue || (step.CopyNext? && |t.queue| == |s.queue| + 1 && t.queue[..|s.queue|] == s.queue
            && !t.queue[|s.queue|].again && t.queue[|s.queue|].lift == |t.messages| - 1))
  {
    hide A.Inv, A.Apply, Again;
  }

  lemma {:induction false} RunInv(run: seq<Desk>, steps: seq<Step>, k: nat)
    requires IsRun(run, steps) && k < |run|
    ensures Inv(run[k])
  {
    hide Inv, Enabled, Apply;
    if k == 0 {
      StartInv();
    } else {
      RunInv(run, steps, k - 1);
      assert Leads(run[k - 1], steps[k - 1], run[k - 1 + 1]);
      StepPreserves(run[k - 1], steps[k - 1]);
    }
  }

  lemma StartInv()
    ensures Inv(START)
  {
    A.StartInv();
  }

  // ---------------------------------------------------------------- what is queued

  /** The copy has the bytes of its lift. */
  ghost predicate Faithful(c: Copy, messages: seq<bytes>) {
    c.lift < |messages| && c.msg == messages[c.lift]
  }

  /** So has a pending message. */
  ghost predicate Keeps(e: Pending, s: Desk) {
    e.serial < |s.lifts| && s.lifts[e.serial] < |s.messages| && e.msg == s.messages[s.lifts[e.serial]]
  }

  /** The clients that the broadcast of a lift has queued a copy for, in queue order. */
  function Audience(queue: seq<Copy>, lift: nat): seq<int> {
    if queue == [] then []
    else
      var c := queue[|queue| - 1];
      Audience(queue[..|queue| - 1], lift) + if !c.again && c.lift == lift then [c.fd] else []
  }

  ghost predicate Carried(s: Desk) {
    && (forall c :: c in s.queue ==> Faithful(c, s.messages))
    && (s.sweep.Some? ==> forall c :: c in s.sweep.value ==> c.again && Faithful(c, s.messages))
    && (forall e :: e in s.ack.list ==> Keeps(e, s))
    && (s.callback.Copying? ==>
          s.messages != [] && s.callback.i <= |s.table| && Audience(s.queue, |s.messages| - 1) == s.table[..s.callback.i])
  }

  lemma {:induction false} NobodyYet(queue: seq<Copy>, lift: nat)
    requires forall c :: c in queue ==> c.lift < lift
    ensures Audience(queue, lift) == []
    decreases |queue|
  {
    if queue != [] {
      NobodyYet(queue[..|queue| - 1], lift);
    }
  }

  lemma AudienceMore(queue: seq<Copy>, c: Copy, lift: nat)
    ensures Audience(queue + [c], lift) == Audience(queue, lift) + if !c.again && c.lift == lift then [c.fd] else []
  {
    assert (queue + [c])[..|queue|] == queue;
  }

  lemma AgainFaithful(s: Desk, now: int)
    requires forall e :: e in s.ack.list ==> Keeps(e, s)
    ensures forall r :: r in Again(s.ack.list, now, s.lifts) ==> r.again && Faithful(r, s.messages)
  {
    hide Again;
    AgainFrom(s.ack.list, now, s.lifts);
  }

  /** The pending list keeps what it has, and an added message is the newest lift. */
  lemma ListKeeps(s: Desk, step: Step)
    requires LiftsOk(s) && Enabled(s, step) && forall e :: e in s.ack.list ==> Keeps(e, s)
    ensures var t := Apply(s, step); forall e :: e in t.ack.list ==> Keeps(e, t)
  {
    hide A.Inv, Again, Without, Swept, Marked;
    match step
    case AddNext(bincount, at) => A.WithoutFrom(s.ack.list, s.callback.clients[s.callback.i]);
    case SweepBegin(now) => A.SweptFrom(s.ack.list, now);
    case Acked(fd, bincount) =>
      A.RunDistinct(s.ack);
      A.MarkedAll(s.ack.list, fd, bincount);
      forall e | e in Apply(s, step).ack.list ensures Keeps(e, s) {
        var i :| 0 <= i < |s.ack.list| && Apply(s, step).ack.list[i] == e;
        assert Keeps(s.ack.list[i], s);
      }
    case _ =>
  }

  lemma CopyCarries(s: Desk)
    requires Carried(s) && Enabled(s, CopyNext)
    ensures Carried(Apply(s, CopyNext))
  {
    hide Keeps;
    var t, last := Apply(s, CopyNext), |s.messages| - 1;
    var c := Copy(s.table[s.callback.i], last, s.messages[last], false);
    assert t.queue == s.queue + [c];
    AudienceMore(s.queue, c, last);
    forall e | e in t.ack.list ensures Keeps(e, t) {
      KeepsLater(e, s, t);
    }
  }

  lemma PushCarries(s: Desk)
    requires Carried(s) && Enabled(s, SweepPush)
    ensures Carried(Apply(s, SweepPush))
  {
    hide Keeps;
    var t, c := Apply(s, SweepPush), s.sweep.value[0];
    assert s.sweep.value == [c] + s.sweep.value[1..];
    if s.messages != [] {
      AudienceMore(s.queue, c, |s.messages| - 1);
    }
    forall e | e in t.ack.list ensures Keeps(e, t) {
      KeepsLater(e, s, t);
    }
  }

  lemma KeepsLater(e: Pending, s: Desk, t: Desk)
    requires Keeps(e, s) && t.lifts == s.lifts && t.messages == s.messages
    ensures Keeps(e, t)
  {
  }

  lemma StepCarries(s: Desk, step: Step)
    requires Inv(s) && Carried(s) && Enabled(s, step)
    ensures Carried(Apply(s, step))
  {
    hide A.Inv, A.Apply, Again, QueueOk, SweepOk, Keeps, Audience;
    ListKeeps(s, step);
    match step
    case CopyNext => CopyCarries(s);
    case SweepPush => PushCarries(s);
    case Lift(msg) =>
      QueueBound(s);
      NobodyYet(s.queue, |s.messages|);
    case SweepBegin(now) => AgainFaithful(s, now);
    case _ =>
  }

  lemma QueueBound(s: Desk)
    requires Carried(s)
    ensures forall c :: c in s.queue ==> c.lift < |s.messages|
  {
  }

  lemma {:induction false} RunCarries(run: seq<Desk>, steps: seq<Step>, n: nat)
    requires IsRun(run, steps) && n < |run|
    ensures Carried(run[n])
  {
    hide Inv, Enabled, Apply, Carried;
    if n == 0 {
      StartCarries();
    } else {
      RunCarries(run, steps, n - 1);
      RunInv(run, steps, n - 1);
      assert Leads(run[n - 1], steps[n - 1], run[n - 1 + 1]);
      StepCarries(run[n - 1], steps[n - 1]);
    }
  }

  lemma StartCarries()
    ensures Carried(START)
  {
  }

  /** In every run each queued copy, from a broadcast or from a sweep, has the bytes of its lift, and so
      has every pending message; and a broadcast has queued one copy for each entry of the table, in
      table order, when it lets the table go. */
  lemma QueuedCopies(run: seq<Desk>, steps: seq<Step>, n: nat)
    requires IsRun(run, steps) && n < |run|
    ensures var s := run[n];
      && (forall c :: c in s.queue ==> c.lift < |s.messages| && c.msg == s.messages[c.lift])
      && (forall e :: e in s.ack.list ==>
            && e.serial < |s.lifts| && s.lifts[e.serial] < |s.messages|
            && e.msg == s.messages[s.lifts[e.serial]])
      && (n < |steps| && steps[n].CopiesDone? ==> s.messages != [] && Audience(s.queue, |s.messages| - 1) == s.table)
  {
    hide Inv;
    RunCarries(run, steps, n);
    if n < |steps| && steps[n].CopiesDone? {
      assert Leads(run[n], steps[n], run[n + 1]);
    }
  }

  // ---------------------------------------------------------------- when lifts keep their order

  /** A step breaks the order only by a push that comes too late. */
  lemma OrderStep(s: Desk, step: Step)
    requires Inv(s) && Enabled(s, step)
    ensures InLiftOrder(Apply(s, step).queue) <==> InLiftOrder(s.queue) && !(step.SweepPush? && Overtaken(s))
  {
    hide A.Inv, A.Apply, Again, NotNewer, LiftsOk;
    var t := Apply(s, step);
    if step.SweepPush? {
      OrderPushed(s.queue, s.sweep.value[0]);
    } else {
      StepGrows(s, step);
      if t.queue != s.queue {
        OrderPushed(s.queue, t.queue[|s.queue|]);
        assert t.queue == s.queue + [t.queue[|s.queue|]];
      }
    }
  }

  lemma OrderPushed(queue: seq<Copy>, c: Copy)
    ensures InLiftOrder(queue + [c]) <==>
      InLiftOrder(queue) && forall d :: d in queue && d.fd == c.fd ==> d.lift <= c.lift
  {
    var all := queue + [c];
    if InLiftOrder(all) {
      forall i, j | 0 <= i < j < |queue| && queue[i].fd == queue[j].fd ensures queue[i].lift <= queue[j].lift {
        assert all[i] == queue[i] && all[j] == queue[j];
      }
      forall d | d in queue && d.fd == c.fd ensures d.lift <= c.lift {
        var i :| 0 <= i < |queue| && queue[i] == d;
        assert all[i] == d && all[|queue|] == c;
      }
    }
  }

  /** In any run every client is queued its lifts in order exactly if no sweep has pushed a message for
      a client that a broadcast had already queued a newer one for. */
  lemma {:induction false} OrderExact(run: seq<Desk>, steps: seq<Step>, n: nat)
    requires IsRun(run, steps) && n < |run|
    ensures InLiftOrder(run[n].queue) <==> forall k :: 0 <= k < n && steps[k].SweepPush? ==> !Overtaken(run[k])
    decreases n
  {
    hide Inv, Enabled, Apply, Overtaken, InLiftOrder;
    if n == 0 {
      EmptyOrder();
    } else {
      OrderExact(run, steps, n - 1);
      RunInv(run, steps, n - 1);
      assert Leads(run[n - 1], steps[n - 1], run[n - 1 + 1]);
      OrderStep(run[n - 1], steps[n - 1]);
    }
  }

  lemma EmptyOrder()
    ensures InLiftOrder(START.queue)
  {
  }

  // ---------------------------------------------------------------- a remedy

  /** What a lock around callback and sweep would bring, on a table that is read as it was broadcast to:
      a sweep runs while no callback does, and the client list is there when asked for. */
  predicate Excluded(s: Desk, step: Step) {
    match step
    case SweepBegin(_) => s.callback.Idle?
    case SweepPush => s.callback.Idle?
    case Lift(_) => s.sweep == None
    case ListFailed => false
    case Table(_) => !s.callback.Listing?
    case _ => true
  }

  /** The callback has broadcast to the client and will make the message its pending one. */
  ghost predicate Owed(s: Desk, fd: int) {
    match s.callback
    case Idle => false
    case Copying(i) => i <= |s.table| && fd in s.table[..i]
    case Listing => fd in s.table
    case Adding(clients, i) => exists j :: i <= j < |clients| && clients[j] == fd
  }

  ghost predicate Caught(s: Desk) {
    && (s.sweep.Some? ==> s.callback.Idle?)
    && (s.callback.Copying? ==> s.callback.i <= |s.table|)
    && (forall c :: c in s.queue && !c.again ==>
          NotNewer(c, s) || (c.lift + 1 == |s.messages| && Owed(s, c.fd)))
    && (s.sweep.Some? ==> forall r :: r in s.sweep.value ==> Listed(s, r))
  }

  ghost predicate Listed(s: Desk, r: Copy) {
    exists e :: e in s.ack.list && e.fd == r.fd && e.serial < |s.lifts| && s.lifts[e.serial] == r.lift
  }

  /** The client's pending message is of the latest lift now. */
  lemma AddSettles(s: Desk, bincount: int, at: int, c: Copy)
    requires LiftsOk(s) && Enabled(s, AddNext(bincount, at))
    requires c.lift < |s.messages| && c.fd == s.callback.clients[s.callback.i]
    ensures NotNewer(c, Apply(s, AddNext(bincount, at)))
  {
    hide A.Inv;
    A.WithoutFrom(s.ack.list, c.fd);
  }

  lemma SweepListed(s: Desk, now: int)
    requires LiftsOk(s) && Enabled(s, SweepBegin(now))
    ensures var t := Apply(s, SweepBegin(now)); forall r :: r in t.sweep.value ==> Listed(t, r)
  {
    hide A.Inv, Again;
    A.SweptFrom(s.ack.list, now);
    ListBound(s);
    AgainFrom(s.ack.list, now, s.lifts);
    var t := Apply(s, SweepBegin(now));
    forall r | r in t.sweep.value ensures Listed(t, r) {
      var o :| o in s.ack.list && Due(o, now) && r == Copy(o.fd, s.lifts[o.serial], o.msg, true);
      assert Touched(o, now) in t.ack.list;
    }
  }

  lemma ListBound(s: Desk)
    requires LiftsOk(s)
    ensures forall e :: e in s.ack.list ==> e.serial < |s.lifts|
  {
  }

  lemma CaughtCopies(s: Desk, step: Step)
    requires Inv(s) && Caught(s) && Enabled(s, step) && Excluded(s, step)
    ensures var t := Apply(s, step); forall c :: c in t.queue && !c.again ==>
      NotNewer(c, t) || (c.lift + 1 == |t.messages| && Owed(t, c.fd))
  {
    hide LiftsOk, A.Apply, Again, NotNewer, Follows, SweepOk;
    StepFollows(s, step);
    LiftsBegun(s);
    var t := Apply(s, step);
    forall c | c in t.queue && !c.again ensures NotNewer(c, t) || (c.lift + 1 == |t.messages| && Owed(t, c.fd)) {
      if c in s.queue && NotNewer(c, s) {
        StillNotNewer(c, s, t);
      } else if c in s.queue {
        if step.AddNext? && c.fd == s.callback.clients[s.callback.i] {
          AddSettles(s, step.bincount, step.at, c);
        } else {
          OwedStays(s, step, c.fd);
        }
      } else {
        NewCopy(s, step, c);
        CopyOwed(s);
      }
    }
  }

  lemma NewCopy(s: Desk, step: Step, c: Copy)
    requires LiftsOk(s) && SweepOk(s) && Enabled(s, step) && c in Apply(s, step).queue && c !in s.queue && !c.again
    ensures step.CopyNext? && c.fd == s.table[s.callback.i] && c.lift + 1 == |s.messages|
    ensures Apply(s, step).messages == s.messages
  {
    hide LiftsOk, A.Apply, Again, NotNewer;
    LiftsBegun(s);
  }

  lemma OwedStays(s: Desk, step: Step, fd: int)
    requires Caught(s) && Enabled(s, step) && Excluded(s, step) && Owed(s, fd)
    requires !(step.AddNext? && fd == s.callback.clients[s.callback.i])
    ensures Owed(Apply(s, step), fd) && Apply(s, step).messages == s.messages
  {
    hide A.Apply, Again, NotNewer, Listed;
    var t := Apply(s, step);
    match step
    case CopyNext =>
      assert s.table[..s.callback.i] <= s.table[..s.callback.i + 1];
    case CopiesDone =>
      assert s.table[..s.callback.i] == s.table;
    case List =>
      var j :| 0 <= j < |s.table| && s.table[j] == fd;
      assert t.callback.clients[j] == fd;
    case AddNext(_, _) =>
      var j :| s.callback.i <= j < |s.callback.clients| && s.callback.clients[j] == fd;
      assert t.callback.clients[j] == fd;
    case _ =>
  }

  lemma CopyOwed(s: Desk)
    requires Enabled(s, CopyNext)
    ensures Owed(Apply(s, CopyNext), s.table[s.callback.i])
  {
    assert s.table[..s.callback.i + 1][s.callback.i] == s.table[s.callback.i];
  }

  lemma LiftsBegun(s: Desk)
    requires LiftsOk(s)
    ensures !s.callback.Idle? ==> s.messages != []
  {
  }

  lemma CaughtStep(s: Desk, step: Step)
    requires Inv(s) && Caught(s) && Enabled(s, step) && Excluded(s, step)
    ensures Caught(Apply(s, step))
  {
    hide LiftsOk, A.Apply, Again, NotNewer, Owed, QueueOk, SweepOk, Listed;
    CaughtCopies(s, step);
    if step.SweepBegin? {
      SweepListed(s, step.now);
    } else {
      ListedStays(s, step);
    }
  }

  lemma ListedStays(s: Desk, step: Step)
    requires LiftsOk(s) && Caught(s) && Enabled(s, step) && Excluded(s, step) && !step.SweepBegin?
    ensures var t := Apply(s, step); t.sweep.Some? ==> forall r :: r in t.sweep.value ==> Listed(t, r)
  {
    hide LiftsOk, A.Apply, Again, NotNewer, Owed;
    var t := Apply(s, step);
    if t.sweep.Some? {
      assert t.ack == s.ack && t.lifts == s.lifts && s.sweep.Some?;
      forall r | r in t.sweep.value ensures Listed(t, r) {
        assert r in s.sweep.value && Listed(s, r);
      }
    }
  }

  /** Then no sweep pushes too late. */
  lemma CaughtInTime(s: Desk)
    requires Inv(s) && Caught(s) && s.callback.Idle?
    ensures !Overtaken(s)
  {
    hide LiftsOk, QueueOk, SweepOk;
    if s.sweep.Some? && s.sweep.value != [] {
      var r := s.sweep.value[0];
      assert Listed(s, r);
      forall c | c in s.queue && !c.again && c.fd == r.fd ensures c.lift <= r.lift {
        assert NotNewer(c, s);
      }
    }
  }

  lemma {:induction false} RunCaught(run: seq<Desk>, steps: seq<Step>, k: nat)
    requires IsRun(run, steps) && k < |run| && forall j :: 0 <= j < k ==> Excluded(run[j], steps[j])
    ensures Caught(run[k])
  {
    hide Inv, Enabled, Apply, Caught, Excluded;
    if k == 0 {
      StartCaught();
    } else {
      RunCaught(run, steps, k - 1);
      RunInv(run, steps, k - 1);
      assert Leads(run[k - 1], steps[k - 1], run[k - 1 + 1]);
      CaughtStep(run[k - 1], steps[k - 1]);
    }
  }

  lemma StartCaught()
    ensures Caught(START)
  {
  }

  /** With callback and sweep excluding each other every client is queued its lifts in order. */
  lemma OrderWhenExcluded(run: seq<Desk>, steps: seq<Step>, n: nat)
    requires IsRun(run, steps) && n < |run| && forall k :: 0 <= k < n ==> Excluded(run[k], steps[k])
    ensures InLiftOrder(run[n].queue)
  {
    hide Inv, Enabled, Apply, Overtaken, InLiftOrder, Caught;
    forall k | 0 <= k < n && steps[k].SweepPush? ensures !Overtaken(run[k]) {
      RunCaught(run, steps, k);
      RunInv(run, steps, k);
      CaughtInTime(run[k]);
    }
    OrderExact(run, steps, n);
  }

  // ---------------------------------------------------------------- a run out of order

  /** The pending message of lift 0, and the list with its history before and after the sweep. */
  const FIRST := Pending(0, 1, [48], 0, 0, 0, false)
  const BEFORE := A.State([FIRST], [A.Sent(0, Send(1, [48]), 0, 0)], 1)
  const AFTER :=
    A.State([FIRST.(lastSent := 5, retries := 1)], [A.Sent(0, Send(1, [48]), 0, 0), A.Resent(0, Send(1, [48]), 5)], 1)

  function OldCopy(again: bool): Copy {
    Copy(1, 0, [48], again)
  }

  const ONE: seq<bytes> := [[48]]
  const BOTH: seq<bytes> := [[48], [49]]
  const QUEUED := [OldCopy(false)]
  const SENT := [OldCopy(false), Copy(1, 1, [49], false)]

  /** Client 1 is sent lift 0, then lift 1, and then lift 0 again by a sweep five seconds on, before the
      callback of lift 1 has come to its `add_pending`. */
  function LateSteps(): seq<Step> {
    [Table([1]), Lift([48]), CopyNext, CopiesDone, List, AddNext(0, 0), AddsDone,
     Lift([49]), CopyNext, SweepBegin(5), SweepPush]
  }

  function LateRun(): seq<Desk> {
    [START] + FirstLift() + SecondLift()
  }

  function FirstLift(): seq<Desk> {
    [Desk(A.START, [], [], [], Idle, None, [1]),
     Desk(A.START, [], [], ONE, Copying(0), None, [1]),
     Desk(A.START, [], QUEUED, ONE, Copying(1), None, [1]),
     Desk(A.START, [], QUEUED, ONE, Listing, None, [1]),
     Desk(A.START, [], QUEUED, ONE, Adding([1], 0), None, [1]),
     Desk(BEFORE, [0], QUEUED, ONE, Adding([1], 1), None, [1]),
     Desk(BEFORE, [0], QUEUED, ONE, Idle, None, [1])]
  }

  function SecondLift(): seq<Desk> {
    [Desk(BEFORE, [0], QUEUED, BOTH, Copying(0), None, [1]),
     Desk(BEFORE, [0], SENT, BOTH, Copying(1), None, [1]),
     Desk(AFTER, [0], SENT, BOTH, Copying(1), Some([OldCopy(true)]), [1]),
     Desk(AFTER, [0], SENT + [OldCopy(true)], BOTH, Copying(1), Some([]), [1])]
  }

  lemma OutOfOrder()
    ensures IsRun(LateRun(), LateSteps())
    ensures LateRun()[11].queue == [OldCopy(false), Copy(1, 1, [49], false), OldCopy(true)]
    ensures !InLiftOrder(LateRun()[11].queue)
  {
    hide Leads, FirstLift, SecondLift;
    var run, steps, a, b := LateRun(), LateSteps(), FirstLift(), SecondLift();
    FirstLiftRuns();
    SecondLiftRuns();
    forall k | 0 <= k < 11 ensures Leads(run[k], steps[k], run[k + 1]) {
      if 0 < k < 7 {
        assert Leads(a[k - 1], steps[k], a[k]);
      } else if k > 7 {
        assert Leads(b[k - 7 - 1], steps[k - 7 + 7], b[k - 7]);
      }
    }
    var q := run[11].queue;
    assert q[1].fd == q[2].fd && q[1].lift > q[2].lift;
  }

  lemma FirstLiftRuns()
    ensures |FirstLift()| == 7 && Leads(START, LateSteps()[0], FirstLift()[0])
    ensures forall k :: 0 < k < 7 ==> Leads(FirstLift()[k - 1], LateSteps()[k], FirstLift()[k])
  {
    hide A.Apply;
    FirstPending();
  }

  lemma SecondLiftRuns()
    ensures |FirstLift()| == 7 && |SecondLift()| == 4 && Leads(FirstLift()[6], LateSteps()[7], SecondLift()[0])
    ensures forall k :: 0 < k < 4 ==> Leads(SecondLift()[k - 1], LateSteps()[k + 7], SecondLift()[k])
    ensures SecondLift()[3].queue == SENT + [OldCopy(true)]
  {
    hide A.Apply, Again;
    SecondSweep();
    assert QUEUED + [Copy(1, 1, [49], false)] == SENT && ONE + [[49]] == BOTH && [OldCopy(true)][1..] == [];
  }

  lemma FirstPending()
    ensures A.Apply(A.START, A.Add(1, [48], 0, 0)) == BEFORE
  {
  }

  lemma SecondSweep()
    ensures A.Apply(BEFORE, A.Sweep(5)) == AFTER && Again([FIRST], 5, [0]) == [OldCopy(true)]
  {
    A.SweptOne(FIRST, 5);
    A.SweepUnfold([FIRST], 5);
    assert A.SweepEvents([], 5) == [] && Again([], 5, [0]) == [];
    assert [FIRST][1..] == [];
  }
}
