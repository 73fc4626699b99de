/** The acknowledgement protocol of `sg-comm.c`: `add_pending`, sweeps and acknowledgements in any order. */
module AckProtocol {
  import opened Bytes
  import opened PendingList

  // Each of the three holds `pending_mtx` from its first access to the list to its last.

  /** What happens to the message of one `add_pending` call. `Sent` is the call itself, `Resent` a
      hand-over to `SgTcpServer_send`, `Dropped` the removal by a sweep or by a newer message. */
  datatype Event =
    | Sent(serial: nat, what: Send, bincount: int, at: int)
    | Resent(serial: nat, what: Send, at: int)
    | AckSeen(serial: nat)
    | Dropped(serial: nat)

  /** The list, everything that happened so far, and the number of `add_pending` calls. */
  datatype State = State(list: seq<Pending>, log: seq<Event>, count: nat)

  /** Clock readings are arguments: an `add_pending` may read the clock long before it gets the lock. */
  datatype Step =
    | Add(fd: int, msg: bytes, bincount: int, at: int)
    | Sweep(now: int)
    | Ack(fd: int, bincount: int)

  const START := State([], [], 0)

  function WhatOf(e: Pending): Send {
    Send(e.fd, e.msg)
  }

  function Superseded(es: seq<Pending>, fd: int): seq<Event> {
    if es == [] then []
    else (if es[0].fd == fd then [Dropped(es[0].serial)] else []) + Superseded(es[1..], fd)
  }

  /** What a sweep does to one message. */
  function NodeEvents(e: Pending, now: int): seq<Event> {
    if Finished(e) then [Dropped(e.serial)]
    else if Due(e, now) then [Resent(e.serial, WhatOf(e), now)]
    else []
  }

  function SweepEvents(es: seq<Pending>, now: int): seq<Event> {
    if es == [] then [] else NodeEvents(es[0], now) + SweepEvents(es[1..], now)
  }

  function AckEvents(es: seq<Pending>, fd: int, bincount: int): seq<Event> {
    if es == [] then []
    else if Matches(es[0], fd, bincount) then [AckSeen(es[0].serial)]
    else AckEvents(es[1..], fd, bincount)
  }

  function Apply(s: State, step: Step): State {
    match step
    case Add(fd, msg, bincount, at) =>
      State(Added(s.list, s.count, fd, msg, bincount, at),
            s.log + Superseded(s.list, fd) + [Sent(s.count, Send(fd, msg), bincount, at)], s.count + 1)
    case Sweep(now) => State(Swept(s.list, now), s.log + SweepEvents(s.list, now), s.count)
    case Ack(fd, bincount) => State(Marked(s.list, fd, bincount), s.log + AckEvents(s.list, fd, bincount), s.count)
  }

  function Run(s: State, steps: seq<Step>): State {
    if steps == [] then s else Apply(Run(s, steps[..|steps| - 1]), steps[|steps| - 1])
  }

  /** The log names exactly what a sweep hands over. */
  lemma {:induction false} SweepSends(es: seq<Pending>, now: int)
    ensures SendsIn(SweepEvents(es, now)) == Sends(es, now)
  {
    if es != [] {
      SweepSends(es[1..], now);
      var e := SweepEvents(es, now);
      var rest := SweepEvents(es[1..], now);
      if Finished(es[0]) || Due(es[0], now) {
        assert e[1..] == rest;
      } else {
        assert e == rest;
      }
    }
  }

  function SendsIn(log: seq<Event>): seq<Send> {
    if log == [] then [] else (if log[0].Resent? then [log[0].what] else []) + SendsIn(log[1..])
  }

  // ---------------------------------------------------------------- lists

  /** No client and no message occurs twice. */
  ghost predicate Distinct(es: seq<Pending>) {
    forall i, j :: 0 <= i < j < |es| ==> es[i].fd != es[j].fd && es[i].serial != es[j].serial
  }

  lemma {:induction false} WithoutFrom(es: seq<Pending>, fd: int)
    ensures forall e :: e in Without(es, fd) <==> e in es && e.fd != fd
    ensures Distinct(es) ==> Distinct(Without(es, fd))
  {
    if es != [] {
      WithoutFrom(es[1..], fd);
      DistinctTail(es);
      assert es == [es[0]] + es[1..];
      if es[0].fd != fd {
        DistinctPrepend(es[0], Without(es[1..], fd));
      }
    }
  }

  lemma DistinctTail(es: seq<Pending>)
    requires es != []
    ensures Distinct(es) ==> Distinct(es[1..]) && forall e :: e in es[1..] ==>
      e.fd != es[0].fd && e.serial != es[0].serial
  {
  }

  lemma DistinctPrepend(e: Pending, rest: seq<Pending>)
    ensures Distinct(rest) && (forall r :: r in rest ==> r.fd != e.fd && r.serial != e.serial) ==> Distinct([e] + rest)
  {
  }

  lemma {:induction false} SweptFrom(es: seq<Pending>, now: int)
    ensures forall e :: e in Swept(es, now) <==> exists o :: o in es && !Finished(o) && e == Touched(o, now)
    ensures Distinct(es) ==> Distinct(Swept(es, now))
  {
    if es != [] {
      SweptFrom(es[1..], now);
      DistinctTail(es);
      assert es == [es[0]] + es[1..];
      DistinctPrepend(Touched(es[0], now), Swept(es[1..], now));
    }
  }

  /** Where no client has two messages, marking the first match marks every match. */
  lemma {:induction false} MarkedAll(es: seq<Pending>, fd: int, bincount: int)
    requires Distinct(es)
    ensures |Marked(es, fd, bincount)| == |es|
    ensures forall i :: 0 <= i < |es| ==>
      Marked(es, fd, bincount)[i] == if Matches(es[i], fd, bincount) then es[i].(acked := true) else es[i]
  {
    hide Distinct;
    if es != [] {
      DistinctTail(es);
      MarkedAll(es[1..], fd, bincount);
      forall i | 0 < i < |es| ensures es[i] == es[1..][i - 1] && es[i].fd != es[0].fd {
        assert es[i] in es[1..];
      }
    }
  }

  // ---------------------------------------------------------------- events

  predicate Closing(ev: Event, n: nat) {
    (ev.AckSeen? || ev.Dropped?) && ev.serial == n
  }

  /** What may stand before what: a message is not sent again once it is acknowledged or dropped, nor
      once a newer one for the same client exists; and what is sent again is the message itself. */
  predicate InOrder(a: Event, b: Event) {
    b.Resent? ==>
      && !Closing(a, b.serial)
      && (a.Sent? && a.what.fd == b.what.fd ==> a.serial <= b.serial)
      && (a.Sent? && a.serial == b.serial ==> a.what == b.what)
  }

  ghost predicate Orderly(log: seq<Event>) {
    forall i, j :: 0 <= i < j < |log| ==> InOrder(log[i], log[j])
  }

  /** The past of a listed message. */
  predicate Before(a: Event, e: Pending) {
    && (Closing(a, e.serial) ==> e.acked)
    && (a.Sent? && a.what.fd == e.fd ==> a.serial <= e.serial)
    && (a.Sent? && a.serial == e.serial ==> a.what == WhatOf(e))
  }

  ghost predicate Past(log: seq<Event>, e: Pending) {
    forall a :: a in log ==> Before(a, e)
  }

  predicate Explains(o: Pending, ev: Event, now: int) {
    (Finished(o) && ev == Dropped(o.serial)) || (Due(o, now) && ev == Resent(o.serial, WhatOf(o), now))
  }

  lemma {:induction false} SweepEventsFrom(es: seq<Pending>, now: int)
    ensures forall ev :: ev in SweepEvents(es, now) ==>
      exists o :: o in es && Explains(o, ev, now)
    ensures Distinct(es) ==> forall i, j :: 0 <= i < j < |SweepEvents(es, now)| ==>
      SweepEvents(es, now)[i].serial != SweepEvents(es, now)[j].serial
  {
    if es != [] {
      SweepEventsFrom(es[1..], now);
      DistinctTail(es);
      assert es == [es[0]] + es[1..];
      var rest := SweepEvents(es[1..], now);
      forall ev | ev in SweepEvents(es, now) ensures exists o :: o in es && Explains(o, ev, now) {
        if ev in rest {
          var o :| o in es[1..] && Explains(o, ev, now);
          assert o in es;
        } else {
          assert es[0] in es;
        }
      }
      if Distinct(es) {
        forall ev | ev in rest ensures ev.serial != es[0].serial {
          var o :| o in es[1..] && Explains(o, ev, now);
        }
      }
    }
  }

  lemma {:induction false} SupersededFrom(es: seq<Pending>, fd: int)
    ensures forall ev :: ev in Superseded(es, fd) <==> exists o :: o in es && o.fd == fd && ev == Dropped(o.serial)
  {
    if es != [] {
      SupersededFrom(es[1..], fd);
      assert es == [es[0]] + es[1..];
    }
  }

  lemma {:induction false} AckEventsFrom(es: seq<Pending>, fd: int, bincount: int)
    ensures |AckEvents(es, fd, bincount)| <= 1
    ensures forall ev :: ev in AckEvents(es, fd, bincount) ==>
      exists o :: o in es && Matches(o, fd, bincount) && ev == AckSeen(o.serial)
  {
    if es != [] {
      AckEventsFrom(es[1..], fd, bincount);
      assert es == [es[0]] + es[1..];
      assert es[0] in es;
    }
  }

  // ---------------------------------------------------------------- readings

  /** The clock readings at which the message was sent: by its `add_pending`, and again. */
  function Times(log: seq<Event>, n: nat): seq<int> {
    if log == [] then []
    else
      var ev := log[|log| - 1];
      Times(log[..|log| - 1], n) + if (ev.Sent? || ev.Resent?) && ev.serial == n then [ev.at] else []
  }

  lemma {:induction false} TimesConcat(a: seq<Event>, b: seq<Event>, n: nat)
    ensures Times(a + b, n) == Times(a, n) + Times(b, n)
    decreases |b|
  {
    if b == [] {
      assert a + b == a;
    } else {
      TimesConcat(a, b[..|b| - 1], n);
      assert (a + b)[..|a + b| - 1] == a + b[..|b| - 1];
    }
  }

  lemma {:induction false} TimesNone(log: seq<Event>, n: nat)
    requires forall ev :: ev in log ==> ev.serial != n || ev.AckSeen? || ev.Dropped?
    ensures Times(log, n) == []
    decreases |log|
  {
    if log != [] {
      TimesNone(log[..|log| - 1], n);
      assert log[|log| - 1] in log;
    }
  }

  lemma TimesOne(ev: Event, n: nat)
    ensures Times([ev], n) == if (ev.Sent? || ev.Resent?) && ev.serial == n then [ev.at] else []
  {
    assert [ev][..0] == [];
  }

  /** A sweep sends a message again exactly if it is listed and due. */
  lemma {:induction false} SweepTimes(es: seq<Pending>, now: int, n: nat)
    requires Distinct(es)
    ensures forall o :: o in es && o.serial == n ==> Times(SweepEvents(es, now), n) == if Due(o, now) then [now] else []
    ensures (forall o :: o in es ==> o.serial != n) ==> Times(SweepEvents(es, now), n) == []
  {
    hide Times, SweepEvents, Distinct;
    if es == [] {
      NoTimes(now, n);
    } else {
      DistinctTail(es);
      SweepTimes(es[1..], now, n);
      SweepUnfold(es, now);
      TimesConcat(NodeEvents(es[0], now), SweepEvents(es[1..], now), n);
      NodeTimes(es[0], now, n);
      assert es == [es[0]] + es[1..];
    }
  }

  lemma NoTimes(now: int, n: nat)
    ensures Times(SweepEvents([], now), n) == []
  {
  }

  lemma SweepUnfold(es: seq<Pending>, now: int)
    requires es != []
    ensures SweepEvents(es, now) == NodeEvents(es[0], now) + SweepEvents(es[1..], now)
  {
  }

  lemma NodeTimes(e: Pending, now: int, n: nat)
    ensures Times(NodeEvents(e, now), n) == if Due(e, now) && e.serial == n then [now] else []
  {
    if Finished(e) {
      TimesOne(Dropped(e.serial), n);
    } else if Due(e, now) {
      TimesOne(Resent(e.serial, WhatOf(e), now), n);
    }
  }

  ghost predicate Spaced(ts: seq<int>) {
    && |ts| <= 1 + MAX_RETRIES
    && forall k :: 0 <= k < |ts| - 1 ==> ts[k + 1] - ts[k] >= TIMEOUT_SEC
  }

  /** The counters of a listed message record how often and when it was last sent. */
  ghost predicate Counted(log: seq<Event>, e: Pending) {
    var ts := Times(log, e.serial);
    e.retries <= MAX_RETRIES && |ts| == 1 + e.retries && ts[e.retries] == e.lastSent
  }

  ghost predicate Inv(s: State) {
    && Distinct(s.list)
    && (forall e :: e in s.list ==> e.serial < s.count && Past(s.log, e) && Counted(s.log, e))
    && (forall ev :: ev in s.log ==> ev.serial < s.count)
    && (forall n: nat :: Spaced(Times(s.log, n)))
    && Orderly(s.log)
  }

  // ---------------------------------------------------------------- every step keeps the invariant

  lemma SameSerial(es: seq<Pending>, a: Pending, b: Pending)
    requires Distinct(es) && a in es && b in es && (a.serial == b.serial || a.fd == b.fd)
    ensures a == b
  {
    var i :| 0 <= i < |es| && es[i] == a;
    var j :| 0 <= j < |es| && es[j] == b;
    assert i == j;
  }

  lemma OrderlyConcat(a: seq<Event>, b: seq<Event>)
    requires Orderly(a) && Orderly(b) && forall x, y :: x in a && y in b ==> InOrder(x, y)
    ensures Orderly(a + b)
  {
    forall i, j | 0 <= i < j < |a + b| ensures InOrder((a + b)[i], (a + b)[j]) {
      if j < |a| {
        assert InOrder(a[i], a[j]);
      } else if i < |a| {
        assert a[i] in a && b[j - |a|] in b;
      } else {
        assert InOrder(b[i - |a|], b[j - |a|]);
      }
    }
  }

  lemma AddTimes(s: State, fd: int, what: Send, bincount: int, at: int, n: nat)
    requires forall ev :: ev in s.log ==> ev.serial < s.count
    ensures Times(s.log + Superseded(s.list, fd) + [Sent(s.count, what, bincount, at)], n)
      == if n == s.count then [at] else Times(s.log, n)
  {
    SupersededFrom(s.list, fd);
    TimesConcat(s.log + Superseded(s.list, fd), [Sent(s.count, what, bincount, at)], n);
    TimesConcat(s.log, Superseded(s.list, fd), n);
    TimesNone(Superseded(s.list, fd), n);
    TimesOne(Sent(s.count, what, bincount, at), n);
    if n == s.count {
      TimesNone(s.log, n);
    }
  }

  lemma AddPreserves(s: State, fd: int, msg: bytes, bincount: int, at: int)
    requires Inv(s)
    ensures Inv(Apply(s, Add(fd, msg, bincount, at)))
  {
    hide Times, Without, Superseded;
    var t, added := Apply(s, Add(fd, msg, bincount, at)), Superseded(s.list, fd) + [Sent(s.count, Send(fd, msg), bincount, at)];
    WithoutFrom(s.list, fd);
    SupersededFrom(s.list, fd);
    DistinctPrepend(t.list[0], Without(s.list, fd));
    assert t.log == s.log + added;
    forall n: nat ensures Times(t.log, n) == if n == s.count then [at] else Times(s.log, n) {
      AddTimes(s, fd, Send(fd, msg), bincount, at, n);
    }
    forall e | e in t.list ensures Past(t.log, e) && Counted(t.log, e) {
      AddPast(s, fd, msg, bincount, at, e);
    }
    assert forall ev :: ev in added ==> !ev.Resent?;
    assert forall i :: 0 <= i < |added| ==> added[i] in added;
    OrderlyConcat(s.log, added);
  }

  lemma AddPast(s: State, fd: int, msg: bytes, bincount: int, at: int, e: Pending)
    requires Inv(s) && e in Added(s.list, s.count, fd, msg, bincount, at)
    ensures Past(Apply(s, Add(fd, msg, bincount, at)).log, e) && Counted(Apply(s, Add(fd, msg, bincount, at)).log, e)
  {
    hide Times, Without, Superseded, Orderly, Spaced, Distinct;
    WithoutFrom(s.list, fd);
    SupersededFrom(s.list, fd);
    AddTimes(s, fd, Send(fd, msg), bincount, at, e.serial);
    forall a | a in Superseded(s.list, fd) ensures Before(a, e) {
      var o :| o in s.list && o.fd == fd && a == Dropped(o.serial);
      if e.serial == o.serial {
        SameSerial(s.list, e, o);
      }
    }
  }

  lemma SweepPreserves(s: State, now: int)
    requires Inv(s)
    ensures Inv(Apply(s, Sweep(now)))
  {
    hide Times, Swept, SweepEvents;
    var t, evs := Apply(s, Sweep(now)), SweepEvents(s.list, now);
    SweptFrom(s.list, now);
    SweepEventsFrom(s.list, now);
    forall e | e in t.list ensures e.serial < s.count && Past(t.log, e) && Counted(t.log, e) {
      var o :| o in s.list && !Finished(o) && e == Touched(o, now);
      SweepPast(s, now, o);
    }
    forall n: nat ensures Spaced(Times(t.log, n)) {
      SweepSpaced(s, now, n);
    }
    SweepOrderly(s, now);
  }

  lemma SweepPast(s: State, now: int, o: Pending)
    requires Inv(s) && o in s.list && !Finished(o)
    ensures var t, e := Apply(s, Sweep(now)), Touched(o, now); Past(t.log, e) && Counted(t.log, e)
  {
    hide Times, Swept, SweepEvents, Orderly, Spaced, Distinct;
    var evs, e := SweepEvents(s.list, now), Touched(o, now);
    SweepEventsFrom(s.list, now);
    SweepTimes(s.list, now, o.serial);
    TimesConcat(s.log, evs, o.serial);
    forall a | a in evs ensures Before(a, e) {
      var o' :| o' in s.list && Explains(o', a, now);
      if o'.serial == o.serial {
        SameSerial(s.list, o, o');
      }
    }
  }

  lemma SweepSpaced(s: State, now: int, n: nat)
    requires Inv(s)
    ensures Spaced(Times(s.log + SweepEvents(s.list, now), n))
  {
    hide Times, Swept, SweepEvents, Orderly, Distinct, Past;
    SweepTimes(s.list, now, n);
    TimesConcat(s.log, SweepEvents(s.list, now), n);
    assert Spaced(Times(s.log, n));
    if o :| o in s.list && o.serial == n {
      assert Counted(s.log, o);
    }
  }

  lemma SweepOrderly(s: State, now: int)
    requires Inv(s)
    ensures Orderly(s.log + SweepEvents(s.list, now))
  {
    hide Times, Swept, SweepEvents, Distinct, Counted;
    var evs := SweepEvents(s.list, now);
    SweepEventsFrom(s.list, now);
    forall a, b | a in s.log && b in evs ensures InOrder(a, b) {
      var o :| o in s.list && Explains(o, b, now);
      assert Past(s.log, o);
      assert Before(a, o);
    }
    forall i, j | 0 <= i < j < |evs| ensures InOrder(evs[i], evs[j]) {
      assert evs[i] in evs && evs[i].serial != evs[j].serial;
    }
    OrderlyConcat(s.log, evs);
  }

  lemma AckPreserves(s: State, fd: int, bincount: int)
    requires Inv(s)
    ensures Inv(Apply(s, Ack(fd, bincount)))
  {
    hide Times, Marked, AckEvents;
    var t, evs := Apply(s, Ack(fd, bincount)), AckEvents(s.list, fd, bincount);
    MarkedAll(s.list, fd, bincount);
    AckEventsFrom(s.list, fd, bincount);
    forall n: nat ensures Times(t.log, n) == Times(s.log, n) {
      TimesConcat(s.log, evs, n);
      TimesNone(evs, n);
    }
    forall i | 0 <= i < |t.list| ensures t.list[i].serial < s.count && Past(t.log, t.list[i])
      && Counted(t.log, t.list[i]) {
      AckPast(s, fd, bincount, i);
    }
    OrderlyConcat(s.log, evs);
  }

  lemma AckPast(s: State, fd: int, bincount: int, i: nat)
    requires Inv(s) && i < |s.list|
    ensures var t, o := Apply(s, Ack(fd, bincount)), s.list[i];
      var e := if Matches(o, fd, bincount) then o.(acked := true) else o;
      && e.serial < s.count && Past(t.log, e) && Counted(t.log, e)
  {
    hide Times, Marked, AckEvents, Orderly, Spaced, Distinct;
    var evs, o := AckEvents(s.list, fd, bincount), s.list[i];
    var e := if Matches(o, fd, bincount) then o.(acked := true) else o;
    AckEventsFrom(s.list, fd, bincount);
    TimesConcat(s.log, evs, e.serial);
    TimesNone(evs, e.serial);
    assert Past(s.log, o) && Counted(s.log, o);
    forall a | a in evs ensures Before(a, e) {
      var o' :| o' in s.list && Matches(o', fd, bincount) && a == AckSeen(o'.serial);
      if o'.serial == o.serial {
        SameSerial(s.list, o, o');
      }
    }
  }

  lemma StepPreserves(s: State, step: Step)
    requires Inv(s)
    ensures Inv(Apply(s, step)) && Apply(s, step).count >= s.count
  {
    hide Inv;
    match step
    case Add(fd, msg, bincount, at) => AddPreserves(s, fd, msg, bincount, at);
    case Sweep(now) => SweepPreserves(s, now);
    case Ack(fd, bincount) => AckPreserves(s, fd, bincount);
  }

  lemma {:induction false} RunPreserves(s: State, steps: seq<Step>)
    requires Inv(s)
    ensures Inv(Run(s, steps)) && Run(s, steps).count >= s.count
    decreases |steps|
  {
    hide Inv, Apply;
    if steps != [] {
      RunPreserves(s, steps[..|steps| - 1]);
      StepPreserves(Run(s, steps[..|steps| - 1]), steps[|steps| - 1]);
    }
  }

  lemma RunInv(steps: seq<Step>)
    ensures Inv(Run(START, steps))
  {
    hide Inv, Run;
    StartInv();
    RunPreserves(START, steps);
  }

  lemma StartInv()
    ensures Inv(START)
  {
  }

  // ---------------------------------------------------------------- safety of every run

  /** At most one message of a client is pending, so that stopping at the first match is complete. */
  lemma OnePerClient(steps: seq<Step>, fd: int, bincount: int)
    ensures var es := Run(START, steps).list;
      && (forall i, j :: 0 <= i < j < |es| ==> es[i].fd != es[j].fd)
      && |Marked(es, fd, bincount)| == |es|
      && forall i :: 0 <= i < |es| ==>
           Marked(es, fd, bincount)[i] == if Matches(es[i], fd, bincount) then es[i].(acked := true) else es[i]
  {
    hide Marked, Run, Apply;
    RunInv(steps);
    MarkedAll(Run(START, steps).list, fd, bincount);
  }

  /** A message is sent again at most three times, and never within five seconds of the time
      before. */
  lemma ResendLimits(steps: seq<Step>, n: nat)
    ensures var ts := Times(Run(START, steps).log, n);
      && |ts| <= 1 + 3
      && forall k :: 0 <= k < |ts| - 1 ==> ts[k + 1] - ts[k] >= 5
  {
    hide Times, Run, Apply;
    RunInv(steps);
    assert Spaced(Times(Run(START, steps).log, n));
  }

  /** What is sent again is the newest message of its client, unchanged, and not acknowledged or
      dropped before. */
  lemma ResendsAreCurrent(steps: seq<Step>, i: nat, j: nat)
    requires i < j < |Run(START, steps).log|
    ensures var a, b := Run(START, steps).log[i], Run(START, steps).log[j];
      b.Resent? ==>
        && !(a == AckSeen(b.serial)) && !(a == Dropped(b.serial))
        && (a.Sent? && a.what.fd == b.what.fd ==> a.serial <= b.serial)
        && (a.Sent? && a.serial == b.serial ==> a.what == b.what)
  {
    hide Times, Run, Apply;
    RunInv(steps);
    assert InOrder(Run(START, steps).log[i], Run(START, steps).log[j]);
  }

  // ---------------------------------------------------------------- nothing stays for ever

  /** The clock readings of the sweeps among some steps. */
  function Readings(steps: seq<Step>): seq<int> {
    if steps == [] then []
    else
      var last := steps[|steps| - 1];
      Readings(steps[..|steps| - 1]) + if last.Sweep? then [last.now] else []
  }

  /** Sweeps are at least one second apart. */
  ghost predicate Ticking(ns: seq<int>) {
    forall k :: 0 <= k < |ns| - 1 ==> ns[k + 1] >= ns[k] + 1
  }

  /** How long a message can have stayed: `k` sweeps with the last at `now`. */
  ghost predicate Tracked(e: Pending, e0: Pending, ns: seq<int>) {
    if ns == [] then e.lastSent == e0.lastSent
    else
      var gap := ns[|ns| - 1] - e.lastSent;
      && 0 <= gap < TIMEOUT_SEC && e.retries <= MAX_RETRIES
      && |ns| <= 1 + TIMEOUT_SEC * e.retries + gap
      && (e.retries == MAX_RETRIES ==> gap == 0)
  }

  ghost predicate AllTracked(es: seq<Pending>, e0: Pending, ns: seq<int>) {
    forall e :: e in es && e.serial == e0.serial ==> Tracked(e, e0, ns)
  }

  lemma {:induction false} StaysTracked(s: State, e0: Pending, steps: seq<Step>)
    requires Inv(s) && e0 in s.list
    requires Ticking(Readings(steps)) && (Readings(steps) != [] ==> Readings(steps)[0] >= e0.lastSent)
    ensures AllTracked(Run(s, steps).list, e0, Readings(steps))
    decreases |steps|
  {
    hide Inv, Apply;
    InvListed(s, e0);
    if steps == [] {
      forall e | e in s.list && e.serial == e0.serial ensures Tracked(e, e0, []) {
        SameSerial(s.list, e, e0);
      }
    } else {
      var front, last := steps[..|steps| - 1], steps[|steps| - 1];
      var t, ns := Run(s, front), Readings(front);
      TickingFront(front, last);
      StaysTracked(s, e0, front);
      RunPreserves(s, front);
      TrackStep(t, e0, ns, last);
    }
  }

  lemma InvListed(s: State, e: Pending)
    requires Inv(s) && e in s.list
    ensures e.serial < s.count && e.retries <= MAX_RETRIES && Distinct(s.list)
  {
    assert Counted(s.log, e);
  }

  lemma TickingFront(front: seq<Step>, last: Step)
    requires Ticking(Readings(front) + if last.Sweep? then [last.now] else [])
    ensures Ticking(Readings(front))
    ensures last.Sweep? && Readings(front) != [] ==> last.now >= Readings(front)[|Readings(front)| - 1] + 1
  {
    var ns := Readings(front);
    var ms := ns + if last.Sweep? then [last.now] else [];
    if last.Sweep? && ns != [] {
      assert ms[|ns| - 1 + 1] >= ms[|ns| - 1] + 1;
    }
    forall k | 0 <= k < |ns| - 1 ensures ns[k + 1] >= ns[k] + 1 {
      assert ms[k + 1] >= ms[k] + 1;
    }
  }

  lemma TrackStep(t: State, e0: Pending, ns: seq<int>, step: Step)
    requires Inv(t) && e0.serial < t.count && AllTracked(t.list, e0, ns)
    requires step.Sweep? ==> if ns == [] then step.now >= e0.lastSent else step.now >= ns[|ns| - 1] + 1
    ensures AllTracked(Apply(t, step).list, e0, ns + if step.Sweep? then [step.now] else [])
  {
    hide Inv, Swept, Marked, Without, Times;
    var ms := ns + if step.Sweep? then [step.now] else [];
    forall e | e in Apply(t, step).list && e.serial == e0.serial ensures Tracked(e, e0, ms) {
      match step
      case Add(fd, msg, bincount, at) =>
        WithoutFrom(t.list, fd);
        assert ms == ns;
      case Sweep(now) =>
        SweptFrom(t.list, now);
        var o :| o in t.list && !Finished(o) && e == Touched(o, now);
        assert Tracked(o, e0, ns);
      case Ack(fd, bincount) =>
        RunDistinct(t);
        MarkedAll(t.list, fd, bincount);
        var i :| 0 <= i < |t.list| && e == Marked(t.list, fd, bincount)[i];
        assert t.list[i] in t.list && Tracked(t.list[i], e0, ns);
        assert ms == ns;
    }
  }

  lemma RunDistinct(t: State)
    requires Inv(t)
    ensures Distinct(t.list)
  {
  }

  /** With sweeps at least a second apart a message is gone by the 17th sweep, counted from the first
      whose clock has reached the message's own reading, whatever else happens in between. */
  lemma GoneBySweep(before: seq<Step>, after: seq<Step>, e: Pending)
    requires e in Run(START, before).list
    requires Ticking(Readings(after)) && |Readings(after)| >= 17
    requires Readings(after)[0] >= e.lastSent
    ensures forall p :: p in Run(Run(START, before), after).list ==> p.serial != e.serial
  {
    hide Inv, Run, Readings, Ticking;
    RunInv(before);
    StaysTracked(Run(START, before), e, after);
  }

  function Ticks(k: nat): seq<Step> {
    if k == 0 then [] else Ticks(k - 1) + [Sweep(k - 1)]
  }

  /** The bound is exact: after 16 such sweeps a message can still be there. */
  lemma StillThere()
    ensures var after := Ticks(16);
      && Readings(after) == seq(16, k => k) && Ticking(Readings(after))
      && Run(Run(START, [Add(1, [], 0, 0)]), after).list == [Pending(0, 1, [], 0, 15, 3, false)]
  {
    hide Run, Readings, Apply;
    FirstAdd();
    TicksFrom(Run(START, [Add(1, [], 0, 0)]), 16);
  }

  lemma {:induction false} TicksFrom(s: State, k: nat)
    requires k <= 16 && s.list == [Pending(0, 1, [], 0, 0, 0, false)]
    ensures Readings(Ticks(k)) == seq(k, i => i)
    ensures Run(s, Ticks(k)).list == [OldMessage(k)]
  {
    hide Swept, Run, Readings;
    if k == 0 {
      NoSteps(s);
    } else {
      TicksFrom(s, k - 1);
      OneStep(s, Ticks(k - 1), Sweep(k - 1));
      SweptOne(OldMessage(k - 1), k - 1);
    }
  }

  /** The message of client 1 after sweeps at 0, 1, ..., k - 1. */
  function OldMessage(k: nat): Pending {
    var r := if k == 0 then 0 else (k - 1) / 5;
    Pending(0, 1, [], 0, 5 * r, r, false)
  }

  lemma NoSteps(s: State)
    ensures Run(s, []) == s && Readings([]) == []
  {
  }

  lemma OneStep(s: State, steps: seq<Step>, last: Step)
    ensures Run(s, steps + [last]) == Apply(Run(s, steps), last)
    ensures Readings(steps + [last]) == Readings(steps) + if last.Sweep? then [last.now] else []
  {
    assert (steps + [last])[..|steps|] == steps;
  }

  lemma FirstAdd()
    ensures Run(START, [Add(1, [], 0, 0)]).list == [Pending(0, 1, [], 0, 0, 0, false)]
  {
    assert [Add(1, [], 0, 0)][..0] == [];
  }

  lemma SweptOne(e: Pending, now: int)
    ensures Swept([e], now) == if Finished(e) then [] else [Touched(e, now)]
  {
  }
}
