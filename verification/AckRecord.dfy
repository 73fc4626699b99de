/** The acknowledgement protocol read off its log alone: in every run, what a step adds is determined
    by what was logged before, and the pending list is what the log says is still waiting. */
module AckRecord {
  import opened Bytes
  import opened PendingList
  import opened AckProtocol

  // ---------------------------------------------------------------- what a log says

  /** `ev` is the call that made message `n` pending. */
  predicate Sending(ev: Event, n: nat) {
    ev.Sent? && ev.serial == n
  }

  /** Message `n` has been sent and not been dropped since. */
  ghost predicate Waiting(log: seq<Event>, n: nat) {
    (exists ev :: ev in log && Sending(ev, n)) && Dropped(n) !in log
  }

  ghost predicate SentTo(log: seq<Event>, n: nat, fd: int) {
    exists ev :: ev in log && Sending(ev, n) && ev.what.fd == fd
  }

  /** Message `n` went to this client and carried this count. */
  ghost predicate SentWith(log: seq<Event>, n: nat, fd: int, bincount: int) {
    exists ev :: ev in log && Sending(ev, n) && ev.what.fd == fd && ev.bincount == bincount
  }

  ghost predicate SentAs(log: seq<Event>, n: nat, what: Send) {
    exists ev :: ev in log && Sending(ev, n) && ev.what == what
  }

  /** Sent once and then again as often as it may be. */
  predicate UsedUp(log: seq<Event>, n: nat) {
    |Times(log, n)| == 1 + 3
  }

  /** Long enough after the last reading at which the message was sent. */
  predicate TimedOut(log: seq<Event>, n: nat, now: int) {
    var ts := Times(log, n);
    ts != [] && now - ts[|ts| - 1] >= 5
  }

  /** What a step owes the log after `log`, with `count` the number of messages so far. */
  ghost predicate Owed(log: seq<Event>, count: nat, step: Step, ev: Event) {
    match ev
    case Sent(n, what, bincount, at) => n == count && step == Add(what.fd, what.msg, bincount, at)
    case Resent(n, what, at) =>
      && step == Sweep(at) && Waiting(log, n) && SentAs(log, n, what)
      && AckSeen(n) !in log && !UsedUp(log, n) && TimedOut(log, n, at)
    case AckSeen(n) => step.Ack? && Waiting(log, n) && SentWith(log, n, step.fd, step.bincount)
    case Dropped(n) =>
      && Waiting(log, n)
      && ((step.Add? && SentTo(log, n, step.fd)) || (step.Sweep? && (AckSeen(n) in log || UsedUp(log, n))))
  }

  // ---------------------------------------------------------------- the list is in the log

  /** What the log knows of a listed message. */
  ghost predicate Known(log: seq<Event>, e: Pending) {
    && (exists ev :: ev in log && Sending(ev, e.serial))
    && (forall ev :: ev in log && Sending(ev, e.serial) ==> ev.what == WhatOf(e) && ev.bincount == e.bincount)
    && Dropped(e.serial) !in log
    && (e.acked <==> AckSeen(e.serial) in log)
  }

  ghost predicate Listed(es: seq<Pending>, n: nat) {
    exists e :: e in es && e.serial == n
  }

  ghost predicate Recorded(s: State) {
    && (forall e :: e in s.list ==> Known(s.log, e))
    && (forall n: nat :: Waiting(s.log, n) ==> Listed(s.list, n))
  }

  /** What a step logs. */
  function Logged(s: State, step: Step): seq<Event> {
    match step
    case Add(fd, msg, bincount, at) => Superseded(s.list, fd) + [Sent(s.count, Send(fd, msg), bincount, at)]
    case Sweep(now) => SweepEvents(s.list, now)
    case Ack(fd, bincount) => AckEvents(s.list, fd, bincount)
  }

  lemma AppliedLog(s: State, step: Step)
    ensures Apply(s, step).log == s.log + Logged(s, step)
  {
    hide Superseded, SweepEvents, AckEvents, Added, Swept, Marked;
    if step.Add? {
      Apart(s.log, Superseded(s.list, step.fd), [Sent(s.count, Send(step.fd, step.msg), step.bincount, step.at)]);
    }
  }

  lemma Apart(a: seq<Event>, b: seq<Event>, c: seq<Event>)
    ensures a + b + c == a + (b + c)
  {
  }

  /** A listed message in the words of the log. */
  lemma InWords(s: State, e: Pending, fd: int, bincount: int, now: int)
    requires Known(s.log, e) && Counted(s.log, e)
    ensures Waiting(s.log, e.serial)
    ensures SentTo(s.log, e.serial, fd) <==> e.fd == fd
    ensures SentWith(s.log, e.serial, fd, bincount) <==> Matches(e, fd, bincount)
    ensures forall what :: SentAs(s.log, e.serial, what) <==> what == WhatOf(e)
    ensures Finished(e) <==> AckSeen(e.serial) in s.log || UsedUp(s.log, e.serial)
    ensures Due(e, now) <==>
      AckSeen(e.serial) !in s.log && !UsedUp(s.log, e.serial) && TimedOut(s.log, e.serial, now)
  {
    hide Times;
  }

  // ---------------------------------------------------------------- each step logs what it owes

  lemma {:induction false} AckEventsExactly(es: seq<Pending>, fd: int, bincount: int)
    requires AckProtocol.Distinct(es)
    ensures forall ev :: ev in AckEvents(es, fd, bincount) <==>
      exists o :: o in es && Matches(o, fd, bincount) && ev == AckSeen(o.serial)
  {
    if es != [] {
      DistinctTail(es);
      AckEventsExactly(es[1..], fd, bincount);
      assert es == [es[0]] + es[1..];
    }
  }

  lemma {:induction false} SweepEventsExactly(es: seq<Pending>, now: int)
    ensures forall ev :: ev in SweepEvents(es, now) <==> exists o :: o in es && Explains(o, ev, now)
  {
    if es != [] {
      SweepEventsExactly(es[1..], now);
      assert es == [es[0]] + es[1..];
      forall ev ensures ev in NodeEvents(es[0], now) <==> Explains(es[0], ev, now) {
      }
      forall o, ev | o in es && Explains(o, ev, now) ensures ev in SweepEvents(es, now) {
        assert o == es[0] || o in es[1..];
      }
    }
  }

  lemma AddOwed(s: State, fd: int, msg: bytes, bincount: int, at: int, ev: Event)
    requires Inv(s) && Recorded(s)
    ensures ev in Logged(s, Add(fd, msg, bincount, at)) <==> Owed(s.log, s.count, Add(fd, msg, bincount, at), ev)
  {
    hide Inv, Superseded, Waiting, SentTo, Known;
    SupersededFrom(s.list, fd);
    if ev.Dropped? {
      if Waiting(s.log, ev.serial) {
        var e :| e in s.list && e.serial == ev.serial;
        WordsOf(s, e, fd, bincount, at);
        OnlyOne(s, e);
      }
      if o :| o in s.list && o.fd == fd && ev == Dropped(o.serial) {
        WordsOf(s, o, fd, bincount, at);
      }
    }
  }

  lemma WordsOf(s: State, e: Pending, fd: int, bincount: int, now: int)
    requires Inv(s) && Recorded(s) && e in s.list
    ensures Waiting(s.log, e.serial)
    ensures SentTo(s.log, e.serial, fd) <==> e.fd == fd
    ensures SentWith(s.log, e.serial, fd, bincount) <==> Matches(e, fd, bincount)
    ensures forall what :: SentAs(s.log, e.serial, what) <==> what == WhatOf(e)
    ensures Finished(e) <==> AckSeen(e.serial) in s.log || UsedUp(s.log, e.serial)
    ensures Due(e, now) <==>
      AckSeen(e.serial) !in s.log && !UsedUp(s.log, e.serial) && TimedOut(s.log, e.serial, now)
  {
    hide Past, Orderly, Spaced, Waiting, SentTo, SentWith, SentAs, UsedUp, TimedOut, Counted, Known, Finished, Due;
    InWords(s, e, fd, bincount, now);
  }

  lemma OnlyOne(s: State, e: Pending)
    requires Inv(s) && e in s.list
    ensures forall o :: o in s.list && (o.serial == e.serial || o.fd == e.fd) ==> o == e
  {
    hide Past, Orderly, Spaced, Counted;
    forall o | o in s.list && (o.serial == e.serial || o.fd == e.fd) ensures o == e {
      SameSerial(s.list, o, e);
    }
  }

  lemma SweepOwed(s: State, now: int, ev: Event)
    requires Inv(s) && Recorded(s)
    ensures ev in Logged(s, Sweep(now)) <==> Owed(s.log, s.count, Sweep(now), ev)
  {
    hide Inv, SweepEvents, Waiting, SentAs, UsedUp, TimedOut, Known, Finished, Due;
    SweepEventsExactly(s.list, now);
    if Waiting(s.log, ev.serial) {
      var e :| e in s.list && e.serial == ev.serial;
      WordsOf(s, e, 0, 0, now);
      OnlyOne(s, e);
      assert ev.Resent? && Owed(s.log, s.count, Sweep(now), ev) ==> Explains(e, ev, now);
      assert ev.Dropped? && Owed(s.log, s.count, Sweep(now), ev) ==> Explains(e, ev, now);
    }
    if o :| o in s.list && Explains(o, ev, now) {
      WordsOf(s, o, 0, 0, now);
      assert SentAs(s.log, o.serial, WhatOf(o));
    }
  }

  lemma AckOwed(s: State, fd: int, bincount: int, ev: Event)
    requires Inv(s) && Recorded(s)
    ensures ev in Logged(s, Ack(fd, bincount)) <==> Owed(s.log, s.count, Ack(fd, bincount), ev)
  {
    hide Inv, AckEvents, Waiting, SentWith, Known, Matches;
    ListDistinct(s);
    AckEventsExactly(s.list, fd, bincount);
    if ev.AckSeen? && Waiting(s.log, ev.serial) {
      var e :| e in s.list && e.serial == ev.serial;
      WordsOf(s, e, fd, bincount, 0);
      OnlyOne(s, e);
    }
    if o :| o in s.list && Matches(o, fd, bincount) && ev == AckSeen(o.serial) {
      WordsOf(s, o, fd, bincount, 0);
    }
  }

  lemma ListDistinct(s: State)
    requires Inv(s)
    ensures AckProtocol.Distinct(s.list)
    ensures forall ev :: ev in s.log ==> ev.serial < s.count
    ensures forall e :: e in s.list ==> e.serial < s.count
  {
  }

  lemma StepOwed(s: State, step: Step, ev: Event)
    requires Inv(s) && Recorded(s)
    ensures ev in Logged(s, step) <==> Owed(s.log, s.count, step, ev)
  {
    hide Inv, Recorded, Logged, Owed;
    match step
    case Add(fd, msg, bincount, at) => AddOwed(s, fd, msg, bincount, at, ev);
    case Sweep(now) => SweepOwed(s, now, ev);
    case Ack(fd, bincount) => AckOwed(s, fd, bincount, ev);
  }

  // ---------------------------------------------------------------- the record is kept

  /** New events that leave what is known of a message alone. */
  lemma KnownLater(log: seq<Event>, more: seq<Event>, e: Pending, e': Pending)
    requires Known(log, e) && e' == e.(acked := e'.acked, lastSent := e'.lastSent, retries := e'.retries)
    requires forall ev :: ev in more ==> !Sending(ev, e.serial)
    requires Dropped(e.serial) !in more
    requires e'.acked <==> e.acked || AckSeen(e.serial) in more
    ensures Known(log + more, e')
  {
  }

  lemma WaitingBefore(log: seq<Event>, more: seq<Event>, n: nat)
    requires Waiting(log + more, n)
    ensures Waiting(log, n) || exists ev :: ev in more && Sending(ev, n)
    ensures Dropped(n) !in more
  {
  }

  lemma AddRecorded(s: State, fd: int, msg: bytes, bincount: int, at: int)
    requires Inv(s) && Recorded(s)
    ensures Recorded(Apply(s, Add(fd, msg, bincount, at)))
  {
    hide Inv, Superseded, Waiting, Known, Without;
    var step := Add(fd, msg, bincount, at);
    var t, more := Apply(s, step), Logged(s, step);
    AppliedLog(s, step);
    ListDistinct(s);
    SupersededFrom(s.list, fd);
    WithoutFrom(s.list, fd);
    forall e | e in t.list ensures Known(t.log, e) {
      if e in Without(s.list, fd) {
        OnlyOne(s, e);
        KnownLater(s.log, more, e, e);
      } else {
        NewKnown(s, fd, msg, bincount, at);
      }
    }
    forall n: nat | Waiting(t.log, n) ensures Listed(t.list, n) {
      WaitingBefore(s.log, more, n);
      if n == s.count {
        assert t.list[0] in t.list;
      } else {
        var e :| e in s.list && e.serial == n;
        assert e.fd != fd;
        assert e in t.list;
      }
    }
  }

  lemma NewKnown(s: State, fd: int, msg: bytes, bincount: int, at: int)
    requires Inv(s)
    ensures var t := Apply(s, Add(fd, msg, bincount, at)); Known(t.log, t.list[0])
  {
    hide Inv, Superseded, Without;
    ListDistinct(s);
    SupersededFrom(s.list, fd);
    var t := Apply(s, Add(fd, msg, bincount, at));
    assert t.list[0] == Pending(s.count, fd, msg, bincount, at, 0, false);
    var last := Sent(s.count, Send(fd, msg), bincount, at);
    assert last in t.log && Sending(last, s.count);
  }

  lemma SweepRecorded(s: State, now: int)
    requires Inv(s) && Recorded(s)
    ensures Recorded(Apply(s, Sweep(now)))
  {
    hide Inv, SweepEvents, Waiting, Known, Swept, Finished, Due;
    var t, more := Apply(s, Sweep(now)), SweepEvents(s.list, now);
    SweepEventsExactly(s.list, now);
    SweptFrom(s.list, now);
    forall e | e in t.list ensures Known(t.log, e) {
      var o :| o in s.list && !Finished(o) && e == Touched(o, now);
      OnlyOne(s, o);
      KnownLater(s.log, more, o, e);
    }
    forall n: nat | Waiting(t.log, n) ensures Listed(t.list, n) {
      WaitingBefore(s.log, more, n);
      var e :| e in s.list && e.serial == n;
      assert Explains(e, Dropped(n), now) <==> Finished(e);
      assert Touched(e, now) in t.list;
    }
  }

  lemma AckRecorded(s: State, fd: int, bincount: int)
    requires Inv(s) && Recorded(s)
    ensures Recorded(Apply(s, Ack(fd, bincount)))
  {
    hide Inv, AckEvents, Waiting, Known, Marked, Matches;
    var t, more := Apply(s, Ack(fd, bincount)), AckEvents(s.list, fd, bincount);
    ListDistinct(s);
    AckEventsExactly(s.list, fd, bincount);
    MarkedAll(s.list, fd, bincount);
    forall i | 0 <= i < |t.list| ensures Known(t.log, t.list[i]) {
      var o := s.list[i];
      OnlyOne(s, o);
      assert AckSeen(o.serial) in more <==> Matches(o, fd, bincount);
      KnownLater(s.log, more, o, t.list[i]);
    }
    forall n: nat | Waiting(t.log, n) ensures Listed(t.list, n) {
      WaitingBefore(s.log, more, n);
      var i :| 0 <= i < |s.list| && s.list[i].serial == n;
      assert t.list[i].serial == n && t.list[i] in t.list;
    }
  }

  lemma StepRecorded(s: State, step: Step)
    requires Inv(s) && Recorded(s)
    ensures Recorded(Apply(s, step))
  {
    hide Inv, Recorded, Apply;
    match step
    case Add(fd, msg, bincount, at) => AddRecorded(s, fd, msg, bincount, at);
    case Sweep(now) => SweepRecorded(s, now);
    case Ack(fd, bincount) => AckRecorded(s, fd, bincount);
  }

  lemma {:induction false} RunRecorded(steps: seq<Step>)
    ensures Recorded(Run(START, steps))
    decreases |steps|
  {
    hide Apply, Recorded, Inv;
    if steps == [] {
      StartRecorded();
    } else {
      var front := steps[..|steps| - 1];
      RunRecorded(front);
      RunInv(front);
      StepRecorded(Run(START, front), steps[|steps| - 1]);
    }
  }

  lemma StartRecorded()
    ensures Recorded(START)
  {
  }

  // ---------------------------------------------------------------- every run

  /** In every run a step adds to the log exactly the events it owes: an acknowledgement is recorded
      for the message that is waiting and was sent to that client with that count, and for no other; a
      sweep sends again every waiting message that is not acknowledged, not used up and timed out, and
      drops every one that is acknowledged or used up; a new message drops the client's old one. */
  lemma LogExact(steps: seq<Step>, step: Step)
    ensures var s, t := Run(START, steps), Run(START, steps + [step]);
      && s.log <= t.log
      && forall ev :: ev in t.log[|s.log|..] <==> Owed(s.log, s.count, step, ev)
  {
    hide Run, Inv, Recorded, Logged, Owed, Apply;
    var s, t := Run(START, steps), Run(START, steps + [step]);
    OneStep(START, steps, step);
    RunInv(steps);
    RunRecorded(steps);
    AppliedLog(s, step);
    assert t.log[|s.log|..] == Logged(s, step);
    forall ev ensures ev in t.log[|s.log|..] <==> Owed(s.log, s.count, step, ev) {
      StepOwed(s, step, ev);
    }
  }

  /** In every run the list holds exactly the messages that wait, one entry each, as they were sent,
      and the mark stands exactly where an acknowledgement was recorded. */
  lemma ListExact(steps: seq<Step>, n: nat)
    ensures var s := Run(START, steps);
      && (Listed(s.list, n) <==> Waiting(s.log, n))
      && forall e :: e in s.list && e.serial == n ==>
           && SentWith(s.log, n, e.fd, e.bincount) && SentAs(s.log, n, Send(e.fd, e.msg))
           && (e.acked <==> AckSeen(n) in s.log)
           && forall o :: o in s.list && (o.serial == n || o.fd == e.fd) ==> o == e
  {
    hide Run, Inv, Waiting, SentWith, SentAs, UsedUp, TimedOut;
    var s := Run(START, steps);
    RunInv(steps);
    RunRecorded(steps);
    forall e | e in s.list && e.serial == n
      ensures Waiting(s.log, n) && SentWith(s.log, n, e.fd, e.bincount) && SentAs(s.log, n, Send(e.fd, e.msg))
      ensures e.acked <==> AckSeen(n) in s.log
      ensures forall o :: o in s.list && (o.serial == n || o.fd == e.fd) ==> o == e
    {
      WordsOf(s, e, e.fd, e.bincount, 0);
      OnlyOne(s, e);
    }
  }

  /** So an acknowledgement changes the mark of the message that was sent with its count to its client,
      if that one is waiting, and of no other. */
  lemma AckMarks(steps: seq<Step>, fd: int, bincount: int, n: nat)
    ensures var s, t := Run(START, steps), Run(START, steps + [Ack(fd, bincount)]);
      forall e, e' :: e in s.list && e' in t.list && e.serial == n == e'.serial ==>
        (e'.acked <==> e.acked || SentWith(s.log, n, fd, bincount))
  {
    hide Run, Waiting, SentWith, SentAs, UsedUp, TimedOut;
    var s, t := Run(START, steps), Run(START, steps + [Ack(fd, bincount)]);
    ListExact(steps, n);
    ListExact(steps + [Ack(fd, bincount)], n);
    LogExact(steps, Ack(fd, bincount));
    assert t.log == s.log + t.log[|s.log|..];
  }

  /** Step `k` is an acknowledgement of message `n`, while that waits, from its client and with its
      count. */
  ghost predicate Acknowledges(steps: seq<Step>, k: nat, n: nat)
    requires k < |steps|
  {
    var log := Run(START, steps[..k]).log;
    steps[k].Ack? && Waiting(log, n) && SentWith(log, n, steps[k].fd, steps[k].bincount)
  }

  /** A message counts as acknowledged exactly if a matching acknowledgement came while it waited. */
  lemma {:induction false} AckedExactly(steps: seq<Step>, n: nat)
    ensures AckSeen(n) in Run(START, steps).log <==> exists k :: 0 <= k < |steps| && Acknowledges(steps, k, n)
    decreases |steps|
  {
    hide Run, Waiting, SentWith, SentTo, SentAs, UsedUp, TimedOut;
    if steps == [] {
      NoSteps(START);
    } else {
      var last := |steps| - 1;
      var front, step := steps[..last], steps[last];
      AckedExactly(front, n);
      LogExact(front, step);
      assert steps == front + [step];
      var s, t := Run(START, front), Run(START, steps);
      assert t.log == s.log + t.log[|s.log|..];
      assert AckSeen(n) in t.log[|s.log|..] <==> Acknowledges(steps, last, n);
      forall k | 0 <= k < last ensures Acknowledges(steps, k, n) <==> Acknowledges(front, k, n) {
        assert steps[..k] == front[..k];
      }
    }
  }

  /** Without one, every sweep that comes late enough sends the waiting message again, unchanged, until
      it has been sent three times more; and nothing else is recorded of it. */
  lemma SentAgain(steps: seq<Step>, now: int, n: nat, what: Send)
    requires var log := Run(START, steps).log; Waiting(log, n) && SentAs(log, n, what)
    requires forall k :: 0 <= k < |steps| ==> !Acknowledges(steps, k, n)
    ensures var log, later := Run(START, steps).log, Run(START, steps + [Sweep(now)]).log;
      && (Resent(n, what, now) in later[|log|..] <==> !UsedUp(log, n) && TimedOut(log, n, now))
      && (Dropped(n) in later[|log|..] <==> UsedUp(log, n))
  {
    hide Run, Waiting, SentAs, UsedUp, TimedOut, Acknowledges;
    AckedExactly(steps, n);
    LogExact(steps, Sweep(now));
  }
}
