/** Any number of threads on one ring queue. */
module RingProtocol {
  import opened RingBuffers

  // A locked section is one step; a condition wait is falling asleep, being signalled, woken or timed
  // out, and running again.

  datatype Role = Producer | Consumer

  /** Where a call stands. `Signalled`: chosen by `pthread_cond_signal`, not run yet. `Woken`: up
      again without a signal of its own. `Expired`: its timed wait has returned `ETIMEDOUT`. */
  datatype Phase = Entering | Asleep | Signalled | Woken | Expired | Done(ok: bool)

  /** One call of `rb_push` or `rb_pop` or of their timed forms. For a consumer, `item` is where the
      result goes. */
  datatype Call<T> = Call(role: Role, item: T, timed: bool, phase: Phase)

  datatype Entry<T> = Entry(call: nat, item: T)

  /** The ring, all calls ever made, and what was stored and taken so far, in order. */
  datatype State<T> = State(ring: Ring<T>, calls: seq<Call<T>>, pushed: seq<Entry<T>>, popped: seq<Entry<T>>)

  datatype Step<T> =
    | Enter(role: Role, item: T, timed: bool)
    | Run(c: nat, wakes: set<nat>)
    | Spurious(c: nat)
    | TimeOut(c: nat)
    | GiveUp(c: nat)
    | Broadcast(role: Role)

  function Other(role: Role): Role {
    if role == Producer then Consumer else Producer
  }

  /** The calls of a role in a phase. */
  ghost function In<T>(calls: seq<Call<T>>, role: Role, phase: Phase): set<nat> {
    set c | 0 <= c < |calls| && calls[c].role == role && calls[c].phase == phase
  }

  /** The condition of the wait loop. */
  ghost predicate Blocked<T>(r: Ring<T>, role: Role) {
    if role == Producer then r.cnt == |r.buf| else r.cnt == 0
  }

  /** How many calls of a role could go through. */
  ghost function Room<T>(r: Ring<T>, role: Role): int {
    if role == Producer then |r.buf| - r.cnt else r.cnt
  }

  function SetPhase<T>(calls: seq<Call<T>>, c: nat, phase: Phase): seq<Call<T>>
    requires c < |calls|
  {
    calls[c := calls[c].(phase := phase)]
  }

  ghost function Wake<T>(calls: seq<Call<T>>, who: set<nat>, phase: Phase): seq<Call<T>> {
    seq(|calls|, c requires 0 <= c < |calls| => if c in who then calls[c].(phase := phase) else calls[c])
  }

  /** The section behind the wait loop, without its signal. */
  ghost function Section<T>(s: State<T>, c: nat): State<T>
    requires c < |s.calls| && Shaped(s.ring) && !Blocked(s.ring, s.calls[c].role)
  {
    if s.calls[c].role == Producer then
      PutAppends(s.ring, s.calls[c].item);
      State(Put(s.ring, s.calls[c].item), SetPhase(s.calls, c, Done(true)), s.pushed + [Entry(c, s.calls[c].item)],
        s.popped)
    else
      var item := s.ring.buf[s.ring.head];
      State(Drop(s.ring), s.calls[c := s.calls[c].(item := item, phase := Done(true))], s.pushed,
        s.popped + [Entry(c, item)])
  }

  ghost predicate Init<T>(s: State<T>) {
    s.ring.head == s.ring.tail == s.ring.cnt == 0 && s.calls == [] && s.pushed == [] && s.popped == []
  }

  ghost predicate Next<T>(s: State<T>, s': State<T>, step: Step<T>)
    requires Shaped(s.ring)
  {
    match step
    case Enter(role, item, timed) => s' == s.(calls := s.calls + [Call(role, item, timed, Entering)])
    case Run(c, wakes) => RunStep(s, s', c, wakes)
    case Spurious(c) => c < |s.calls| && s.calls[c].phase == Asleep && s' == s.(calls := SetPhase(s.calls, c, Woken))
    case TimeOut(c) =>
      && c < |s.calls| && s.calls[c].phase == Asleep && s.calls[c].timed
      && s' == s.(calls := SetPhase(s.calls, c, Expired))
    case GiveUp(c) => c < |s.calls| && s.calls[c].phase == Expired
      && s' == s.(calls := SetPhase(s.calls, c, Done(false)))
    case Broadcast(role) => s' == s.(calls := Wake(s.calls, In(s.calls, role, Asleep), Woken))
  }

  /** A call gets the lock: it goes to sleep, or goes through and signals at least one sleeper of the
      other side, if there is one. */
  ghost predicate RunStep<T>(s: State<T>, s': State<T>, c: nat, wakes: set<nat>)
    requires Shaped(s.ring)
  {
    && c < |s.calls| && s.calls[c].phase in {Entering, Signalled, Woken}
    && if Blocked(s.ring, s.calls[c].role) then s' == s.(calls := SetPhase(s.calls, c, Asleep))
       else
         var t := Section(s, c);
         var sleepers := In(t.calls, Other(s.calls[c].role), Asleep);
         wakes <= sleepers && (wakes == {} ==> sleepers == {}) && s' == t.(calls := Wake(t.calls, wakes, Signalled))
  }

  // ---------------------------------------------------------------- invariant

  function Items<T>(log: seq<Entry<T>>): (r: seq<T>)
    ensures |r| == |log|
  {
    seq(|log|, i requires 0 <= i < |log| => log[i].item)
  }

  /** What was stored is what was taken, followed by what is there. */
  ghost predicate Fifo<T>(s: State<T>) {
    Shaped(s.ring) && Items(s.pushed) == Items(s.popped) + Contents(s.ring)
  }

  /** The log of a role holds the calls of that role that went through, each once, and nothing else. */
  ghost predicate Logged<T>(calls: seq<Call<T>>, log: seq<Entry<T>>, role: Role) {
    && (forall i :: 0 <= i < |log| ==>
          && log[i].call < |calls|
          && calls[log[i].call].role == role && calls[log[i].call].phase == Done(true)
          && calls[log[i].call].item == log[i].item)
    && (forall i, j :: 0 <= i < j < |log| ==> log[i].call != log[j].call)
    && (forall c :: 0 <= c < |calls| && calls[c].role == role && calls[c].phase == Done(true) ==>
          exists i :: 0 <= i < |log| && log[i].call == c)
  }

  /** While a call of a role sleeps, no more calls could go through than are already signalled. */
  ghost predicate NoLostWakeup<T>(s: State<T>, role: Role) {
    In(s.calls, role, Asleep) != {} ==> Room(s.ring, role) <= |In(s.calls, role, Signalled)|
  }

  /** Only timed calls give up. */
  ghost predicate TimedOnly<T>(calls: seq<Call<T>>) {
    forall c :: 0 <= c < |calls| && calls[c].phase in {Expired, Done(false)} ==> calls[c].timed
  }

  ghost predicate Inv<T>(s: State<T>) {
    && Fifo(s)
    && Logged(s.calls, s.pushed, Producer) && Logged(s.calls, s.popped, Consumer)
    && NoLostWakeup(s, Producer) && NoLostWakeup(s, Consumer)
    && TimedOnly(s.calls)
  }

  lemma InitInv<T>(s: State<T>)
    requires Init(s)
    ensures Inv(s)
  {
    assert Contents(s.ring) == [];
  }

  /** One call changes its phase. */
  lemma Moved<T>(calls: seq<Call<T>>, c: nat, phase: Phase, role: Role, p: Phase)
    requires c < |calls|
    ensures In(SetPhase(calls, c, phase), role, p)
      == In(calls, role, p) - {c} + (if calls[c].role == role && phase == p then {c} else {})
  {
  }

  /** Sleepers of a role are signalled. */
  lemma Roused<T>(calls: seq<Call<T>>, who: set<nat>, phase: Phase, side: Role, role: Role)
    requires phase != Asleep && who <= In(calls, side, Asleep)
    ensures role != side ==> In(Wake(calls, who, phase), role, Asleep) == In(calls, role, Asleep)
    ensures role != side ==> In(Wake(calls, who, phase), role, Signalled) == In(calls, role, Signalled)
    ensures role == side ==> In(Wake(calls, who, phase), role, Asleep) == In(calls, role, Asleep) - who
    ensures role == side && phase == Signalled ==>
      In(Wake(calls, who, phase), role, Signalled) == In(calls, role, Signalled) + who
        && In(calls, role, Signalled) !! who
  {
  }

  /** A log does not see calls that move between unfinished phases. */
  lemma LoggedMoved<T>(calls: seq<Call<T>>, calls': seq<Call<T>>, log: seq<Entry<T>>, role: Role)
    requires Logged(calls, log, role) && |calls| <= |calls'|
    requires forall c :: 0 <= c < |calls| ==> calls'[c].role == calls[c].role
    requires forall c :: 0 <= c < |calls| ==>
      calls'[c] == calls[c] || (calls[c].phase != Done(true) && calls'[c].phase != Done(true))
    requires forall c :: |calls| <= c < |calls'| ==> calls'[c].phase != Done(true)
    ensures Logged(calls', log, role)
  {
    forall i | 0 <= i < |log| ensures calls'[log[i].call] == calls[log[i].call] {
      assert log[i].call < |calls|;
    }
  }

  /** A call that goes through is added to the log of its role. */
  lemma LoggedAdded<T>(calls: seq<Call<T>>, log: seq<Entry<T>>, role: Role, c: nat, item: T)
    requires Logged(calls, log, role) && c < |calls| && calls[c].role == role && calls[c].phase != Done(true)
    ensures Logged(calls[c := calls[c].(item := item, phase := Done(true))], log + [Entry(c, item)], role)
  {
    var calls', log' := calls[c := calls[c].(item := item, phase := Done(true))], log + [Entry(c, item)];
    assert log'[|log|].call == c;
    forall d | 0 <= d < |calls'| && calls'[d].role == role && calls'[d].phase == Done(true)
      ensures exists i :: 0 <= i < |log'| && log'[i].call == d
    {
      if d != c {
        var i :| 0 <= i < |log| && log[i].call == d;
        assert log'[i].call == d;
      }
    }
  }

  /** A step that only moves one call between unfinished phases, away from `Asleep`. */
  lemma MovePreserves<T>(s: State<T>, c: nat, phase: Phase)
    requires Inv(s) && c < |s.calls| && s.calls[c].phase in {Asleep, Expired} && phase in {Woken, Expired, Done(false)}
    requires phase in {Expired, Done(false)} ==> s.calls[c].timed
    ensures Inv(s.(calls := SetPhase(s.calls, c, phase)))
  {
    hide Logged, NoLostWakeup, Contents, Items, Shaped;
    var calls' := SetPhase(s.calls, c, phase);
    LoggedMoved(s.calls, calls', s.pushed, Producer);
    LoggedMoved(s.calls, calls', s.popped, Consumer);
    MoveWakes(s, c, phase, Producer);
    MoveWakes(s, c, phase, Consumer);
  }

  lemma MoveWakes<T>(s: State<T>, c: nat, phase: Phase, role: Role)
    requires NoLostWakeup(s, role) && c < |s.calls| && s.calls[c].phase in {Asleep, Expired}
    requires phase in {Woken, Expired, Done(false)}
    ensures NoLostWakeup(s.(calls := SetPhase(s.calls, c, phase)), role)
  {
    hide In, SetPhase;
    Moved(s.calls, c, phase, role, Asleep);
    Moved(s.calls, c, phase, role, Signalled);
    Elsewhere(s.calls, c, role, Signalled);
    assert In(s.calls, role, Signalled) - {c} == In(s.calls, role, Signalled);
  }

  lemma Elsewhere<T>(calls: seq<Call<T>>, c: nat, role: Role, p: Phase)
    requires c < |calls| && calls[c].phase != p
    ensures c !in In(calls, role, p)
  {
  }

  lemma EnterPreserves<T>(s: State<T>, role: Role, item: T, timed: bool)
    requires Inv(s)
    ensures Inv(s.(calls := s.calls + [Call(role, item, timed, Entering)]))
  {
    hide Logged;
    var calls' := s.calls + [Call(role, item, timed, Entering)];
    LoggedMoved(s.calls, calls', s.pushed, Producer);
    LoggedMoved(s.calls, calls', s.popped, Consumer);
    assert forall r: Role, p: Phase :: p != Entering ==> In(calls', r, p) == In(s.calls, r, p);
  }

  lemma BroadcastPreserves<T>(s: State<T>, role: Role)
    requires Inv(s)
    ensures Inv(s.(calls := Wake(s.calls, In(s.calls, role, Asleep), Woken)))
  {
    hide Logged;
    var calls' := Wake(s.calls, In(s.calls, role, Asleep), Woken);
    LoggedMoved(s.calls, calls', s.pushed, Producer);
    LoggedMoved(s.calls, calls', s.popped, Consumer);
    Roused(s.calls, In(s.calls, role, Asleep), Woken, role, Producer);
    Roused(s.calls, In(s.calls, role, Asleep), Woken, role, Consumer);
  }

  /** Going to sleep. */
  lemma SleepPreserves<T>(s: State<T>, c: nat)
    requires Inv(s) && c < |s.calls| && s.calls[c].phase in {Entering, Signalled, Woken}
    requires Blocked(s.ring, s.calls[c].role)
    ensures Inv(s.(calls := SetPhase(s.calls, c, Asleep)))
  {
    hide Logged;
    var calls' := SetPhase(s.calls, c, Asleep);
    LoggedMoved(s.calls, calls', s.pushed, Producer);
    LoggedMoved(s.calls, calls', s.popped, Consumer);
    forall role | role != s.calls[c].role ensures NoLostWakeup(s.(calls := calls'), role) {
      Moved(s.calls, c, Asleep, role, Asleep);
      Moved(s.calls, c, Asleep, role, Signalled);
      assert c !in In(s.calls, role, Asleep) && c !in In(s.calls, role, Signalled);
      assert In(calls', role, Asleep) == In(s.calls, role, Asleep)
        && In(calls', role, Signalled) == In(s.calls, role, Signalled);
      assert role == Producer || role == Consumer;
    }
  }

  /** Going through: storing or taking one item keeps the queue. */
  lemma SectionFifo<T>(s: State<T>, c: nat)
    requires Fifo(s) && c < |s.calls| && !Blocked(s.ring, s.calls[c].role)
    ensures Fifo(Section(s, c))
    ensures Room(Section(s, c).ring, s.calls[c].role) == Room(s.ring, s.calls[c].role) - 1
    ensures Room(Section(s, c).ring, Other(s.calls[c].role)) == Room(s.ring, Other(s.calls[c].role)) + 1
  {
    var t := Section(s, c);
    if s.calls[c].role == Producer {
      PutAppends(s.ring, s.calls[c].item);
      assert Items(t.pushed) == Items(s.pushed) + [s.calls[c].item];
    } else {
      DropRemoves(s.ring);
      assert Items(t.popped) == Items(s.popped) + [s.ring.buf[s.ring.head]];
    }
  }

  lemma SectionLogged<T>(s: State<T>, c: nat)
    requires Shaped(s.ring) && Logged(s.calls, s.pushed, Producer) && Logged(s.calls, s.popped, Consumer)
    requires c < |s.calls| && !Blocked(s.ring, s.calls[c].role) && s.calls[c].phase in {Entering, Signalled, Woken}
    ensures Logged(Section(s, c).calls, Section(s, c).pushed, Producer)
    ensures Logged(Section(s, c).calls, Section(s, c).popped, Consumer)
  {
    hide Put, Drop, Contents;
    var t := Section(s, c);
    if s.calls[c].role == Producer {
      LoggedAdded(s.calls, s.pushed, Producer, c, s.calls[c].item);
      LoggedOther(s.calls, t.calls, s.popped, Consumer, c);
    } else {
      LoggedAdded(s.calls, s.popped, Consumer, c, t.calls[c].item);
      LoggedOther(s.calls, t.calls, s.pushed, Producer, c);
    }
  }

  lemma LoggedOther<T>(calls: seq<Call<T>>, calls': seq<Call<T>>, log: seq<Entry<T>>, role: Role, c: nat)
    requires Logged(calls, log, role) && c < |calls| == |calls'| && calls[c].role != role && calls'[c].role != role
    requires forall d :: 0 <= d < |calls| && d != c ==> calls'[d] == calls[d]
    ensures Logged(calls', log, role)
  {
  }

  /** Going through, with the signal: each side's bound holds again. */
  lemma SignalCovers<T>(s: State<T>, c: nat, wakes: set<nat>, role: Role)
    requires Fifo(s) && NoLostWakeup(s, role)
    requires c < |s.calls| && !Blocked(s.ring, s.calls[c].role) && s.calls[c].phase in {Entering, Signalled, Woken}
    requires
      var sleepers := In(Section(s, c).calls, Other(s.calls[c].role), Asleep);
      wakes <= sleepers && (wakes == {} ==> sleepers == {})
    ensures var t := Section(s, c); NoLostWakeup(t.(calls := Wake(t.calls, wakes, Signalled)), role)
  {
    hide Put, Drop, Contents;
    var t, me := Section(s, c), s.calls[c].role;
    SectionFifo(s, c);
    SectionPhases(s, c, role);
    Roused(t.calls, wakes, Signalled, Other(me), role);
    if role != me && wakes != {} {
      Nonempty(wakes);
    }
  }

  lemma Nonempty(s: set<nat>)
    requires s != {}
    ensures |s| >= 1
  {
  }

  lemma SectionPhases<T>(s: State<T>, c: nat, role: Role)
    requires Shaped(s.ring) && c < |s.calls| && !Blocked(s.ring, s.calls[c].role)
    requires s.calls[c].phase in {Entering, Signalled, Woken}
    ensures In(Section(s, c).calls, role, Asleep) == In(s.calls, role, Asleep)
    ensures In(Section(s, c).calls, role, Signalled) == In(s.calls, role, Signalled) - {c}
    ensures role != s.calls[c].role ==> c !in In(s.calls, role, Signalled)
  {
    hide Put, Drop, Contents;
  }

  lemma ThroughPreserves<T>(s: State<T>, c: nat, wakes: set<nat>)
    requires Inv(s) && c < |s.calls| && !Blocked(s.ring, s.calls[c].role)
    requires s.calls[c].phase in {Entering, Signalled, Woken}
    requires
      var sleepers := In(Section(s, c).calls, Other(s.calls[c].role), Asleep);
      wakes <= sleepers && (wakes == {} ==> sleepers == {})
    ensures var t := Section(s, c); Inv(t.(calls := Wake(t.calls, wakes, Signalled)))
  {
    hide Put, Drop, Contents, Logged, NoLostWakeup;
    var t := Section(s, c);
    SectionFifo(s, c);
    SectionLogged(s, c);
    SignalCovers(s, c, wakes, Producer);
    SignalCovers(s, c, wakes, Consumer);
    LoggedMoved(t.calls, Wake(t.calls, wakes, Signalled), t.pushed, Producer);
    LoggedMoved(t.calls, Wake(t.calls, wakes, Signalled), t.popped, Consumer);
  }

  /** Every step keeps the invariant and the capacity. */
  lemma NextPreserves<T>(s: State<T>, s': State<T>, step: Step<T>)
    requires Inv(s) && Next(s, s', step)
    ensures Inv(s') && |s'.ring.buf| == |s.ring.buf|
    ensures s.pushed <= s'.pushed && s.popped <= s'.popped
  {
    hide Inv, Logged, NoLostWakeup, Contents;
    InvParts(s);
    match step
    case Enter(role, item, timed) => EnterPreserves(s, role, item, timed);
    case Run(c, wakes) =>
      if Blocked(s.ring, s.calls[c].role) {
        SleepPreserves(s, c);
      } else {
        ThroughPreserves(s, c, wakes);
      }
    case Spurious(c) => MovePreserves(s, c, Woken);
    case TimeOut(c) => MovePreserves(s, c, Expired);
    case GiveUp(c) => MovePreserves(s, c, Done(false));
    case Broadcast(role) => BroadcastPreserves(s, role);
  }

  lemma InvParts<T>(s: State<T>)
    requires Inv(s)
    ensures Shaped(s.ring) && TimedOnly(s.calls)
  {
  }

  // ---------------------------------------------------------------- what a step does to producers

  /** The step in which a producer stores its item. */
  ghost predicate Stores<T>(s: State<T>, step: Step<T>)
    requires Shaped(s.ring)
  {
    step.Run? && step.c < |s.calls| && s.calls[step.c].role == Producer && !Blocked(s.ring, Producer)
  }

  ghost predicate SameProducer<T>(a: Call<T>, b: Call<T>) {
    && a.role == b.role && a.timed == b.timed && (a.role == Producer ==> a.item == b.item)
    && (a.phase == Done(true) ==> b.phase == Done(true))
  }

  /** Calls keep what they were made with. A step stores nothing, or the item of the one producer that
      thereby finishes. */
  lemma ProducerEffects<T>(s: State<T>, s': State<T>, step: Step<T>)
    requires Shaped(s.ring) && Next(s, s', step)
    ensures |s.calls| <= |s'.calls| <= |s.calls| + 1
    ensures forall d :: 0 <= d < |s.calls| ==> SameProducer(s.calls[d], s'.calls[d])
    ensures Stores(s, step) ==> s'.pushed == s.pushed + [Entry(step.c, s.calls[step.c].item)]
    ensures Stores(s, step) ==> s.calls[step.c].phase != Done(true) && s'.calls[step.c].phase == Done(true)
    ensures !Stores(s, step) ==> s'.pushed == s.pushed
    ensures forall d :: 0 <= d < |s.calls| && s.calls[d].role == Producer && s.calls[d].phase != Done(true) ==>
      (s'.calls[d].phase == Done(true) <==> Stores(s, step) && d == step.c)
    ensures |s'.calls| > |s.calls| ==>
      && step.Enter? && s'.calls[|s.calls|] == Call(step.role, step.item, step.timed, Entering)
  {
    hide Put, Drop, Contents;
  }

  // ---------------------------------------------------------------- runs

  /** A run from an empty ring. Nothing is asked of a step out of a state whose indices are wrong, so
      that every theorem about runs has to show that there is no such state. */
  ghost predicate IsRun<T>(run: seq<State<T>>, steps: seq<Step<T>>) {
    && |run| == |steps| + 1 && Init(run[0])
    && forall i :: 0 <= i < |steps| ==> Shaped(run[i].ring) ==> Next(run[i], run[i + 1], steps[i])
  }

  lemma {:induction false} RunInv<T>(run: seq<State<T>>, steps: seq<Step<T>>, i: nat)
    requires IsRun(run, steps) && i < |run|
    ensures Inv(run[i]) && |run[i].ring.buf| == |run[0].ring.buf|
  {
    hide Inv, Next;
    InitInv(run[0]);
    if i > 0 {
      RunInv(run, steps, i - 1);
      InvParts(run[i - 1]);
      NextPreserves(run[i - 1], run[i], steps[i - 1]);
    }
  }

  /** Logs only grow. */
  lemma {:induction false} RunGrows<T>(run: seq<State<T>>, steps: seq<Step<T>>, i: nat, j: nat)
    requires IsRun(run, steps) && i <= j < |run|
    ensures run[i].pushed <= run[j].pushed && run[i].popped <= run[j].popped
    decreases j - i
  {
    hide Inv, Next;
    if i < j {
      RunGrows(run, steps, i, j - 1);
      RunInv(run, steps, j - 1);
      InvParts(run[j - 1]);
      NextPreserves(run[j - 1], run[j], steps[j - 1]);
    }
  }

  /** At every moment of every run the items taken are the first items stored, in order, and the rest
      is what the ring holds. */
  lemma QueueIsFifo<T>(run: seq<State<T>>, steps: seq<Step<T>>, i: nat)
    requires IsRun(run, steps) && i < |run|
    ensures var s := run[i];
      && Shaped(s.ring) && |s.ring.buf| == |run[0].ring.buf|
      && Items(s.popped) <= Items(s.pushed) && Contents(s.ring) == Items(s.pushed)[|s.popped|..]
  {
    hide Contents, Logged, NoLostWakeup, Items;
    RunInv(run, steps, i);
  }

  ghost predicate LoggedOnce<T>(log: seq<Entry<T>>, c: nat, item: T) {
    exists i :: 0 <= i < |log| && log[i] == Entry(c, item) && forall j :: 0 <= j < |log| && log[j].call == c ==> j == i
  }

  /** A call that went through, and no other, moved exactly one item, the one it carries. A call that
      returned 0 was a timed one and moved nothing, now or earlier in the run. */
  lemma ExactlyOnce<T>(run: seq<State<T>>, steps: seq<Step<T>>, i: nat, c: nat)
    requires IsRun(run, steps) && i < |run| && c < |run[i].calls|
    ensures var s, call := run[i], run[i].calls[c];
      && (call.phase == Done(true) ==> LoggedOnce(if call.role == Producer then s.pushed else s.popped, c, call.item))
      && (call.phase == Done(false) ==> call.timed)
    ensures run[i].calls[c].phase != Done(true) || run[i].calls[c].role == Consumer ==>
      forall k, j :: 0 <= k <= i && 0 <= j < |run[k].pushed| ==> run[k].pushed[j].call != c
    ensures run[i].calls[c].phase != Done(true) || run[i].calls[c].role == Producer ==>
      forall k, j :: 0 <= k <= i && 0 <= j < |run[k].popped| ==> run[k].popped[j].call != c
  {
    hide Contents, NoLostWakeup, Next;
    RunInv(run, steps, i);
    var call := run[i].calls[c];
    if call.phase == Done(true) {
      var log := if call.role == Producer then run[i].pushed else run[i].popped;
      var k :| 0 <= k < |log| && log[k].call == c;
      assert log[k] == Entry(c, call.item);
    }
    forall k | 0 <= k <= i ensures run[k].pushed <= run[i].pushed && run[k].popped <= run[i].popped {
      RunGrows(run, steps, k, i);
    }
  }

  /** When every signalled call has run, whoever sleeps has to: consumers at an empty ring, producers
      at a full one, and never both unless the ring has no room at all. */
  lemma NobodySleepsInVain<T>(run: seq<State<T>>, steps: seq<Step<T>>, i: nat)
    requires IsRun(run, steps) && i < |run|
    requires In(run[i].calls, Producer, Signalled) == {} == In(run[i].calls, Consumer, Signalled)
    ensures var s := run[i];
      && (In(s.calls, Consumer, Asleep) != {} ==> s.ring.cnt == 0)
      && (In(s.calls, Producer, Asleep) != {} ==> s.ring.cnt == |s.ring.buf|)
      && (In(s.calls, Consumer, Asleep) != {} && In(s.calls, Producer, Asleep) != {} ==> |run[0].ring.buf| == 0)
  {
    hide Contents, Logged, Next;
    RunInv(run, steps, i);
  }

  /** With signals under way, no more calls of a role could go through than are signalled. */
  lemma SleepersCovered<T>(run: seq<State<T>>, steps: seq<Step<T>>, i: nat, role: Role)
    requires IsRun(run, steps) && i < |run| && In(run[i].calls, role, Asleep) != {}
    ensures Room(run[i].ring, role) <= |In(run[i].calls, role, Signalled)|
  {
    hide Contents, Logged, Next;
    RunInv(run, steps, i);
    assert role == Producer || role == Consumer;
  }
}
