/** The countdown scheduler refines the reference scheduler. */
module Refinement {
  import opened Machine
  import opened TimerTable
  import N = NaiveScheduler
  import C = CountdownScheduler

  /** The null timer keeps a deadline within 32 bits of the last event. */
  predicate NullTimerRuns(s: C.State) {
    var t := s.table.slots[0];
    && t.inUse && t.active && t.continuous && t.handler.NullTimer?
    && t.period == NULL_INTERVAL
    && t.timeToFire <= s.total + NULL_INTERVAL
  }

  ghost predicate Valid(s: C.State) {
    && 1 <= s.countdown <= s.period
    && NullTimerRuns(s)
    && (forall i :: 0 <= i < s.table.num ==> s.table.slots[i].period >= 1)
    && (forall i :: 0 <= i < s.table.num && s.table.slots[i].active ==>
                      s.table.slots[i].timeToFire >= s.total + s.period)
  }

  function Abs(s: C.State): N.Clock {
    N.Clock(C.TimeTicks(s), s.table, s.log)
  }

  function AbsOutcome(o: Outcome<C.State>): Outcome<N.Clock> {
    match o
    case Ok(s) => Ok(Abs(s))
    case Fail(f) => Fail(f)
  }

  /** `fast` is what the reference does, and the invariant holds again, unless
      the reference leaves the 64-bit clock. */
  ghost predicate Follows(fast: Outcome<C.State>, naive: Outcome<N.Clock>) {
    || naive == Fail(ClockOverflow)
    || (AbsOutcome(fast) == naive && (fast.Ok? ==> Valid(fast.value)))
  }

  lemma InitialValid()
    ensures Valid(C.Initial())
    ensures Abs(C.Initial()).now == 0
  {
  }

  lemma TimeIsExact(s: C.State)
    requires Valid(s)
    ensures C.TimeTicks(s) == s.total + s.period - s.countdown
    ensures s.total + s.period <= s.table.slots[0].timeToFire
  {
  }

  /** Storing an armed timer and skewing the counters keeps the invariant and
      the time exactly when the deadline fits 64 bits. */
  lemma ArmKeepsValid(s: C.State, s': C.State, slot: nat, t: Timer, ticks: u64)
    requires Valid(s) && 1 <= slot < s'.table.num && 1 <= ticks
    requires s'.table.slots == s.table.slots[slot := t]
    requires s.table.num == s'.table.num || (slot == s.table.num && s'.table.num == slot + 1)
    requires s' == s.(table := s'.table)
    requires t.active && t.period == ticks && t.timeToFire == Wrap64(C.TimeTicks(s) + ticks)
    ensures C.TimeTicks(C.Skew(s', ticks)) == C.TimeTicks(s)
    ensures Valid(C.Skew(s', ticks)) <==> C.TimeTicks(s) + ticks < 0x1_0000_0000_0000_0000
  {
    TimeIsExact(s);
    var k := C.Skew(s', ticks);
    assert k.total + k.period - k.countdown == C.TimeTicks(s);
    assert k.table.slots[slot] == t;
    if C.TimeTicks(s) + ticks < 0x1_0000_0000_0000_0000 {
      assert forall i :: 0 <= i < s'.table.num && i != slot ==> s'.table.slots[i] == s.table.slots[i];
    } else {
      assert t.timeToFire < C.TimeTicks(s) <= k.total + k.period;
    }
  }

  lemma StoreKeepsValid(s: C.State, tb: Table, slot: nat, t: Timer)
    requires Valid(s) && 1 <= slot < 64 && !t.active && t.period >= 1
    requires tb.slots == s.table.slots[slot := t]
    requires tb.num <= s.table.num || (slot == s.table.num && tb.num == slot + 1)
    ensures Valid(s.(table := tb))
  {
    assert forall i :: 0 <= i < tb.num && i != slot ==> tb.slots[i] == s.table.slots[i];
  }

  lemma ArmingStep(env: Env, s: C.State, r: Request)
    requires Valid(s) && Admit(s.table, r).Ok? && Arms(r)
    ensures C.Step(env, s, r).Ok?
    ensures C.TimeTicks(C.Step(env, s, r).value) == C.TimeTicks(s)
    ensures Valid(C.Step(env, s, r).value)
            <==> C.TimeTicks(s) + TicksFor(env, s.table, r) < 0x1_0000_0000_0000_0000
  {
    var slot := Target(s.table, r);
    var ticks: int := TicksFor(env, s.table, r);
    var tb := Apply(s.table, r, ticks, Wrap64(C.TimeTicks(s) + ticks));
    ArmKeepsValid(s, s.(table := tb), slot, tb.slots[slot], ticks);
  }

  lemma OtherStep(env: Env, s: C.State, r: Request)
    requires Valid(s) && Admit(s.table, r).Ok? && !Arms(r)
    ensures C.Step(env, s, r).Ok?
    ensures C.TimeTicks(C.Step(env, s, r).value) == C.TimeTicks(s)
    ensures Valid(C.Step(env, s, r).value)
  {
    var slot := Target(s.table, r);
    var ticks: int := TicksFor(env, s.table, r);
    var tb := Apply(s.table, r, ticks, Wrap64(C.TimeTicks(s) + ticks));
    assert C.Step(env, s, r) == Ok(s.(table := tb));
    if r.Unregister? && s.table.slots[slot].active {
      assert tb == s.table;
    } else {
      StoreKeepsValid(s, tb, slot, tb.slots[slot]);
    }
  }

  /** A request never moves the clock, and it keeps the invariant if and only if
      it arms no timer past the 64-bit clock. */
  lemma StepExactly(env: Env, s: C.State, r: Request)
    requires Valid(s) && Admit(s.table, r).Ok?
    ensures C.Step(env, s, r).Ok?
    ensures C.TimeTicks(C.Step(env, s, r).value) == C.TimeTicks(s)
    ensures Valid(C.Step(env, s, r).value)
            <==> (Arms(r) ==> C.TimeTicks(s) + TicksFor(env, s.table, r) < 0x1_0000_0000_0000_0000)
  {
    if Arms(r) {
      ArmingStep(env, s, r);
    } else {
      OtherStep(env, s, r);
    }
  }

  lemma StepRefines(env: Env, s: C.State, r: Request)
    requires Valid(s)
    ensures Follows(C.Step(env, s, r), N.Step(env, Abs(s), r))
  {
    if Admit(s.table, r).Ok? {
      StepExactly(env, s, r);
    }
  }

  /** Any script of requests, as a callback issues it. */
  lemma {:induction false} StepsRefine(env: Env, s: C.State, rs: seq<Request>)
    requires Valid(s)
    ensures Follows(C.Steps(env, s, rs), N.Steps(env, Abs(s), rs))
    decreases |rs|
  {
    if rs != [] {
      StepRefines(env, s, rs[0]);
      var f := C.Step(env, s, rs[0]);
      if f.Ok? && N.Step(env, Abs(s), rs[0]).Ok? {
        StepsRefine(env, f.value, rs[1..]);
      }
    }
  }

  /** Callbacks start from the invariant and keep it. */
  lemma {:induction false} DeliverRefines(env: Env, s: C.State, i: nat, marks: seq<bool>)
    requires Valid(s)
    ensures Follows(C.Deliver(env, s, i, marks), N.Deliver(env, Abs(s), i, marks))
    decreases |marks| - i
  {
    if i >= s.table.num || i >= |marks| {
    } else if !marks[i] {
      DeliverRefines(env, s, i + 1, marks);
    } else {
      var h := s.table.slots[i].handler;
      if !h.NoHandler? {
        var log := s.log + [Firing(i, C.TimeTicks(s), h)];
        var s1 := s.(log := log);
        var rs := Script(env, h, log);
        assert Abs(s1) == Abs(s).(log := log);
        StepsRefine(env, s1, rs);
        var f := C.Steps(env, s1, rs);
        if f.Ok? && N.Steps(env, Abs(s1), rs).Ok? {
          DeliverRefines(env, f.value, i + 1, marks);
        }
      }
    }
  }

  /** Right after an event every armed deadline lies ahead. */
  lemma AdvanceMovesAhead(tb: Table, now: u64)
    requires !Overflows(tb, now)
    requires forall i :: 0 <= i < tb.num ==> tb.slots[i].period >= 1
    requires forall i :: 0 <= i < tb.num && tb.slots[i].active ==> tb.slots[i].timeToFire >= now
    ensures forall i :: 0 <= i < tb.num ==> AdvanceAll(tb, now).slots[i].period >= 1
    ensures forall i :: 0 <= i < tb.num && AdvanceAll(tb, now).slots[i].active ==>
                          AdvanceAll(tb, now).slots[i].timeToFire > now
  {
    forall i | 0 <= i < tb.num
      ensures var t := AdvanceAll(tb, now).slots[i]; t.period >= 1 && (t.active ==> t.timeToFire > now)
    {
      var old_t := tb.slots[i];
      assert Due(old_t, now) && old_t.continuous ==> now + old_t.period < 0x1_0000_0000_0000_0000;
    }
  }

  /** Re-arming at an event restores the invariant before any callback runs, and
      the 32-bit gap to the next event is the exact one. */
  lemma RearmedValid(s: C.State)
    requires Valid(s.(countdown := 1))
    requires !Overflows(s.table, Wrap64(s.total + s.period))
    ensures Valid(C.Rearmed(s)) && C.TimeTicks(C.Rearmed(s)) == s.total + s.period
    ensures C.Rearmed(s).countdown
            == C.MinDeadline(C.Rearmed(s).table.slots, s.table.num) - (s.total + s.period)
  {
    TimeIsExact(s.(countdown := 1));
    var now: u64 := Wrap64(s.total + s.period);
    assert now == s.total + s.period;
    AdvanceMovesAhead(s.table, now);
    var tb := AdvanceAll(s.table, now);
    var beat := tb.slots[0];
    assert beat == Advance(s.table.slots[0], now);
    assert beat.active && now < beat.timeToFire <= now + NULL_INTERVAL by {
      assert s.table.slots[0].timeToFire <= s.total + NULL_INTERVAL;
      assert Due(s.table.slots[0], now) ==> now + NULL_INTERVAL < 0x1_0000_0000_0000_0000;
    }
    GapFits(tb, now);
    RearmedIs(s, tb, now);
    FreshCountdownValid(C.Rearmed(s));
  }

  lemma RearmedIs(s: C.State, tb: Table, now: u64)
    requires now == Wrap64(s.total + s.period)
    requires tb.num == s.table.num && tb.slots == AdvanceAll(s.table, now).slots
    ensures var gap := Wrap32(C.MinDeadline(tb.slots, tb.num) as int - now);
            C.Rearmed(s) == C.State(tb, gap, gap, now, s.log)
  {
    hide AdvanceAll, Wrap32, Wrap64;
    assert tb == AdvanceAll(s.table, now);
  }

  lemma FreshCountdownValid(r: C.State)
    requires 1 <= r.countdown == r.period && r.total + r.period == C.MinDeadline(r.table.slots, r.table.num)
    requires NullTimerRuns(r)
    requires forall i :: 0 <= i < r.table.num ==> r.table.slots[i].period >= 1
    ensures Valid(r) && C.TimeTicks(r) == r.total
  {
  }

  lemma GapFits(tb: Table, now: u64)
    requires tb.slots[0].active && tb.slots[0].timeToFire <= now + NULL_INTERVAL
    requires forall i :: 0 <= i < tb.num && tb.slots[i].active ==> tb.slots[i].timeToFire > now
    ensures 1 <= C.MinDeadline(tb.slots, tb.num) - now <= NULL_INTERVAL
    ensures forall i :: 0 <= i < tb.num && tb.slots[i].active ==>
                          tb.slots[i].timeToFire >= C.MinDeadline(tb.slots, tb.num)
  {
  }

  lemma TickUnfolds(env: Env, c: N.Clock, now: u64)
    requires c.now + 1 == now && !Overflows(c.table, now)
    ensures N.Tick(env, c) == N.Deliver(env, N.Clock(now, AdvanceAll(c.table, now), c.log), 0, Marks(c.table, now))
  {
  }

  /** An event does what the reference does on that tick. */
  lemma EventRefines(env: Env, s: C.State)
    requires Valid(s.(countdown := 1))
    ensures Follows(C.Event(env, s), N.Tick(env, Abs(s.(countdown := 1))))
  {
    hide AdvanceAll, Marks, Overflows, C.Rearmed, C.Deliver, N.Deliver;
    TimeIsExact(s.(countdown := 1));
    var now: u64 := Wrap64(s.total + s.period);
    var c := Abs(s.(countdown := 1));
    assert c.now + 1 == now && c.table == s.table && c.log == s.log;
    if !Overflows(s.table, now) {
      RearmedValid(s);
      RearmedIs(s, AdvanceAll(s.table, now), now);
      TickUnfolds(env, c, now);
      DeliverRefines(env, C.Rearmed(s), 0, Marks(s.table, now));
    }
  }

  /** Before the countdown runs out nothing is due: only the clock moves. */
  lemma QuietTick(env: Env, s: C.State)
    requires Valid(s) && s.countdown > 1
    ensures N.Tick(env, Abs(s)) == Ok(Abs(s.(countdown := s.countdown - 1)))
    ensures Valid(s.(countdown := s.countdown - 1))
  {
    TimeIsExact(s);
    var now := C.TimeTicks(s) + 1;
    assert forall i :: 0 <= i < s.table.num ==> !Due(s.table.slots[i], now);
    assert AdvanceAll(s.table, now).slots == s.table.slots;
    var c := N.Clock(now, s.table, s.log);
    NothingMarked(env, c, 0, Marks(s.table, now));
    TimeIsExact(s.(countdown := s.countdown - 1));
  }

  lemma {:induction false} NothingMarked(env: Env, c: N.Clock, i: nat, marks: seq<bool>)
    requires forall k :: 0 <= k < |marks| ==> !marks[k]
    ensures N.Deliver(env, c, i, marks) == Ok(c)
    decreases |marks| - i
  {
    if i < c.table.num && i < |marks| {
      NothingMarked(env, c, i + 1, marks);
    }
  }

  lemma Tick1Refines(env: Env, s: C.State)
    requires Valid(s)
    ensures Follows(C.Tick1(env, s), N.Tick(env, Abs(s)))
  {
    if s.countdown > 1 {
      QuietTick(env, s);
    } else {
      EventRefines(env, s.(countdown := 0));
      assert s.(countdown := 0).(countdown := 1) == s;
    }
  }

  lemma {:induction false} Tick1sRefine(env: Env, s: C.State, n: nat)
    requires Valid(s)
    ensures Follows(C.Tick1s(env, s, n), N.Ticks(env, Abs(s), n))
    decreases n
  {
    if n != 0 {
      Tick1Refines(env, s);
      var f := C.Tick1(env, s);
      if f.Ok? && N.Tick(env, Abs(s)).Ok? {
        Tick1sRefine(env, f.value, n - 1);
      }
    }
  }

  function Then(o: Outcome<C.State>, env: Env, n: nat): Outcome<C.State> {
    var s :- o;
    C.Tick1s(env, s, n)
  }

  lemma {:induction false} Tick1sCompose(env: Env, s: C.State, a: nat, b: nat)
    ensures C.Tick1s(env, s, a + b) == Then(C.Tick1s(env, s, a), env, b)
    decreases a
  {
    if a != 0 && C.Tick1(env, s).Ok? {
      Tick1sCompose(env, C.Tick1(env, s).value, a - 1, b);
    }
  }

  lemma {:induction false} QuietTick1s(env: Env, s: C.State, n: nat)
    requires n < s.countdown
    ensures C.Tick1s(env, s, n) == Ok(s.(countdown := s.countdown - n))
    decreases n
  {
    if n != 0 {
      QuietTick1s(env, s.(countdown := s.countdown - 1), n - 1);
    }
  }

  lemma {:induction false} TicksSplit(env: Env, c: N.Clock, a: nat, b: nat)
    ensures N.Ticks(env, c, a + b)
            == match N.Ticks(env, c, a) case Ok(c') => N.Ticks(env, c', b) case Fail(f) => Fail(f)
    decreases a
  {
    if a != 0 && N.Tick(env, c).Ok? {
      TicksSplit(env, N.Tick(env, c).value, a - 1, b);
    }
  }

  lemma TickAtOne(env: Env, s: C.State)
    requires s.countdown == 1
    ensures C.Tick1s(env, s, 1) == C.Event(env, s.(countdown := 0))
  {
    var e := C.Tick1(env, s);
    assert e.Ok? ==> C.Tick1s(env, e.value, 0) == e;
  }

  lemma LastTickIsEvent(env: Env, s: C.State)
    requires s.countdown >= 1
    ensures C.Tick1s(env, s, s.countdown) == C.Event(env, s.(countdown := 0))
  {
    var cd: nat := s.countdown;
    QuietTick1s(env, s, cd - 1);
    Tick1sCompose(env, s, cd - 1, 1);
    TickAtOne(env, s.(countdown := 1));
  }

  lemma TickNQuiet(env: Env, s: C.State, n: nat)
    requires n < s.countdown
    ensures C.TickN(env, s, n) == Ok(s.(countdown := s.countdown - n))
  {
  }

  lemma TickNMoves(env: Env, s: C.State, n: nat)
    requires s.countdown <= n && C.TickN(env, s, n).Ok?
    ensures 1 <= s.countdown && C.Event(env, s.(countdown := 0)).Ok?
  {
  }

  lemma TickNUnfolds(env: Env, s: C.State, n: nat)
    requires 1 <= s.countdown <= n
    ensures C.TickN(env, s, n)
            == match C.Event(env, s.(countdown := 0))
               case Ok(e) => C.TickN(env, e, n - s.countdown)
               case Fail(f) => Fail(f)
  {
  }

  lemma Tick1sUnfold(env: Env, s: C.State, n: nat)
    requires 1 <= s.countdown <= n
    ensures C.Tick1s(env, s, n)
            == match C.Event(env, s.(countdown := 0))
               case Ok(e) => C.Tick1s(env, e, n - s.countdown)
               case Fail(f) => Fail(f)
  {
    Tick1sCompose(env, s, s.countdown, n - s.countdown);
    LastTickIsEvent(env, s);
  }

  /** One call of tickn is that many calls of tick1: the same counters, the same
      table, the same firings. */
  lemma {:induction false} TickNIsTick1s(env: Env, s: C.State, n: nat)
    requires Valid(s)
    requires N.Ticks(env, Abs(s), n) != Fail(ClockOverflow)
    ensures C.TickN(env, s, n) == C.Tick1s(env, s, n)
    decreases n
  {
    hide C.TickN, C.Tick1s, C.Event, N.Ticks;
    if n < s.countdown {
      QuietTick1s(env, s, n);
      TickNQuiet(env, s, n);
    } else {
      TickNUnfolds(env, s, n);
      Tick1sUnfold(env, s, n);
      var e := C.Event(env, s.(countdown := 0));
      if e.Ok? {
        LastTickIsEvent(env, s);
        NoOverflowAfter(env, s, s.countdown, n);
        TickNIsTick1s(env, e.value, n - s.countdown);
      }
    }
  }

  lemma NoOverflowAfter(env: Env, s: C.State, a: nat, n: nat)
    requires Valid(s) && a <= n
    requires N.Ticks(env, Abs(s), n) != Fail(ClockOverflow)
    requires C.Tick1s(env, s, a).Ok?
    ensures Valid(C.Tick1s(env, s, a).value)
    ensures N.Ticks(env, Abs(C.Tick1s(env, s, a).value), n - a) != Fail(ClockOverflow)
  {
    TicksSplit(env, Abs(s), a, n - a);
    Tick1sRefine(env, s, a);
  }

  lemma TickNRefines(env: Env, s: C.State, n: nat)
    requires Valid(s)
    ensures Follows(C.TickN(env, s, n), N.Ticks(env, Abs(s), n))
  {
    if N.Ticks(env, Abs(s), n) != Fail(ClockOverflow) {
      TickNIsTick1s(env, s, n);
      Tick1sRefine(env, s, n);
    }
  }

  lemma TickNComposes(env: Env, s: C.State, a: nat, b: nat)
    requires Valid(s)
    requires N.Ticks(env, Abs(s), a + b) != Fail(ClockOverflow)
    ensures C.TickN(env, s, a + b)
            == match C.TickN(env, s, a) case Ok(m) => C.TickN(env, m, b) case Fail(f) => Fail(f)
  {
    TicksSplit(env, Abs(s), a, b);
    TickNIsTick1s(env, s, a + b);
    TickNIsTick1s(env, s, a);
    Tick1sRefine(env, s, a);
    Tick1sCompose(env, s, a, b);
    var m := C.TickN(env, s, a);
    if m.Ok? {
      TickNIsTick1s(env, m.value, b);
    }
  }

  lemma ExecuteRefines(env: Env, s: C.State, cmd: Command)
    requires Valid(s)
    ensures Follows(C.Execute(env, s, cmd), N.Execute(env, Abs(s), cmd))
  {
    match cmd
    case Do(r) => StepRefines(env, s, r);
    case Tick1 => Tick1Refines(env, s);
    case TickN(n) => TickNRefines(env, s, n);
  }

  /** The main result: over every run of ticks and requests, with callbacks that
      issue any requests, both schedulers keep the same time and the same table
      and fire the same timers at the same ticks in the same order. */
  lemma {:induction false} RunRefines(env: Env, s: C.State, cmds: seq<Command>)
    requires Valid(s)
    ensures Follows(C.Run(env, s, cmds), N.Run(env, Abs(s), cmds))
    decreases |cmds|
  {
    if cmds != [] {
      ExecuteRefines(env, s, cmds[0]);
      var f := C.Execute(env, s, cmds[0]);
      if f.Ok? && N.Execute(env, Abs(s), cmds[0]).Ok? {
        RunRefines(env, f.value, cmds[1..]);
      }
    }
  }

  lemma {:induction false} StepsKeepTime(env: Env, c: N.Clock, rs: seq<Request>)
    requires N.Steps(env, c, rs).Ok?
    ensures N.Steps(env, c, rs).value.now == c.now
    decreases |rs|
  {
    if rs != [] {
      StepsKeepTime(env, N.Step(env, c, rs[0]).value, rs[1..]);
    }
  }

  lemma {:induction false} DeliverKeepsTime(env: Env, c: N.Clock, i: nat, marks: seq<bool>)
    requires N.Deliver(env, c, i, marks).Ok?
    ensures N.Deliver(env, c, i, marks).value.now == c.now
    decreases |marks| - i
  {
    if i < c.table.num && i < |marks| {
      if !marks[i] {
        DeliverKeepsTime(env, c, i + 1, marks);
      } else {
        var h := c.table.slots[i].handler;
        var log := c.log + [Firing(i, c.now, h)];
        StepsKeepTime(env, c.(log := log), Script(env, h, log));
        DeliverKeepsTime(env, N.Steps(env, c.(log := log), Script(env, h, log)).value, i + 1, marks);
      }
    }
  }

  lemma {:induction false} TicksAdvanceTime(env: Env, c: N.Clock, n: nat)
    requires N.Ticks(env, c, n).Ok?
    ensures N.Ticks(env, c, n).value.now == c.now + n
    decreases n
  {
    if n > 0 {
      var now := c.now + 1;
      DeliverKeepsTime(env, N.Clock(now, AdvanceAll(c.table, now), c.log), 0, Marks(c.table, now));
      TicksAdvanceTime(env, N.Tick(env, c).value, n - 1);
    }
  }

  /** tickn(n) moves the clock by exactly n, whatever the callbacks do. */
  lemma TickNAdvancesTime(env: Env, s: C.State, n: nat)
    requires Valid(s) && N.Ticks(env, Abs(s), n).Ok?
    ensures C.TickN(env, s, n).Ok? && C.TimeTicks(C.TickN(env, s, n).value) == C.TimeTicks(s) + n
  {
    TickNRefines(env, s, n);
    TicksAdvanceTime(env, Abs(s), n);
  }

  /** Re-arming at an event keeps the invariant if and only if no due continuous
      timer needs a deadline past the 64-bit clock. */
  lemma RearmedExactly(s: C.State)
    requires Valid(s.(countdown := 1))
    ensures Valid(C.Rearmed(s)) <==> !Overflows(s.table, Wrap64(s.total + s.period))
  {
    if Overflows(s.table, Wrap64(s.total + s.period)) {
      OverflowInvalidates(s);
    } else {
      RearmedValid(s);
    }
  }

  lemma OverflowInvalidates(s: C.State)
    requires Overflows(s.table, Wrap64(s.total + s.period))
    ensures !Valid(C.Rearmed(s))
  {
    var now: u64 := Wrap64(s.total + s.period);
    var i :| 0 <= i < s.table.num && Due(s.table.slots[i], now) && s.table.slots[i].continuous
             && now + s.table.slots[i].period >= 0x1_0000_0000_0000_0000;
    RearmedSlot(s, i);
    PastDeadline(C.Rearmed(s), i);
  }

  lemma RearmedSlot(s: C.State, i: nat)
    requires i < s.table.num
    ensures var r := C.Rearmed(s); var now := Wrap64(s.total + s.period);
            r.total == now && r.table.num == s.table.num && r.table.slots[i] == Advance(s.table.slots[i], now)
  {
  }

  lemma PastDeadline(s: C.State, i: nat)
    requires i < s.table.num && s.table.slots[i].active && s.table.slots[i].timeToFire < s.total
    ensures !Valid(s)
  {
  }

  /** One tick before the 64-bit clock ends the null timer itself has no next deadline:
      re-arming it wraps, and the invariant is lost. */
  lemma RearmWrapExample()
    ensures var beat := C.Initial().table.slots[0].(timeToFire := 0xffff_ffff_ffff_ffff);
            var tb := C.Initial().table;
            var s := C.State(tb.(slots := tb.slots[0 := beat]), 0, 1, 0xffff_ffff_ffff_fffe, []);
            && Valid(s.(countdown := 1)) && Overflows(s.table, 0xffff_ffff_ffff_ffff)
            && C.Rearmed(s).table.slots[0].timeToFire == 0xffff_fffe
            && !Valid(C.Rearmed(s))
  {
    var beat := C.Initial().table.slots[0].(timeToFire := 0xffff_ffff_ffff_ffff);
    var tb := C.Initial().table;
    var s := C.State(tb.(slots := tb.slots[0 := beat]), 0, 1, 0xffff_ffff_ffff_fffe, []);
    assert Due(s.table.slots[0], 0xffff_ffff_ffff_ffff);
    OverflowInvalidates(s);
  }

  /** An armed deadline that wraps lands in the past: the reference rejects this
      request, the countdown scheduler accepts it and is no longer valid. */
  lemma WrapExample(env: Env)
    ensures var s := C.Initial().(countdown := 0xffff_fffa);
            var r := Register(0xffff_ffff_ffff_ffff, false, true, 7);
            && Valid(s) && C.TimeTicks(s) == 5
            && N.Step(env, Abs(s), r) == Fail(ClockOverflow)
            && C.Step(env, s, r).Ok?
            && C.Step(env, s, r).value.table.slots[1].timeToFire == 4
            && !Valid(C.Step(env, s, r).value)
  {
    var s := C.Initial().(countdown := 0xffff_fffa);
    var r := Register(0xffff_ffff_ffff_ffff, false, true, 7);
    assert FirstFree(s.table, 1) == 1;
    StepExactly(env, s, r);
  }

  /** activate_timer stores the interval and then arms the timer with it. */
  lemma ActivateViaTicks(env: Env, s: C.State, i: nat, useconds: u32, continuous: bool, t: Timer)
    requires 1 <= i < s.table.num
    requires t == s.table.slots[i].(period := t.period)
    requires if useconds == 0 then t.period == s.table.slots[i].period
             else t.period == AtLeastOne(env.ticksOf(useconds))
    ensures C.Step(env, s, Activate(i, useconds, continuous))
            == C.Step(env, s.(table := s.table.(slots := s.table.slots[i := t])),
                      ActivateTicks(i, t.period, continuous))
  {
    var ticks := AtLeastOne(t.period);
    var s1 := s.(table := s.table.(slots := s.table.slots[i := t]));
    var t' := Timer(t.inUse, ticks, Wrap64(C.TimeTicks(s) as int + ticks), true, continuous, t.handler);
    assert s.table.slots[i := t][i := t'] == s.table.slots[i := t'];
    assert C.TimeTicks(s1) == C.TimeTicks(s);
  }
}
