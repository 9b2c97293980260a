/** When a run stays within the 64-bit clock: a bound on all intervals and on the
    length of the run that device code and its users can check beforehand. */
module ClockBounds {
  import opened Machine
  import opened TimerTable
  import N = NaiveScheduler
  import C = CountdownScheduler
  import R = Refinement

  const CLOCK_END := 0x1_0000_0000_0000_0000

  /** The interval that a request leaves in its slot is at most `p`. Unregistering
      leaves the largest signed number there. */
  predicate Modest(env: Env, r: Request, p: nat) {
    match r
    case Register(ticks, _, _, _) => ticks <= p
    case ActivateTicks(_, ticks, _) => ticks <= p
    case Activate(_, useconds, _) => useconds != 0 ==> env.ticksOf(useconds) <= p
    case Deactivate(_) => true
    case Unregister(_) => MAX_BIT64S <= p
  }

  ghost predicate ModestCallbacks(env: Env, p: nat) {
    forall log: seq<Firing>, k :: 0 <= k < |env.callback(log)| ==> Modest(env, env.callback(log)[k], p)
  }

  predicate ModestCommands(env: Env, cmds: seq<Command>, p: nat) {
    forall k :: 0 <= k < |cmds| && cmds[k].Do? ==> Modest(env, cmds[k].request, p)
  }

  predicate PeriodsWithin(tb: Table, p: nat) {
    forall i :: 0 <= i < tb.num ==> tb.slots[i].period <= p
  }

  /** The ticks of a run. */
  function TicksIn(cmds: seq<Command>): nat
    decreases |cmds|
  {
    if cmds == [] then 0
    else
      (match cmds[0] case Do(_) => 0 case Tick1 => 1 case TickN(n) => n) + TicksIn(cmds[1..])
  }

  /** No overflow, and the intervals stay within the bound. */
  predicate Bounded(o: Outcome<N.Clock>, p: nat) {
    o != Fail(ClockOverflow) && (o.Ok? ==> PeriodsWithin(o.value.table, p))
  }

  lemma StepBounded(env: Env, c: N.Clock, r: Request, p: nat)
    requires p >= 1 && Modest(env, r, p) && PeriodsWithin(c.table, p) && c.now + p < CLOCK_END
    ensures Bounded(N.Step(env, c, r), p)
  {
  }

  lemma {:induction false} StepsBounded(env: Env, c: N.Clock, rs: seq<Request>, p: nat)
    requires p >= 1 && (forall k :: 0 <= k < |rs| ==> Modest(env, rs[k], p))
    requires PeriodsWithin(c.table, p) && c.now + p < CLOCK_END
    ensures Bounded(N.Steps(env, c, rs), p)
    decreases |rs|
  {
    hide Modest, PeriodsWithin;
    if rs != [] {
      StepBounded(env, c, rs[0], p);
      var o := N.Step(env, c, rs[0]);
      if o.Ok? {
        StepKeepsTime(env, c, rs[0]);
        StepsBounded(env, o.value, rs[1..], p);
      }
    }
  }

  lemma StepKeepsTime(env: Env, c: N.Clock, r: Request)
    requires N.Step(env, c, r).Ok?
    ensures N.Step(env, c, r).value.now == c.now
  {
  }

  lemma {:induction false} DeliverBounded(env: Env, c: N.Clock, i: nat, marks: seq<bool>, p: nat)
    requires p >= 1 && ModestCallbacks(env, p) && PeriodsWithin(c.table, p) && c.now + p < CLOCK_END
    ensures Bounded(N.Deliver(env, c, i, marks), p)
    decreases |marks| - i
  {
    hide Modest, PeriodsWithin;
    if i < c.table.num && i < |marks| {
      if !marks[i] {
        DeliverBounded(env, c, i + 1, marks, p);
      } else {
        var h := c.table.slots[i].handler;
        var c1 := c.(log := c.log + [Firing(i, c.now, h)]);
        StepsBounded(env, c1, Script(env, h, c1.log), p);
        var o := N.Steps(env, c1, Script(env, h, c1.log));
        if o.Ok? {
          R.StepsKeepTime(env, c1, Script(env, h, c1.log));
          DeliverBounded(env, o.value, i + 1, marks, p);
        }
      }
    }
  }

  lemma AdvanceKeepsPeriods(tb: Table, now: u64, p: nat)
    requires PeriodsWithin(tb, p)
    ensures PeriodsWithin(AdvanceAll(tb, now), p)
    ensures now + p < CLOCK_END ==> !Overflows(tb, now)
  {
  }

  lemma TickBounded(env: Env, c: N.Clock, p: nat)
    requires p >= 1 && ModestCallbacks(env, p) && PeriodsWithin(c.table, p) && c.now + 1 + p < CLOCK_END
    ensures Bounded(N.Tick(env, c), p)
  {
    hide ModestCallbacks, PeriodsWithin, Overflows, AdvanceAll, Marks;
    var now := c.now + 1;
    AdvanceKeepsPeriods(c.table, now, p);
    DeliverBounded(env, N.Clock(now, AdvanceAll(c.table, now), c.log), 0, Marks(c.table, now), p);
  }

  lemma {:induction false} TicksBounded(env: Env, c: N.Clock, n: nat, p: nat)
    requires p >= 1 && ModestCallbacks(env, p) && PeriodsWithin(c.table, p) && c.now + n + p < CLOCK_END
    ensures Bounded(N.Ticks(env, c, n), p)
    decreases n
  {
    hide ModestCallbacks, PeriodsWithin, N.Tick;
    if n > 0 {
      TickBounded(env, c, p);
      var o := N.Tick(env, c);
      if o.Ok? {
        assert N.Ticks(env, c, 1) == N.Ticks(env, o.value, 0);
        R.TicksAdvanceTime(env, c, 1);
        TicksBounded(env, o.value, n - 1, p);
      }
    }
  }

  /** A run never leaves the 64-bit clock if all intervals, those in the table, those
      that device code asks for and those of the run, are at most `p`, and if the run
      ends `p` ticks before the clock does. */
  lemma {:induction false} RunBounded(env: Env, c: N.Clock, cmds: seq<Command>, p: nat)
    requires p >= 1 && ModestCallbacks(env, p) && ModestCommands(env, cmds, p) && PeriodsWithin(c.table, p)
    requires c.now + TicksIn(cmds) + p < CLOCK_END
    ensures Bounded(N.Run(env, c, cmds), p)
    decreases |cmds|
  {
    hide ModestCallbacks, PeriodsWithin, Modest, N.Step, N.Tick, N.Ticks;
    if cmds != [] {
      var o := N.Execute(env, c, cmds[0]);
      match cmds[0] {
        case Do(r) =>
          StepBounded(env, c, r, p);
          if o.Ok? {
            StepKeepsTime(env, c, r);
          }
        case Tick1 =>
          TickBounded(env, c, p);
          if o.Ok? {
            TickIsOneTick(env, c);
            R.TicksAdvanceTime(env, c, 1);
          }
        case TickN(n) =>
          TicksBounded(env, c, n, p);
          if o.Ok? {
            R.TicksAdvanceTime(env, c, n);
          }
      }
      if o.Ok? {
        RunBounded(env, o.value, cmds[1..], p);
      }
    }
  }

  lemma TickIsOneTick(env: Env, c: N.Clock)
    requires N.Tick(env, c).Ok?
    ensures N.Ticks(env, c, 1) == N.Tick(env, c)
  {
    assert N.Ticks(env, N.Tick(env, c).value, 0) == N.Tick(env, c);
  }

  /** Under that bound the countdown scheduler does exactly what the reference does. */
  lemma BoundedRunRefines(env: Env, s: C.State, cmds: seq<Command>, p: nat)
    requires R.Valid(s) && p >= 1
    requires ModestCallbacks(env, p) && ModestCommands(env, cmds, p) && PeriodsWithin(s.table, p)
    requires C.TimeTicks(s) + TicksIn(cmds) + p < CLOCK_END
    ensures R.AbsOutcome(C.Run(env, s, cmds)) == N.Run(env, R.Abs(s), cmds)
    ensures C.Run(env, s, cmds).Ok? ==> R.Valid(C.Run(env, s, cmds).value)
  {
    RunBounded(env, R.Abs(s), cmds, p);
    R.RunRefines(env, s, cmds);
  }
}
