/** A one-shot timer whose handler starts it again fires as a continuous one would. */
module SelfArming {
  import opened Machine
  import opened TimerTable
  import N = NaiveScheduler
  import C = CountdownScheduler
  import R = Refinement
  import S = TimerSchedule

  /** When the slot has fired, its device's callback starts it again for `ticks` ticks and
      does nothing else; other callbacks leave the slot alone. */
  ghost predicate Rearms(env: Env, slot: nat, ticks: u64) {
    forall log: seq<Firing> :: log != [] ==>
      var rs := env.callback(log);
      if log[|log| - 1].slot == slot then rs == [ActivateTicks(slot, ticks, false)]
      else forall k :: 0 <= k < |rs| ==> !S.Names(rs[k], slot)
  }

  /** The slot holds a started one-shot timer of a device, due later. */
  predicate Waiting(c: N.Clock, slot: nat) {
    slot < c.table.num
    && var t := c.table.slots[slot];
    t.inUse && t.active && !t.continuous && t.handler.Device? && t.timeToFire > c.now
  }

  /** The continuous timer that the slot behaves as. */
  function Periodic(t: Timer, ticks: u64): Timer {
    t.(continuous := true, period := ticks)
  }

  function Restarted(t: Timer, now: u64, ticks: u64): Timer {
    t.(active := true, continuous := false, period := ticks, timeToFire := Wrap64(now + ticks))
  }

  lemma CallRearms(env: Env, c: N.Clock, slot: nat, ticks: u64)
    requires 1 <= ticks && 1 <= slot < c.table.num
    requires N.Steps(env, c, [ActivateTicks(slot, ticks, false)]).Ok?
    ensures var c' := N.Steps(env, c, [ActivateTicks(slot, ticks, false)]).value;
            && c'.now == c.now && c'.log == c.log && c'.table.num == c.table.num
            && c'.table.slots[slot] == Restarted(c.table.slots[slot], c.now, ticks)
            && c'.table.slots[slot].inUse == c.table.slots[slot].inUse
            && c'.table.slots[slot].handler == c.table.slots[slot].handler
            && c.now + ticks < 0x1_0000_0000_0000_0000
  {
    var rs := [ActivateTicks(slot, ticks, false)];
    assert rs[1..] == [];
  }

  lemma {:induction false} DeliverRearms(env: Env, c: N.Clock, i: nat, marks: seq<bool>, slot: nat, ticks: u64)
    requires Rearms(env, slot, ticks) && 1 <= ticks && 1 <= slot < c.table.num && slot < |marks|
    requires c.table.slots[slot].inUse && c.table.slots[slot].handler.Device? && N.Deliver(env, c, i, marks).Ok?
    ensures var c' := N.Deliver(env, c, i, marks).value; var t := c.table.slots[slot];
            && c'.now == c.now && slot < c'.table.num
            && (if i <= slot && marks[slot] then
                  && c.now + ticks < 0x1_0000_0000_0000_0000
                  && c'.table.slots[slot] == Restarted(t, c.now, ticks)
                  && S.Of(c'.log, slot) == S.Of(c.log, slot) + [Firing(slot, c.now, t.handler)]
                else c'.table.slots[slot] == t && S.Of(c'.log, slot) == S.Of(c.log, slot))
    decreases |marks| - i
  {
    hide N.Step, N.Steps, S.Of, Restarted;
    if i >= c.table.num || i >= |marks| {
    } else if !marks[i] {
      DeliverRearms(env, c, i + 1, marks, slot, ticks);
    } else {
      var h := c.table.slots[i].handler;
      var f := Firing(i, c.now, h);
      var log := c.log + [f];
      var c1 := c.(log := log);
      var rs := Script(env, h, log);
      assert log[|log| - 1] == f;
      S.OfAppend(c.log, f, slot);
      if i == slot {
        CallRearms(env, c1, slot, ticks);
      } else {
        S.StepsSpare(env, c1, rs, slot);
      }
      DeliverRearms(env, N.Steps(env, c1, rs).value, i + 1, marks, slot, ticks);
    }
  }

  /** What a stretch of the run does to the slot. */
  ghost predicate AsPeriodic(c: N.Clock, c': N.Clock, slot: nat, ticks: u64) {
    && Waiting(c, slot) && Waiting(c', slot) && c.now <= c'.now
    && var t, t' := Periodic(c.table.slots[slot], ticks), Periodic(c'.table.slots[slot], ticks);
    && t'.handler == t.handler
    && S.Of(c'.log, slot) == S.Of(c.log, slot) + S.Schedule(slot, t, c.now, c'.now)
    && (forall k :: k > c'.now ==> S.FiresAt(t', k) == S.FiresAt(t, k))
  }

  lemma Transitive(a: N.Clock, b: N.Clock, c: N.Clock, slot: nat, ticks: u64)
    requires AsPeriodic(a, b, slot, ticks) && AsPeriodic(b, c, slot, ticks)
    ensures AsPeriodic(a, c, slot, ticks)
  {
    hide S.Of, S.Schedule, S.FiresAt;
    var t, t' := Periodic(a.table.slots[slot], ticks), Periodic(b.table.slots[slot], ticks);
    S.ScheduleSplit(slot, t, a.now, b.now, c.now);
    S.ScheduleSame(slot, t, t', b.now, c.now);
  }

  lemma Nowhere(c: N.Clock, slot: nat, ticks: u64)
    requires Waiting(c, slot)
    ensures AsPeriodic(c, c, slot, ticks)
  {
    assert S.Schedule(slot, Periodic(c.table.slots[slot], ticks), c.now, c.now) == [];
  }

  /** Over one tick the slot goes on as the continuous timer does. */
  lemma TickRearms(env: Env, c: N.Clock, slot: nat, ticks: u64)
    requires Rearms(env, slot, ticks) && 1 <= ticks && slot >= 1 && Waiting(c, slot) && N.Tick(env, c).Ok?
    ensures AsPeriodic(c, N.Tick(env, c).value, slot, ticks)
  {
    hide S.Of, Rearms, N.Deliver, S.FiresAt, Overflows;
    var now: u64 := c.now + 1;
    var t := c.table.slots[slot];
    DeliverRearms(env, N.Clock(now, AdvanceAll(c.table, now), c.log), 0, Marks(c.table, now), slot, ticks);
    var c' := N.Tick(env, c).value;
    assert Periodic(c'.table.slots[slot], ticks) == Advance(Periodic(t, ticks), now);
    TickSchedule(slot, Periodic(t, ticks), c.now);
    forall k | k > now ensures S.FiresAt(Advance(Periodic(t, ticks), now), k) == S.FiresAt(Periodic(t, ticks), k) {
      S.AdvanceKeepsFuture(Periodic(t, ticks), now, k);
    }
  }

  lemma TickSchedule(slot: nat, t: Timer, now: nat)
    requires t.active && t.timeToFire > now
    ensures S.Schedule(slot, t, now, now + 1)
            == if t.timeToFire == now + 1 then [Firing(slot, now + 1, t.handler)] else []
  {
    assert S.Schedule(slot, t, now, now) == [];
  }

  lemma {:induction false} TicksRearm(env: Env, c: N.Clock, n: nat, slot: nat, ticks: u64)
    requires Rearms(env, slot, ticks) && 1 <= ticks && slot >= 1 && Waiting(c, slot) && N.Ticks(env, c, n).Ok?
    ensures AsPeriodic(c, N.Ticks(env, c, n).value, slot, ticks)
    decreases n
  {
    hide AsPeriodic, N.Tick, Rearms;
    if n == 0 {
      Nowhere(c, slot, ticks);
    } else {
      var c1 := N.Tick(env, c).value;
      TickRearms(env, c, slot, ticks);
      assert Waiting(c1, slot) by {
        StillWaiting(c, c1, slot, ticks);
      }
      TicksRearm(env, c1, n - 1, slot, ticks);
      Transitive(c, c1, N.Ticks(env, c1, n - 1).value, slot, ticks);
    }
  }

  lemma StillWaiting(c: N.Clock, c': N.Clock, slot: nat, ticks: u64)
    requires AsPeriodic(c, c', slot, ticks)
    ensures Waiting(c', slot)
  {
  }

  lemma RequestSpares(env: Env, c: N.Clock, r: Request, slot: nat, ticks: u64)
    requires !S.Names(r, slot) && slot >= 1 && Waiting(c, slot) && N.Step(env, c, r).Ok?
    ensures AsPeriodic(c, N.Step(env, c, r).value, slot, ticks)
  {
    S.StepSpares(env, c, r, slot);
    Nowhere(c, slot, ticks);
  }

  lemma {:induction false} RunRearms(env: Env, c: N.Clock, cmds: seq<Command>, slot: nat, ticks: u64)
    requires Rearms(env, slot, ticks) && 1 <= ticks && slot >= 1 && S.Leaves(cmds, slot) && Waiting(c, slot)
    requires N.Run(env, c, cmds).Ok?
    ensures AsPeriodic(c, N.Run(env, c, cmds).value, slot, ticks)
    decreases |cmds|
  {
    hide AsPeriodic, Waiting, N.Tick, N.Step, Rearms;
    if cmds == [] {
      Nowhere(c, slot, ticks);
    } else {
      var c1 := N.Execute(env, c, cmds[0]).value;
      match cmds[0] {
        case Do(r) => RequestSpares(env, c, r, slot, ticks);
        case Tick1 => TickRearms(env, c, slot, ticks);
        case TickN(n) => TicksRearm(env, c, n, slot, ticks);
      }
      StillWaiting(c, c1, slot, ticks);
      RunRearms(env, c1, cmds[1..], slot, ticks);
      Transitive(c, c1, N.Run(env, c1, cmds[1..]).value, slot, ticks);
    }
  }

  /** In the countdown scheduler: a one-shot timer due at T, whose handler starts it again
      for n ticks whenever it is called, fires at T, T + n, T + 2n and so on, over every run
      that leaves it alone otherwise. */
  lemma SelfArmingFires(env: Env, s: C.State, cmds: seq<Command>, slot: nat, n: u64)
    requires R.Valid(s) && Rearms(env, slot, n) && 1 <= n && S.Leaves(cmds, slot)
    requires 1 <= slot < s.table.num && s.table.slots[slot].inUse && s.table.slots[slot].handler.Device?
    requires s.table.slots[slot].active && !s.table.slots[slot].continuous
    requires N.Run(env, R.Abs(s), cmds).Ok?
    ensures C.Run(env, s, cmds).Ok?
    ensures var s', t := C.Run(env, s, cmds).value, s.table.slots[slot];
            S.Of(s'.log, slot)
            == S.Of(s.log, slot)
               + S.Schedule(slot, Timer(true, n, t.timeToFire, true, true, t.handler), C.TimeTicks(s), C.TimeTicks(s'))
  {
    hide C.Run, N.Run, S.Of, S.Schedule, Rearms;
    R.TimeIsExact(s);
    R.RunRefines(env, s, cmds);
    RunRearms(env, R.Abs(s), cmds, slot, n);
  }
}
