/** When a timer fires: a timer that no request names fires exactly at its
    deadline and, if it is continuous, at every whole period after it. */
module TimerSchedule {
  import opened Arithmetic
  import opened Machine
  import opened TimerTable
  import N = NaiveScheduler
  import C = CountdownScheduler
  import R = Refinement

  /** The closed form: does `t`, left alone, fire at tick `k`? */
  predicate FiresAt(t: Timer, k: nat) {
    && t.active
    && (k == t.timeToFire || (t.continuous && t.period > 0 && k > t.timeToFire && (k - t.timeToFire) % t.period == 0))
  }

  /** The firings of slot `slot` in the ticks after `from` up to `upto`. */
  function Schedule(slot: nat, t: Timer, from: nat, upto: nat): seq<Firing>
    decreases upto
  {
    if upto <= from then []
    else Schedule(slot, t, from, upto - 1) + (if FiresAt(t, upto) then [Firing(slot, upto, t.handler)] else [])
  }

  function Of(log: seq<Firing>, slot: nat): seq<Firing>
    decreases |log|
  {
    if log == [] then []
    else Of(log[..|log| - 1], slot) + (if log[|log| - 1].slot == slot then [log[|log| - 1]] else [])
  }

  predicate Names(r: Request, slot: nat) {
    !r.Register? && r.slot == slot
  }

  ghost predicate Spares(env: Env, slot: nat) {
    forall log: seq<Firing>, k :: 0 <= k < |env.callback(log)| ==> !Names(env.callback(log)[k], slot)
  }

  predicate Leaves(cmds: seq<Command>, slot: nat) {
    forall k :: 0 <= k < |cmds| && cmds[k].Do? ==> !Names(cmds[k].request, slot)
  }

  /** Slot `slot` holds a registered timer whose next deadline is still ahead. */
  predicate Armed(c: N.Clock, slot: nat) {
    && slot < c.table.num
    && c.table.slots[slot].inUse
    && c.table.slots[slot].period >= 1
    && (c.table.slots[slot].active ==> c.table.slots[slot].timeToFire > c.now)
  }

  lemma StepSpares(env: Env, c: N.Clock, r: Request, slot: nat)
    requires slot < c.table.num && c.table.slots[slot].inUse && !Names(r, slot) && (slot > 0 || !r.Unregister?)
    requires N.Step(env, c, r).Ok?
    ensures var c' := N.Step(env, c, r).value;
            c'.now == c.now && c'.log == c.log && slot < c'.table.num && c'.table.slots[slot] == c.table.slots[slot]
  {
  }

  lemma {:induction false} StepsSpare(env: Env, c: N.Clock, rs: seq<Request>, slot: nat)
    requires 1 <= slot < c.table.num && c.table.slots[slot].inUse
    requires forall k :: 0 <= k < |rs| ==> !Names(rs[k], slot)
    requires N.Steps(env, c, rs).Ok?
    ensures var c' := N.Steps(env, c, rs).value;
            c'.now == c.now && c'.log == c.log && slot < c'.table.num && c'.table.slots[slot] == c.table.slots[slot]
    decreases |rs|
  {
    if rs != [] {
      StepSpares(env, c, rs[0], slot);
      StepsSpare(env, N.Step(env, c, rs[0]).value, rs[1..], slot);
    }
  }

  lemma OfAppend(log: seq<Firing>, f: Firing, slot: nat)
    ensures Of(log + [f], slot) == Of(log, slot) + (if f.slot == slot then [f] else [])
  {
    assert (log + [f])[..|log|] == log;
  }

  lemma {:induction false} DeliverSpares(env: Env, c: N.Clock, i: nat, marks: seq<bool>, slot: nat)
    requires Spares(env, slot) && 1 <= slot < c.table.num && c.table.slots[slot].inUse
    requires slot < |marks|
    requires N.Deliver(env, c, i, marks).Ok?
    ensures var c' := N.Deliver(env, c, i, marks).value;
            && c'.now == c.now && slot < c'.table.num && c'.table.slots[slot] == c.table.slots[slot]
            && Of(c'.log, slot) == Of(c.log, slot)
                                   + (if i <= slot && marks[slot]
                                      then [Firing(slot, c.now, c.table.slots[slot].handler)]
                                      else [])
    decreases |marks| - i
  {
    if i >= c.table.num || i >= |marks| {
    } else if !marks[i] {
      DeliverSpares(env, c, i + 1, marks, slot);
    } else {
      var h := c.table.slots[i].handler;
      var log := c.log + [Firing(i, c.now, h)];
      OfAppend(c.log, Firing(i, c.now, h), slot);
      var c1 := c.(log := log);
      StepsSpare(env, c1, Script(env, h, log), slot);
      DeliverSpares(env, N.Steps(env, c1, Script(env, h, log)).value, i + 1, marks, slot);
    }
  }

  lemma TickSpares(env: Env, c: N.Clock, slot: nat)
    requires Spares(env, slot) && slot >= 1 && Armed(c, slot) && N.Tick(env, c).Ok?
    ensures var c' := N.Tick(env, c).value; var t := c.table.slots[slot];
            && c'.now == c.now + 1 && Armed(c', slot)
            && c'.table.slots[slot] == Advance(t, c.now + 1)
            && Of(c'.log, slot) == Of(c.log, slot) + Schedule(slot, t, c.now, c.now + 1)
  {
    var now: u64 := c.now + 1;
    var tb := AdvanceAll(c.table, now);
    assert tb.slots[slot] == Advance(c.table.slots[slot], now);
    DeliverSpares(env, N.Clock(now, tb, c.log), 0, Marks(c.table, now), slot);
    assert Schedule(slot, c.table.slots[slot], c.now, c.now) == [];
  }

  /** Re-arming by one period does not change the future of a timer. */
  lemma AdvanceKeepsFuture(t: Timer, now: u64, k: nat)
    requires t.period >= 1 && (t.active ==> t.timeToFire >= now) && k > now
    requires Due(t, now) && t.continuous ==> now + t.period < 0x1_0000_0000_0000_0000
    ensures FiresAt(Advance(t, now), k) == FiresAt(t, k)
  {
    if Due(t, now) && t.continuous {
      var x := k - t.timeToFire;
      var p: int := t.period;
      if x < p {
        ModSmall(x, p);
      } else {
        ModStep(x - p, p);
      }
    }
  }

  lemma {:induction false} ScheduleSame(slot: nat, t: Timer, t': Timer, from: nat, upto: nat)
    requires t.handler == t'.handler
    requires forall k :: from < k <= upto ==> FiresAt(t, k) == FiresAt(t', k)
    ensures Schedule(slot, t, from, upto) == Schedule(slot, t', from, upto)
    decreases upto
  {
    if upto > from {
      ScheduleSame(slot, t, t', from, upto - 1);
    }
  }

  lemma {:induction false} ScheduleSplit(slot: nat, t: Timer, from: nat, mid: nat, upto: nat)
    requires from <= mid <= upto
    ensures Schedule(slot, t, from, upto) == Schedule(slot, t, from, mid) + Schedule(slot, t, mid, upto)
    decreases upto
  {
    if upto > mid {
      ScheduleSplit(slot, t, from, mid, upto - 1);
    }
  }

  /** What a stretch of the run does to an untouched slot. */
  ghost predicate OnSchedule(c: N.Clock, c': N.Clock, slot: nat) {
    && Armed(c, slot) && Armed(c', slot) && c.now <= c'.now
    && c'.table.slots[slot].handler == c.table.slots[slot].handler
    && Of(c'.log, slot) == Of(c.log, slot) + Schedule(slot, c.table.slots[slot], c.now, c'.now)
    && (forall k :: k > c'.now ==> FiresAt(c'.table.slots[slot], k) == FiresAt(c.table.slots[slot], k))
  }

  lemma OnScheduleTransitive(a: N.Clock, b: N.Clock, c: N.Clock, slot: nat)
    requires OnSchedule(a, b, slot) && OnSchedule(b, c, slot)
    ensures OnSchedule(a, c, slot)
  {
    ScheduleSplit(slot, a.table.slots[slot], a.now, b.now, c.now);
    ScheduleSame(slot, a.table.slots[slot], b.table.slots[slot], b.now, c.now);
  }

  lemma {:induction false} TicksOnSchedule(env: Env, c: N.Clock, n: nat, slot: nat)
    requires Spares(env, slot) && slot >= 1 && Armed(c, slot) && N.Ticks(env, c, n).Ok?
    ensures OnSchedule(c, N.Ticks(env, c, n).value, slot)
    decreases n
  {
    if n > 0 {
      TickSpares(env, c, slot);
      var c1 := N.Tick(env, c).value;
      var t := c.table.slots[slot];
      forall k | k > c1.now ensures FiresAt(c1.table.slots[slot], k) == FiresAt(t, k) {
        AdvanceKeepsFuture(t, c1.now, k);
      }
      assert OnSchedule(c, c1, slot);
      TicksOnSchedule(env, c1, n - 1, slot);
      OnScheduleTransitive(c, c1, N.Ticks(env, c1, n - 1).value, slot);
    }
  }

  lemma {:induction false} RunOnSchedule(env: Env, c: N.Clock, cmds: seq<Command>, slot: nat)
    requires Spares(env, slot) && slot >= 1 && Leaves(cmds, slot) && Armed(c, slot)
    requires N.Run(env, c, cmds).Ok?
    ensures OnSchedule(c, N.Run(env, c, cmds).value, slot)
    decreases |cmds|
  {
    if cmds != [] {
      var c1 := N.Execute(env, c, cmds[0]).value;
      match cmds[0] {
        case Do(r) => StepSpares(env, c, r, slot);
        case Tick1 =>
          assert N.Ticks(env, c, 1) == N.Ticks(env, c1, 0) == Ok(c1);
          TicksOnSchedule(env, c, 1, slot);
        case TickN(n) => TicksOnSchedule(env, c, n, slot);
      }
      RunOnSchedule(env, c1, cmds[1..], slot);
      OnScheduleTransitive(c, c1, N.Run(env, c1, cmds[1..]).value, slot);
    }
  }

  /** In the countdown scheduler: from any valid state, over any run of ticks
      and requests that spares the slot, its firings are exactly its schedule. */
  lemma FiresExactlyOnSchedule(env: Env, s: C.State, cmds: seq<Command>, slot: nat)
    requires R.Valid(s) && Spares(env, slot) && Leaves(cmds, slot)
    requires 1 <= slot < s.table.num && s.table.slots[slot].inUse
    requires N.Run(env, R.Abs(s), cmds).Ok?
    ensures C.Run(env, s, cmds).Ok?
    ensures var s' := C.Run(env, s, cmds).value;
            Of(s'.log, slot) == Of(s.log, slot) + Schedule(slot, s.table.slots[slot], C.TimeTicks(s), C.TimeTicks(s'))
  {
    R.TimeIsExact(s);
    R.RunRefines(env, s, cmds);
    RunOnSchedule(env, R.Abs(s), cmds, slot);
  }

  lemma {:induction false} InactiveSchedule(slot: nat, t: Timer, from: nat, upto: nat)
    requires !t.active
    ensures Schedule(slot, t, from, upto) == []
    decreases upto
  {
    if upto > from {
      InactiveSchedule(slot, t, from, upto - 1);
    }
  }

  /** A request changes no slot but its own. */
  lemma OtherSlotsKept(env: Env, s: C.State, r: Request, k: nat)
    requires C.Step(env, s, r).Ok? && k < 64 && k != Target(s.table, r)
    ensures C.Step(env, s, r).value.table.slots[k] == s.table.slots[k]
  {
  }

  /** A run that starts with a request goes on from the state after it. */
  lemma AfterRequest(env: Env, s: C.State, r: Request, cmds: seq<Command>)
    requires R.Valid(s) && N.Run(env, R.Abs(s), [Do(r)] + cmds).Ok?
    ensures C.Step(env, s, r).Ok?
    ensures var s1 := C.Step(env, s, r).value;
            && R.Valid(s1) && C.TimeTicks(s1) == C.TimeTicks(s) && s1.log == s.log
            && N.Run(env, R.Abs(s1), cmds).Ok?
            && C.Run(env, s, [Do(r)] + cmds) == C.Run(env, s1, cmds)
    ensures Arms(r) ==> Admit(s.table, r).Ok? && C.TimeTicks(s) + TicksFor(env, s.table, r) < 0x1_0000_0000_0000_0000
  {
    var all := [Do(r)] + cmds;
    assert all[0] == Do(r) && all[1..] == cmds;
    R.StepRefines(env, s, r);
    R.StepExactly(env, s, r);
  }

  /** A timer registered at tick T for `ticks` fires at T + ticks and, when it is
      continuous, at every further multiple of `ticks`; a request for zero ticks
      counts as one. Nothing else fires on its slot. */
  lemma RegisteredTimerFires(env: Env, s: C.State, ticks: u64, continuous: bool, device: nat, cmds: seq<Command>)
    requires R.Valid(s) && FirstFree(s.table, 1) < 64
    requires Spares(env, FirstFree(s.table, 1)) && Leaves(cmds, FirstFree(s.table, 1))
    requires N.Run(env, R.Abs(s), [Do(Register(ticks, continuous, true, device))] + cmds).Ok?
    ensures var slot := FirstFree(s.table, 1);
            var started := C.TimeTicks(s);
            var interval: int := if ticks == 0 then 1 else ticks;
            var end := C.Run(env, s, [Do(Register(ticks, continuous, true, device))] + cmds);
            && end.Ok? && started + interval < 0x1_0000_0000_0000_0000
            && Of(end.value.log, slot)
               == Of(s.log, slot)
                  + Schedule(slot, Timer(true, interval, started + interval, true, continuous, Device(device)),
                             started, C.TimeTicks(end.value))
  {
    hide C.Run, N.Run, R.Valid, Schedule, Of;
    var r := Register(ticks, continuous, true, device);
    AfterRequest(env, s, r, cmds);
    FiresExactlyOnSchedule(env, C.Step(env, s, r).value, cmds, FirstFree(s.table, 1));
  }

  /** A timer activated at tick T with an interval, its stored one when zero
      microseconds are asked for, has that schedule from T on instead of the one it
      had before. */
  lemma ActivatedTimerFires(env: Env, s: C.State, r: Request, cmds: seq<Command>)
    requires R.Valid(s) && (r.ActivateTicks? || r.Activate?)
    requires 1 <= r.slot < s.table.num && s.table.slots[r.slot].inUse
    requires Spares(env, r.slot) && Leaves(cmds, r.slot)
    requires N.Run(env, R.Abs(s), [Do(r)] + cmds).Ok?
    ensures var t := s.table.slots[r.slot];
            var started := C.TimeTicks(s);
            var asked: int := if r.ActivateTicks? then r.ticks
                              else if r.useconds == 0 then t.period
                              else env.ticksOf(r.useconds);
            var interval := if asked == 0 then 1 else asked;
            var end := C.Run(env, s, [Do(r)] + cmds);
            && end.Ok? && started + interval < 0x1_0000_0000_0000_0000
            && Of(end.value.log, r.slot)
               == Of(s.log, r.slot)
                  + Schedule(r.slot, Timer(true, interval, started + interval, true, r.continuous, t.handler),
                             started, C.TimeTicks(end.value))
  {
    hide C.Run, N.Run, R.Valid, Schedule, Of;
    AfterRequest(env, s, r, cmds);
    FiresExactlyOnSchedule(env, C.Step(env, s, r).value, cmds, r.slot);
  }

  /** A stopped timer stays silent until some request arms it again, although the
      countdown it had shortened is left as it was. */
  lemma DeactivatedTimerIsSilent(env: Env, s: C.State, slot: nat, cmds: seq<Command>)
    requires R.Valid(s) && Spares(env, slot) && Leaves(cmds, slot)
    requires 1 <= slot < s.table.num && s.table.slots[slot].inUse
    requires N.Run(env, R.Abs(s), [Do(Deactivate(slot))] + cmds).Ok?
    ensures var s1 := C.Step(env, s, Deactivate(slot));
            s1.Ok? && s1.value.countdown == s.countdown && s1.value.period == s.period
    ensures var end := C.Run(env, s, [Do(Deactivate(slot))] + cmds);
            end.Ok? && Of(end.value.log, slot) == Of(s.log, slot)
  {
    var r := Deactivate(slot);
    AfterRequest(env, s, r, cmds);
    var s1 := C.Step(env, s, r).value;
    FiresExactlyOnSchedule(env, s1, cmds, slot);
    InactiveSchedule(slot, s1.table.slots[slot], C.TimeTicks(s1), C.TimeTicks(C.Run(env, s1, cmds).value));
  }
}
