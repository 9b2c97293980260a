/** The timer part of the PC system object, updated in place as the emulator does. */
module PcSystem {
  import opened Machine
  import opened TimerTable
  import N = NaiveScheduler
  import C = CountdownScheduler
  import R = Refinement

  class PcSystem {
    const env: Env
    /** Ticks to microseconds, at the emulated speed. */
    const usecOf: u64 -> u64

    const timer: array<Timer>
    var numTimers: nat
    var triggeredTimer: nat
    var currCountdown: u32
    var currCountdownPeriod: u32
    var ticksTotal: u64
    var lastTimeUsec: u64
    var usecSinceLast: u64
    /** The handler calls made so far; this is all that device code can see. */
    var fired: seq<Firing>

    ghost predicate Shape()
      reads this
    {
      timer.Length == 64 && 1 <= numTimers <= 64
    }

    ghost function State(): C.State
      requires Shape()
      reads this, timer
    {
      C.State(RawTable(timer[..], numTimers), currCountdown, currCountdownPeriod, ticksTotal, fired)
    }

    /** The timer became due `ticks` after the time of `s`; its slot stays what it was. */
    ghost predicate Armed(t: Timer, t': Timer, ticks: u64, continuous: bool, s: C.State) {
      && t'.active && t'.period == ticks && t'.continuous == continuous
      && t'.timeToFire == Wrap64(C.TimeTicks(s) + ticks)
      && t'.inUse == t.inUse && t'.handler == t.handler
    }

    ghost predicate Valid()
      reads this, timer
    {
      Shape() && R.Valid(State()) && triggeredTimer == 0
    }

    /** The state as the reference scheduler sees it. */
    ghost function Clock(): N.Clock
      requires Shape()
      reads this, timer
    {
      R.Abs(State())
    }

    constructor (env: Env, usecOf: u64 -> u64)
      ensures Shape() && numTimers == 1 && fresh(timer) && fired == [] && this.env == env
      ensures timer[..] == C.Initial().table.slots[0 := C.Initial().table.slots[0].(timeToFire := 0)]
    {
      this.env := env;
      this.usecOf := usecOf;
      timer := new Timer[64](i => if i == 0 then Timer(true, NULL_INTERVAL, 0, true, true, NullTimer) else BLANK);
      numTimers := 1;
      ticksTotal := 0;
      triggeredTimer, currCountdown, currCountdownPeriod, lastTimeUsec, usecSinceLast := 0, 0, 0, 0, 0;
      fired := [];
    }

    /** Called once, after construction. */
    method Initialize()
      requires Shape() && numTimers == 1 && fired == []
      requires timer[..] == C.Initial().table.slots[0 := C.Initial().table.slots[0].(timeToFire := 0)]
      modifies this, timer
      ensures Valid() && State() == C.Initial() && Clock().now == 0
      ensures lastTimeUsec == usecSinceLast == 0
      ensures timer[..] == old(timer[..])[0 := timer[0]]
      ensures timer[0] == Timer(true, 0xffff_ffff, 0xffff_ffff, true, true, NullTimer)
    {
      ticksTotal := 0;
      timer[0] := timer[0].(timeToFire := NULL_INTERVAL);
      currCountdown := NULL_INTERVAL;
      currCountdownPeriod := NULL_INTERVAL;
      lastTimeUsec := 0;
      usecSinceLast := 0;
      triggeredTimer := 0;
      assert timer[..] == C.Initial().table.slots;
      R.InitialValid();
    }

    method TimeTicks() returns (t: u64)
      requires Shape()
      ensures t == C.TimeTicks(State())
      ensures R.Valid(State()) ==> t == ticksTotal + currCountdownPeriod - currCountdown
    {
      t := Wrap64(ticksTotal + Wrap32(currCountdownPeriod - currCountdown));
    }

    method SkewCountdown(ticks: u64)
      requires Shape()
      modifies this`currCountdown, this`currCountdownPeriod
      ensures Shape() && State() == C.Skew(old(State()), ticks)
    {
      if ticks < currCountdown {
        currCountdownPeriod := Wrap32(currCountdownPeriod - Wrap32(currCountdown - Wrap32(ticks)));
        currCountdown := Wrap32(ticks);
      }
    }

    method RegisterTimerTicks(requested: u64, continuous: bool, active: bool, device: nat) returns (id: nat)
      requires Shape() && (numTimers < 64 || exists k :: 1 <= k < 64 && !timer[k].inUse)
      modifies this, timer
      ensures Shape() && Ok(State()) == C.Step(env, old(State()), Register(requested, continuous, active, device))
      ensures 1 <= id < numTimers && numTimers == if id == old(numTimers) then id + 1 else old(numTimers)
      ensures id < old(numTimers) ==> !old(timer[id].inUse)
      ensures forall k :: 1 <= k < id ==> old(timer[k].inUse)
      ensures timer[id].inUse && timer[id].active == active && timer[id].continuous == continuous
      ensures timer[id].period == (if requested == 0 then 1 else requested) && timer[id].handler == Device(device)
      ensures timer[id].timeToFire == Wrap64(C.TimeTicks(old(State())) + timer[id].period)
      ensures forall k :: 0 <= k < 64 && k != id ==> timer[k] == old(timer[k])
      ensures !active ==> currCountdown == old(currCountdown) && currCountdownPeriod == old(currCountdownPeriod)
      ensures triggeredTimer == old(triggeredTimer) && fired == old(fired) && ticksTotal == old(ticksTotal)
    {
      hide Wrap32, Wrap64, C.TimeTicks, FirstFree;
      AdmitExactly(State().table, Register(requested, continuous, active, device));
      ghost var s := State();
      var ticks := requested;
      if ticks < 1 {
        ticks := 1;
      }
      var i := 1;
      while i < numTimers
        invariant 1 <= i <= numTimers
        invariant FirstFree(s.table, i) == FirstFree(s.table, 1)
        invariant forall k :: 1 <= k < i ==> timer[k].inUse
      {
        if !timer[i].inUse {
          break;
        }
        i := i + 1;
      }
      assert i == Target(s.table, Register(requested, continuous, active, device));
      var now := TimeTicks();
      timer[i] := Timer(true, ticks, Wrap64((now as int) + ticks), active, continuous, Device(device));
      if active {
        SkewCountdown(ticks);
      }
      if i == numTimers {
        numTimers := numTimers + 1;
      }
      id := i;
      assert timer[..] == s.table.slots[i := timer[i]];
    }

    method ActivateTimerTicks(i: nat, requested: u64, continuous: bool)
      requires Shape() && 1 <= i < numTimers
      modifies this, timer
      ensures Shape() && Ok(State()) == C.Step(env, old(State()), ActivateTicks(i, requested, continuous))
      ensures Armed(old(timer[i]), timer[i], if requested == 0 then 1 else requested, continuous, old(State()))
      ensures forall k :: 0 <= k < 64 && k != i ==> timer[k] == old(timer[k])
      ensures triggeredTimer == old(triggeredTimer) && fired == old(fired) && ticksTotal == old(ticksTotal)
      ensures numTimers == old(numTimers)
    {
      ghost var s := State();
      var ticks := requested;
      if ticks < 1 {
        ticks := 1;
      }
      var now := TimeTicks();
      var deadline := Wrap64((now as int) + ticks);
      timer[i] := timer[i].(period := ticks, timeToFire := deadline, active := true, continuous := continuous);
      assert timer[..] == s.table.slots[i := timer[i]];
      SkewCountdown(ticks);
    }

    method ActivateTimer(i: nat, useconds: u32, continuous: bool)
      requires Shape() && 1 <= i < numTimers
      modifies this, timer
      ensures Shape() && Ok(State()) == C.Step(env, old(State()), Activate(i, useconds, continuous))
      ensures var asked := if useconds == 0 then old(timer[i].period) else env.ticksOf(useconds);
              Armed(old(timer[i]), timer[i], if asked == 0 then 1 else asked, continuous, old(State()))
      ensures forall k :: 0 <= k < 64 && k != i ==> timer[k] == old(timer[k])
      ensures triggeredTimer == old(triggeredTimer) && fired == old(fired) && ticksTotal == old(ticksTotal)
      ensures numTimers == old(numTimers)
    {
      ghost var s := State();
      var ticks: u64;
      if useconds == 0 {
        ticks := timer[i].period;
      } else {
        ticks := env.ticksOf(useconds);
        if ticks < 1 {
          ticks := 1;
        }
        timer[i] := timer[i].(period := ticks);
      }
      assert timer[..] == s.table.slots[i := timer[i]];
      R.ActivateViaTicks(env, s, i, useconds, continuous, timer[i]);
      ActivateTimerTicks(i, ticks, continuous);
    }

    method DeactivateTimer(i: nat)
      requires Shape() && 1 <= i < numTimers
      modifies timer
      ensures Shape() && Ok(State()) == C.Step(env, old(State()), Deactivate(i))
      ensures timer[..] == old(timer[..])[i := old(timer[i]).(active := false)]
    {
      ghost var s := State();
      timer[i] := timer[i].(active := false);
      assert timer[..] == s.table.slots[i := timer[i]];
    }

    method UnregisterTimer(i: nat) returns (ok: bool)
      requires Shape() && 1 <= i < numTimers
      modifies this`numTimers, timer
      ensures Shape() && Ok(State()) == C.Step(env, old(State()), Unregister(i))
      ensures ok == !old(timer[i].active)
      ensures !ok ==> timer[..] == old(timer[..]) && numTimers == old(numTimers)
      ensures ok ==> timer[i] == Timer(false, 0x7fff_ffff_ffff_ffff, 0x7fff_ffff_ffff_ffff, false, false, NoHandler)
      ensures ok ==> numTimers == if i == old(numTimers) - 1 then i else old(numTimers)
      ensures forall k :: 0 <= k < 64 && k != i ==> timer[k] == old(timer[k])
    {
      ghost var s := State();
      if timer[i].active {
        return false;
      }
      timer[i] := Timer(false, MAX_BIT64S, MAX_BIT64S, timer[i].active, false, NoHandler);
      assert timer[..] == s.table.slots[i := timer[i]];
      if i == numTimers - 1 {
        numTimers := numTimers - 1;
      }
      ok := true;
    }

    /** The body of a device callback: the requests it issues, one after another. */
    method RunScript(rs: seq<Request>)
      requires Shape() && C.Steps(env, State(), rs).Ok?
      modifies this, timer
      ensures Shape() && Ok(State()) == C.Steps(env, old(State()), rs)
      ensures triggeredTimer == old(triggeredTimer)
    {
      ghost var result := C.Steps(env, State(), rs);
      var k := 0;
      while k < |rs|
        invariant 0 <= k <= |rs| && Shape()
        invariant C.Steps(env, State(), rs[k..]) == result
        invariant triggeredTimer == old(triggeredTimer)
      {
        assert rs[k..][0] == rs[k] && rs[k..][1..] == rs[k + 1..];
        match rs[k] {
          case Register(ticks, continuous, active, device) =>
            AdmitExactly(State().table, rs[k]);
            var _ := RegisterTimerTicks(ticks, continuous, active, device);
          case ActivateTicks(i, ticks, continuous) => ActivateTimerTicks(i, ticks, continuous);
          case Activate(i, useconds, continuous) => ActivateTimer(i, useconds, continuous);
          case Deactivate(i) => DeactivateTimer(i);
          case Unregister(i) => var _ := UnregisterTimer(i);
        }
        k := k + 1;
      }
    }

    /** One round of the first loop of an event: marks and re-arms slot `i` if it
        is due, and lowers the least deadline seen so far. */
    method ServiceSlot(i: nat, triggered: array<bool>, least: u64) returns (least': u64)
      requires timer.Length == 64 && triggered.Length == 64 && i < 64 && !triggered[i]
      modifies timer, triggered
      ensures forall k :: 0 <= k < 64 ==>
                            timer[k] == if k == i then Advance(old(timer[i]), ticksTotal) else old(timer[k])
      ensures forall k :: 0 <= k < 64 ==>
                            triggered[k] == if k == i then Due(old(timer[i]), ticksTotal) else old(triggered[k])
      ensures least' == if timer[i].active && timer[i].timeToFire < least then timer[i].timeToFire else least
    {
      least' := least;
      if timer[i].active {
        if ticksTotal == timer[i].timeToFire {
          triggered[i] := true;
          if !timer[i].continuous {
            timer[i] := timer[i].(active := false);
          } else {
            timer[i] := timer[i].(timeToFire := Wrap64((timer[i].timeToFire as int) + timer[i].period));
            if timer[i].timeToFire < least {
              least' := timer[i].timeToFire;
            }
          }
        } else if timer[i].timeToFire < least {
          least' := timer[i].timeToFire;
        }
      }
    }

    /** The first loop of an event, over all slots below the bound. */
    method ServiceTimers(triggered: array<bool>) returns (least: u64)
      requires Shape() && triggered.Length == 64 && forall k :: 0 <= k < 64 ==> !triggered[k]
      modifies timer, triggered
      ensures timer[..] == AdvanceAll(RawTable(old(timer[..]), numTimers), ticksTotal).slots
      ensures triggered[..numTimers] == Marks(RawTable(old(timer[..]), numTimers), ticksTotal)
      ensures forall k :: numTimers <= k < 64 ==> !triggered[k]
      ensures least == C.MinDeadline(timer[..], numTimers)
    {
      hide AdvanceAll, Marks, Advance, Due;
      ghost var tb: Table := RawTable(timer[..], numTimers);
      ghost var next := AdvanceAll(tb, ticksTotal);
      least := 0xffff_ffff_ffff_ffff;
      var i := 0;
      while i < numTimers
        invariant 0 <= i <= numTimers
        invariant forall k :: 0 <= k < i ==> timer[k] == next.slots[k]
        invariant forall k :: i <= k < 64 ==> timer[k] == tb.slots[k]
        invariant forall k :: 0 <= k < i ==> triggered[k] == Due(tb.slots[k], ticksTotal)
        invariant forall k :: i <= k < 64 ==> !triggered[k]
        invariant least == C.MinDeadline(next.slots, i)
      {
        least := ServiceSlot(i, triggered, least);
        i := i + 1;
      }
      assert timer[..] == next.slots;
    }

    /** Advances the clock by the whole period, marks and re-arms the due timers,
        and starts the next countdown. */
    method RearmDueTimers(triggered: array<bool>)
      requires Shape() && triggered.Length == 64 && forall k :: 0 <= k < 64 ==> !triggered[k]
      modifies this`currCountdown, this`currCountdownPeriod, this`ticksTotal, timer, triggered
      ensures Shape() && State() == C.Rearmed(old(State()))
      ensures triggered[..numTimers] == Marks(old(State().table), ticksTotal)
      ensures forall k :: numTimers <= k < 64 ==> !triggered[k]
    {
      hide AdvanceAll, Marks, C.MinDeadline, C.Rearmed, Wrap32, Wrap64;
      ghost var s := State();
      ticksTotal := Wrap64((ticksTotal as int) + currCountdownPeriod);
      var minTimeToFire := ServiceTimers(triggered);
      currCountdownPeriod := Wrap32((minTimeToFire as int) - ticksTotal);
      currCountdown := currCountdownPeriod;
      assert State() == C.Rearmed(s) by {
        R.RearmedIs(s, RawTable(timer[..], numTimers), ticksTotal);
      }
    }

    /** The second loop of an event: calls the handlers of the marked slots. A
        slot that did not exist when the marks were made is not marked. */
    method CallHandlers(triggered: array<bool>, ghost marks: seq<bool>)
      requires Shape() && triggeredTimer == 0 && triggered.Length == 64 && |marks| <= 64
      requires triggered[..|marks|] == marks && forall k :: |marks| <= k < 64 ==> !triggered[k]
      requires C.Deliver(env, State(), 0, marks).Ok?
      modifies this, timer
      ensures Shape() && Ok(State()) == C.Deliver(env, old(State()), 0, marks) && triggeredTimer == 0
    {
      ghost var result := C.Deliver(env, State(), 0, marks);
      var i := 0;
      while i < numTimers
        invariant Shape() && triggeredTimer == 0 && i <= 64
        invariant C.Deliver(env, State(), i, marks) == result
        decreases 64 - i
      {
        if triggered[i] {
          assert marks[i];
          triggeredTimer := i;
          var now := TimeTicks();
          fired := fired + [Firing(i, now, timer[i].handler)];
          RunScript(Script(env, timer[i].handler, fired));
          triggeredTimer := 0;
        }
        i := i + 1;
      }
    }

    method CountdownEvent()
      requires Shape() && C.Event(env, State()).Ok? && triggeredTimer == 0
      modifies this, timer
      ensures Shape() && Ok(State()) == C.Event(env, old(State())) && triggeredTimer == 0
    {
      var triggered := new bool[64](_ => false);
      RearmDueTimers(triggered);
      CallHandlers(triggered, triggered[..numTimers]);
    }

    method Tick1()
      requires Valid() && N.Tick(env, Clock()).Ok?
      modifies this, timer
      ensures Valid() && Ok(Clock()) == N.Tick(env, old(Clock()))
      ensures Ok(State()) == C.Tick1(env, old(State()))
    {
      R.Tick1Refines(env, State());
      currCountdown := Wrap32((currCountdown as int) - 1);
      if currCountdown == 0 {
        CountdownEvent();
      }
    }

    method TickN(n: u32)
      requires Valid() && N.Ticks(env, Clock(), n).Ok?
      modifies this, timer
      ensures Valid() && Ok(Clock()) == N.Ticks(env, old(Clock()), n)
      ensures Ok(State()) == C.TickN(env, old(State()), n)
      ensures Clock().now == old(Clock().now) + n
    {
      hide C.Event, C.TickN, R.Valid, N.Ticks;
      ghost var s := State();
      R.TickNRefines(env, s, n);
      R.TickNAdvancesTime(env, s, n);
      ghost var result := C.TickN(env, s, n);
      var left: nat := n;
      while left >= currCountdown
        invariant Shape() && triggeredTimer == 0
        invariant C.TickN(env, State(), left) == result && result.Ok?
        decreases left
      {
        R.TickNMoves(env, State(), left);
        R.TickNUnfolds(env, State(), left);
        left := left - currCountdown;
        currCountdown := 0;
        CountdownEvent();
      }
      R.TickNQuiet(env, State(), left);
      currCountdown := currCountdown - left;
    }

    /** Each result exceeds the one before it, even when the clock has not moved. */
    method TimeUsecSequential() returns (r: u64)
      requires Shape() && usecOf(C.TimeTicks(State())) >= lastTimeUsec
      requires (usecOf(C.TimeTicks(State())) as int) + usecSinceLast + 1 < 0x1_0000_0000_0000_0000
      modifies this`lastTimeUsec, this`usecSinceLast
      ensures var now := usecOf(C.TimeTicks(State())); var previous := old(lastTimeUsec as int) + old(usecSinceLast);
              r == (if now > previous then now as int else previous) + 1
      ensures r == (lastTimeUsec as int) + usecSinceLast && lastTimeUsec == usecOf(C.TimeTicks(State()))
    {
      var ticks := TimeTicks();
      var now := usecOf(ticks);
      if now != lastTimeUsec {
        var diff: u64 := now - lastTimeUsec;
        lastTimeUsec := now;
        if diff >= usecSinceLast {
          usecSinceLast := 0;
        } else {
          usecSinceLast := usecSinceLast - diff;
        }
      }
      usecSinceLast := usecSinceLast + 1;
      r := now + usecSinceLast;
    }
  }
}
