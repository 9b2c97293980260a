/** The scheduler of the emulator: one 32-bit countdown stands in for all the
    64-bit deadlines, and the timers are looked at only when it reaches zero. */
module CountdownScheduler {
  import opened Machine
  import opened TimerTable

  datatype State = State(
    table: Table,
    countdown: u32,
    period: u32,
    total: u64,
    log: seq<Firing>)

  function TimeTicks(s: State): u64 {
    Wrap64(s.total + Wrap32(s.period - s.countdown))
  }

  /** A timer armed for less than the countdown shortens both counters alike. */
  function Skew(s: State, ticks: u64): State {
    if ticks < s.countdown then
      s.(period := Wrap32(s.period - Wrap32(s.countdown - Wrap32(ticks))), countdown := Wrap32(ticks))
    else s
  }

  function Step(env: Env, s: State, r: Request): Outcome<State> {
    var slot :- Admit(s.table, r);
    var ticks := TicksFor(env, s.table, r);
    var s' := s.(table := Apply(s.table, r, ticks, Wrap64(TimeTicks(s) + ticks)));
    Ok(if Arms(r) then Skew(s', ticks) else s')
  }

  function Steps(env: Env, s: State, rs: seq<Request>): Outcome<State>
    decreases |rs|
  {
    if rs == [] then Ok(s)
    else
      var s' :- Step(env, s, rs[0]);
      Steps(env, s', rs[1..])
  }

  function Deliver(env: Env, s: State, i: nat, marks: seq<bool>): Outcome<State>
    decreases |marks| - i
  {
    if i >= s.table.num || i >= |marks| then Ok(s)
    else if !marks[i] then Deliver(env, s, i + 1, marks)
    else
      var h := s.table.slots[i].handler;
      if h.NoHandler? then Fail(NullCall)
      else
        var log := s.log + [Firing(i, TimeTicks(s), h)];
        var s' :- Steps(env, s.(log := log), Script(env, h, log));
        Deliver(env, s', i + 1, marks)
  }

  /** The least deadline of the active timers below slot `n`, capped at 2^64-1. */
  function MinDeadline(slots: seq<Timer>, n: nat): (m: u64)
    requires n <= |slots|
    ensures forall i :: 0 <= i < n && slots[i].active ==> m <= slots[i].timeToFire
    ensures m == 0xffff_ffff_ffff_ffff || exists i :: 0 <= i < n && slots[i].active && slots[i].timeToFire == m
  {
    if n == 0 then 0xffff_ffff_ffff_ffff
    else
      var m := MinDeadline(slots, n - 1);
      if slots[n - 1].active && slots[n - 1].timeToFire < m then slots[n - 1].timeToFire else m
  }

  /** The countdown has run out: advance the clock by the whole period, mark and
      re-arm the due timers, start the next countdown, then call the handlers. */
  function Rearmed(s: State): State {
    var now := Wrap64(s.total + s.period);
    var table := AdvanceAll(s.table, now);
    var gap := Wrap32(MinDeadline(table.slots, table.num) - now);
    State(table, gap, gap, now, s.log)
  }

  function Event(env: Env, s: State): Outcome<State> {
    Deliver(env, Rearmed(s), 0, Marks(s.table, Wrap64(s.total + s.period)))
  }

  function Tick1(env: Env, s: State): Outcome<State> {
    var cd := Wrap32(s.countdown - 1);
    if cd == 0 then Event(env, s.(countdown := 0)) else Ok(s.(countdown := cd))
  }

  function Tick1s(env: Env, s: State, n: nat): Outcome<State>
    decreases n
  {
    if n == 0 then Ok(s)
    else
      var s' :- Tick1(env, s);
      Tick1s(env, s', n - 1)
  }

  function TickN(env: Env, s: State, n: nat): Outcome<State>
    decreases n
  {
    if n < s.countdown then Ok(s.(countdown := s.countdown - n))
    else if s.countdown == 0 then Fail(Stuck)
    else
      var s' :- Event(env, s.(countdown := 0));
      TickN(env, s', n - s.countdown)
  }

  function Execute(env: Env, s: State, cmd: Command): Outcome<State> {
    match cmd
    case Do(r) => Step(env, s, r)
    case Tick1 => Tick1(env, s)
    case TickN(n) => TickN(env, s, n)
  }

  function Run(env: Env, s: State, cmds: seq<Command>): Outcome<State>
    decreases |cmds|
  {
    if cmds == [] then Ok(s)
    else
      var s' :- Execute(env, s, cmds[0]);
      Run(env, s', cmds[1..])
  }

  /** After construction and initialisation only the null timer is registered. */
  function Initial(): State {
    var heartbeat := Timer(true, NULL_INTERVAL, NULL_INTERVAL, true, true, NullTimer);
    State(RawTable(seq(64, i => if i == 0 then heartbeat else BLANK), 1), 0xffff_ffff, 0xffff_ffff, 0, [])
  }
}
