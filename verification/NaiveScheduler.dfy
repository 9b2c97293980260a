/** The reference scheduler: a 64-bit clock that looks at every timer on every
    tick. Deadlines are exact; a run that would need a deadline of 2^64 or more
    ends with ClockOverflow. */
module NaiveScheduler {
  import opened Machine
  import opened TimerTable

  datatype Clock = Clock(now: u64, table: Table, log: seq<Firing>)

  function Step(env: Env, c: Clock, r: Request): Outcome<Clock> {
    var slot :- Admit(c.table, r);
    var ticks := TicksFor(env, c.table, r);
    if Arms(r) && c.now + ticks >= 0x1_0000_0000_0000_0000 then Fail(ClockOverflow)
    else Ok(c.(table := Apply(c.table, r, ticks, Wrap64(c.now + ticks))))
  }

  function Steps(env: Env, c: Clock, rs: seq<Request>): Outcome<Clock>
    decreases |rs|
  {
    if rs == [] then Ok(c)
    else
      var c' :- Step(env, c, rs[0]);
      Steps(env, c', rs[1..])
  }

  /** Calls the handlers of the marked slots from `i` on, lowest slot first. */
  function Deliver(env: Env, c: Clock, i: nat, marks: seq<bool>): Outcome<Clock>
    decreases |marks| - i
  {
    if i >= c.table.num || i >= |marks| then Ok(c)
    else if !marks[i] then Deliver(env, c, i + 1, marks)
    else
      var h := c.table.slots[i].handler;
      if h.NoHandler? then Fail(NullCall)
      else
        var log := c.log + [Firing(i, c.now, h)];
        var c' :- Steps(env, c.(log := log), Script(env, h, log));
        Deliver(env, c', i + 1, marks)
  }

  function Tick(env: Env, c: Clock): Outcome<Clock> {
    if c.now + 1 >= 0x1_0000_0000_0000_0000 || Overflows(c.table, c.now + 1) then Fail(ClockOverflow)
    else Deliver(env, Clock(c.now + 1, AdvanceAll(c.table, c.now + 1), c.log), 0, Marks(c.table, c.now + 1))
  }

  function Ticks(env: Env, c: Clock, n: nat): Outcome<Clock>
    decreases n
  {
    if n == 0 then Ok(c)
    else
      var c' :- Tick(env, c);
      Ticks(env, c', n - 1)
  }

  function Execute(env: Env, c: Clock, cmd: Command): Outcome<Clock> {
    match cmd
    case Do(r) => Step(env, c, r)
    case Tick1 => Tick(env, c)
    case TickN(n) => Ticks(env, c, n)
  }

  function Run(env: Env, c: Clock, cmds: seq<Command>): Outcome<Clock>
    decreases |cmds|
  {
    if cmds == [] then Ok(c)
    else
      var c' :- Execute(env, c, cmds[0]);
      Run(env, c', cmds[1..])
  }
}
