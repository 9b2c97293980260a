/** The timer table: its slots, and what one timer request does to it.

    Both schedulers (the countdown one and the one that looks at every timer on
    every tick) work on this table; they differ in how they keep time. */
module TimerTable {
  import opened Machine

  const MAX_TIMERS := 64
  const NULL_INTERVAL: u64 := 0xffff_ffff
  const MAX_BIT64S: u64 := 0x7fff_ffff_ffff_ffff

  /** The function pointer of a slot: NULL, the heartbeat, or a device callback. */
  datatype Handler = NoHandler | NullTimer | Device(id: nat)

  datatype Timer = Timer(
    inUse: bool,
    period: u64,
    timeToFire: u64,
    active: bool,
    continuous: bool,
    handler: Handler)

  /** Slots as they are in zero-initialised static storage. */
  const BLANK := Timer(false, 0, 0, false, false, NoHandler)

  datatype RawTable = RawTable(slots: seq<Timer>, num: nat)

  type Table = t: RawTable | |t.slots| == 64 && 1 <= t.num <= 64
    witness RawTable(seq(64, _ => BLANK), 1)

  /** One call of a handler, at an absolute tick. */
  datatype Firing = Firing(slot: nat, tick: nat, handler: Handler)

  datatype Request =
    | Register(ticks: u64, continuous: bool, active: bool, device: nat)
    | ActivateTicks(slot: nat, ticks: u64, continuous: bool)
    | Activate(slot: nat, useconds: u32, continuous: bool)
    | Deactivate(slot: nat)
    | Unregister(slot: nat)

  datatype Command = Do(request: Request) | Tick1 | TickN(n: u32)

  /** What ends a run: no slot left, a slot the guards reject, a NULL handler,
      a deadline that does not fit 64 bits, or a countdown that cannot move. */
  datatype Fault = TableFull | BadSlot | NullCall | ClockOverflow | Stuck

  datatype Outcome<+T> = Ok(value: T) | Fail(fault: Fault) {
    predicate IsFailure() {
      Fail?
    }
    function PropagateFailure<U>(): Outcome<U>
      requires Fail?
    {
      Fail(fault)
    }
    function Extract(): T
      requires Ok?
    {
      value
    }
  }

  /** Device code. A callback issues requests that may depend on everything that
      has fired so far; `ticksOf` converts microseconds to ticks. */
  datatype Env = Env(callback: seq<Firing> -> seq<Request>, ticksOf: u32 -> u64)

  function Script(env: Env, h: Handler, log: seq<Firing>): seq<Request> {
    if h.NullTimer? then [] else env.callback(log)
  }

  function AtLeastOne(ticks: u64): u64 {
    if ticks < 1 then 1 else ticks
  }

  /** The first unused slot from `i` on, or the bound `num`. */
  function FirstFree(tb: Table, i: nat): (slot: nat)
    requires i <= tb.num
    ensures i <= slot <= tb.num
    ensures slot < tb.num ==> !tb.slots[slot].inUse
    ensures forall k :: i <= k < slot ==> tb.slots[k].inUse
    decreases tb.num - i
  {
    if i == tb.num || !tb.slots[i].inUse then i else FirstFree(tb, i + 1)
  }

  /** Does the request start a timer? */
  predicate Arms(r: Request) {
    match r
    case Register(_, _, active, _) => active
    case ActivateTicks(_, _, _) => true
    case Activate(_, _, _) => true
    case Deactivate(_) => false
    case Unregister(_) => false
  }

  /** The slot a request works on. */
  function Target(tb: Table, r: Request): nat {
    match r
    case Register(_, _, _, _) => FirstFree(tb, 1)
    case ActivateTicks(slot, _, _) => slot
    case Activate(slot, _, _) => slot
    case Deactivate(slot) => slot
    case Unregister(slot) => slot
  }

  /** What the guards of pc_system.cc ask of a caller: a free slot, or a slot below the bound
      that is not the null timer. */
  function Admit(tb: Table, r: Request): Outcome<nat> {
    var slot := Target(tb, r);
    if r.Register? then
      if slot < MAX_TIMERS then Ok(slot) else Fail(TableFull)
    else
      if 1 <= slot < tb.num then Ok(slot) else Fail(BadSlot)
  }

  /** A registration is refused if and only if all 63 slots are in use, and any other
      request if and only if its slot is the null timer or lies at or beyond the bound. */
  lemma AdmitExactly(tb: Table, r: Request)
    ensures r.Register? ==> (Admit(tb, r).Ok? <==> tb.num < 64 || exists k :: 1 <= k < 64 && !tb.slots[k].inUse)
    ensures !r.Register? ==> (Admit(tb, r).Ok? <==> 1 <= r.slot < tb.num)
    ensures Admit(tb, r).Fail? ==> Admit(tb, r).fault == if r.Register? then TableFull else BadSlot
  {
    if r.Register? && exists k :: 1 <= k < 64 && !tb.slots[k].inUse {
      var k :| 1 <= k < 64 && !tb.slots[k].inUse;
      assert FirstFree(tb, 1) <= k;
    }
  }

  /** The interval in ticks that the request asks for, never below one. */
  function TicksFor(env: Env, tb: Table, r: Request): (ticks: u64)
    requires Admit(tb, r).Ok?
    ensures Arms(r) ==> ticks >= 1
  {
    match r
    case Register(ticks, _, _, _) => AtLeastOne(ticks)
    case ActivateTicks(_, ticks, _) => AtLeastOne(ticks)
    case Activate(slot, useconds, _) =>
      if useconds == 0 then AtLeastOne(tb.slots[slot].period) else AtLeastOne(env.ticksOf(useconds))
    case Deactivate(_) => 0
    case Unregister(_) => 0
  }

  /** The table after an admitted request, given the interval and the deadline. */
  function Apply(tb: Table, r: Request, ticks: u64, deadline: u64): (tb': Table)
    requires Admit(tb, r).Ok?
  {
    var slot := Target(tb, r);
    var t := tb.slots[slot];
    match r
    case Register(_, continuous, active, device) =>
      var t' := Timer(true, ticks, deadline, active, continuous, Device(device));
      RawTable(tb.slots[slot := t'], if slot == tb.num then tb.num + 1 else tb.num)
    case ActivateTicks(_, _, continuous) =>
      var t' := t.(period := ticks, timeToFire := deadline, active := true, continuous := continuous);
      tb.(slots := tb.slots[slot := t'])
    case Activate(_, _, continuous) =>
      var t' := t.(period := ticks, timeToFire := deadline, active := true, continuous := continuous);
      tb.(slots := tb.slots[slot := t'])
    case Deactivate(_) =>
      tb.(slots := tb.slots[slot := t.(active := false)])
    case Unregister(_) =>
      if t.active then tb
      else RawTable(tb.slots[slot := Timer(false, MAX_BIT64S, MAX_BIT64S, t.active, false, NoHandler)],
                    if slot == tb.num - 1 then tb.num - 1 else tb.num)
  }

  predicate Due(t: Timer, now: u64) {
    t.active && t.timeToFire == now
  }

  /** A due timer stops if it is one-shot and is re-armed if it is continuous. */
  function Advance(t: Timer, now: u64): Timer {
    if !Due(t, now) then t
    else if t.continuous then t.(timeToFire := Wrap64(t.timeToFire + t.period))
    else t.(active := false)
  }

  function AdvanceAll(tb: Table, now: u64): (tb': Table)
    ensures tb'.num == tb.num
    ensures forall i :: 0 <= i < 64 ==>
                          tb'.slots[i] == if i < tb.num then Advance(tb.slots[i], now) else tb.slots[i]
  {
    tb.(slots := seq(64, i requires 0 <= i < 64 => if i < tb.num then Advance(tb.slots[i], now) else tb.slots[i]))
  }

  function Marks(tb: Table, now: u64): (marks: seq<bool>)
    ensures |marks| == tb.num
    ensures forall i :: 0 <= i < tb.num ==> marks[i] == Due(tb.slots[i], now)
  {
    seq(tb.num, i requires 0 <= i < tb.num => Due(tb.slots[i], now))
  }

  /** Some due continuous timer has no next deadline within 64 bits. */
  predicate Overflows(tb: Table, now: u64) {
    exists i :: 0 <= i < tb.num && Due(tb.slots[i], now) && tb.slots[i].continuous
                && now + tb.slots[i].period >= 0x1_0000_0000_0000_0000
  }
}
