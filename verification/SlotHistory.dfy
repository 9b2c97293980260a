/** The firings of one slot over a run in which anybody may re-arm it, its own handler
    included: between two requests for the slot, wherever they are issued, it fires on
    the schedule that the first of them set. */
module SlotHistory {
  import opened Machine
  import opened TimerTable
  import N = NaiveScheduler
  import C = CountdownScheduler
  import R = Refinement
  import S = TimerSchedule

  /** What happens in a run: a request is carried out, the clock advances by a tick, a
      handler is called, or all marks of a tick have been served. */
  datatype Event = Ask(r: Request) | Tick | Call(slot: nat) | Done

  /** A moment of a run: the clock, and the marks that are served from slot `next` on. */
  datatype Moment = Moment(clock: N.Clock, marks: seq<bool>, next: nat)

  predicate Marked(m: Moment, slot: nat) {
    m.next <= slot < |m.marks| && slot < m.clock.table.num && m.marks[slot]
  }

  /** Can the event happen next? Handlers are called in slot order, none is skipped,
      and the clock waits until all are served. */
  ghost predicate Legal(env: Env, m: Moment, e: Event) {
    match e
    case Ask(r) => N.Step(env, m.clock, r).Ok?
    case Tick => m.clock.now + 1 < 0x1_0000_0000_0000_0000 && !Overflows(m.clock.table, m.clock.now + 1)
                    && forall k: nat :: !Marked(m, k)
    case Call(slot) => Marked(m, slot) && forall k: nat :: k < slot ==> !Marked(m, k)
    case Done => forall k: nat :: !Marked(m, k)
  }

  function After(env: Env, m: Moment, e: Event): Moment
    requires Legal(env, m, e)
  {
    var c := m.clock;
    match e
    case Ask(r) => m.(clock := N.Step(env, c, r).value)
    case Tick => Moment(N.Clock(c.now + 1, AdvanceAll(c.table, c.now + 1), c.log), Marks(c.table, c.now + 1), 0)
    case Call(slot) =>
      Moment(c.(log := c.log + [Firing(slot, c.now, c.table.slots[slot].handler)]), m.marks, slot + 1)
    case Done => Moment(c, [], 0)
  }

  ghost predicate History(env: Env, m: Moment, es: seq<Event>)
    decreases |es|, 0
  {
    es == [] || (History(env, m, es[..|es| - 1]) && Legal(env, At(env, m, es[..|es| - 1]), es[|es| - 1]))
  }

  /** The moment after a history. */
  ghost function At(env: Env, m: Moment, es: seq<Event>): Moment
    requires History(env, m, es)
    decreases |es|, 1
  {
    if es == [] then m else After(env, At(env, m, es[..|es| - 1]), es[|es| - 1])
  }

  /** A handler that is marked but not yet called counts as fired. */
  function Fired(m: Moment, slot: nat): seq<Firing> {
    S.Of(m.clock.log, slot)
    + (if Marked(m, slot) then [Firing(slot, m.clock.now, m.clock.table.slots[slot].handler)] else [])
  }

  /** Every interval is positive and every deadline lies ahead. */
  predicate Ahead(c: N.Clock) {
    forall i :: 0 <= i < c.table.num ==>
                  c.table.slots[i].period >= 1 && (c.table.slots[i].active ==> c.table.slots[i].timeToFire > c.now)
  }

  /** The request works on another slot. */
  predicate Spares(m: Moment, e: Event, slot: nat) {
    e.Ask? ==> Target(m.clock.table, e.r) != slot
  }

  lemma AheadKept(env: Env, m: Moment, e: Event)
    requires Ahead(m.clock) && Legal(env, m, e)
    ensures Ahead(After(env, m, e).clock)
  {
    match e {
      case Ask(r) => StepAhead(env, m.clock, r);
      case Tick => R.AdvanceMovesAhead(m.clock.table, m.clock.now + 1);
      case Call(_) =>
      case Done =>
    }
  }

  lemma StepAhead(env: Env, c: N.Clock, r: Request)
    requires Ahead(c) && N.Step(env, c, r).Ok?
    ensures Ahead(N.Step(env, c, r).value)
  {
    var slot := Target(c.table, r);
    var tb := N.Step(env, c, r).value.table;
    assert forall i :: 0 <= i < tb.num && i != slot ==> tb.slots[i] == c.table.slots[i];
  }

  /** What a part of a history does to a slot that no request in it works on. */
  ghost predicate OnSchedule(a: Moment, b: Moment, slot: nat) {
    && slot < a.clock.table.num && slot < b.clock.table.num && a.clock.now <= b.clock.now
    && b.clock.table.slots[slot].handler == a.clock.table.slots[slot].handler
    && Fired(b, slot) == Fired(a, slot) + S.Schedule(slot, a.clock.table.slots[slot], a.clock.now, b.clock.now)
    && (forall k :: k > b.clock.now ==>
                      S.FiresAt(b.clock.table.slots[slot], k) == S.FiresAt(a.clock.table.slots[slot], k))
  }

  lemma Transitive(a: Moment, b: Moment, c: Moment, slot: nat)
    requires OnSchedule(a, b, slot) && OnSchedule(b, c, slot)
    ensures OnSchedule(a, c, slot)
  {
    hide Fired, S.Schedule, S.FiresAt;
    S.ScheduleSplit(slot, a.clock.table.slots[slot], a.clock.now, b.clock.now, c.clock.now);
    S.ScheduleSame(slot, a.clock.table.slots[slot], b.clock.table.slots[slot], b.clock.now, c.clock.now);
  }

  lemma NothingScheduled(slot: nat, t: Timer, now: nat)
    ensures S.Schedule(slot, t, now, now) == []
    ensures S.Schedule(slot, t, now, now + 1)
            == if S.FiresAt(t, now + 1) then [Firing(slot, now + 1, t.handler)] else []
  {
    assert S.Schedule(slot, t, now, now) == [];
  }

  lemma AskSpares(env: Env, m: Moment, r: Request, slot: nat)
    requires Legal(env, m, Ask(r)) && slot < m.clock.table.num && Target(m.clock.table, r) != slot
    ensures OnSchedule(m, After(env, m, Ask(r)), slot)
  {
    NothingScheduled(slot, m.clock.table.slots[slot], m.clock.now);
  }

  lemma TickSpares(env: Env, m: Moment, slot: nat)
    requires Legal(env, m, Tick) && Ahead(m.clock) && slot < m.clock.table.num
    ensures OnSchedule(m, After(env, m, Tick), slot)
  {
    var t, now := m.clock.table.slots[slot], m.clock.now + 1;
    var m' := After(env, m, Tick);
    assert m'.clock.table.slots[slot] == Advance(t, now) && Marked(m', slot) == Due(t, now);
    assert !Marked(m, slot);
    NothingScheduled(slot, t, m.clock.now);
    forall k | k > now ensures S.FiresAt(Advance(t, now), k) == S.FiresAt(t, k) {
      S.AdvanceKeepsFuture(t, now, k);
    }
  }

  lemma CallSpares(env: Env, m: Moment, i: nat, slot: nat)
    requires Legal(env, m, Call(i)) && slot < m.clock.table.num
    ensures OnSchedule(m, After(env, m, Call(i)), slot)
  {
    var m' := After(env, m, Call(i));
    NothingScheduled(slot, m.clock.table.slots[slot], m.clock.now);
    S.OfAppend(m.clock.log, Firing(i, m.clock.now, m.clock.table.slots[i].handler), slot);
    assert Marked(m', slot) == (Marked(m, slot) && slot != i);
  }

  lemma DoneSpares(env: Env, m: Moment, slot: nat)
    requires Legal(env, m, Done) && slot < m.clock.table.num
    ensures OnSchedule(m, After(env, m, Done), slot)
  {
    assert !Marked(m, slot);
    NothingScheduled(slot, m.clock.table.slots[slot], m.clock.now);
  }

  lemma EventSpares(env: Env, m: Moment, e: Event, slot: nat)
    requires Legal(env, m, e) && Ahead(m.clock) && slot < m.clock.table.num && Spares(m, e, slot)
    ensures OnSchedule(m, After(env, m, e), slot)
  {
    hide OnSchedule, Legal, After, Ahead;
    match e {
      case Ask(r) => AskSpares(env, m, r, slot);
      case Tick => TickSpares(env, m, slot);
      case Call(i) => CallSpares(env, m, i, slot);
      case Done => DoneSpares(env, m, slot);
    }
  }

  lemma {:induction false} HistoryPrefix(env: Env, m: Moment, es: seq<Event>, a: nat)
    requires History(env, m, es) && a <= |es|
    ensures History(env, m, es[..a])
    decreases |es|
  {
    if a < |es| {
      HistoryPrefix(env, m, es[..|es| - 1], a);
      assert es[..|es| - 1][..a] == es[..a];
    } else {
      assert es[..a] == es;
    }
  }

  /** The moment before event `k`. */
  ghost function Before(env: Env, m: Moment, es: seq<Event>, k: nat): Moment
    requires History(env, m, es) && k <= |es|
  {
    HistoryPrefix(env, m, es, k);
    At(env, m, es[..k])
  }

  lemma BeforeNext(env: Env, m: Moment, es: seq<Event>, k: nat)
    requires History(env, m, es) && k < |es|
    ensures Legal(env, Before(env, m, es, k), es[k])
    ensures Before(env, m, es, k + 1) == After(env, Before(env, m, es, k), es[k])
  {
    HistoryPrefix(env, m, es, k + 1);
    assert es[..k + 1][..k] == es[..k];
  }

  lemma {:induction false} AlwaysAhead(env: Env, m: Moment, es: seq<Event>, k: nat)
    requires History(env, m, es) && k <= |es| && Ahead(m.clock)
    ensures Ahead(Before(env, m, es, k).clock)
  {
    hide Ahead, Legal, After;
    if k > 0 {
      AlwaysAhead(env, m, es, k - 1);
      BeforeNext(env, m, es, k - 1);
      AheadKept(env, Before(env, m, es, k - 1), es[k - 1]);
    } else {
      BeforeFirst(env, m, es);
    }
  }

  lemma BeforeFirst(env: Env, m: Moment, es: seq<Event>)
    requires History(env, m, es)
    ensures Before(env, m, es, 0) == m
  {
    assert es[..0] == [];
  }

  /** No request from event `a` up to event `b` works on the slot. */
  ghost predicate Untouched(env: Env, m: Moment, es: seq<Event>, a: nat, b: nat, slot: nat)
    requires History(env, m, es) && a <= b <= |es|
  {
    forall k :: a <= k < b ==> Spares(Before(env, m, es, k), es[k], slot)
  }

  lemma Itself(m: Moment, slot: nat)
    requires slot < m.clock.table.num
    ensures OnSchedule(m, m, slot)
  {
    NothingScheduled(slot, m.clock.table.slots[slot], m.clock.now);
  }

  /** Between any two events of a history with no request for the slot in between, the
      slot fires exactly on the schedule of the timer it held at the first. */
  lemma {:induction false} SlotFollowsSchedule(env: Env, m: Moment, es: seq<Event>, a: nat, b: nat, slot: nat)
    requires History(env, m, es) && Ahead(m.clock) && a <= b <= |es|
    requires slot < Before(env, m, es, a).clock.table.num && Untouched(env, m, es, a, b, slot)
    ensures OnSchedule(Before(env, m, es, a), Before(env, m, es, b), slot)
    decreases b - a
  {
    hide History, Before, Ahead, Legal, After, Spares;
    if a == b {
      Itself(Before(env, m, es, a), slot);
    } else {
      SlotFollowsSchedule(env, m, es, a, b - 1, slot);
      AlwaysAhead(env, m, es, b - 1);
      BeforeNext(env, m, es, b - 1);
      EventSpares(env, Before(env, m, es, b - 1), es[b - 1], slot);
      Transitive(Before(env, m, es, a), Before(env, m, es, b - 1), Before(env, m, es, b), slot);
    }
  }

  /** An arming request sets the slot's timer: it is due after the interval asked for. */
  lemma RequestSetsTimer(env: Env, m: Moment, r: Request)
    requires Legal(env, m, Ask(r)) && Arms(r)
    ensures var slot, ticks := Target(m.clock.table, r), TicksFor(env, m.clock.table, r);
            var c := After(env, m, Ask(r)).clock;
            && slot < c.table.num && c.now == m.clock.now
            && c.table.slots[slot].active && c.table.slots[slot].period == ticks
            && c.table.slots[slot].timeToFire == m.clock.now + ticks
            && c.table.slots[slot].continuous == r.continuous
  {
  }

  // Every run has such a history.

  function Asks(rs: seq<Request>): (es: seq<Event>)
    ensures |es| == |rs| && forall i :: 0 <= i < |rs| ==> es[i] == Ask(rs[i])
  {
    seq(|rs|, i requires 0 <= i < |rs| => Ask(rs[i]))
  }

  /** The events of the second loop, from slot `i` on. */
  function Calls(env: Env, c: N.Clock, i: nat, marks: seq<bool>): seq<Event>
    decreases |marks| - i
  {
    if i >= c.table.num || i >= |marks| then []
    else if !marks[i] then Calls(env, c, i + 1, marks)
    else
      var h := c.table.slots[i].handler;
      var log := c.log + [Firing(i, c.now, h)];
      var rs := Script(env, h, log);
      match N.Steps(env, c.(log := log), rs)
      case Ok(c') => [Call(i)] + Asks(rs) + Calls(env, c', i + 1, marks)
      case Fail(_) => []
  }

  function TickEvents(env: Env, c: N.Clock): seq<Event>
    requires N.Tick(env, c).Ok?
  {
    var now := c.now + 1;
    [Tick] + Calls(env, N.Clock(now, AdvanceAll(c.table, now), c.log), 0, Marks(c.table, now)) + [Done]
  }

  function TicksEvents(env: Env, c: N.Clock, n: nat): seq<Event>
    requires N.Ticks(env, c, n).Ok?
    decreases n
  {
    if n == 0 then [] else TickEvents(env, c) + TicksEvents(env, N.Tick(env, c).value, n - 1)
  }

  function CommandEvents(env: Env, c: N.Clock, cmd: Command): seq<Event>
    requires N.Execute(env, c, cmd).Ok?
  {
    match cmd
    case Do(r) => [Ask(r)]
    case Tick1 => TickEvents(env, c)
    case TickN(n) => TicksEvents(env, c, n)
  }

  /** All events of a run, those inside callbacks included. */
  function RunEvents(env: Env, c: N.Clock, cmds: seq<Command>): seq<Event>
    requires N.Run(env, c, cmds).Ok?
    decreases |cmds|
  {
    if cmds == [] then []
    else CommandEvents(env, c, cmds[0]) + RunEvents(env, N.Execute(env, c, cmds[0]).value, cmds[1..])
  }

  /** `es` is a history from `m` to `m'`. */
  ghost predicate Leads(env: Env, m: Moment, es: seq<Event>, m': Moment) {
    History(env, m, es) && At(env, m, es) == m'
  }

  lemma {:induction false} LeadsAppend(env: Env, m: Moment, es: seq<Event>, m1: Moment, fs: seq<Event>, m2: Moment)
    requires Leads(env, m, es, m1) && Leads(env, m1, fs, m2)
    ensures Leads(env, m, es + fs, m2)
    decreases |fs|
  {
    hide Legal, After;
    if fs == [] {
      assert es + fs == es;
    } else {
      var init := fs[..|fs| - 1];
      LeadsAppend(env, m, es, m1, init, At(env, m1, init));
      assert (es + fs)[..|es + fs| - 1] == es + init;
    }
  }

  lemma LeadsOne(env: Env, m: Moment, e: Event)
    requires Legal(env, m, e)
    ensures Leads(env, m, [e], After(env, m, e))
  {
    assert [e][..0] == [];
  }

  lemma LeadsNowhere(env: Env, m: Moment)
    ensures Leads(env, m, [], m)
  {
  }

  lemma {:induction false} AsksLead(env: Env, m: Moment, rs: seq<Request>)
    requires N.Steps(env, m.clock, rs).Ok?
    ensures Leads(env, m, Asks(rs), m.(clock := N.Steps(env, m.clock, rs).value))
    decreases |rs|
  {
    hide Leads, N.Step;
    if rs == [] {
      LeadsNowhere(env, m);
      assert Asks(rs) == [];
    } else {
      var m1 := m.(clock := N.Step(env, m.clock, rs[0]).value);
      LeadsOne(env, m, Ask(rs[0]));
      AsksLead(env, m1, rs[1..]);
      LeadsAppend(env, m, [Ask(rs[0])], m1, Asks(rs[1..]), m.(clock := N.Steps(env, m.clock, rs).value));
      assert Asks(rs) == [Ask(rs[0])] + Asks(rs[1..]);
    }
  }

  /** The slots below `i` are served. */
  predicate ServedBelow(m: Moment, i: nat) {
    m.next <= i && forall k :: m.next <= k < i && k < |m.marks| ==> !m.marks[k]
  }

  lemma {:induction false} CallsLead(env: Env, m: Moment, i: nat) returns (next: nat)
    requires ServedBelow(m, i) && N.Deliver(env, m.clock, i, m.marks).Ok?
    ensures var m' := Moment(N.Deliver(env, m.clock, i, m.marks).value, m.marks, next);
            Leads(env, m, Calls(env, m.clock, i, m.marks), m') && forall k: nat :: !Marked(m', k)
    decreases |m.marks| - i
  {
    hide Leads, Legal, After;
    var c, marks := m.clock, m.marks;
    next := m.next;
    if i >= c.table.num || i >= |marks| {
      LeadsNowhere(env, m);
    } else if !marks[i] {
      next := CallsLead(env, m, i + 1);
    } else {
      var h := c.table.slots[i].handler;
      var log := c.log + [Firing(i, c.now, h)];
      var rs := Script(env, h, log);
      var m1 := Moment(c.(log := log), marks, i + 1);
      var m2 := m1.(clock := N.Steps(env, m1.clock, rs).value);
      CallIs(env, m, i);
      LeadsOne(env, m, Call(i));
      AsksLead(env, m1, rs);
      LeadsAppend(env, m, [Call(i)], m1, Asks(rs), m2);
      next := CallsLead(env, m2, i + 1);
      var m3 := Moment(N.Deliver(env, m2.clock, i + 1, marks).value, marks, next);
      LeadsAppend(env, m, [Call(i)] + Asks(rs), m2, Calls(env, m2.clock, i + 1, marks), m3);
    }
  }

  lemma CallIs(env: Env, m: Moment, i: nat)
    requires ServedBelow(m, i) && i < m.clock.table.num && i < |m.marks| && m.marks[i]
    ensures Legal(env, m, Call(i))
    ensures After(env, m, Call(i)) == Moment(
              m.clock.(log := m.clock.log + [Firing(i, m.clock.now, m.clock.table.slots[i].handler)]), m.marks, i + 1)
  {
  }

  lemma TickLeads(env: Env, c: N.Clock)
    requires N.Tick(env, c).Ok?
    ensures Leads(env, Moment(c, [], 0), TickEvents(env, c), Moment(N.Tick(env, c).value, [], 0))
  {
    hide Leads, AdvanceAll, Marks, Overflows, N.Deliver;
    var now := c.now + 1;
    var m := Moment(c, [], 0);
    var c1, marks := N.Clock(now, AdvanceAll(c.table, now), c.log), Marks(c.table, now);
    var m1 := Moment(c1, marks, 0);
    LeadsOne(env, m, Tick);
    var next := CallsLead(env, m1, 0);
    var m2 := Moment(N.Tick(env, c).value, marks, next);
    LeadsAppend(env, m, [Tick], m1, Calls(env, c1, 0, marks), m2);
    LeadsOne(env, m2, Done);
    LeadsAppend(env, m, [Tick] + Calls(env, c1, 0, marks), m2, [Done], Moment(m2.clock, [], 0));
  }

  lemma {:induction false} TicksLead(env: Env, c: N.Clock, n: nat)
    requires N.Ticks(env, c, n).Ok?
    ensures Leads(env, Moment(c, [], 0), TicksEvents(env, c, n), Moment(N.Ticks(env, c, n).value, [], 0))
    decreases n
  {
    hide Leads, N.Tick, TickEvents;
    if n == 0 {
      LeadsNowhere(env, Moment(c, [], 0));
    } else {
      var c1 := N.Tick(env, c).value;
      TickLeads(env, c);
      TicksLead(env, c1, n - 1);
      LeadsAppend(env, Moment(c, [], 0), TickEvents(env, c), Moment(c1, [], 0),
                  TicksEvents(env, c1, n - 1), Moment(N.Ticks(env, c, n).value, [], 0));
    }
  }

  lemma CommandLeads(env: Env, c: N.Clock, cmd: Command)
    requires N.Execute(env, c, cmd).Ok?
    ensures Leads(env, Moment(c, [], 0), CommandEvents(env, c, cmd), Moment(N.Execute(env, c, cmd).value, [], 0))
  {
    hide Leads, N.Step, N.Tick, N.Ticks;
    match cmd
    case Do(r) => LeadsOne(env, Moment(c, [], 0), Ask(r));
    case Tick1 => TickLeads(env, c);
    case TickN(n) => TicksLead(env, c, n);
  }

  lemma {:induction false} RunLeads(env: Env, c: N.Clock, cmds: seq<Command>)
    requires N.Run(env, c, cmds).Ok?
    ensures Leads(env, Moment(c, [], 0), RunEvents(env, c, cmds), Moment(N.Run(env, c, cmds).value, [], 0))
    decreases |cmds|
  {
    hide Leads, N.Execute, CommandEvents;
    if cmds == [] {
      LeadsNowhere(env, Moment(c, [], 0));
    } else {
      var c1 := N.Execute(env, c, cmds[0]).value;
      CommandLeads(env, c, cmds[0]);
      RunLeads(env, c1, cmds[1..]);
      LeadsAppend(env, Moment(c, [], 0), CommandEvents(env, c, cmds[0]), Moment(c1, [], 0),
                  RunEvents(env, c1, cmds[1..]), Moment(N.Run(env, c, cmds).value, [], 0));
    }
  }

  /** The countdown scheduler's run from a valid state has this history: its events lead
      to its final firings and table, and every slot follows its schedule between two
      requests for it, whether these come from outside or from a callback. */
  lemma CountdownHistory(env: Env, s: C.State, cmds: seq<Command>, a: nat, b: nat, slot: nat)
    requires R.Valid(s) && N.Run(env, R.Abs(s), cmds).Ok?
    requires a <= b <= |RunEvents(env, R.Abs(s), cmds)|
    ensures C.Run(env, s, cmds).Ok?
    ensures var m, es := Moment(R.Abs(s), [], 0), RunEvents(env, R.Abs(s), cmds);
            && Leads(env, m, es, Moment(R.Abs(C.Run(env, s, cmds).value), [], 0))
            && (slot < Before(env, m, es, a).clock.table.num && Untouched(env, m, es, a, b, slot) ==>
                  OnSchedule(Before(env, m, es, a), Before(env, m, es, b), slot))
  {
    hide C.Run, N.Run, OnSchedule, Untouched, History, RunEvents;
    var m, es := Moment(R.Abs(s), [], 0), RunEvents(env, R.Abs(s), cmds);
    R.RunRefines(env, s, cmds);
    RunLeads(env, R.Abs(s), cmds);
    ValidAhead(s);
    if slot < Before(env, m, es, a).clock.table.num && Untouched(env, m, es, a, b, slot) {
      SlotFollowsSchedule(env, m, es, a, b, slot);
    }
  }

  lemma ValidAhead(s: C.State)
    requires R.Valid(s)
    ensures Ahead(R.Abs(s))
  {
    R.TimeIsExact(s);
  }
}
