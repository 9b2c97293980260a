/** What callbacks do to a run: the requests that a handler issues are carried out one
    after the other, before the next handler is called, and a slot that was handed out
    belongs to its device until it is given back. */
module Callbacks {
  import opened Machine
  import opened TimerTable
  import opened SlotHistory
  import N = NaiveScheduler
  import C = CountdownScheduler
  import R = Refinement

  /** The event is the next call, or the end of the tick. */
  predicate CallOrDone(es: seq<Event>, k: nat) {
    k < |es| && (es[k].Call? || es[k].Done?)
  }

  /** The requests `rs` are the events from `k` on, and nothing else comes before the
      next call or the end of the tick. */
  predicate CarriedOut(es: seq<Event>, k: nat, rs: seq<Request>) {
    && k + |rs| < |es|
    && (forall j :: 0 <= j < |rs| ==> es[k + j] == Ask(rs[j]))
    && CallOrDone(es, k + |rs|)
  }

  /** What follows a call: a device's callback sees all firings including its own; the
      heartbeat asks for nothing; no slot without a handler is called. */
  ghost predicate CallServed(env: Env, m: Moment, es: seq<Event>, k: nat)
    requires History(env, m, es) && k < |es|
  {
    es[k].Call? ==>
      var slots := Before(env, m, es, k).clock.table.slots;
      && es[k].slot < 64
      && match slots[es[k].slot].handler
         case Device(_) => CarriedOut(es, k + 1, env.callback(Before(env, m, es, k + 1).clock.log))
         case NullTimer => CallOrDone(es, k + 1)
         case NoHandler => false
  }

  ghost predicate AllServed(env: Env, m: Moment, es: seq<Event>)
    requires History(env, m, es)
  {
    forall k :: 0 <= k < |es| ==> CallServed(env, m, es, k)
  }

  lemma BeforeLeft(env: Env, m: Moment, es: seq<Event>, fs: seq<Event>, k: nat)
    requires History(env, m, es) && History(env, m, es + fs) && k <= |es|
    ensures Before(env, m, es + fs, k) == Before(env, m, es, k)
  {
    assert (es + fs)[..k] == es[..k];
  }

  lemma BeforeRight(env: Env, m: Moment, es: seq<Event>, m1: Moment, fs: seq<Event>, k: nat)
    requires Leads(env, m, es, m1) && History(env, m1, fs) && History(env, m, es + fs) && k <= |fs|
    ensures Before(env, m, es + fs, |es| + k) == Before(env, m1, fs, k)
  {
    hide Before, History, At;
    LeadsBefore(env, m1, fs, k);
    LeadsBefore(env, m, es + fs, |es| + k);
    assert (es + fs)[..|es| + k] == es + fs[..k];
    LeadsAppend(env, m, es, m1, fs[..k], Before(env, m1, fs, k));
  }

  lemma LeadsBefore(env: Env, m: Moment, es: seq<Event>, k: nat)
    requires History(env, m, es) && k <= |es|
    ensures Leads(env, m, es[..k], Before(env, m, es, k))
  {
    hide History, At;
    HistoryPrefix(env, m, es, k);
  }

  lemma ServedLeft(env: Env, m: Moment, es: seq<Event>, fs: seq<Event>, k: nat)
    requires History(env, m, es) && History(env, m, es + fs) && k < |es| && CallServed(env, m, es, k)
    ensures CallServed(env, m, es + fs, k)
  {
    hide Before, History;
    BeforeLeft(env, m, es, fs, k);
    BeforeLeft(env, m, es, fs, k + 1);
    if es[k].Call? {
      assert forall j :: 0 <= j < |es| ==> (es + fs)[j] == es[j];
    }
  }

  lemma ServedRight(env: Env, m: Moment, es: seq<Event>, m1: Moment, fs: seq<Event>, k: nat)
    requires Leads(env, m, es, m1) && History(env, m1, fs) && History(env, m, es + fs)
    requires k < |fs| && CallServed(env, m1, fs, k)
    ensures CallServed(env, m, es + fs, |es| + k)
  {
    hide Before, History;
    BeforeRight(env, m, es, m1, fs, k);
    BeforeRight(env, m, es, m1, fs, k + 1);
    if fs[k].Call? {
      assert forall j :: 0 <= j < |fs| ==> (es + fs)[|es| + j] == fs[j];
    }
  }

  lemma ServedAppend(env: Env, m: Moment, es: seq<Event>, m1: Moment, fs: seq<Event>, m2: Moment)
    requires Leads(env, m, es, m1) && AllServed(env, m, es) && Leads(env, m1, fs, m2) && AllServed(env, m1, fs)
    ensures Leads(env, m, es + fs, m2) && AllServed(env, m, es + fs)
  {
    hide CallServed, At, History;
    LeadsAppend(env, m, es, m1, fs, m2);
    forall k | 0 <= k < |es + fs| ensures CallServed(env, m, es + fs, k) {
      if k < |es| {
        ServedLeft(env, m, es, fs, k);
      } else {
        ServedRight(env, m, es, m1, fs, k - |es|);
      }
    }
  }

  /** Requests, a tick and its end are no calls. */
  lemma NoCallsServed(env: Env, m: Moment, es: seq<Event>)
    requires History(env, m, es) && forall k :: 0 <= k < |es| ==> !es[k].Call?
    ensures AllServed(env, m, es)
  {
    hide History, Before;
  }

  /** One call, its requests, and what follows them. */
  lemma CallThenServed(env: Env, m: Moment, i: nat, rs: seq<Request>, rest: seq<Event>,
                       m1: Moment, m2: Moment, m3: Moment)
    requires i < 64 && i < m.clock.table.num && Legal(env, m, Call(i)) && m1 == After(env, m, Call(i))
    requires match m.clock.table.slots[i].handler
             case Device(_) => rs == env.callback(m1.clock.log)
             case NullTimer => rs == []
             case NoHandler => false
    requires Leads(env, m1, Asks(rs), m2) && Leads(env, m2, rest, m3) && AllServed(env, m2, rest) && CallOrDone(rest, 0)
    ensures var es := [Call(i)] + Asks(rs) + rest; Leads(env, m, es, m3) && AllServed(env, m, es)
  {
    hide History, At, Legal, After, CallServed;
    var asks := Asks(rs);
    var es := [Call(i)] + (asks + rest);
    NoCallsServed(env, m1, asks);
    ServedAppend(env, m1, asks, m2, rest, m3);
    LeadsOne(env, m, Call(i));
    LeadsAppend(env, m, [Call(i)], m1, asks + rest, m3);
    forall k | 0 <= k < |es| ensures CallServed(env, m, es, k) {
      if k == 0 {
        FirstServed(env, m, i, rs, rest, m1);
      } else {
        ServedRight(env, m, [Call(i)], m1, asks + rest, k - 1);
      }
    }
    assert es == [Call(i)] + asks + rest;
  }

  lemma FirstServed(env: Env, m: Moment, i: nat, rs: seq<Request>, rest: seq<Event>, m1: Moment)
    requires i < 64 && Legal(env, m, Call(i)) && m1 == After(env, m, Call(i)) && CallOrDone(rest, 0)
    requires match m.clock.table.slots[i].handler
             case Device(_) => rs == env.callback(m1.clock.log)
             case NullTimer => rs == []
             case NoHandler => false
    requires History(env, m, [Call(i)] + (Asks(rs) + rest))
    ensures CallServed(env, m, [Call(i)] + (Asks(rs) + rest), 0)
  {
    hide History, At, Legal, After, Before, CarriedOut, CallOrDone;
    var es := [Call(i)] + (Asks(rs) + rest);
    BeforeFirst(env, m, es);
    BeforeNext(env, m, es, 0);
    RequestsFollow(Call(i), rs, rest);
  }

  lemma RequestsFollow(e: Event, rs: seq<Request>, rest: seq<Event>)
    requires CallOrDone(rest, 0)
    ensures CarriedOut([e] + (Asks(rs) + rest), 1, rs)
    ensures rs == [] ==> CallOrDone([e] + (Asks(rs) + rest), 1)
  {
    var es := [e] + (Asks(rs) + rest);
    assert forall j :: 0 <= j < |rs| ==> es[1 + j] == Asks(rs)[j];
    assert es[1 + |rs|] == rest[0];
  }

  lemma {:induction false} CallsServed(env: Env, m: Moment, i: nat)
    requires ServedBelow(m, i) && N.Deliver(env, m.clock, i, m.marks).Ok?
    ensures var es := Calls(env, m.clock, i, m.marks) + [Done];
            && Leads(env, m, es, Moment(N.Deliver(env, m.clock, i, m.marks).value, [], 0))
            && AllServed(env, m, es) && CallOrDone(es, 0)
    decreases |m.marks| - i
  {
    hide Leads, Legal, After, AllServed, At, History;
    var c, marks := m.clock, m.marks;
    if i >= c.table.num || i >= |marks| {
      assert Calls(env, c, i, marks) + [Done] == [Done];
      DoneServed(env, m, i);
    } else if !marks[i] {
      CallsServed(env, m, i + 1);
    } else {
      var h := c.table.slots[i].handler;
      var log := c.log + [Firing(i, c.now, h)];
      var rs := Script(env, h, log);
      var m1 := Moment(c.(log := log), marks, i + 1);
      var m2 := m1.(clock := N.Steps(env, m1.clock, rs).value);
      var rest := Calls(env, m2.clock, i + 1, marks) + [Done];
      CallIs(env, m, i);
      AsksLead(env, m1, rs);
      CallsServed(env, m2, i + 1);
      CallThenServed(env, m, i, rs, rest, m1, m2, Moment(N.Deliver(env, c, i, marks).value, [], 0));
      assert Calls(env, c, i, marks) + [Done] == [Call(i)] + Asks(rs) + rest;
    }
  }

  lemma DoneServed(env: Env, m: Moment, i: nat)
    requires ServedBelow(m, i) && (i >= m.clock.table.num || i >= |m.marks|)
    ensures Leads(env, m, [Done], Moment(m.clock, [], 0)) && AllServed(env, m, [Done])
  {
    LeadsOne(env, m, Done);
    NoCallsServed(env, m, [Done]);
  }

  lemma TickServed(env: Env, c: N.Clock)
    requires N.Tick(env, c).Ok?
    ensures var m, es := Moment(c, [], 0), TickEvents(env, c);
            Leads(env, m, es, Moment(N.Tick(env, c).value, [], 0)) && AllServed(env, m, es)
  {
    hide Leads, AdvanceAll, Marks, Overflows, N.Deliver, AllServed;
    var now := c.now + 1;
    var m := Moment(c, [], 0);
    var m1 := Moment(N.Clock(now, AdvanceAll(c.table, now), c.log), Marks(c.table, now), 0);
    LeadsOne(env, m, Tick);
    TickAlone(env, m);
    CallsServed(env, m1, 0);
    var rest := Calls(env, m1.clock, 0, m1.marks) + [Done];
    ServedAppend(env, m, [Tick], m1, rest, Moment(N.Tick(env, c).value, [], 0));
    assert TickEvents(env, c) == [Tick] + rest;
  }

  lemma TickAlone(env: Env, m: Moment)
    requires Legal(env, m, Tick) && Leads(env, m, [Tick], After(env, m, Tick))
    ensures AllServed(env, m, [Tick])
  {
    NoCallsServed(env, m, [Tick]);
  }

  lemma {:induction false} TicksServed(env: Env, c: N.Clock, n: nat)
    requires N.Ticks(env, c, n).Ok?
    ensures var m, es := Moment(c, [], 0), TicksEvents(env, c, n);
            Leads(env, m, es, Moment(N.Ticks(env, c, n).value, [], 0)) && AllServed(env, m, es)
    decreases n
  {
    hide AllServed, Leads, N.Tick, TickEvents;
    if n == 0 {
      Nothing(env, Moment(c, [], 0));
    } else {
      var c1 := N.Tick(env, c).value;
      TickServed(env, c);
      TicksServed(env, c1, n - 1);
      ServedAppend(env, Moment(c, [], 0), TickEvents(env, c), Moment(c1, [], 0),
                   TicksEvents(env, c1, n - 1), Moment(N.Ticks(env, c, n).value, [], 0));
    }
  }

  lemma Nothing(env: Env, m: Moment)
    ensures Leads(env, m, [], m) && AllServed(env, m, [])
  {
  }

  lemma CommandServed(env: Env, c: N.Clock, cmd: Command)
    requires N.Execute(env, c, cmd).Ok?
    ensures var m, es := Moment(c, [], 0), CommandEvents(env, c, cmd);
            Leads(env, m, es, Moment(N.Execute(env, c, cmd).value, [], 0)) && AllServed(env, m, es)
  {
    hide Before, N.Tick, N.Ticks, N.Step, CallServed;
    match cmd
    case Do(r) =>
      LeadsOne(env, Moment(c, [], 0), Ask(r));
      NoCallsServed(env, Moment(c, [], 0), [Ask(r)]);
    case Tick1 => TickServed(env, c);
    case TickN(n) => TicksServed(env, c, n);
  }

  lemma {:induction false} RunServed(env: Env, c: N.Clock, cmds: seq<Command>)
    requires N.Run(env, c, cmds).Ok?
    ensures var m, es := Moment(c, [], 0), RunEvents(env, c, cmds);
            Leads(env, m, es, Moment(N.Run(env, c, cmds).value, [], 0)) && AllServed(env, m, es)
    decreases |cmds|
  {
    hide AllServed, Leads, N.Execute, CommandEvents;
    if cmds == [] {
      Nothing(env, Moment(c, [], 0));
    } else {
      var c1 := N.Execute(env, c, cmds[0]).value;
      CommandServed(env, c, cmds[0]);
      RunServed(env, c1, cmds[1..]);
      ServedAppend(env, Moment(c, [], 0), CommandEvents(env, c, cmds[0]), Moment(c1, [], 0),
                   RunEvents(env, c1, cmds[1..]), Moment(N.Run(env, c, cmds).value, [], 0));
    }
  }

  /** In every run of the countdown scheduler the events after a call are the requests of
      that handler, given all firings so far, and then the next call or the end of the
      tick. */
  lemma HandlersAreServed(env: Env, s: C.State, cmds: seq<Command>, k: nat, slot: nat)
    requires R.Valid(s) && N.Run(env, R.Abs(s), cmds).Ok?
    requires var es := RunEvents(env, R.Abs(s), cmds); k < |es| && es[k] == Call(slot) && slot < 64
    ensures var m, es := Moment(R.Abs(s), [], 0), RunEvents(env, R.Abs(s), cmds);
            && C.Run(env, s, cmds).Ok? && Leads(env, m, es, Moment(R.Abs(C.Run(env, s, cmds).value), [], 0))
            && var called := Before(env, m, es, k).clock.table.slots[slot].handler;
            var rs := env.callback(Before(env, m, es, k + 1).clock.log);
            && (called.Device? || called.NullTimer?)
            && (called.Device? ==>
                  && k + 1 + |rs| < |es| && (es[k + 1 + |rs|].Call? || es[k + 1 + |rs|].Done?)
                  && forall j :: 0 <= j < |rs| ==> es[k + 1 + j] == Ask(rs[j]))
            && (called.NullTimer? ==> k + 1 < |es| && (es[k + 1].Call? || es[k + 1].Done?))
  {
    hide C.Run, N.Run, RunEvents, Before, History, At;
    var m, es := Moment(R.Abs(s), [], 0), RunEvents(env, R.Abs(s), cmds);
    R.RunRefines(env, s, cmds);
    RunServed(env, R.Abs(s), cmds);
    assert CallServed(env, m, es, k);
  }

  // A slot belongs to the device it was registered for.

  /** Registering takes the first free slot, below or at the bound, for the device, started
      or not, and touches no other. */
  lemma RegisterTakesFreeSlot(env: Env, m: Moment, ticks: u64, continuous: bool, active: bool, device: nat)
    requires Legal(env, m, Ask(Register(ticks, continuous, active, device)))
    ensures var r := Register(ticks, continuous, active, device);
            var tb, tb', id := m.clock.table, After(env, m, Ask(r)).clock.table, Target(m.clock.table, r);
            && 1 <= id < 64 && id <= tb.num && (id < tb.num ==> !tb.slots[id].inUse)
            && (forall k :: 1 <= k < id ==> tb.slots[k].inUse)
            && tb'.num == (if id == tb.num then id + 1 else tb.num)
            && (forall k :: 0 <= k < 64 && k != id ==> tb'.slots[k] == tb.slots[k])
            && var t := tb'.slots[id];
            && t.inUse && t.active == active && t.continuous == continuous && t.handler == Device(device)
            && t.period == (if ticks == 0 then 1 else ticks) && t.timeToFire == Wrap64(m.clock.now + t.period)
  {
  }

  /** Unregistering changes nothing while the timer is active; otherwise the slot is free
      again, without a handler, and the bound sinks if it was the last. */
  lemma UnregisterFrees(env: Env, m: Moment, slot: nat)
    requires Legal(env, m, Ask(Unregister(slot)))
    ensures 1 <= slot < m.clock.table.num
    ensures var tb, tb' := m.clock.table, After(env, m, Ask(Unregister(slot))).clock.table;
            if tb.slots[slot].active then tb' == tb
            else
              && !tb'.slots[slot].inUse && !tb'.slots[slot].active && tb'.slots[slot].handler == NoHandler
              && tb'.num == (if slot == tb.num - 1 then slot else tb.num)
              && forall k :: 0 <= k < 64 && k != slot ==> tb'.slots[k] == tb.slots[k]
  {
  }

  /** The event gives the slot back: its timer is not active and is unregistered. */
  predicate Frees(m: Moment, e: Event, slot: nat)
    requires slot < 64
  {
    e == Ask(Unregister(slot)) && !m.clock.table.slots[slot].active
  }

  predicate Owned(m: Moment, slot: nat, h: Handler) {
    slot < m.clock.table.num && m.clock.table.slots[slot].inUse && m.clock.table.slots[slot].handler == h
  }

  lemma EventKeepsOwner(env: Env, m: Moment, e: Event, slot: nat, h: Handler)
    requires Legal(env, m, e) && Owned(m, slot, h) && slot >= 1 && !Frees(m, e, slot)
    ensures Owned(After(env, m, e), slot, h)
    ensures e.Ask? && e.r.Register? ==> Target(m.clock.table, e.r) != slot
  {
  }

  /** A slot in use stays so, with the handler it has, over any part of a history in which
      no event frees it, and no registration takes it. */
  lemma {:induction false} SlotKept(env: Env, m: Moment, es: seq<Event>, a: nat, b: nat, slot: nat, h: Handler)
    requires History(env, m, es) && a <= b <= |es| && 1 <= slot < 64
    requires Owned(Before(env, m, es, a), slot, h)
    requires forall k :: a <= k < b ==> !Frees(Before(env, m, es, k), es[k], slot)
    ensures Owned(Before(env, m, es, b), slot, h)
    ensures forall k :: a <= k < b && es[k].Ask? && es[k].r.Register? ==>
                          Target(Before(env, m, es, k).clock.table, es[k].r) != slot
    decreases b - a
  {
    hide History, Before, Legal, After, Owned, Target;
    if a < b {
      SlotKept(env, m, es, a, b - 1, slot, h);
      BeforeNext(env, m, es, b - 1);
      EventKeepsOwner(env, Before(env, m, es, b - 1), es[b - 1], slot, h);
    }
  }

  /** In every run of the countdown scheduler, callbacks included: the slot that a
      registration takes belongs to its device, whether the timer is started or not, and
      no other registration gets it, until an event frees it. */
  lemma RegisteredSlotKept(env: Env, s: C.State, cmds: seq<Command>, a: nat, b: nat, id: nat)
    requires R.Valid(s) && N.Run(env, R.Abs(s), cmds).Ok?
    requires a < b <= |RunEvents(env, R.Abs(s), cmds)| && 1 <= id < 64
    requires var r := RunEvents(env, R.Abs(s), cmds)[a]; r.Ask? && r.r.Register?
    ensures var m, es := Moment(R.Abs(s), [], 0), RunEvents(env, R.Abs(s), cmds);
            && C.Run(env, s, cmds).Ok? && Leads(env, m, es, Moment(R.Abs(C.Run(env, s, cmds).value), [], 0))
            && (id == Target(Before(env, m, es, a).clock.table, es[a].r)
                && (forall k :: a < k < b ==> !Frees(Before(env, m, es, k), es[k], id)) ==>
                  && Owned(Before(env, m, es, b), id, Device(es[a].r.device))
                  && forall k :: a < k < b && es[k].Ask? && es[k].r.Register? ==>
                                   Target(Before(env, m, es, k).clock.table, es[k].r) != id)
  {
    hide C.Run, N.Run, RunEvents, Before, History, At, Legal, After;
    var m, es := Moment(R.Abs(s), [], 0), RunEvents(env, R.Abs(s), cmds);
    R.RunRefines(env, s, cmds);
    RunLeads(env, R.Abs(s), cmds);
    var r := es[a].r;
    BeforeNext(env, m, es, a);
    RegisterTakesFreeSlot(env, Before(env, m, es, a), r.ticks, r.continuous, r.active, r.device);
    if id == Target(Before(env, m, es, a).clock.table, r)
       && forall k :: a < k < b ==> !Frees(Before(env, m, es, k), es[k], id) {
      SlotKept(env, m, es, a + 1, b, id, Device(r.device));
    }
  }
}
