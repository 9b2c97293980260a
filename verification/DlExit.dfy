/** Reference-counted modules, and the level loop that closes them all at shutdown. */
module DlExit {
  import opened Wrappers

  /** A loaded module: resident modules are never unloaded. */
  datatype Handle = Handle(id: nat, resident: bool, refCount: int)

  datatype Event = Close(id: nat, level: nat) | Unload(id: nat, level: nat)

  ghost predicate Distinct(hs: seq<Handle>) {
    forall i, j :: 0 <= i < j < |hs| ==> hs[i].id != hs[j].id
  }

  /** A handle once closed: gone when its last reference goes, unless resident. */
  function Release(h: Handle): Option<Handle> {
    if h.refCount - 1 <= 0 && !h.resident then None else Some(h.(refCount := h.refCount - 1))
  }

  function Listed(h: Option<Handle>): seq<Handle> {
    if h.Some? then [h.value] else []
  }

  /** What one level does to a handle, and what it reports. */
  function Visit(h: Handle, level: nat): Option<Handle> {
    if !h.resident && h.refCount <= level then Release(h) else Some(h)
  }

  function VisitEvents(h: Handle, level: nat): seq<Event> {
    if !h.resident && h.refCount <= level then
      [Close(h.id, level)] + (if Release(h).None? then [Unload(h.id, level)] else [])
    else []
  }

  /** One pass over the list. */
  function Pass(hs: seq<Handle>, level: nat): seq<Handle>
    decreases |hs|
  {
    if hs == [] then [] else Pass(hs[..|hs| - 1], level) + Listed(Visit(hs[|hs| - 1], level))
  }

  function PassEvents(hs: seq<Handle>, level: nat): seq<Event>
    decreases |hs|
  {
    if hs == [] then [] else PassEvents(hs[..|hs| - 1], level) + VisitEvents(hs[|hs| - 1], level)
  }

  /** The list and the events after levels 1 to n. */
  function After(hs: seq<Handle>, n: nat): seq<Handle> {
    if n == 0 then hs else Pass(After(hs, n - 1), n)
  }

  function Events(hs: seq<Handle>, n: nat): seq<Event> {
    if n == 0 then [] else Events(hs, n - 1) + PassEvents(After(hs, n - 1), n)
  }

  /** The references that a handle holds, counting a handle without any as one. */
  function Weight(h: Handle): nat {
    if h.refCount < 1 then 1 else h.refCount
  }

  /** Where a handle stands after n levels: untouched below its weight, then one
      reference fewer at each level, and gone at level 2 * weight - 1. */
  function Standing(h: Handle, n: nat): Option<Handle> {
    if h.resident || n < Weight(h) then Some(h)
    else if n < 2 * Weight(h) - 1 then Some(h.(refCount := 2 * Weight(h) - 1 - n))
    else None
  }

  /** The closes of one handle in levels 1 to n. */
  function CloseRun(h: Handle, n: nat): seq<Event> {
    if n == 0 || h.resident then []
    else CloseRun(h, n - 1)
         + (if Weight(h) <= n <= 2 * Weight(h) - 1 then [Close(h.id, n)] else [])
         + (if n == 2 * Weight(h) - 1 then [Unload(h.id, n)] else [])
  }

  /** A handle of weight r is closed r times, at levels r to 2r - 1, and is unloaded
      once, by the last of them. */
  lemma {:induction false} CloseRunIs(h: Handle, n: nat)
    requires !h.resident
    ensures var r := Weight(h);
            && |CloseRun(h, n)| == (if n < r then 0 else if n < 2 * r - 1 then n - r + 1 else r + 1)
            && (forall i :: 0 <= i < r && i < |CloseRun(h, n)| ==> CloseRun(h, n)[i] == Close(h.id, r + i))
            && (n >= 2 * r - 1 ==> CloseRun(h, n)[r] == Unload(h.id, 2 * r - 1))
  {
    if n > 0 {
      CloseRunIs(h, n - 1);
    }
  }

  /** What level n reports of a handle. */
  function OwnVisit(h: Handle, n: nat): seq<Event>
    requires n > 0
  {
    if Standing(h, n - 1).Some? then VisitEvents(Standing(h, n - 1).value, n) else []
  }

  lemma VisitStanding(h: Handle, n: nat)
    requires n > 0
    ensures Standing(h, n) == if Standing(h, n - 1).Some? then Visit(Standing(h, n - 1).value, n) else None
    ensures CloseRun(h, n) == CloseRun(h, n - 1) + OwnVisit(h, n)
  {
  }

  /** The handles that stand after n levels, in order. */
  function Remaining(hs: seq<Handle>, n: nat): seq<Handle>
    decreases |hs|
  {
    if hs == [] then [] else Remaining(hs[..|hs| - 1], n) + Listed(Standing(hs[|hs| - 1], n))
  }

  lemma {:induction false} PassAppend(hs: seq<Handle>, o: Option<Handle>, level: nat)
    ensures Pass(hs + Listed(o), level) == Pass(hs, level) + (if o.Some? then Listed(Visit(o.value, level)) else [])
    ensures PassEvents(hs + Listed(o), level)
            == PassEvents(hs, level) + (if o.Some? then VisitEvents(o.value, level) else [])
  {
    if o.Some? {
      assert (hs + [o.value])[..|hs|] == hs;
    } else {
      assert hs + [] == hs;
    }
  }

  lemma {:induction false} PassRemaining(hs: seq<Handle>, n: nat)
    requires n > 0
    ensures Pass(Remaining(hs, n - 1), n) == Remaining(hs, n)
    decreases |hs|
  {
    hide Standing, Visit;
    if hs != [] {
      var init, h := hs[..|hs| - 1], hs[|hs| - 1];
      PassRemaining(init, n);
      VisitStanding(h, n);
      PassAppend(Remaining(init, n - 1), Standing(h, n - 1), n);
    }
  }

  lemma {:induction false} RemainingAtFirst(hs: seq<Handle>)
    ensures Remaining(hs, 0) == hs
    decreases |hs|
  {
    if hs != [] {
      RemainingAtFirst(hs[..|hs| - 1]);
    }
  }

  /** The passes keep exactly the handles that stand. */
  lemma {:induction false} AfterIsRemaining(hs: seq<Handle>, n: nat)
    ensures After(hs, n) == Remaining(hs, n)
  {
    if n == 0 {
      RemainingAtFirst(hs);
    } else {
      AfterIsRemaining(hs, n - 1);
      PassRemaining(hs, n);
    }
  }

  /** The events of one handle among all events. */
  function Of(es: seq<Event>, id: nat): seq<Event>
    decreases |es|
  {
    if es == [] then [] else Of(es[..|es| - 1], id) + (if es[|es| - 1].id == id then [es[|es| - 1]] else [])
  }

  lemma {:induction false} OfAppend(a: seq<Event>, b: seq<Event>, id: nat)
    ensures Of(a + b, id) == Of(a, id) + Of(b, id)
    decreases |b|
  {
    if b == [] {
      assert a + b == a;
    } else {
      OfAppend(a, b[..|b| - 1], id);
      assert (a + b)[..|a + b| - 1] == a + b[..|b| - 1];
    }
  }

  lemma OfOwnVisit(h: Handle, n: nat, id: nat)
    requires n > 0
    ensures Of(OwnVisit(h, n), id) == if h.id == id then OwnVisit(h, n) else []
  {
    OfAppend([Close(h.id, n)], [Unload(h.id, n)], id);
  }

  function LevelEvents(hs: seq<Handle>, n: nat): seq<Event>
    requires n > 0
  {
    PassEvents(Remaining(hs, n - 1), n)
  }

  lemma LevelEventsLast(hs: seq<Handle>, n: nat)
    requires n > 0 && hs != []
    ensures LevelEvents(hs, n) == LevelEvents(hs[..|hs| - 1], n) + OwnVisit(hs[|hs| - 1], n)
  {
    hide VisitEvents, Standing;
    PassAppend(Remaining(hs[..|hs| - 1], n - 1), Standing(hs[|hs| - 1], n - 1), n);
  }

  lemma OfLevelLast(hs: seq<Handle>, n: nat, id: nat)
    requires n > 0 && hs != []
    ensures var init, h := hs[..|hs| - 1], hs[|hs| - 1];
            Of(LevelEvents(hs, n), id) == Of(LevelEvents(init, n), id) + (if h.id == id then OwnVisit(h, n) else [])
  {
    hide OwnVisit, LevelEvents;
    var init, h := hs[..|hs| - 1], hs[|hs| - 1];
    LevelEventsLast(hs, n);
    OfAppend(LevelEvents(init, n), OwnVisit(h, n), id);
    OfOwnVisit(h, n, id);
  }

  lemma {:induction false} OfLevelOther(hs: seq<Handle>, n: nat, id: nat)
    requires n > 0 && forall i :: 0 <= i < |hs| ==> hs[i].id != id
    ensures Of(LevelEvents(hs, n), id) == []
    decreases |hs|
  {
    hide OwnVisit;
    if hs != [] {
      OfLevelOther(hs[..|hs| - 1], n, id);
      OfLevelLast(hs, n, id);
    }
  }

  /** Among the events of a level, those of one handle are its own visit's. */
  lemma {:induction false} OfLevel(hs: seq<Handle>, n: nat, i: nat)
    requires n > 0 && Distinct(hs) && i < |hs|
    ensures Of(LevelEvents(hs, n), hs[i].id) == OwnVisit(hs[i], n)
    decreases |hs|
  {
    hide OwnVisit, LevelEvents, Of;
    var init := hs[..|hs| - 1];
    OfLevelLast(hs, n, hs[i].id);
    if i < |init| {
      OfLevel(init, n, i);
    } else {
      OfLevelOther(init, n, hs[i].id);
    }
  }

  /** In the whole run, the events of one handle are its closes. */
  lemma {:induction false} OwnEvents(hs: seq<Handle>, n: nat, i: nat)
    requires Distinct(hs) && i < |hs|
    ensures Of(Events(hs, n), hs[i].id) == CloseRun(hs[i], n)
  {
    hide Distinct, OwnVisit, PassEvents, Remaining, Standing;
    if n > 0 {
      OwnEvents(hs, n - 1, i);
      AfterIsRemaining(hs, n - 1);
      OfLevel(hs, n, i);
      VisitStanding(hs[i], n);
      OfAppend(Events(hs, n - 1), LevelEvents(hs, n), hs[i].id);
    }
  }

  lemma {:induction false} NoOtherEvents(hs: seq<Handle>, n: nat, id: nat)
    requires forall i :: 0 <= i < |hs| ==> hs[i].id != id
    ensures Of(Events(hs, n), id) == []
  {
    hide OwnVisit, PassEvents, Remaining, Standing;
    if n > 0 {
      NoOtherEvents(hs, n - 1, id);
      AfterIsRemaining(hs, n - 1);
      OfLevelOther(hs, n, id);
      OfAppend(Events(hs, n - 1), LevelEvents(hs, n), id);
    }
  }

  /** The largest weight of a module that can be unloaded. */
  function MaxWeight(hs: seq<Handle>): nat
    decreases |hs|
  {
    if hs == [] then 0
    else
      var m, h := MaxWeight(hs[..|hs| - 1]), hs[|hs| - 1];
      if h.resident || Weight(h) <= m then m else Weight(h)
  }

  predicate AllResident(hs: seq<Handle>) {
    forall i :: 0 <= i < |hs| ==> hs[i].resident
  }

  predicate NoneResident(hs: seq<Handle>) {
    forall i :: 0 <= i < |hs| ==> !hs[i].resident
  }

  lemma StandingKind(h: Handle, n: nat)
    ensures Standing(h, n).Some? ==> Standing(h, n).value.resident == h.resident
  {
  }

  lemma {:induction false} RemainingKinds(hs: seq<Handle>, n: nat)
    ensures AllResident(Remaining(hs, n)) <==> n >= 2 * MaxWeight(hs) - 1
    ensures NoneResident(Remaining(hs, n)) <==> NoneResident(hs)
    decreases |hs|
  {
    if hs != [] {
      var init, h := hs[..|hs| - 1], hs[|hs| - 1];
      RemainingKinds(init, n);
      StandingKind(h, n);
      assert forall i :: 0 <= i < |init| ==> hs[i] == init[i];
      var rest := Remaining(init, n);
      assert Remaining(hs, n)[..|rest|] == rest;
      assert forall i :: 0 <= i < |rest| ==> Remaining(hs, n)[i] == rest[i];
      assert Standing(h, n).Some? ==> Remaining(hs, n)[|rest|] == Standing(h, n).value;
    }
  }

  /** The leading resident handles are left out of the list. */
  function Trim(hs: seq<Handle>): seq<Handle> {
    if hs != [] && hs[0].resident then Trim(hs[1..]) else hs
  }

  lemma {:induction false} TrimDrops(hs: seq<Handle>)
    ensures exists k :: 0 <= k <= |hs| && Trim(hs) == hs[k..] && AllResident(hs[..k]) && (k < |hs| ==> !hs[k].resident)
  {
    if hs != [] && hs[0].resident {
      TrimDrops(hs[1..]);
      var k :| 0 <= k <= |hs| - 1 && Trim(hs[1..]) == hs[1..][k..]
               && AllResident(hs[1..][..k]) && (k < |hs| - 1 ==> !hs[1..][k].resident);
      assert hs[..k + 1] == [hs[0]] + hs[1..][..k];
      assert Trim(hs) == hs[k + 1..] && AllResident(hs[..k + 1]);
    } else {
      assert Trim(hs) == hs[0..] && AllResident(hs[..0]);
    }
  }

  /** The number of passes over a list whose leading residents were dropped. */
  function Passes(hs: seq<Handle>): int {
    if hs == [] then 0
    else if NoneResident(hs) then 2 * MaxWeight(hs) - 1
    else 2 * MaxWeight(hs)
  }

  lemma {:induction false} HeaviestExists(hs: seq<Handle>)
    ensures MaxWeight(hs) == 0 <==> AllResident(hs)
    decreases |hs|
  {
    if hs != [] {
      var init := hs[..|hs| - 1];
      HeaviestExists(init);
      assert forall i :: 0 <= i < |init| ==> init[i] == hs[i];
    }
  }

  lemma Heaviest(hs: seq<Handle>)
    requires Trim(hs) == hs
    ensures hs == [] <==> MaxWeight(hs) == 0
  {
    HeaviestExists(hs);
    if hs != [] && hs[0].resident {
      TrimShrinks(hs[1..]);
    }
  }

  lemma {:induction false} TrimShrinks(hs: seq<Handle>)
    ensures |Trim(hs)| <= |hs|
  {
    if hs != [] && hs[0].resident {
      TrimShrinks(hs[1..]);
    }
  }

  lemma EmptyRemains(n: nat)
    ensures Remaining([], n) == []
  {
  }

  lemma EndsEmpty(hs: seq<Handle>, n: nat)
    requires Trim(hs) == hs && After(hs, n) == [] && (n == 0 || n <= 2 * MaxWeight(hs) - 1)
    ensures n == Passes(hs)
  {
    hide After, Remaining, MaxWeight, Trim;
    AfterIsRemaining(hs, n);
    RemainingKinds(hs, n);
    Heaviest(hs);
  }

  lemma EndsResident(hs: seq<Handle>, n: nat)
    requires n > 0 && Trim(hs) == hs && After(hs, n - 1) != [] && AllResident(After(hs, n - 1))
    requires n == 1 || n <= 2 * MaxWeight(hs)
    ensures n == Passes(hs) && AllResident(After(hs, n))
  {
    hide After, Remaining, MaxWeight, Trim;
    AfterIsRemaining(hs, n - 1);
    AfterIsRemaining(hs, n);
    RemainingKinds(hs, n - 1);
    RemainingKinds(hs, n);
    Heaviest(hs);
    EmptyRemains(n - 1);
    assert After(hs, n - 1)[0].resident;
  }

  lemma GoesOn(hs: seq<Handle>, n: nat)
    requires n > 0 && !AllResident(After(hs, n - 1))
    ensures n < 2 * MaxWeight(hs)
  {
    AfterIsRemaining(hs, n - 1);
    RemainingKinds(hs, n - 1);
  }

  lemma {:induction false} WeightAtMost(hs: seq<Handle>, i: nat)
    requires i < |hs| && !hs[i].resident
    ensures Weight(hs[i]) <= MaxWeight(hs)
    decreases |hs|
  {
    if i < |hs| - 1 {
      WeightAtMost(hs[..|hs| - 1], i);
    }
  }

  /** Over the whole shutdown a module that is not resident is closed once for each
      reference and unloaded exactly once; a resident one is left alone. */
  lemma EachModuleUnloadedOnce(hs: seq<Handle>, n: nat, i: nat)
    requires Distinct(hs) && Trim(hs) == hs && n == Passes(hs) && i < |hs|
    ensures n <= 2 * MaxWeight(hs)
    ensures hs[i].resident ==> Of(Events(hs, n), hs[i].id) == []
    ensures !hs[i].resident ==>
              var own, r := Of(Events(hs, n), hs[i].id), Weight(hs[i]);
              && |own| == r + 1 && own[r] == Unload(hs[i].id, 2 * r - 1)
              && forall k :: 0 <= k < r ==> own[k] == Close(hs[i].id, r + k)
  {
    hide Distinct, Events, MaxWeight, Trim, Of;
    OwnEvents(hs, n, i);
    if !hs[i].resident {
      WeightAtMost(hs, i);
      CloseRunIs(hs[i], n);
    }
  }

  /** The unloads whose close function reports an error. */
  function Failures(es: seq<Event>, closeResult: nat -> int): nat
    decreases |es|
  {
    if es == [] then 0
    else
      var e := es[|es| - 1];
      Failures(es[..|es| - 1], closeResult) + (if e.Unload? && closeResult(e.id) != 0 then 1 else 0)
  }

  /** The modules that can be unloaded and will report an error then. */
  function Failing(hs: seq<Handle>, closeResult: nat -> int): nat
    decreases |hs|
  {
    if hs == [] then 0
    else
      var h := hs[|hs| - 1];
      Failing(hs[..|hs| - 1], closeResult) + (if !h.resident && closeResult(h.id) != 0 then 1 else 0)
  }

  lemma {:induction false} FailuresAppend(a: seq<Event>, b: seq<Event>, closeResult: nat -> int)
    ensures Failures(a + b, closeResult) == Failures(a, closeResult) + Failures(b, closeResult)
    decreases |b|
  {
    if b == [] {
      assert a + b == a;
    } else {
      FailuresAppend(a, b[..|b| - 1], closeResult);
      assert (a + b)[..|a + b| - 1] == a + b[..|b| - 1];
    }
  }

  lemma VisitFailures(h: Handle, level: nat, closeResult: nat -> int)
    ensures Failures(VisitEvents(h, level), closeResult)
            == Failing([h], closeResult) - Failing(Listed(Visit(h, level)), closeResult)
  {
    FailuresAppend([Close(h.id, level)], [Unload(h.id, level)], closeResult);
    assert [h][..0] == [];
    if Visit(h, level).Some? {
      assert [Visit(h, level).value][..0] == [];
    }
  }

  lemma FailingAppend(hs: seq<Handle>, o: Option<Handle>, closeResult: nat -> int)
    ensures Failing(hs + Listed(o), closeResult) == Failing(hs, closeResult) + Failing(Listed(o), closeResult)
  {
    if o.Some? {
      assert (hs + [o.value])[..|hs|] == hs && [o.value][..0] == [];
    } else {
      assert hs + [] == hs;
    }
  }

  /** A level reports the errors of the modules that leave the list. */
  lemma {:induction false} PassFailures(hs: seq<Handle>, level: nat, closeResult: nat -> int)
    ensures Failures(PassEvents(hs, level), closeResult)
            == Failing(hs, closeResult) - Failing(Pass(hs, level), closeResult)
    decreases |hs|
  {
    hide *;
    if hs == [] {
      PassNothing(level);
      FailuresOf([], closeResult);
    } else {
      var init, h := hs[..|hs| - 1], hs[|hs| - 1];
      PassFailures(init, level, closeResult);
      VisitFailures(h, level, closeResult);
      FailingLast(hs, closeResult);
      PassLast(hs, level);
      FailuresAppend(PassEvents(init, level), VisitEvents(h, level), closeResult);
      FailingAppend(Pass(init, level), Visit(h, level), closeResult);
    }
  }

  lemma FailingLast(hs: seq<Handle>, closeResult: nat -> int)
    requires hs != []
    ensures Failing(hs, closeResult)
            == Failing(hs[..|hs| - 1], closeResult) + Failing([hs[|hs| - 1]], closeResult)
  {
    assert [hs[|hs| - 1]][..0] == [];
  }

  lemma PassLast(hs: seq<Handle>, level: nat)
    requires hs != []
    ensures Pass(hs, level) == Pass(hs[..|hs| - 1], level) + Listed(Visit(hs[|hs| - 1], level))
    ensures PassEvents(hs, level) == PassEvents(hs[..|hs| - 1], level) + VisitEvents(hs[|hs| - 1], level)
  {
  }

  lemma LevelNext(hs: seq<Handle>, n: nat)
    ensures After(hs, 0) == hs && Events(hs, 0) == []
    ensures n > 0 ==>
              && After(hs, n) == Pass(After(hs, n - 1), n)
              && Events(hs, n) == Events(hs, n - 1) + PassEvents(After(hs, n - 1), n)
  {
  }

  lemma {:induction false} EventsFailures(hs: seq<Handle>, n: nat, closeResult: nat -> int)
    ensures Failures(Events(hs, n), closeResult) == Failing(hs, closeResult) - Failing(After(hs, n), closeResult)
  {
    hide *;
    LevelNext(hs, n);
    FailuresOf([], closeResult);
    if n > 0 {
      EventsFailures(hs, n - 1, closeResult);
      PassFailures(After(hs, n - 1), n, closeResult);
      FailuresAppend(Events(hs, n - 1), PassEvents(After(hs, n - 1), n), closeResult);
    }
  }

  lemma {:induction false} NoneFailing(hs: seq<Handle>, closeResult: nat -> int)
    requires AllResident(hs)
    ensures Failing(hs, closeResult) == 0
    decreases |hs|
  {
    if hs != [] {
      assert forall i :: 0 <= i < |hs| - 1 ==> hs[..|hs| - 1][i] == hs[i];
      NoneFailing(hs[..|hs| - 1], closeResult);
    }
  }

  /** The whole shutdown reports one error for each module whose close function does. */
  lemma ErrorsExactly(hs: seq<Handle>, n: nat, closeResult: nat -> int)
    requires AllResident(After(hs, n))
    ensures Failures(Events(hs, n), closeResult) == Failing(hs, closeResult)
  {
    EventsFailures(hs, n, closeResult);
    NoneFailing(After(hs, n), closeResult);
  }

  function IndexOf(hs: seq<Handle>, id: nat): (i: nat)
    ensures i <= |hs|
    ensures i < |hs| ==> hs[i].id == id
    ensures forall j :: 0 <= j < i ==> hs[j].id != id
  {
    if hs == [] || hs[0].id == id then 0 else 1 + IndexOf(hs[1..], id)
  }

  /** The list after one reference to the handle at i was given up. */
  function Released(hs: seq<Handle>, i: nat): seq<Handle>
    requires i < |hs|
  {
    hs[..i] + Listed(Release(hs[i])) + hs[i + 1..]
  }

  lemma PassPrefix(hs: seq<Handle>, k: nat, level: nat)
    requires k < |hs|
    ensures Pass(hs[..k + 1], level) == Pass(hs[..k], level) + Listed(Visit(hs[k], level))
    ensures PassEvents(hs[..k + 1], level) == PassEvents(hs[..k], level) + VisitEvents(hs[k], level)
    ensures AllResident(hs[..k + 1]) <==> AllResident(hs[..k]) && hs[k].resident
  {
    assert hs[..k + 1][..k] == hs[..k];
    assert forall i :: 0 <= i < k ==> hs[..k + 1][i] == hs[..k][i];
  }

  lemma PassNothing(level: nat)
    ensures Pass([], level) == [] && PassEvents([], level) == [] && AllResident([])
  {
  }

  lemma ReleasedMiddle(a: seq<Handle>, h: Handle, b: seq<Handle>)
    requires Distinct(a + [h] + b)
    ensures IndexOf(a + [h] + b, h.id) == |a|
    ensures Released(a + [h] + b, |a|) == a + Listed(Release(h)) + b
    ensures Distinct(a + Listed(Release(h)) + b)
  {
    var hs := a + [h] + b;
    assert hs[|a|] == h && hs[..|a|] == a && hs[|a| + 1..] == b;
    var i := IndexOf(hs, h.id);
    assert i >= |a|;
    var shift := if Release(h).Some? then 0 else 1;
    var e := a + Listed(Release(h)) + b;
    forall i, j | 0 <= i < j < |e| ensures e[i].id != e[j].id {
      var i', j' := if i < |a| then i else i + shift, if j < |a| then j else j + shift;
      assert hs[i'].id != hs[j'].id;
    }
  }

  /** The library: its list of handles and how often it was initialized. What a
      loader's close function returns for a module is `closeResult`. */
  class Library {
    const closeResult: nat -> int
    var initialized: nat
    var handles: seq<Handle>
    ghost var events: seq<Event>

    constructor (initialized: nat, handles: seq<Handle>, closeResult: nat -> int)
      ensures this.initialized == initialized && this.handles == handles && events == []
      ensures this.closeResult == closeResult
    {
      this.initialized, this.handles, events := initialized, handles, [];
      this.closeResult := closeResult;
    }

    /** Gives up one reference to a handle, and unloads the module with the last. */
    method Close(id: nat, ghost level: nat) returns (errors: int)
      modifies `handles, `events
      ensures var i := IndexOf(old(handles), id);
              if i == |old(handles)| then errors == 1 && handles == old(handles) && events == old(events)
              else
                var h := old(handles)[i];
                var gone := h.refCount <= 1 && !h.resident;
                && errors == (if gone then closeResult(id) else if h.resident then 1 else 0)
                && handles == old(handles)[..i] + (if gone then [] else [h.(refCount := h.refCount - 1)])
                              + old(handles)[i + 1..]
                && handles == Released(old(handles), i)
                && events == old(events) + [Event.Close(id, level)] + (if gone then [Unload(id, level)] else [])
    {
      var i := 0;
      while i < |handles| && handles[i].id != id
        invariant i <= |handles| && forall j :: 0 <= j < i ==> handles[j].id != id
      {
        i := i + 1;
      }
      if i == |handles| {
        return 1;
      }
      var h := handles[i].(refCount := handles[i].refCount - 1);
      events := events + [Event.Close(id, level)];
      if h.refCount <= 0 && !h.resident {
        handles := handles[..i] + handles[i + 1..];
        events := events + [Unload(id, level)];
        return closeResult(id);
      }
      handles := handles[..i] + [h] + handles[i + 1..];
      errors := if h.resident then 1 else 0;
    }

    /** Closes every module that is not resident, unless the library is still in use,
        and returns how many of their close functions reported an error. */
    method Exit() returns (errors: nat, ghost passes: nat)
      requires Distinct(handles)
      modifies this
      ensures old(initialized) == 0 ==>
                errors == 1 && initialized == 0 && handles == old(handles) && events == old(events)
      ensures old(initialized) > 1 ==>
                errors == 0 && initialized == old(initialized) - 1 && handles == old(handles) && events == old(events)
      ensures old(initialized) == 1 ==>
                && errors == Failing(Trim(old(handles)), closeResult) && initialized == 0
                && passes == Passes(Trim(old(handles)))
                && handles == After(Trim(old(handles)), passes) && AllResident(handles)
                && events == old(events) + Events(Trim(old(handles)), passes)
    {
      errors, passes := 0, 0;
      if initialized == 0 {
        return 1, 0;
      }
      initialized := initialized - 1;
      if initialized == 0 {
        while handles != [] && handles[0].resident
          invariant Trim(handles) == Trim(old(handles)) && Distinct(handles)
          invariant events == old(events) && initialized == 0
          decreases |handles|
        {
          handles := handles[1..];
        }
        ghost var hs := handles;
        errors, passes := CloseAll();
        ErrorsExactly(hs, passes, closeResult);
      }
    }

    /** The level loop. */
    method CloseAll() returns (errors: nat, ghost passes: nat)
      requires Distinct(handles) && Trim(handles) == handles
      modifies `handles, `events
      ensures errors == Failures(Events(old(handles), passes), closeResult)
      ensures passes == Passes(old(handles))
      ensures handles == After(old(handles), passes) && AllResident(handles)
      ensures events == old(events) + Events(old(handles), passes)
    {
      hide Distinct, Pass, PassEvents, Remaining, MaxWeight, Trim;
      ghost var hs := handles;
      var level := 1;
      errors, passes := 0, 0;
      Heaviest(hs);
      while handles != []
        invariant Distinct(handles) && passes == level - 1
        invariant handles == After(hs, level - 1) && events == old(events) + Events(hs, level - 1)
        invariant errors == Failures(Events(hs, level - 1), closeResult)
        invariant level == 1 || level <= 2 * MaxWeight(hs)
        decreases 2 * MaxWeight(hs) + 1 - level
      {
        FailuresAppend(Events(hs, level - 1), PassEvents(handles, level), closeResult);
        var sawNonresident, failed := VisitAll(level);
        errors := errors + failed;
        passes := level;
        if !sawNonresident {
          EndsResident(hs, level);
          return;
        }
        GoesOn(hs, level);
        level := level + 1;
      }
      EndsEmpty(hs, passes);
    }

    /** One pass of the level loop. */
    method VisitAll(level: nat) returns (sawNonresident: bool, failed: nat)
      requires Distinct(handles)
      modifies `handles, `events
      ensures Distinct(handles) && handles == Pass(old(handles), level)
      ensures events == old(events) + PassEvents(old(handles), level)
      ensures failed == Failures(PassEvents(old(handles), level), closeResult)
      ensures !sawNonresident <==> AllResident(old(handles))
    {
      hide Pass, PassEvents, Release, AllResident, IndexOf, Released, Distinct, Failures;
      ghost var hs, k := handles, 0;
      assert hs[..0] == [];
      PassNothing(level);
      FailuresOf([], closeResult);
      sawNonresident, failed := false, 0;
      var i := 0;
      while i < |handles|
        invariant k <= |hs| && i == |Pass(hs[..k], level)| && Distinct(handles)
        invariant handles == Pass(hs[..k], level) + hs[k..]
        invariant events == old(events) + PassEvents(hs[..k], level)
        invariant failed == Failures(PassEvents(hs[..k], level), closeResult)
        invariant sawNonresident <==> !AllResident(hs[..k])
        decreases |hs| - k
      {
        var h := handles[i];
        ghost var done, rest := Pass(hs[..k], level), hs[k + 1..];
        assert handles == done + [h] + rest && h == hs[k];
        PassPrefix(hs, k, level);
        FailuresAppend(PassEvents(hs[..k], level), VisitEvents(h, level), closeResult);
        VisitFailed(h, level, closeResult);
        if !h.resident {
          sawNonresident := true;
        }
        if !h.resident && h.refCount <= level {
          ReleasedMiddle(done, h, rest);
          var n := |handles|;
          var e := Close(h.id, level);
          if e != 0 {
            failed := failed + 1;
          }
          if |handles| == n {
            i := i + 1;
          }
        } else {
          i := i + 1;
        }
        k := k + 1;
      }
      assert hs[..k] == hs;
    }
  }

  lemma FailuresOf(es: seq<Event>, closeResult: nat -> int)
    ensures es == [] ==> Failures(es, closeResult) == 0
  {
  }

  lemma VisitFailed(h: Handle, level: nat, closeResult: nat -> int)
    ensures Failures(VisitEvents(h, level), closeResult)
            == if !h.resident && h.refCount <= level && Release(h).None? && closeResult(h.id) != 0 then 1 else 0
  {
    FailuresAppend([Close(h.id, level)], [Unload(h.id, level)], closeResult);
  }
}
