/**
  Whole runs of driver initialisations after a staging: modules are executed at
  most once and on what was staged for them, and nothing staged goes missing.

  Here and in the other modules about runs, lemmas over sequences of calls or
  events switch automatic induction off even where they do not recurse: it would
  assume every such statement of all shorter sequences, which none of them needs.
 */
module DriverRuns {
  import opened Wrappers
  import opened Requirements
  import opened DriverTable
  import opened Drivers
  import opened StagingSpec
  import opened StagingInvariant

  /** One call of an init function and what the system answers during it. */
  datatype Turn = Turn(call: Call, world: World)

  function RunTurns(s: Sys, turns: seq<Turn>): Sys {
    if turns == [] then s
    else Init(RunTurns(s, turns[..|turns| - 1]), turns[|turns| - 1].call, turns[|turns| - 1].world).0
  }

  /** The status call i returns. */
  function StatusOf(s: Sys, turns: seq<Turn>, i: nat): int
    requires i < |turns|
  {
    Init(RunTurns(s, turns[..i]), turns[i].call, turns[i].world).1
  }

  // ---- what a trace says ----

  /** The last execution of a module. */
  function LastRun(trace: seq<Event>, id: nat): Option<Event> {
    if trace == [] then None
    else
      var last := trace[|trace| - 1];
      if last.Ran? && last.id == id then Some(last) else LastRun(trace[..|trace| - 1], id)
  }

  ghost predicate AtMostOnce(trace: seq<Event>) {
    forall i, j :: 0 <= i < j < |trace| && trace[i].Ran? && trace[j].Ran? ==> trace[i].id != trace[j].id
  }

  ghost predicate OnStaged(staged: State, trace: seq<Event>) {
    forall i :: 0 <= i < |trace| && trace[i].Ran? ==> GetStaged(staged, trace[i].id) == Some(trace[i].data)
  }

  /** The module ran earlier and left both its variables at -1. */
  ghost predicate LeftUnset(trace: seq<Event>, j: nat, id: nat) {
    j < |trace| && trace[j].Ran? && trace[j].id == id && trace[j].outcome == UNSET
  }

  ghost predicate Explained(staged: State, trace: seq<Event>, i: nat)
    requires i < |trace|
  {
    GetStaged(staged, trace[i].id).None? || exists j: nat :: j < i && LeftUnset(trace, j, trace[i].id)
  }

  ghost predicate MissesExplained(staged: State, trace: seq<Event>) {
    forall i: nat :: i < |trace| && trace[i].Missed? ==> Explained(staged, trace, i)
  }

  lemma {:induction false} LastRunIs(trace: seq<Event>, id: nat)
    ensures match LastRun(trace, id)
            case None => forall i :: 0 <= i < |trace| && trace[i].Ran? ==> trace[i].id != id
            case Some(e) => e.Ran? && e.id == id && exists i :: 0 <= i < |trace| && trace[i] == e
  {
    if trace != [] {
      LastRunIs(trace[..|trace| - 1], id);
    }
  }

  lemma {:induction false} LastRunStep(trace: seq<Event>, e: Event, id: nat)
    ensures LastRun(trace + [e], id) == if e.Ran? && e.id == id then Some(e) else LastRun(trace, id)
  {
    assert (trace + [e])[..|trace|] == trace;
  }

  // ---- releasing takes one module away and no other ----

  lemma {:induction false} FindLiveAfter(slots: seq<Slot>, k: nat, id: nat)
    requires SlotsOk(slots) && k < |slots| && slots[k].data.Some?
    ensures var after := slots[k := Slot(slots[k].id, None, 0)];
            var i, j := FindLive(slots, id), FindLive(after, id);
            (if j < |after| then after[j].data else None) ==
            if id == slots[k].id then None else if i < |slots| then slots[i].data else None
  {
    hide SlotOk;
    var after := slots[k := Slot(slots[k].id, None, 0)];
    var i, j := FindLive(slots, id), FindLive(after, id);
    assert forall x :: 0 <= x < |slots| && x != k ==> after[x] == slots[x];
    if j < |after| {
      assert j != k && slots[j] == after[j];
      assert i <= j;
    }
  }

  lemma {:induction false} NoneFound(slots: seq<Slot>, id: nat)
    requires Live(slots) == 0
    ensures FindLive(slots, id) == |slots|
  {
    var k := FindLive(slots, id);
    if k < |slots| {
      LiveAfter(slots, k);
    }
  }

  lemma ReleaseGets(s: State, id: nat, other: nat)
    requires Inv(s)
    ensures GetStaged(Release(s, id), other) == if other == id then None else GetStaged(s, other)
  {
    hide SlotOk, Unknown, FindLive, Live, Bytes;
    var slots := SlotsOf(s);
    var k := FindLive(slots, id);
    if k < |slots| {
      FindLiveAfter(slots, k, other);
      LiveAfter(slots, k);
      var after := slots[k := Slot(slots[k].id, None, 0)];
      if Live(after) == 0 {
        NoneFound(after, other);
        NothingStaged(Discard(s), other);
      }
    }
  }

  lemma NothingStaged(s: State, id: nat)
    requires s.slots.None?
    ensures GetStaged(s, id) == None
  {
  }

  // ---- the invariant of a run ----

  /** The variables and the staged data of a module against what the trace says of it. */
  ghost predicate Agrees(staged: State, s: Sys, id: nat) {
    match LastRun(s.trace, id)
    case None => s.VarsOf(id) == UNSET && GetStaged(s.staging, id) == GetStaged(staged, id)
    case Some(e) =>
      e.Ran? && s.VarsOf(id) == e.outcome && GetStaged(s.staging, id) == None && GetStaged(staged, id) == Some(e.data)
  }

  ghost predicate Consistent(staged: State, s: Sys) {
    && Inv(s.staging)
    && (forall id :: Agrees(staged, s, id))
    && AtMostOnce(s.trace) && OnStaged(staged, s.trace) && MissesExplained(staged, s.trace)
  }

  lemma FreshConsistent(staged: State)
    requires Inv(staged)
    ensures Consistent(staged, Fresh(staged))
  {
    hide GetStaged, Inv;
  }

  lemma MissAgrees(staged: State, s: Sys, id: nat, w: World, other: nat)
    requires Agrees(staged, s, other) && CheckLoad(s.VarsOf(id)) && GetStaged(s.staging, id).None?
    ensures Agrees(staged, Exec(s, id, w), other)
  {
    hide GetStaged, Release;
    LastRunStep(s.trace, Missed(id), other);
  }

  lemma RanAgrees(staged: State, s: Sys, id: nat, w: World, other: nat)
    requires Inv(s.staging) && Agrees(staged, s, id) && Agrees(staged, s, other) && GetStaged(s.staging, id).Some?
    ensures Agrees(staged, Exec(s, id, w), other)
  {
    hide GetStaged, Release, Inv;
    LastRunStep(s.trace, Ran(id, GetStaged(s.staging, id).value, w.Outcome(id)), other);
    ReleaseGets(s.staging, id, other);
  }

  lemma MissTrace(staged: State, s: Sys, id: nat)
    requires Consistent(staged, s) && CheckLoad(s.VarsOf(id)) && GetStaged(s.staging, id).None?
    ensures var trace := s.trace + [Missed(id)];
            AtMostOnce(trace) && OnStaged(staged, trace) && MissesExplained(staged, trace)
  {
    hide GetStaged, Inv, LastRun;
    var trace := s.trace + [Missed(id)];
    assert Agrees(staged, s, id);
    LastRunIs(s.trace, id);
    forall i: nat | i < |trace| && trace[i].Missed?
      ensures Explained(staged, trace, i)
    {
      if i < |s.trace| {
        assert Explained(staged, s.trace, i);
        if j: nat :| j < i && LeftUnset(s.trace, j, s.trace[i].id) {
          assert LeftUnset(trace, j, trace[i].id);
        }
      } else if GetStaged(staged, id).Some? {
        var e := LastRun(s.trace, id).value;
        var j :| 0 <= j < |s.trace| && s.trace[j] == e;
        assert LeftUnset(trace, j, id);
      }
    }
  }

  lemma RanTrace(staged: State, s: Sys, id: nat, outcome: Vars)
    requires Consistent(staged, s) && GetStaged(s.staging, id).Some?
    ensures var trace := s.trace + [Ran(id, GetStaged(s.staging, id).value, outcome)];
            AtMostOnce(trace) && OnStaged(staged, trace) && MissesExplained(staged, trace)
  {
    hide GetStaged, Inv, LastRun;
    var trace := s.trace + [Ran(id, GetStaged(s.staging, id).value, outcome)];
    assert Agrees(staged, s, id);
    LastRunIs(s.trace, id);
    forall i: nat | i < |trace| && trace[i].Missed?
      ensures Explained(staged, trace, i)
    {
      assert i < |s.trace| && Explained(staged, s.trace, i);
      if j: nat :| j < i && LeftUnset(s.trace, j, s.trace[i].id) {
        assert LeftUnset(trace, j, trace[i].id);
      }
    }
  }

  lemma ExecConsistent(staged: State, s: Sys, id: nat, w: World)
    requires Consistent(staged, s) && CheckLoad(s.VarsOf(id))
    ensures Consistent(staged, Exec(s, id, w))
  {
    hide GetStaged, Release, Inv, Agrees, AtMostOnce, OnStaged, MissesExplained;
    forall other
      ensures Agrees(staged, Exec(s, id, w), other)
    {
      if GetStaged(s.staging, id).None? {
        MissAgrees(staged, s, id, w, other);
      } else {
        RanAgrees(staged, s, id, w, other);
      }
    }
    if GetStaged(s.staging, id).None? {
      MissTrace(staged, s, id);
    } else {
      RanTrace(staged, s, id, w.Outcome(id));
      ReleaseKeepsInv(s.staging, id);
    }
  }

  lemma {:induction false} ActsConsistent(staged: State, s: Sys, acts: seq<Act>, done: int, w: World)
    requires Consistent(staged, s)
    ensures Consistent(staged, RunActs(s, acts, done, w).0)
    decreases |acts|
  {
    hide Consistent, Exec;
    if acts != [] {
      if acts[0].Load? && CheckLoad(s.VarsOf(acts[0].id)) {
        ExecConsistent(staged, s, acts[0].id, w);
      }
      ActsConsistent(staged, Perform(s, acts[0], w).0, acts[1..], done, w);
    }
  }

  lemma {:induction false} RunConsistent(staged: State, turns: seq<Turn>)
    requires Inv(staged)
    ensures Consistent(staged, RunTurns(Fresh(staged), turns))
  {
    hide Consistent, RunActs, Program, Inv;
    if turns == [] {
      FreshConsistent(staged);
    } else {
      var n := |turns| - 1;
      RunConsistent(staged, turns[..n]);
      var s := RunTurns(Fresh(staged), turns[..n]);
      ActsConsistent(staged, s, Program(turns[n].call), Done(turns[n].call.driver), turns[n].world);
    }
  }

  /**
    Load once: in any run of init calls over what was staged, every module is
    executed at most once and on its staged bytes, and a module is asked for in
    vain only if it was never staged or if it has run and left (-1, -1).
   */
  lemma {:induction false} LoadOnce(staged: State, turns: seq<Turn>)
    requires Inv(staged)
    ensures var trace := RunTurns(Fresh(staged), turns).trace;
            AtMostOnce(trace) && OnStaged(staged, trace) && MissesExplained(staged, trace)
  {
    hide Inv, AtMostOnce, OnStaged, MissesExplained, RunTurns;
    RunConsistent(staged, turns);
  }

  // ---- variables settle ----

  lemma {:induction false} ActsSettled(s: Sys, acts: seq<Act>, done: int, w: World, id: nat)
    requires !CheckLoad(s.VarsOf(id))
    ensures RunActs(s, acts, done, w).0.VarsOf(id) == s.VarsOf(id)
    decreases |acts|
  {
    hide GetStaged, Release;
    if acts != [] {
      ActsSettled(Perform(s, acts[0], w).0, acts[1..], done, w, id);
    }
  }

  /** Once a module's variables have left (-1, -1) no init call changes them again. */
  lemma {:induction false} SettledForever(s: Sys, turns: seq<Turn>, id: nat)
    requires !CheckLoad(s.VarsOf(id))
    ensures RunTurns(s, turns).VarsOf(id) == s.VarsOf(id)
  {
    hide RunActs, Program;
    if turns != [] {
      var n := |turns| - 1;
      SettledForever(s, turns[..n], id);
      ActsSettled(RunTurns(s, turns[..n]), Program(turns[n].call), Done(turns[n].call.driver), turns[n].world, id);
    }
  }

  // ---- success ----

  /** Success leaves no module of the list untried, and new ones only in good order. */
  lemma {:induction false} ActsSucceed(s: Sys, acts: seq<Act>, done: int, w: World)
    requires RunActs(s, acts, done, w).1 >= 0 && forall x :: x in acts ==> x.err < 0
    ensures var t := RunActs(s, acts, done, w).0;
            forall id :: id in Loads(acts) ==>
              !CheckLoad(t.VarsOf(id)) &&
                t.VarsOf(id) == if CheckLoad(s.VarsOf(id)) then w.Outcome(id) else s.VarsOf(id)
    ensures forall id :: id in Loads(acts) && CheckLoad(s.VarsOf(id)) ==> !CheckErr(w.Outcome(id))
    decreases |acts|
  {
    hide GetStaged, Release;
    if acts != [] {
      var t := Perform(s, acts[0], w).0;
      ActsSucceed(t, acts[1..], done, w);
      match acts[0]
      case Check(_, _) =>
      case Load(id, _) =>
        assert !CheckLoad(t.VarsOf(id));
        ActsSettled(t, acts[1..], done, w, id);
    }
  }

  /** The module is loaded and resident as far as its variables can tell. */
  predicate Resident(v: Vars) {
    !CheckErr(v)
  }

  /** Executed with an error that the guard of later calls does not see. */
  predicate Stuck(v: Vars) {
    CheckErr(v) && !CheckLoad(v)
  }

  /**
    A successful init call means that all its modules are resident exactly when
    none of them was stuck from an earlier execution.
   */
  lemma SuccessMeansResident(s: Sys, c: Call, w: World)
    requires Init(s, c, w).1 >= 0
    ensures var t := Init(s, c, w).0;
            (forall id :: id in Loads(Program(c)) ==> Resident(t.VarsOf(id))) <==>
            (forall id :: id in Loads(Program(c)) ==> !Stuck(s.VarsOf(id)))
  {
    hide RunActs, Program, Loads;
    ProgramErrs(c);
    ActsSucceed(s, Program(c), Done(c.driver), w);
  }

  lemma {:induction false} ActsIdle(s: Sys, acts: seq<Act>, done: int, w: World)
    requires forall id :: id in Loads(acts) ==> !CheckLoad(s.VarsOf(id))
    ensures RunActs(s, acts, done, w).0 == s
    decreases |acts|
  {
    hide Exec;
    if acts != [] {
      ActsIdle(s, acts[1..], done, w);
    }
  }

  /** After a success, calling again changes nothing and executes nothing. */
  lemma RepeatIsIdle(s: Sys, c: Call, first: World, again: World)
    requires Init(s, c, first).1 >= 0
    ensures Init(Init(s, c, first).0, c, again).0 == Init(s, c, first).0
  {
    hide RunActs, Program, Loads;
    ProgramErrs(c);
    ActsSucceed(s, Program(c), Done(c.driver), first);
    ActsIdle(Init(s, c, first).0, Program(c), Done(c.driver), again);
  }

  // ---- failure ----

  /** The act is the one that ended the call: its test failed, or its module was the last one tried and is in error. */
  ghost predicate Failed(t: Sys, a: Act, w: World) {
    match a
    case Check(test, _) => test in w.fails
    case Load(id, _) => t.trace != [] && t.trace[|t.trace| - 1].id == id && CheckErr(t.VarsOf(id))
  }

  lemma {:induction false} ActsFail(s: Sys, acts: seq<Act>, done: int, w: World) returns (a: Act)
    requires RunActs(s, acts, done, w).1 < 0 <= done
    ensures a in acts && a.err == RunActs(s, acts, done, w).1 && Failed(RunActs(s, acts, done, w).0, a, w)
    decreases |acts|
  {
    hide GetStaged, Release;
    var (t, ok) := Perform(s, acts[0], w);
    if ok {
      a := ActsFail(t, acts[1..], done, w);
    } else {
      a := acts[0];
    }
  }

  /** A status that belongs to a step of the driver's own list is reported only when that very step has failed. */
  lemma StatusNamesStep(s: Sys, c: Call, w: World, a: Act)
    requires a in Own(c.driver) && Init(s, c, w).1 == a.err
    ensures Failed(Init(s, c, w).0, a, w)
  {
    hide RunActs, Failed, Own, Needs, Dependencies, Guard;
    ErrsNegative(c.driver);
    var b := ActsFail(s, Program(c), Done(c.driver), w);
    var i :| 0 <= i < |Own(c.driver)| && Own(c.driver)[i] == a;
    if b in Own(c.driver) {
      var j :| 0 <= j < |Own(c.driver)| && Own(c.driver)[j] == b;
      if i < j {
        StepsDiffer(c.driver, i, j);
      } else if j < i {
        StepsDiffer(c.driver, j, i);
      }
    } else if b in Guard(c) {
      StepIsNoGuard(c, i, b);
    } else {
      DependencyStatus(Needs(c.driver), b);
      var k :| 0 <= k < |Needs(c.driver)| && Needs(c.driver)[k].err == b.err;
      StepIsNoNeed(c.driver, i, k);
    }
  }

  // ---- parts of a run ----

  lemma {:induction false} RunTurnsAppend(s: Sys, a: seq<Turn>, b: seq<Turn>)
    ensures RunTurns(s, a + b) == RunTurns(RunTurns(s, a), b)
  {
    hide Init;
    if b == [] {
      assert a + b == a;
    } else {
      var n := |b| - 1;
      RunTurnsAppend(s, a, b[..n]);
      assert (a + b)[..|a + b| - 1] == a + b[..n];
    }
  }

  lemma {:induction false} TurnStep(s: Sys, turns: seq<Turn>, i: nat)
    requires i < |turns|
    ensures RunTurns(s, turns[..i + 1]) == Init(RunTurns(s, turns[..i]), turns[i].call, turns[i].world).0
  {
    hide Init;
    assert turns[..i + 1][..i] == turns[..i];
  }

  lemma RunOne(s: Sys, a: Act, done: int, w: World)
    ensures RunActs(s, [a], done, w) == var (t, ok) := Perform(s, a, w); (t, if ok then done else a.err)
  {
    hide Perform;
    var (t, ok) := Perform(s, a, w);
    assert RunActs(t, [a][1..], done, w) == (t, done);
  }
}
