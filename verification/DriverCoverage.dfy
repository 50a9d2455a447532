/**
  What runs of init calls leave of a staging: when everything has been
  consumed, what can be asked for in vain, and what a success is worth.
 */
module DriverCoverage {
  import opened ImageConstants
  import opened Wrappers
  import opened Environment
  import opened Requirements
  import opened DriverTable
  import opened Drivers
  import opened DriverRuns
  import opened StagingSpec
  import opened StagingInvariant

  /** Staged is nothing but what the mask asks for. */
  lemma StagedWithin(s: State, path: Option<Path>, mask: bv32, env: Env, id: nat)
    requires Stage(s, path, mask, env).1 == Success && GetStaged(Stage(s, path, mask, env).0, id).Some?
    ensures id in Expand(mask)
  {
    hide Fetch, SlotsOk, Live, Bytes, Wanted, Expand, FindLive, Unknown;
    FetchErrs(path.value, mask, env);
    FetchedSlots(path.value, mask, env);
    WantedAscends(Expand(mask), MAX_ENTRIES);
  }

  /** And all of it. */
  lemma StagedAll(s: State, path: Option<Path>, mask: bv32, env: Env, id: nat)
    requires Stage(s, path, mask, env).1 == Success && id in Expand(mask)
    ensures GetStaged(Stage(s, path, mask, env).0, id).Some?
  {
    hide Fetch, SlotsOk, Live, Bytes, Wanted, Expand, FindLive, Unknown;
    FetchErrs(path.value, mask, env);
    FetchedSlots(path.value, mask, env);
    WantedAscends(Expand(mask), MAX_ENTRIES);
    ExpandInRange(mask);
    var t := Stage(s, path, mask, env).0;
    var i :| 0 <= i < |Wanted(Expand(mask), MAX_ENTRIES)| && Wanted(Expand(mask), MAX_ENTRIES)[i] == id;
    FoundLive(t, i);
  }

  lemma {:induction false} SomeLive(slots: seq<Slot>)
    requires Live(slots) > 0
    ensures exists i :: 0 <= i < |slots| && slots[i].data.Some?
  {
    var n := |slots| - 1;
    if slots[n].data.None? {
      SomeLive(slots[..n]);
    }
  }

  lemma FoundLive(s: State, i: nat)
    requires i < |SlotsOf(s)| && SlotsOf(s)[i].data.Some?
    ensures GetStaged(s, SlotsOf(s)[i].id).Some?
  {
    hide FindLive;
  }

  lemma NothingLeft(s: State)
    requires Inv(s) && forall id :: GetStaged(s, id) == None
    ensures s.slots.None? && s.count == 0 && s.bytes == 0
  {
    hide Unknown, SlotOk, GetStaged;
    if s.slots.Some? {
      var slots := s.slots.value;
      SomeLive(slots);
      var i :| 0 <= i < |slots| && slots[i].data.Some?;
      FoundLive(s, i);
    }
  }

  // ---- when everything is consumed ----

  /** Nothing is left staged exactly when every module the mask asks for has been executed. */
  lemma {:induction false} EmptyIffAllRan(s: State, path: Option<Path>, mask: bv32, env: Env, turns: seq<Turn>)
    requires Inv(s) && Stage(s, path, mask, env).1 == Success
    ensures var end := RunTurns(Fresh(Stage(s, path, mask, env).0), turns);
            && (end.staging.slots.None? <==> forall id :: id in Expand(mask) ==> LastRun(end.trace, id).Some?)
            && (end.staging.slots.None? <==> end.staging.count == 0)
            && (end.staging.slots.None? ==> end.staging.bytes == 0)
  {
    hide Inv, GetStaged, RunTurns, Stage, Expand, AtMostOnce, OnStaged, MissesExplained, LastRun;
    var staged := Stage(s, path, mask, env).0;
    StageKeepsInv(s, path, mask, env);
    RunConsistent(staged, turns);
    var end := RunTurns(Fresh(staged), turns);
    forall id
      ensures GetStaged(end.staging, id).Some? <==> id in Expand(mask) && LastRun(end.trace, id).None?
    {
      assert Agrees(staged, end, id);
      if id in Expand(mask) {
        StagedAll(s, path, mask, env, id);
      } else if GetStaged(staged, id).Some? {
        StagedWithin(s, path, mask, env, id);
      }
    }
    CountZero(end.staging);
    if end.staging.slots.None? {
      forall id
        ensures GetStaged(end.staging, id) == None
      {
        NothingStaged(end.staging, id);
      }
    } else if forall id :: id in Expand(mask) ==> LastRun(end.trace, id).Some? {
      NothingLeft(end.staging);
    }
  }

  lemma CountZero(s: State)
    requires Inv(s)
    ensures s.slots.None? <==> s.count == 0
    ensures s.slots.None? ==> s.bytes == 0
  {
  }

  /** Call i succeeds and the module is on its list. */
  ghost predicate LoadsAt(s: Sys, turns: seq<Turn>, i: nat, id: nat) {
    i < |turns| && StatusOf(s, turns, i) >= 0 && id in Loads(Program(turns[i].call))
  }

  ghost predicate LoadedOnce(s: Sys, turns: seq<Turn>, id: nat) {
    exists i: nat :: LoadsAt(s, turns, i, id)
  }

  /** A module on the list of a call that has succeeded has been executed. */
  lemma {:induction false} CallConsumes(staged: State, turns: seq<Turn>, id: nat)
    requires Inv(staged) && LoadedOnce(Fresh(staged), turns, id)
    ensures LastRun(RunTurns(Fresh(staged), turns).trace, id).Some?
  {
    hide Inv, GetStaged, RunTurns, RunActs, Program, Loads, LastRun, AtMostOnce, OnStaged, MissesExplained;
    var i: nat :| LoadsAt(Fresh(staged), turns, i, id);
    var s, call, world := RunTurns(Fresh(staged), turns[..i]), turns[i].call, turns[i].world;
    TurnStep(Fresh(staged), turns, i);
    ProgramErrs(call);
    ActsSucceed(s, Program(call), Done(call.driver), world);
    RanSettled(staged, turns, i + 1, id);
  }

  lemma {:induction false} RanSettled(staged: State, turns: seq<Turn>, i: nat, id: nat)
    requires Inv(staged) && i <= |turns| && !CheckLoad(RunTurns(Fresh(staged), turns[..i]).VarsOf(id))
    ensures LastRun(RunTurns(Fresh(staged), turns).trace, id).Some?
  {
    hide Inv, GetStaged, RunTurns, AtMostOnce, OnStaged, MissesExplained, LastRun;
    RunTurnsAppend(Fresh(staged), turns[..i], turns[i..]);
    assert turns[..i] + turns[i..] == turns;
    SettledForever(RunTurns(Fresh(staged), turns[..i]), turns[i..], id);
    RunConsistent(staged, turns);
    assert Agrees(staged, RunTurns(Fresh(staged), turns), id);
  }

  /**
    Coverage: after staging a mask, once every module it asks for has been on
    the list of a successful call, nothing is left staged, whatever else was
    called and however often it failed.
   */
  lemma {:induction false} AllConsumed(s: State, path: Option<Path>, mask: bv32, env: Env, turns: seq<Turn>)
    requires Inv(s) && Stage(s, path, mask, env).1 == Success
    requires forall id :: id in Expand(mask) ==> LoadedOnce(Fresh(Stage(s, path, mask, env).0), turns, id)
    ensures var end := RunTurns(Fresh(Stage(s, path, mask, env).0), turns).staging;
            end.slots.None? && end.count == 0 && end.bytes == 0
  {
    hide Inv, RunTurns, Stage, Expand, LoadedOnce, LastRun;
    StageKeepsInv(s, path, mask, env);
    EmptyIffAllRan(s, path, mask, env, turns);
    forall id | id in Expand(mask)
      ensures LastRun(RunTurns(Fresh(Stage(s, path, mask, env).0), turns).trace, id).Some?
    {
      CallConsumes(Stage(s, path, mask, env).0, turns, id);
    }
  }

  /** Call i is a successful call of the driver that reaches all its modules, with the flag or without needing it. */
  ghost predicate Succeeds(s: Sys, turns: seq<Turn>, i: nat, d: Driver) {
    && i < |turns| && turns[i].call.driver == d && (turns[i].call.deps || Needs(d) == [])
    && StatusOf(s, turns, i) >= 0
  }

  ghost predicate SucceedsOnce(s: Sys, turns: seq<Turn>, d: Driver) {
    exists i: nat :: Succeeds(s, turns, i, d)
  }

  /** In particular once every driver of the mask has succeeded with all it depends on. */
  lemma {:induction false} AllDriversConsumed(s: State, path: Option<Path>, mask: bv32, env: Env, turns: seq<Turn>)
    requires Inv(s) && Stage(s, path, mask, env).1 == Success
    requires forall d :: Has(mask, d) ==> SucceedsOnce(Fresh(Stage(s, path, mask, env).0), turns, d)
    ensures var end := RunTurns(Fresh(Stage(s, path, mask, env).0), turns).staging;
            end.slots.None? && end.count == 0 && end.bytes == 0
  {
    hide Inv, RunTurns, Stage, Has, Marks, SucceedsOnce, LoadedOnce, Program, Loads, Needs, StatusOf;
    var start := Fresh(Stage(s, path, mask, env).0);
    forall id | id in Expand(mask)
      ensures LoadedOnce(start, turns, id)
    {
      var d: Driver :| Has(mask, d) && id in Marks(d);
      DriverLoads(start, turns, d, id);
    }
    AllConsumed(s, path, mask, env, turns);
  }

  lemma {:induction false} DriverLoads(s: Sys, turns: seq<Turn>, d: Driver, id: nat)
    requires SucceedsOnce(s, turns, d) && id in Marks(d)
    ensures LoadedOnce(s, turns, id)
  {
    hide RunTurns, Program, Loads, Marks, Needs, StatusOf;
    var i: nat :| Succeeds(s, turns, i, d);
    ClosedLoads(turns[i].call);
    assert LoadsAt(s, turns, i, id);
  }

  lemma ClosedLoads(c: Call)
    requires c.deps || Needs(c.driver) == []
    ensures Loads(Program(c)) == MarkSet(c.driver)
  {
    hide Program, Loads, Needs, OwnModules, MarkSet;
    TablesAgree(c.driver, c.onlyIfBooted);
    ProgramLoads(c);
    ProgramLoads(c.(deps := true));
  }

  // ---- misses within a mask ----

  /** Every event is about one of the modules. */
  ghost predicate About(trace: seq<Event>, ids: set<nat>) {
    forall i :: 0 <= i < |trace| ==> trace[i].id in ids
  }

  lemma {:induction false} ActsAbout(s: Sys, acts: seq<Act>, done: int, w: World, ids: set<nat>)
    requires About(s.trace, ids) && Loads(acts) <= ids
    ensures About(RunActs(s, acts, done, w).0.trace, ids)
    decreases |acts|
  {
    hide GetStaged, Release;
    if acts != [] {
      ActsAbout(Perform(s, acts[0], w).0, acts[1..], done, w, ids);
    }
  }

  /** The guard ends the call at once. */
  predicate Guarded(t: Turn) {
    t.call.driver == Hdd && t.call.onlyIfBooted && CwdIsHdd in t.world.fails
  }

  lemma GuardStops(s: Sys, t: Turn)
    requires Guarded(t)
    ensures Init(s, t.call, t.world) == (s, -2)
  {
    assert Program(t.call)[0] == Check(CwdIsHdd, -2);
  }

  lemma {:induction false} TurnsAbout(s: Sys, turns: seq<Turn>, ids: set<nat>)
    requires About(s.trace, ids)
    requires forall i :: 0 <= i < |turns| ==> Guarded(turns[i]) || Loads(Program(turns[i].call)) <= ids
    ensures About(RunTurns(s, turns).trace, ids)
  {
    hide RunActs, Program, About, Loads, Guarded;
    if turns != [] {
      var n := |turns| - 1;
      TurnsAbout(s, turns[..n], ids);
      if Guarded(turns[n]) {
        GuardStops(RunTurns(s, turns[..n]), turns[n]);
      } else {
        ActsAbout(RunTurns(s, turns[..n]), Program(turns[n].call), Done(turns[n].call.driver), turns[n].world, ids);
      }
    }
  }

  /** A driver of the mask stays within it, with or without its dependencies. */
  lemma MarksExpand(mask: bv32, c: Call)
    requires Has(mask, c.driver)
    ensures Loads(Program(c)) <= Expand(mask)
  {
    hide Program, Loads, Marks, Has;
    LoadsWithin(c);
  }

  /** As long as the calls stay within the staged mask, only a module that has run and left (-1, -1) is missed. */
  lemma {:induction false} OnlyRetriesMiss(s: State, path: Option<Path>, mask: bv32, env: Env, turns: seq<Turn>, i: nat)
    requires Inv(s) && Stage(s, path, mask, env).1 == Success
    requires forall k :: 0 <= k < |turns| ==> Loads(Program(turns[k].call)) <= Expand(mask)
    requires var trace := RunTurns(Fresh(Stage(s, path, mask, env).0), turns).trace;
             i < |trace| && trace[i].Missed?
    ensures var trace := RunTurns(Fresh(Stage(s, path, mask, env).0), turns).trace;
            exists j: nat :: j < i && LeftUnset(trace, j, trace[i].id)
  {
    hide Inv, RunTurns, Stage, GetStaged, Expand, Program, Loads, AtMostOnce, OnStaged;
    var staged := Stage(s, path, mask, env).0;
    var trace := RunTurns(Fresh(staged), turns).trace;
    StageKeepsInv(s, path, mask, env);
    LoadOnce(staged, turns);
    TurnsAbout(Fresh(staged), turns, Expand(mask));
    StagedAll(s, path, mask, env, trace[i].id);
    assert Explained(staged, trace, i);
  }

  /** So it is as long as only drivers of the mask are called. */
  lemma {:induction false} OnlyRetriesMissByDriver(s: State, path: Option<Path>, mask: bv32, env: Env,
          turns: seq<Turn>, i: nat)
    requires Inv(s) && Stage(s, path, mask, env).1 == Success
    requires forall k :: 0 <= k < |turns| ==> Has(mask, turns[k].call.driver)
    requires var trace := RunTurns(Fresh(Stage(s, path, mask, env).0), turns).trace;
             i < |trace| && trace[i].Missed?
    ensures var trace := RunTurns(Fresh(Stage(s, path, mask, env).0), turns).trace;
            exists j: nat :: j < i && LeftUnset(trace, j, trace[i].id)
  {
    hide Inv, RunTurns, Stage, Expand, Program, Loads, Has, LeftUnset;
    forall k | 0 <= k < |turns|
      ensures Loads(Program(turns[k].call)) <= Expand(mask)
    {
      MarksExpand(mask, turns[k].call);
    }
    OnlyRetriesMiss(s, path, mask, env, turns, i);
  }

  // ---- when nothing goes wrong ----

  /** Every test passes and every one of the modules starts in good order. */
  ghost predicate Smooth(w: World, ids: set<nat>) {
    w.fails == {} && forall id :: id in ids ==> !CheckErr(w.Outcome(id))
  }

  /** The module has been executed for good, or can be. */
  ghost predicate Fine(s: Sys, id: nat) {
    !CheckLoad(s.VarsOf(id)) || GetStaged(s.staging, id).Some?
  }

  lemma {:induction false} ActsSmooth(s: Sys, acts: seq<Act>, done: int, w: World, ids: set<nat>)
    requires Inv(s.staging) && Loads(acts) <= ids && Smooth(w, ids) && forall id :: id in ids ==> Fine(s, id)
    ensures var (t, status) := RunActs(s, acts, done, w);
            status == done && Inv(t.staging) && forall id :: id in ids ==> Fine(t, id)
    decreases |acts|
  {
    hide GetStaged, Release, Inv;
    if acts != [] {
      if acts[0].Load? && CheckLoad(s.VarsOf(acts[0].id)) {
        var id := acts[0].id;
        assert Fine(s, id);
        ReleaseKeepsInv(s.staging, id);
        forall other | other in ids
          ensures Fine(Exec(s, id, w), other)
        {
          ReleaseGets(s.staging, id, other);
        }
      }
      ActsSmooth(Perform(s, acts[0], w).0, acts[1..], done, w, ids);
    }
  }

  /** In a run without mishaps every call succeeds. */
  lemma {:induction false} TurnsSmooth(s: Sys, turns: seq<Turn>, ids: set<nat>)
    requires Inv(s.staging) && forall id :: id in ids ==> Fine(s, id)
    requires forall i :: 0 <= i < |turns| ==> Loads(Program(turns[i].call)) <= ids && Smooth(turns[i].world, ids)
    ensures var t := RunTurns(s, turns); Inv(t.staging) && forall id :: id in ids ==> Fine(t, id)
    ensures forall i :: 0 <= i < |turns| ==> StatusOf(s, turns, i) == Done(turns[i].call.driver)
  {
    hide Inv, RunActs, Program, Loads, Fine, Smooth, Done;
    if turns != [] {
      var n := |turns| - 1;
      var front := turns[..n];
      TurnsSmooth(s, front, ids);
      forall i | 0 <= i < n
        ensures StatusOf(s, turns, i) == StatusOf(s, front, i)
      {
        assert front[..i] == turns[..i];
      }
      ActsSmooth(RunTurns(s, front), Program(turns[n].call), Done(turns[n].call.driver), turns[n].world, ids);
    }
  }

  // ---- what success does not mean ----

  /**
    A retry that meets no new failure reports success even if one of the
    driver's modules is stuck from an earlier execution and not resident.
   */
  lemma RetryHidesFailure(s: Sys, c: Call, w: World, id: nat)
    requires Inv(s.staging) && Smooth(w, Loads(Program(c))) && forall x :: x in Loads(Program(c)) ==> Fine(s, x)
    requires id in Loads(Program(c)) && Stuck(s.VarsOf(id))
    ensures var (t, status) := Init(s, c, w); status == Done(c.driver) && !Resident(t.VarsOf(id))
  {
    hide RunActs, Program, Loads, Inv, Done;
    ActsSmooth(s, Program(c), Done(c.driver), w, Loads(Program(c)));
    ActsSettled(s, Program(c), Done(c.driver), w, id);
  }

  /**
    For the CD driver this is so after every staging that holds its module and
    every outcome with result 1 or a negative id other than -1: the first call
    reports the failure and every later one, whatever the system answers,
    reports success.
   */
  lemma ReportedOnce(s: State, path: Option<Path>, mask: bv32, env: Env, first: World, again: World)
    requires Inv(s) && Stage(s, path, mask, env).1 == Success && CDFS in Expand(mask)
    requires Stuck(first.Outcome(CDFS))
    ensures var c := Call(Cdfs, false, false);
            var (t, status) := Init(Fresh(Stage(s, path, mask, env).0), c, first);
            status == -2 && Init(t, c, again) == (t, 0) && t.VarsOf(CDFS) == first.Outcome(CDFS) &&
                      !Resident(t.VarsOf(CDFS))
  {
    hide GetStaged, Release, RunActs, Stage, Expand;
    var c, a := Call(Cdfs, false, false), Load(CDFS, -2);
    var start := Fresh(Stage(s, path, mask, env).0);
    StagedAll(s, path, mask, env, CDFS);
    assert Program(c) == [a];
    RunOne(start, a, 0, first);
    RunOne(Init(start, c, first).0, a, 0, again);
  }
}
