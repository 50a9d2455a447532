/**
  The init functions in place: the modules' variables and the staging
  interface behind them.  A dependency is brought up by calling its init
  function, as the source does; the result is the one of the flat program.
 */
module DriverLoader {
  import opened Requirements
  import opened DriverTable
  import opened Drivers
  import opened StagingSpec
  import opened DriverRuns
  import opened Unloading
  import S = Stager

  // ---- the flat program against the nested calls ----

  lemma GuardRuns(s: Sys, c: Call, done: int, w: World)
    ensures RunActs(s, Guard(c), done, w) ==
            if c.driver == Hdd && c.onlyIfBooted && CwdIsHdd in w.fails then (s, -2) else (s, done)
  {
    RunOne(s, Check(CwdIsHdd, -2), done, w);
  }

  /** A call is its guard, then its dependencies if asked for, then its own list. */
  lemma InitSplits(s: Sys, c: Call, w: World)
    ensures var done := Done(c.driver);
            var (t, status) := RunActs(s, if c.deps then Dependencies(Needs(c.driver)) else [], done, w);
            Init(s, c, w) ==
            if c.driver == Hdd && c.onlyIfBooted && CwdIsHdd in w.fails then (s, -2)
            else if status < 0 then (t, status) else RunActs(t, Own(c.driver), done, w)
  {
    hide RunActs, Own, Needs, Dependencies, Done;
    var needed := if c.deps then Dependencies(Needs(c.driver)) else [];
    ErrsNegative(c.driver);
    DependencyErrs(Needs(c.driver));
    RunActsAppend(s, Guard(c) + needed, Own(c.driver), Done(c.driver), w);
    RunActsAppend(s, Guard(c), needed, Done(c.driver), w);
    GuardRuns(s, c, Done(c.driver), w);
  }

  /** The first dependency is its own init, its failure reported under the caller's status. */
  lemma {:induction false} NeedRuns(s: Sys, needs: seq<Need>, done: int, w: World)
    requires needs != [] && needs[0].err < 0 <= done
    ensures var d := needs[0].driver;
            var (t, status) := RunActs(s, Own(d), Done(d), w);
            RunActs(s, Dependencies(needs), done, w) ==
            if status < 0 then (t, needs[0].err) else RunActs(t, Dependencies(needs[1..]), done, w)
  {
    hide RunActs, Own, Done;
    var d, err := needs[0].driver, needs[0].err;
    ErrsNegative(d);
    RunActsAppend(s, Under(Own(d), err), Dependencies(needs[1..]), done, w);
    RunActsUnder(s, Own(d), err, done, Done(d), w);
  }

  lemma {:induction false} NothingToRun(s: Sys, needs: seq<Need>, done: int, w: World)
    requires needs == []
    ensures RunActs(s, Dependencies(needs), done, w) == (s, done)
  {
  }

  class Loader {
    const stager: S.Stager
    var vars: map<nat, Vars>
    ghost var trace: seq<Event>

    ghost predicate Valid()
      reads this, stager, stager.heap, stager.heap.live, stager.modules
    {
      stager.Valid()
    }

    ghost function Abs(): Sys
      reads this, stager, stager.heap, stager.heap.live, stager.modules
      requires Valid()
    {
      Sys(vars, stager.Abs(), trace)
    }

    constructor (stager: S.Stager)
      requires stager.Valid()
      ensures this.stager == stager && Valid() && Abs() == Fresh(stager.Abs())
    {
      this.stager := stager;
      vars, trace := map[], [];
    }

    /** The part of the heap an init call may change stays the staging interface's own. */
    twostate predicate Stays()
      reads this, stager
    {
      stager.modules == old(stager.modules) || stager.modules == null
    }

    /** ps2_irx_exec, its results stored where the drivers store them. */
    method Exec(id: nat, w: World)
      requires Valid()
      modifies this, stager, stager.heap, stager.modules
      ensures Valid() && Abs() == Drivers.Exec(old(Abs()), id, w) && Stays()
    {
      hide StagingSpec.GetStaged, StagingSpec.Release, Inv;
      var data, size := stager.GetStaged(id);
      if data == null {
        vars := vars[id := Vars(-1, (if id in vars then vars[id] else UNSET).ret)];
        trace := trace + [Missed(id)];
        return;
      }
      vars := vars[id := w.Outcome(id)];
      trace := trace + [Ran(id, data.data[..size], w.Outcome(id))];
      assert data.data[..size] == data.data;
      stager.Release(id);
    }

    /** One act of a list. */
    method Do(a: Act, w: World) returns (ok: bool)
      requires Valid()
      modifies this, stager, stager.heap, stager.modules
      ensures Valid() && (Abs(), ok) == Perform(old(Abs()), a, w) && Stays()
    {
      hide Drivers.Exec;
      match a
      case Check(test, _) => ok := test !in w.fails;
      case Load(id, _) =>
        ok := true;
        if CheckLoad(if id in vars then vars[id] else UNSET) {
          Exec(id, w);
          ok := !CheckErr(if id in vars then vars[id] else UNSET);
        }
    }

    /** An init function without dependencies: its own list from first to last. */
    method RunOwn(d: Driver, w: World) returns (status: int)
      requires Valid()
      modifies this, stager, stager.heap, stager.modules
      ensures Valid() && (Abs(), status) == RunActs(old(Abs()), Own(d), Done(d), w) && Stays()
    {
      hide Perform, Own, Done;
      var acts := Own(d);
      for i := 0 to |acts|
        invariant Valid() && Stays()
        invariant RunActs(Abs(), acts[i..], Done(d), w) == RunActs(old(Abs()), acts, Done(d), w)
      {
        assert acts[i..][0] == acts[i] && acts[i..][1..] == acts[i + 1..];
        var ok := Do(acts[i], w);
        if !ok {
          return acts[i].err;
        }
      }
      status := Done(d);
    }

    /**
      An init function.  A dependency counts as failed if its status is
      negative; the sources that compare with the success status instead agree,
      since a dependency reports 0 or a negative status.
     */
    method Init(c: Call, w: World) returns (status: int)
      requires Valid()
      modifies this, stager, stager.heap, stager.modules
      ensures Valid() && (Abs(), status) == Drivers.Init(old(Abs()), c, w) && Stays()
    {
      hide RunActs, Own, Needs, Dependencies, Done;
      InitSplits(Abs(), c, w);
      if c.driver == Hdd && c.onlyIfBooted && CwdIsHdd in w.fails {
        return -2;
      }
      ghost var done := Done(c.driver);
      ErrsNegative(c.driver);
      if c.deps {
        var needs := Needs(c.driver);
        for i := 0 to |needs|
          invariant Valid() && Stays()
          invariant RunActs(Abs(), Dependencies(needs[i..]), done, w) ==
                    RunActs(old(Abs()), Dependencies(needs), done, w)
        {
          NeedRuns(Abs(), needs[i..], done, w);
          assert needs[i..][0] == needs[i] && needs[i..][1..] == needs[i + 1..];
          status := RunOwn(needs[i].driver, w);
          if status < 0 {
            return needs[i].err;
          }
        }
        NothingToRun(Abs(), needs[|needs|..], done, w);
      } else {
        NoActs(Abs(), done, w);
      }
      status := RunOwn(c.driver, w);
    }

    /** A deinit function: the removable ones of its modules are unloaded and their variables reset. */
    method Deinit(d: Driver, deps: bool)
      requires Valid()
      modifies this
      ensures Valid() && Abs() == Unloading.Deinit(old(Abs()), d, deps)
    {
      hide OwnUnloads, UnloadAll, CheckUnload;
      var ids := Unloads(d, deps);
      assert ids[0..] == ids;
      for i := 0 to |ids|
        invariant Valid() && stager.Abs() == old(stager.Abs())
        invariant UnloadAll(Abs(), ids[i..]) == UnloadAll(old(Abs()), ids)
      {
        UnloadAllStep(Abs(), ids[i..]);
        assert ids[i..][0] == ids[i] && ids[i..][1..] == ids[i + 1..];
        if CheckUnload(if ids[i] in vars then vars[ids[i]] else UNSET) {
          vars := vars[ids[i] := UNSET];
        }
      }
      assert ids[|ids|..] == [];
      NothingToUnload(Abs());
    }
  }

  lemma NothingToUnload(s: Sys)
    ensures UnloadAll(s, []) == s
  {
  }

  lemma NoActs(s: Sys, done: int, w: World)
    ensures RunActs(s, [], done, w) == (s, done)
  {
  }

  /** A run of init calls in place. */
  method Follow(loader: Loader, turns: seq<Turn>)
    requires loader.Valid()
    modifies loader, loader.stager, loader.stager.heap, loader.stager.modules
    ensures loader.Valid() && loader.Abs() == RunTurns(old(loader.Abs()), turns)
  {
    hide Init;
    for i := 0 to |turns|
      invariant loader.Valid() && loader.Stays()
      invariant loader.Abs() == RunTurns(old(loader.Abs()), turns[..i])
    {
      assert turns[..i + 1][..i] == turns[..i];
      var _ := loader.Init(turns[i].call, turns[i].world);
    }
    assert turns[..|turns|] == turns;
  }
}
