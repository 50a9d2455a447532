/**
  Tests that stand before a load: which modules a run of init calls gets to
  when some of the tests fail, and hence exactly what it leaves staged.
 */
module BlockedLoads {
  import opened Wrappers
  import opened Environment
  import opened Requirements
  import opened DriverTable
  import opened Drivers
  import opened DriverRuns
  import opened DriverCoverage
  import opened StagingSpec
  import opened StagingInvariant

  /** A failing test, or a load of a module outside ids. */
  predicate Halts(a: Act, fails: set<Test>, ids: set<nat>) {
    match a
    case Check(test, _) => test in fails
    case Load(id, _) => id !in ids
  }

  /**
    The loads a list gets to: none behind a failing test, and none behind a load
    of a module outside ids, which is not staged and so ends the call.
   */
  function Unblocked(acts: seq<Act>, fails: set<Test>, ids: set<nat>): set<nat> {
    if acts == [] || Halts(acts[0], fails, ids) then {}
    else (if acts[0].Load? then {acts[0].id} else {}) + Unblocked(acts[1..], fails, ids)
  }

  /** All that the calls of a run get to, each under the tests that fail during it. */
  function UnblockedBy(turns: seq<Turn>, ids: set<nat>): set<nat> {
    if turns == [] then {}
    else
      var t := turns[|turns| - 1];
      UnblockedBy(turns[..|turns| - 1], ids) + Unblocked(Program(t.call), t.world.fails, ids)
  }

  // ---- one call ----

  /** Modules outside ids have never been there to be executed. */
  ghost predicate Closed(s: Sys, ids: set<nat>) {
    Inv(s.staging) && forall id :: id !in ids ==> CheckLoad(s.VarsOf(id)) && GetStaged(s.staging, id) == None
  }

  lemma ExecClosed(s: Sys, ids: set<nat>, id: nat, w: World)
    requires Closed(s, ids) && CheckLoad(s.VarsOf(id))
    ensures Closed(Exec(s, id, w), ids)
    ensures id !in ids ==> CheckErr(Exec(s, id, w).VarsOf(id)) && Exec(s, id, w).staging == s.staging
    ensures forall other :: other != id ==> GetStaged(Exec(s, id, w).staging, other) == GetStaged(s.staging, other)
  {
    hide GetStaged, Release, Inv;
    ReleaseKeepsInv(s.staging, id);
    forall other
      ensures GetStaged(Release(s.staging, id), other) == if other == id then None else GetStaged(s.staging, other)
    {
      ReleaseGets(s.staging, id, other);
    }
  }

  /** Whatever the executions yield, a module the list does not get to stays as it was staged. */
  lemma {:induction false} ActsLeave(s: Sys, acts: seq<Act>, done: int, w: World, ids: set<nat>)
    requires Closed(s, ids)
    ensures var t := RunActs(s, acts, done, w).0;
            && Closed(t, ids)
            && forall id :: id !in Unblocked(acts, w.fails, ids) ==>
              GetStaged(t.staging, id) == GetStaged(s.staging, id)
    decreases |acts|
  {
    hide GetStaged, Exec, Closed;
    if acts != [] {
      if acts[0].Load? && CheckLoad(s.VarsOf(acts[0].id)) {
        ExecClosed(s, ids, acts[0].id, w);
      } else if acts[0].Load? {
        Inside(s, ids, acts[0].id);
      }
      var (t, ok) := Perform(s, acts[0], w);
      if ok {
        ActsLeave(t, acts[1..], done, w, ids);
      }
    }
  }

  lemma Inside(s: Sys, ids: set<nat>, id: nat)
    requires Closed(s, ids) && !CheckLoad(s.VarsOf(id))
    ensures id in ids
  {
  }

  /** Every module of ids is still to be executed, in good order then, or has been. */
  ghost predicate Steady(s: Sys, ids: set<nat>) {
    Closed(s, ids) && forall id :: id in ids ==> Fine(s, id)
  }

  /** Executing any of the modules yields no error. */
  ghost predicate StartsWell(w: World, ids: set<nat>) {
    forall id :: id in ids ==> !CheckErr(w.Outcome(id))
  }

  lemma ExecSteady(s: Sys, ids: set<nat>, id: nat, w: World)
    requires Steady(s, ids) && CheckLoad(s.VarsOf(id)) && StartsWell(w, ids)
    ensures Steady(Exec(s, id, w), ids)
    ensures id in ids ==> !CheckErr(Exec(s, id, w).VarsOf(id))
    ensures forall other :: other != id ==> Exec(s, id, w).VarsOf(other) == s.VarsOf(other)
  {
    hide GetStaged, Release, Inv;
    ExecClosed(s, ids, id, w);
    if id in ids {
      assert Fine(s, id);
    }
    forall other | other in ids
      ensures Fine(Exec(s, id, w), other)
    {
      assert Fine(s, other);
    }
  }

  /**
    If nothing fails but tests, a module has been executed afterwards exactly if
    it had been before or the list gets to it.
   */
  lemma {:induction false} ActsReach(s: Sys, acts: seq<Act>, done: int, w: World, ids: set<nat>)
    requires Steady(s, ids) && StartsWell(w, ids)
    ensures var t := RunActs(s, acts, done, w).0;
            && Steady(t, ids)
            && forall id :: id in ids ==>
                 (CheckLoad(t.VarsOf(id)) <==> CheckLoad(s.VarsOf(id)) && id !in Unblocked(acts, w.fails, ids))
    decreases |acts|
  {
    hide GetStaged, Exec, Steady, StartsWell;
    if acts != [] {
      if acts[0].Load? && CheckLoad(s.VarsOf(acts[0].id)) {
        ExecSteady(s, ids, acts[0].id, w);
        if acts[0].id !in ids {
          OutsideEnds(s, ids, acts[0].id, w);
        }
      } else if acts[0].Load? {
        SteadyInside(s, ids, acts[0].id);
      }
      var (t, ok) := Perform(s, acts[0], w);
      if ok {
        ActsReach(t, acts[1..], done, w, ids);
      }
    }
  }

  lemma OutsideEnds(s: Sys, ids: set<nat>, id: nat, w: World)
    requires Steady(s, ids) && CheckLoad(s.VarsOf(id)) && id !in ids
    ensures CheckErr(Exec(s, id, w).VarsOf(id))
  {
    hide GetStaged, Release, Inv;
    ExecClosed(s, ids, id, w);
  }

  lemma SteadyInside(s: Sys, ids: set<nat>, id: nat)
    requires Steady(s, ids) && !CheckLoad(s.VarsOf(id))
    ensures id in ids
  {
    hide GetStaged, Inv;
  }

  // ---- runs ----

  lemma {:induction false} TurnsLeave(s: Sys, turns: seq<Turn>, ids: set<nat>)
    requires Closed(s, ids)
    ensures var t := RunTurns(s, turns);
            && Closed(t, ids)
            && forall id :: id !in UnblockedBy(turns, ids) ==> GetStaged(t.staging, id) == GetStaged(s.staging, id)
  {
    hide RunActs, Program, Closed, GetStaged, Unblocked;
    if turns != [] {
      var n := |turns| - 1;
      var t := turns[n];
      TurnsLeave(s, turns[..n], ids);
      ActsLeave(RunTurns(s, turns[..n]), Program(t.call), Done(t.call.driver), t.world, ids);
    }
  }

  lemma {:induction false} TurnsReach(s: Sys, turns: seq<Turn>, ids: set<nat>)
    requires Steady(s, ids) && forall i :: 0 <= i < |turns| ==> StartsWell(turns[i].world, ids)
    ensures var t := RunTurns(s, turns);
            && Steady(t, ids)
            && forall id :: id in ids ==>
                 (CheckLoad(t.VarsOf(id)) <==> CheckLoad(s.VarsOf(id)) && id !in UnblockedBy(turns, ids))
  {
    hide RunActs, Program, Steady, GetStaged, Unblocked, StartsWell;
    if turns != [] {
      var n := |turns| - 1;
      var t := turns[n];
      TurnsReach(s, turns[..n], ids);
      ActsReach(RunTurns(s, turns[..n]), Program(t.call), Done(t.call.driver), t.world, ids);
    }
  }

  /** A staging holds the modules of its mask and no others. */
  lemma StageIsClosed(s: State, path: Option<Path>, mask: bv32, env: Env)
    requires Inv(s) && Stage(s, path, mask, env).1 == Success
    ensures Steady(Fresh(Stage(s, path, mask, env).0), Expand(mask))
  {
    hide Inv, Stage, GetStaged, Expand;
    var t := Stage(s, path, mask, env).0;
    StageKeepsInv(s, path, mask, env);
    forall id
      ensures GetStaged(t, id).Some? <==> id in Expand(mask)
    {
      if id in Expand(mask) {
        StagedAll(s, path, mask, env, id);
      } else if GetStaged(t, id).Some? {
        StagedWithin(s, path, mask, env, id);
      }
    }
  }

  /**
    After a successful stage, any calls at all and whatever the system answers:
    what no call gets to stays staged.
   */
  lemma {:induction false} BlockedStays(s: State, path: Option<Path>, mask: bv32, env: Env, turns: seq<Turn>, id: nat)
    requires Inv(s) && Stage(s, path, mask, env).1 == Success
    requires id in Expand(mask) && id !in UnblockedBy(turns, Expand(mask))
    ensures GetStaged(RunTurns(Fresh(Stage(s, path, mask, env).0), turns).staging, id).Some?
  {
    hide Inv, Stage, GetStaged, Expand, RunTurns, UnblockedBy;
    StageIsClosed(s, path, mask, env);
    StagedAll(s, path, mask, env, id);
    TurnsLeave(Fresh(Stage(s, path, mask, env).0), turns, Expand(mask));
  }

  /**
    If moreover every staged module starts without an error whenever it is
    executed, that is exactly what stays staged, whichever tests fail: the
    condition speaks of the calls and the failing tests alone.
   */
  lemma {:induction false} StaysIffBlocked(s: State, path: Option<Path>, mask: bv32, env: Env, turns: seq<Turn>)
    requires Inv(s) && Stage(s, path, mask, env).1 == Success
    requires forall i :: 0 <= i < |turns| ==> StartsWell(turns[i].world, Expand(mask))
    ensures var end := RunTurns(Fresh(Stage(s, path, mask, env).0), turns).staging;
            && (forall id :: GetStaged(end, id).Some? <==>
                  id in Expand(mask) && id !in UnblockedBy(turns, Expand(mask)))
            && (end.slots.None? <==> Expand(mask) <= UnblockedBy(turns, Expand(mask)))
  {
    hide Inv, Stage, GetStaged, Expand, RunTurns, UnblockedBy, StartsWell, LastRun, AtMostOnce, OnStaged,
      MissesExplained;
    var staged, ids := Stage(s, path, mask, env).0, Expand(mask);
    var end := RunTurns(Fresh(staged), turns);
    StageKeepsInv(s, path, mask, env);
    StageIsClosed(s, path, mask, env);
    TurnsReach(Fresh(staged), turns, ids);
    RunConsistent(staged, turns);
    forall id
      ensures GetStaged(end.staging, id).Some? <==> id in ids && id !in UnblockedBy(turns, ids)
    {
      assert Agrees(staged, end, id);
      if id in ids {
        assert Fine(end, id);
        StagedAll(s, path, mask, env, id);
      }
    }
    EmptyOrNot(end.staging);
  }

  lemma EmptyOrNot(s: State)
    requires Inv(s)
    ensures s.slots.None? <==> forall id :: GetStaged(s, id) == None
  {
    hide Inv, GetStaged;
    if s.slots.None? {
      forall id
        ensures GetStaged(s, id) == None
      {
        NothingStaged(s, id);
      }
    } else if forall id :: GetStaged(s, id) == None {
      NothingLeft(s);
    }
  }

  // ---- what a call gets to, off the table ----

  predicate Stops(acts: seq<Act>, fails: set<Test>, ids: set<nat>) {
    exists i :: 0 <= i < |acts| && Halts(acts[i], fails, ids)
  }

  lemma {:induction false} UnblockedAppend(a: seq<Act>, b: seq<Act>, fails: set<Test>, ids: set<nat>)
    ensures Unblocked(a + b, fails, ids) ==
            Unblocked(a, fails, ids) + if Stops(a, fails, ids) then {} else Unblocked(b, fails, ids)
  {
    if a == [] {
      assert a + b == b;
    } else {
      UnblockedAppend(a[1..], b, fails, ids);
      assert (a + b)[1..] == a[1..] + b;
      StopsStep(a, fails, ids);
    }
  }

  lemma StopsStep(a: seq<Act>, fails: set<Test>, ids: set<nat>)
    requires a != []
    ensures Stops(a, fails, ids) <==> Halts(a[0], fails, ids) || Stops(a[1..], fails, ids)
  {
    assert forall i :: 0 < i < |a| ==> a[i] == a[1..][i - 1];
    assert forall i :: 0 <= i < |a[1..]| ==> a[1..][i] == a[i + 1];
  }

  lemma {:induction false} UnblockedUnder(acts: seq<Act>, err: int, fails: set<Test>, ids: set<nat>)
    ensures Unblocked(Under(acts, err), fails, ids) == Unblocked(acts, fails, ids)
    ensures Stops(Under(acts, err), fails, ids) <==> Stops(acts, fails, ids)
  {
    if acts != [] {
      UnblockedUnder(acts[1..], err, fails, ids);
      StopsStep(acts, fails, ids);
      StopsStep(Under(acts, err), fails, ids);
    }
  }

  /** No more than the list loads. */
  lemma {:induction false} UnblockedLoads(acts: seq<Act>, fails: set<Test>, ids: set<nat>)
    ensures Unblocked(acts, fails, ids) <= Loads(acts)
  {
    if acts != [] {
      UnblockedLoads(acts[1..], fails, ids);
    }
  }

  /** Of a driver's own modules, those behind one of its tests when it fails. */
  function OwnBlocked(d: Driver, fails: set<Test>): set<nat> {
    match d
    case Mx4sio => if Cop2Pipelined in fails then {MX4SIO_BD} else {}
    case Hdd => if HddReady in fails then {PS2FS} else {}
    case _ => {}
  }

  lemma UnblockedNone(fails: set<Test>, ids: set<nat>)
    ensures Unblocked([], fails, ids) == {} && !Stops([], fails, ids)
  {
  }

  lemma UnblockedStep(acts: seq<Act>, fails: set<Test>, ids: set<nat>)
    requires acts != []
    ensures Unblocked(acts, fails, ids) ==
            if Halts(acts[0], fails, ids) then {}
            else (if acts[0].Load? then {acts[0].id} else {}) + Unblocked(acts[1..], fails, ids)
  {
  }

  lemma UnblockedOwn(d: Driver, fails: set<Test>, ids: set<nat>)
    requires OwnModules(d) <= ids
    ensures Unblocked(Own(d), fails, ids) == OwnModules(d) - OwnBlocked(d, fails)
  {
    hide Unblocked;
    var own := Own(d);
    UnblockedNone(fails, ids);
    if |own| > 0 {
      UnblockedStep(own, fails, ids);
      if |own| > 1 {
        UnblockedStep(own[1..], fails, ids);
        if |own| > 2 {
          UnblockedStep(own[1..][1..], fails, ids);
          if |own| > 3 {
            UnblockedStep(own[1..][1..][1..], fails, ids);
            assert own[1..][1..][1..][1..] == [];
          } else {
            assert own[1..][1..][1..] == [];
          }
        } else {
          assert own[1..][1..] == [];
        }
      } else {
        assert own[1..] == [];
      }
    }
  }

  /** Whether a test of the driver's own list fails. */
  lemma OwnStops(d: Driver, fails: set<Test>, ids: set<nat>)
    requires OwnModules(d) <= ids
    ensures Stops(Own(d), fails, ids) <==> exists test :: test in OwnTests(d) && test in fails
  {
    hide Own, OwnTests, OwnModules;
    if Stops(Own(d), fails, ids) {
      var i :| 0 <= i < |Own(d)| && Halts(Own(d)[i], fails, ids);
      OwnAct(d, i);
      assert Own(d)[i].test in OwnTests(d) && Own(d)[i].test in fails;
    }
    if test :| test in OwnTests(d) && test in fails {
      var i := TestAt(d, test);
      assert Halts(Own(d)[i], fails, ids);
    }
  }

  function OwnTests(d: Driver): set<Test> {
    match d
    case Mx4sio => {Cop2Pipelined}
    case Hdd => {HddReady}
    case Joystick => {MtapInit, PadInit}
    case Audio => {AudsrvInit}
    case Poweroff => {PoweroffInit}
    case Mouse => {MouseInit}
    case Keyboard => {KbdInit}
    case Camera => {CamInit}
    case Netman => {NetManInit}
    case Iopip => {Ps2ipInit}
    case _ => {}
  }

  lemma OwnAct(d: Driver, i: nat)
    requires i < |Own(d)|
    ensures Own(d)[i].Check? ==> Own(d)[i].test in OwnTests(d)
    ensures Own(d)[i].Load? ==> Own(d)[i].id in OwnModules(d)
  {
  }

  lemma TestAt(d: Driver, test: Test) returns (i: nat)
    requires test in OwnTests(d)
    ensures i < |Own(d)| && Own(d)[i].Check? && Own(d)[i].test == test
  {
    i := if d == Mx4sio then 0
         else if test == PadInit then 3
         else if d == Hdd || d == Joystick || d == Audio || d == Iopip then 2
         else 1;
  }

  /** A driver brought up as a dependency: only the network manager's has a test, and it comes last. */
  lemma NeedUnblocked(d: Driver, k: nat, fails: set<Test>, ids: set<nat>)
    requires k < |Needs(d)| && OwnModules(Needs(d)[k].driver) <= ids
    ensures var own := Own(Needs(d)[k].driver);
            && Unblocked(own, fails, ids) == OwnModules(Needs(d)[k].driver)
            && (Stops(own, fails, ids) <==> Needs(d)[k].driver == Netman && NetManInit in fails)
  {
    hide Unblocked, Stops, Own, OwnModules;
    UnblockedOwn(Needs(d)[k].driver, fails, ids);
    OwnStops(Needs(d)[k].driver, fails, ids);
    assert NetManInit in OwnTests(Netman);
  }

  /** The dependencies from the k-th on, if the network manager is not among them or its test passes. */
  lemma {:induction false} NeedsUnblocked(d: Driver, k: nat, fails: set<Test>, ids: set<nat>)
    requires k <= |Needs(d)| && Needed(Needs(d)[k..]) <= ids
    requires forall j :: k <= j < |Needs(d)| ==> Needs(d)[j].driver != Netman || NetManInit !in fails
    ensures Unblocked(Dependencies(Needs(d)[k..]), fails, ids) == Needed(Needs(d)[k..])
    ensures !Stops(Dependencies(Needs(d)[k..]), fails, ids)
    decreases |Needs(d)| - k
  {
    hide Unblocked, Stops, Own, OwnModules, Needs;
    UnblockedNone(fails, ids);
    if k < |Needs(d)| {
      var n := Needs(d)[k];
      assert Needs(d)[k..][0] == n && Needs(d)[k..][1..] == Needs(d)[k + 1..];
      NeedUnblocked(d, k, fails, ids);
      NeedsUnblocked(d, k + 1, fails, ids);
      UnblockedUnder(Own(n.driver), n.err, fails, ids);
      UnblockedAppend(Under(Own(n.driver), n.err), Dependencies(Needs(d)[k + 1..]), fails, ids);
      StopsAppend(Under(Own(n.driver), n.err), Dependencies(Needs(d)[k + 1..]), fails, ids);
    }
  }

  lemma StopsAppend(a: seq<Act>, b: seq<Act>, fails: set<Test>, ids: set<nat>)
    ensures Stops(a + b, fails, ids) <==> Stops(a, fails, ids) || Stops(b, fails, ids)
  {
    assert forall i :: 0 <= i < |a| ==> (a + b)[i] == a[i];
    assert forall i :: 0 <= i < |b| ==> (a + b)[|a| + i] == b[i];
  }

  predicate NetmanFails(c: Call, fails: set<Test>) {
    c.deps && (c.driver == Eeip || c.driver == Iopip) && NetManInit in fails
  }

  predicate GuardFails(c: Call, fails: set<Test>) {
    c.driver == Hdd && c.onlyIfBooted && CwdIsHdd in fails
  }

  /** Of all that a call loads, what stands behind a failing test. */
  function Blocked(c: Call, fails: set<Test>): set<nat> {
    if GuardFails(c, fails) then OwnModules(Hdd) + (if c.deps then Needed(Needs(Hdd)) else {})
    else if NetmanFails(c, fails) then {SMAP} + OwnModules(c.driver)
    else OwnBlocked(c.driver, fails)
  }

  lemma GuardUnblocked(c: Call, fails: set<Test>, ids: set<nat>)
    ensures Unblocked(Guard(c), fails, ids) == {}
    ensures Stops(Guard(c), fails, ids) <==> GuardFails(c, fails)
  {
    hide Stops, Unblocked;
    UnblockedNone(fails, ids);
    var g := Check(CwdIsHdd, -2);
    UnblockedStep([g], fails, ids);
    StopsStep([g], fails, ids);
    assert [g][1..] == [];
  }

  /** The network drivers when the network manager's test fails: they get to it and no further. */
  lemma NetmanUnblocked(d: Driver, fails: set<Test>, ids: set<nat>)
    requires (d == Eeip || d == Iopip) && NetManInit in fails && Needed(Needs(d)) <= ids
    ensures Unblocked(Dependencies(Needs(d)), fails, ids) == {PS2DEV9, NETMAN}
    ensures Stops(Dependencies(Needs(d)), fails, ids)
  {
    hide Unblocked, Stops, Own, Needed;
    var n := Needs(d);
    NeededModules(d);
    NeedUnblocked(d, 0, fails, ids);
    NeedUnblocked(d, 1, fails, ids);
    assert Dependencies(n) == Under(Own(Dev9), n[0].err) + Dependencies(n[1..]);
    assert Dependencies(n[1..]) == Under(Own(Netman), n[1].err) + Dependencies(n[1..][1..]);
    UnblockedUnder(Own(Dev9), n[0].err, fails, ids);
    UnblockedUnder(Own(Netman), n[1].err, fails, ids);
    UnblockedAppend(Under(Own(Dev9), n[0].err), Dependencies(n[1..]), fails, ids);
    UnblockedAppend(Under(Own(Netman), n[1].err), Dependencies(n[1..][1..]), fails, ids);
    StopsAppend(Under(Own(Dev9), n[0].err), Dependencies(n[1..]), fails, ids);
    StopsAppend(Under(Own(Netman), n[1].err), Dependencies(n[1..][1..]), fails, ids);
  }

  lemma DependenciesUnblocked(c: Call, fails: set<Test>, ids: set<nat>)
    requires c.deps ==> Needed(Needs(c.driver)) <= ids
    ensures var acts := if c.deps then Dependencies(Needs(c.driver)) else [];
            && Unblocked(acts, fails, ids) ==
               (if c.deps then Needed(Needs(c.driver)) else {}) - (if NetmanFails(c, fails) then {SMAP} else {})
            && (Stops(acts, fails, ids) <==> NetmanFails(c, fails))
  {
    hide Unblocked, Stops, Dependencies, Needed;
    UnblockedNone(fails, ids);
    NeededModules(c.driver);
    if NetmanFails(c, fails) {
      NetmanUnblocked(c.driver, fails, ids);
    } else if c.deps {
      var n := Needs(c.driver);
      assert n[0..] == n;
      forall j | 0 <= j < |n|
        ensures n[j].driver != Netman || NetManInit !in fails
      {
        OnlyNetworkNeedsNetman(c.driver, j);
      }
      NeedsUnblocked(c.driver, 0, fails, ids);
    }
  }

  lemma OnlyNetworkNeedsNetman(d: Driver, j: nat)
    requires j < |Needs(d)|
    ensures Needs(d)[j].driver == Netman ==> d == Eeip || d == Iopip
  {
  }

  /** For each of the 20 drivers, with either flag and any failing tests: exactly what the call gets to. */
  lemma ProgramUnblocked(c: Call, fails: set<Test>, ids: set<nat>)
    requires Loads(Program(c)) <= ids
    ensures Unblocked(Program(c), fails, ids) == Loads(Program(c)) - Blocked(c, fails)
  {
    hide Unblocked, Stops, Dependencies, Own, Needs, Loads, Guard, OwnModules, Needed, OwnBlocked;
    ProgramLoads(c);
    var deps := if c.deps then Dependencies(Needs(c.driver)) else [];
    GuardUnblocked(c, fails, ids);
    DependenciesUnblocked(c, fails, ids);
    UnblockedOwn(c.driver, fails, ids);
    UnblockedAppend(Guard(c), deps, fails, ids);
    UnblockedAppend(Guard(c) + deps, Own(c.driver), fails, ids);
    StopsAppend(Guard(c), deps, fails, ids);
    SeparateModules(c, fails);
  }

  /** A driver's own modules are none of its dependencies'. */
  lemma SeparateModules(c: Call, fails: set<Test>)
    ensures OwnModules(c.driver) !! Needed(Needs(c.driver))
    ensures OwnBlocked(c.driver, fails) <= OwnModules(c.driver) &&
            (NetmanFails(c, fails) ==> SMAP !in OwnModules(c.driver))
  {
    hide Needed, Needs;
    NeededModules(c.driver);
  }

  /** Over a run: some call gets to the module. */
  lemma {:induction false} UnblockedByWhich(turns: seq<Turn>, ids: set<nat>, id: nat)
    ensures id in UnblockedBy(turns, ids) <==>
            exists i :: 0 <= i < |turns| && id in Unblocked(Program(turns[i].call), turns[i].world.fails, ids)
  {
    hide Unblocked, Program;
    if turns != [] {
      UnblockedByWhich(turns[..|turns| - 1], ids, id);
    }
  }
}
