/** Unload, stage again, initialise again: everything that was loaded is loaded anew. */
module Reloading {
  import opened ImageConstants
  import opened Wrappers
  import opened Environment
  import opened Requirements
  import opened DriverTable
  import opened Drivers
  import opened DriverRuns
  import opened DriverCoverage
  import opened BlockedLoads
  import opened StagingSpec
  import opened StagingInvariant
  import opened Unloading
  import opened Sessions
  import R = StagingRuns

  /** After any successful staging call exactly the modules of the remembered mask are staged. */
  lemma StepStages(s: State, e: R.Event, id: nat)
    requires Inv(s) && R.Staging(e.op) && R.Step(s, e).1 == Success
    ensures var t := R.Step(s, e).0; GetStaged(t, id).Some? <==> id in Expand(t.last)
  {
    hide Inv, Fetch, R.Step, Bytes, Expand, Wanted, SlotsOk, Live, FindLive;
    var t := R.Step(s, e).0;
    R.StagedFrom(s, e);
    FetchedSlots(t.path.value, t.last, e.env);
    WantedAscends(Expand(t.last), MAX_ENTRIES);
    ExpandInRange(t.last);
    if id in Expand(t.last) {
      var i :| 0 <= i < |Wanted(Expand(t.last), MAX_ENTRIES)| && Wanted(Expand(t.last), MAX_ENTRIES)[i] == id;
      FoundLive(t, i);
    }
  }

  /** A module whose variables a list of acts has set is no longer staged. */
  lemma {:induction false} ActsTake(s: Sys, acts: seq<Act>, done: int, w: World, id: nat)
    requires Inv(s.staging)
    ensures var t := RunActs(s, acts, done, w).0;
            && Inv(t.staging)
            && (GetStaged(s.staging, id) == None ==> GetStaged(t.staging, id) == None)
            && (CheckLoad(s.VarsOf(id)) && !CheckLoad(t.VarsOf(id)) ==> GetStaged(t.staging, id) == None)
    decreases |acts|
  {
    hide GetStaged, Release, Inv;
    if acts != [] {
      if acts[0].Load? && CheckLoad(s.VarsOf(acts[0].id)) {
        ReleaseKeepsInv(s.staging, acts[0].id);
        ReleaseGets(s.staging, acts[0].id, id);
      }
      ActsTake(Perform(s, acts[0], w).0, acts[1..], done, w, id);
    }
  }

  /** Taking down, staging and bringing up in turn. */
  ghost function Reinit(s: Sys, c: Call, e: R.Event, again: World): (Sys, int) {
    Init(Next(Next(s, Drop(c.driver, c.deps)), Manage(e)), c, again)
  }

  lemma DroppedAll(s: Sys, c: Call)
    requires forall id :: id in Loads(Program(c)) ==> CheckUnload(s.VarsOf(id))
    ensures var a := Deinit(s, c.driver, c.deps);
            a.staging == s.staging && forall id :: id in Loads(Program(c)) ==> CheckLoad(a.VarsOf(id))
  {
    hide Program, Loads, Unloads, UnloadAll, CheckUnload;
    UnloadAllIs(s, Unloads(c.driver, c.deps), 0);
    forall id | id in Loads(Program(c))
      ensures CheckLoad(Deinit(s, c.driver, c.deps).VarsOf(id))
    {
      UnloadsAreLoads(c, id);
      UnloadAllIs(s, Unloads(c.driver, c.deps), id);
    }
  }

  /**
    From any state in which the modules of a driver are loaded and removable:
    deinit it, stage again with success a mask that covers it, and init it with
    no mishap.  The init succeeds, each of the modules has been executed anew
    from its fresh copy, and if nothing else was staged nothing is left.
   */
  lemma ReinitReloads(s: Sys, c: Call, e: R.Event, again: World)
    requires Inv(s.staging) && R.Staging(e.op) && R.Step(s.staging, e).1 == Success
    requires Loads(Program(c)) <= Expand(R.Step(s.staging, e).0.last)
    requires forall id :: id in Loads(Program(c)) ==> CheckUnload(s.VarsOf(id))
    requires Smooth(again, Loads(Program(c)))
    ensures var (t, status) := Reinit(s, c, e, again);
            && status == Done(c.driver)
            && (forall id :: id in Loads(Program(c)) ==>
                  && Resident(t.VarsOf(id)) && t.VarsOf(id) == again.Outcome(id)
                  && GetStaged(R.Step(s.staging, e).0, id).Some? && GetStaged(t.staging, id) == None)
            && (Expand(R.Step(s.staging, e).0.last) == Loads(Program(c)) ==> t.staging.slots.None?)
  {
    hide Inv, R.Step, RunActs, Program, Loads, GetStaged, Expand, Deinit, CheckUnload, R.Staging, Done;
    DroppedAll(s, c);
    var b := Next(Next(s, Drop(c.driver, c.deps)), Manage(e));
    R.StepKeepsInv(s.staging, e);
    forall id
      ensures GetStaged(b.staging, id).Some? <==> id in Expand(b.staging.last)
    {
      StepStages(s.staging, e, id);
    }
    ErrsNegative(c.driver);
    ProgramErrs(c);
    ActsSmooth(b, Program(c), Done(c.driver), again, Loads(Program(c)));
    ActsSucceed(b, Program(c), Done(c.driver), again);
    var t := Init(b, c, again).0;
    forall id
      ensures id in Loads(Program(c)) || GetStaged(b.staging, id) == None ==> GetStaged(t.staging, id) == None
    {
      ActsTake(b, Program(c), Done(c.driver), again, id);
    }
    EmptyOrNot(t.staging);
  }
}
