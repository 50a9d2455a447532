/**
  What one pass of a file system initialisation leaves staged when some of the
  tests on its way fail.
 */
module BootLeftovers {
  import opened Wrappers
  import opened Environment
  import opened Requirements
  import opened BootDevice
  import opened BootCoverage
  import opened DriverTable
  import opened Drivers
  import opened DriverRuns
  import opened BlockedLoads
  import opened StagingSpec

  /** The calls once each in their order; tests may fail, but executions do not. */
  ghost predicate OnePass(turns: seq<Turn>, calls: seq<Call>, ids: set<nat>) {
    && |turns| == |calls|
    && forall i :: 0 <= i < |turns| ==> turns[i].call == calls[i] && StartsWell(turns[i].world, ids)
  }

  /** No driver twice, none of the network drivers, and the hard disk driver without its dependencies. */
  predicate Plain(calls: seq<Call>) {
    && (forall i, j :: 0 <= i < j < |calls| ==> calls[i].driver != calls[j].driver)
    && forall i :: 0 <= i < |calls| ==> PlainCall(calls[i])
  }

  predicate PlainCall(c: Call) {
    c.driver != Eeip && c.driver != Iopip && (c.driver == Driver.Hdd ==> !c.deps)
  }

  /** What stands behind the tests that fail. */
  function BlockedBy(turns: seq<Turn>): set<nat> {
    set i, id | 0 <= i < |turns| && id in Blocked(turns[i].call, turns[i].world.fails) :: id
  }

  /** What can be blocked is loaded by that driver alone. */
  lemma NobodyElse(c: Call, fails: set<Test>, other: Call, id: nat)
    requires PlainCall(c) && id in Blocked(c, fails) && id in Loads(Program(other))
    ensures other.driver == c.driver && id in OwnModules(c.driver)
  {
    hide Program, Loads, Needs, Needed;
    LoadsWithin(other);
  }

  /** One pass gets to all that the calls load, less what stands behind a failing test. */
  lemma {:induction false} PassUnblocked(turns: seq<Turn>, calls: seq<Call>, ids: set<nat>, id: nat)
    requires OnePass(turns, calls, ids) && Plain(calls) && LoadsOf(calls) <= ids
    ensures id in UnblockedBy(turns, ids) <==> id in LoadsOf(calls) && id !in BlockedBy(turns)
  {
    hide Program, Loads, LoadsOf, UnblockedBy, Unblocked, Blocked, PlainCall, StartsWell;
    UnblockedByWhich(turns, ids, id);
    forall i | 0 <= i < |turns|
      ensures Loads(Program(calls[i])) <= LoadsOf(calls)
      ensures Unblocked(Program(turns[i].call), turns[i].world.fails, ids) ==
              Loads(Program(calls[i])) - Blocked(calls[i], turns[i].world.fails)
    {
      LoadsOfMember(calls, i);
      ProgramUnblocked(calls[i], turns[i].world.fails, ids);
    }
    if id in UnblockedBy(turns, ids) {
      var i :| 0 <= i < |turns| && id in Unblocked(Program(turns[i].call), turns[i].world.fails, ids);
      forall j | 0 <= j < |turns|
        ensures id !in Blocked(turns[j].call, turns[j].world.fails)
      {
        if id in Blocked(turns[j].call, turns[j].world.fails) {
          NobodyElse(turns[j].call, turns[j].world.fails, turns[i].call, id);
        }
      }
    }
    if id in LoadsOf(calls) && id !in BlockedBy(turns) {
      var c := LoadsOfWhich(calls, id);
      var i :| 0 <= i < |calls| && calls[i] == c;
      assert id !in Blocked(turns[i].call, turns[i].world.fails);
    }
  }

  /** So it leaves what no call loads and what stands behind a failing test, and nothing else. */
  lemma {:induction false} PassLeaves(
          s: State, image: Option<Path>, mask: bv32, env: Env, turns: seq<Turn>, calls: seq<Call>)
    requires Inv(s) && Stage(s, image, mask, env).1 == Success
    requires OnePass(turns, calls, Expand(mask)) && Plain(calls) && LoadsOf(calls) <= Expand(mask)
    ensures var end := RunTurns(Fresh(Stage(s, image, mask, env).0), turns).staging;
            var left := Expand(mask) - (LoadsOf(calls) - BlockedBy(turns));
            && (forall id :: GetStaged(end, id).Some? <==> id in left)
            && (end.slots.None? <==> left == {})
  {
    hide Inv, Stage, GetStaged, Expand, RunTurns, UnblockedBy, LoadsOf, BlockedBy, Plain, StartsWell;
    StaysIffBlocked(s, image, mask, env, turns);
    forall id
      ensures id in UnblockedBy(turns, Expand(mask)) <==> id in LoadsOf(calls) && id !in BlockedBy(turns)
    {
      PassUnblocked(turns, calls, Expand(mask), id);
    }
  }

  // ---- all file systems ----

  lemma AllCallsPlain()
    ensures Plain(ALL_CALLS)
  {
  }

  /** Of the eight calls only the MX4SIO and the hard disk driver's have tests before a load. */
  lemma {:induction false} AllBlocked(turns: seq<Turn>)
    requires |turns| == 8 && forall i :: 0 <= i < 8 ==> turns[i].call == ALL_CALLS[i]
    ensures BlockedBy(turns) == LeftOfAll(turns[4].world.fails, turns[7].world.fails)
  {
    hide OwnModules, Needed, Needs;
    forall i | 0 <= i < 8 && i != 4 && i != 7
      ensures Blocked(turns[i].call, turns[i].world.fails) == {}
    {
      assert turns[i].call == ALL_CALLS[i];
    }
    assert turns[4].call == ALL_CALLS[4] && turns[7].call == ALL_CALLS[7];
    assert LeftOfAll(turns[4].world.fails, turns[7].world.fails) ==
           Blocked(turns[4].call, turns[4].world.fails) + Blocked(turns[7].call, turns[7].world.fails);
    BlockedByTwo(turns, 4, 7);
  }

  lemma {:induction false} BlockedByTwo(turns: seq<Turn>, i: nat, j: nat)
    requires i < |turns| && j < |turns|
    requires forall k :: 0 <= k < |turns| && k != i && k != j ==> Blocked(turns[k].call, turns[k].world.fails) == {}
    ensures BlockedBy(turns) ==
            Blocked(turns[i].call, turns[i].world.fails) + Blocked(turns[j].call, turns[j].world.fails)
  {
    hide Blocked;
    forall id
      ensures id in BlockedBy(turns) <==>
              id in Blocked(turns[i].call, turns[i].world.fails) || id in Blocked(turns[j].call, turns[j].world.fails)
    {
      if id in BlockedBy(turns) {
        var k :| 0 <= k < |turns| && id in Blocked(turns[k].call, turns[k].world.fails);
        assert k == i || k == j;
      }
    }
  }

  /** What stays, by the tests that fail in the MX4SIO driver's call and in the hard disk driver's. */
  function LeftOfAll(mx4sio: set<Test>, hdd: set<Test>): set<nat> {
    (if Cop2Pipelined in mx4sio then {MX4SIO_BD} else {}) +
    (if CwdIsHdd in hdd then OwnModules(Driver.Hdd) else if HddReady in hdd then {PS2FS} else {})
  }

  /**
    One pass of the all-file-systems initialisation over a staging by its mask,
    whichever tests fail: exactly this stays staged, so the staging area is
    emptied exactly if the program was started from the hard disk, the disk is
    ready and the MX4SIO driver is supported.
   */
  lemma {:induction false} AllFilesystemsLeave(s: State, image: Option<Path>, env: Env, turns: seq<Turn>)
    requires Inv(s) && Stage(s, image, MaskOf(FILESYSTEM_DRIVERS), env).1 == Success
    requires OnePass(turns, ALL_CALLS, Expand(MaskOf(FILESYSTEM_DRIVERS)))
    ensures var end := RunTurns(Fresh(Stage(s, image, MaskOf(FILESYSTEM_DRIVERS), env).0), turns).staging;
            var mx4sio, hdd := turns[4].world.fails, turns[7].world.fails;
            && (forall id :: GetStaged(end, id).Some? <==> id in LeftOfAll(mx4sio, hdd))
            && (end.slots.None? <==> Cop2Pipelined !in mx4sio && CwdIsHdd !in hdd && HddReady !in hdd)
  {
    hide Inv, Stage, GetStaged, Expand, RunTurns, LoadsOf, BlockedBy, Plain, MaskOf, StartsWell, LeftOfAll;
    AllMaskExact();
    AllCallsPlain();
    AllBlocked(turns);
    PassLeaves(s, image, MaskOf(FILESYSTEM_DRIVERS), env, turns, ALL_CALLS);
    LeftOfAllWithin(turns[4].world.fails, turns[7].world.fails);
  }

  lemma LeftOfAllWithin(mx4sio: set<Test>, hdd: set<Test>)
    ensures LeftOfAll(mx4sio, hdd) <= LoadsOf(ALL_CALLS)
    ensures LeftOfAll(mx4sio, hdd) == {} <==> Cop2Pipelined !in mx4sio && CwdIsHdd !in hdd && HddReady !in hdd
  {
    hide LoadsOf, Program, Needed, Needs;
    LoadsOfMember(ALL_CALLS, 4);
    LoadsOfMember(ALL_CALLS, 7);
    ProgramLoads(ALL_CALLS[4]);
    ProgramLoads(ALL_CALLS[7]);
    assert PS2FS in OwnModules(Driver.Hdd);
  }

  // ---- booting ----

  lemma BootCallsPlain(d: Option<Device>)
    ensures Plain(BootCalls(d)) && 1 <= |BootCalls(d)| <= 4
  {
  }

  /** In a boot it is at most the last call that has a test before a load. */
  function LeftOfBoot(d: Option<Device>, last: set<Test>): set<nat> {
    (if FromHdd(d) then {BDM, BDMFS_FATFS} + (if HddReady in last then {PS2FS} else {}) else {}) +
    (if FromMass(d) && Cop2Pipelined in last then {MX4SIO_BD} else {})
  }

  /** The devices for which both removable storage drivers are brought up. */
  predicate FromMass(d: Option<Device>) {
    d.Some? && d.value in {Mass, Mass0, Mass1, Device.Mx4sio, Mx4sio0, Mx4sio1}
  }

  lemma {:induction false} BootBlocked(d: Option<Device>, turns: seq<Turn>)
    requires |turns| == |BootCalls(d)| && forall i :: 0 <= i < |turns| ==> turns[i].call == BootCalls(d)[i]
    ensures BlockedBy(turns) ==
            LeftOfBoot(d, turns[|turns| - 1].world.fails) - if FromHdd(d) then {BDM, BDMFS_FATFS} else {}
  {
    hide OwnModules, Needed, Needs;
    var n := |turns| - 1;
    forall i | 0 <= i < n
      ensures Blocked(turns[i].call, turns[i].world.fails) == {}
    {
      assert turns[i].call == BootCalls(d)[i];
    }
    assert turns[n].call == BootCalls(d)[n];
    forall id
      ensures id in BlockedBy(turns) <==> id in Blocked(turns[n].call, turns[n].world.fails)
    {
    }
  }

  /**
    One pass of the boot initialisation over a staging by the path's mask,
    whichever tests fail: exactly this stays staged, so the staging area is
    emptied exactly if the path is not on the hard disk and, where the MX4SIO
    driver is brought up, it is supported.
   */
  lemma {:induction false} BootLeaves(s: State, path: string, image: Option<Path>, env: Env, turns: seq<Turn>)
    requires Inv(s) && Stage(s, image, RequirementsForPath(Some(path), 0).value, env).1 == Success
    requires OnePass(turns, BootCalls(BootDeviceOf(path)), Expand(RequirementsForPath(Some(path), 0).value))
    ensures var mask, d := RequirementsForPath(Some(path), 0).value, BootDeviceOf(path);
            var end := RunTurns(Fresh(Stage(s, image, mask, env).0), turns).staging;
            turns != [] &&
            var last := turns[|turns| - 1].world.fails;
            && (forall id :: GetStaged(end, id).Some? <==> id in LeftOfBoot(d, last))
            && (end.slots.None? <==> !FromHdd(d) && !(FromMass(d) && Cop2Pipelined in last))
  {
    hide Inv, Stage, GetStaged, Expand, RunTurns, LoadsOf, BlockedBy, Plain, BootCalls, BootDeviceOf, BootRequirements,
      StartsWell, LeftOfBoot, FromHdd, FromMass;
    var mask, d := RequirementsForPath(Some(path), 0).value, BootDeviceOf(path);
    BootCallsPlain(d);
    BootBlocked(d, turns);
    PlainMask(d);
    PassLeaves(s, image, mask, env, turns, BootCalls(d));
    LeftOfBootWithin(d, turns[|turns| - 1].world.fails);
  }

  lemma PlainMask(d: Option<Device>)
    ensures Expand(BootRequirements(d) | 0) == LoadsOf(BootCalls(d)) + if FromHdd(d) then {BDM, BDMFS_FATFS} else {}
    ensures FromHdd(d) ==> BDM !in LoadsOf(BootCalls(d)) && BDMFS_FATFS !in LoadsOf(BootCalls(d))
  {
    hide Expand, LoadsOf, BootCalls, BootRequirements, FromHdd;
    ExpandUnion(BootRequirements(d), 0);
    ExpandZero();
    BootMaskExact(d);
  }

  lemma LeftOfBootWithin(d: Option<Device>, last: set<Test>)
    ensures LeftOfBoot(d, last) <= LoadsOf(BootCalls(d)) + if FromHdd(d) then {BDM, BDMFS_FATFS} else {}
    ensures LeftOfBoot(d, last) == {} <==> !FromHdd(d) && !(FromMass(d) && Cop2Pipelined in last)
    ensures FromHdd(d) ==> {BDM, BDMFS_FATFS} <= LeftOfBoot(d, last)
  {
    hide LoadsOf, Program, Needed, Needs;
    var calls := BootCalls(d);
    var n := |calls| - 1;
    LoadsOfMember(calls, n);
    ProgramLoads(calls[n]);
  }

  // ---- the unsupported driver ----

  /** More modules staged are no fewer reached. */
  lemma {:induction false} UnblockedMore(acts: seq<Act>, fails: set<Test>, ids: set<nat>, more: set<nat>)
    requires ids <= more
    ensures Unblocked(acts, fails, ids) <= Unblocked(acts, fails, more)
  {
    if acts != [] {
      UnblockedMore(acts[1..], fails, ids, more);
    }
  }

  lemma UnsupportedBlocked(c: Call, fails: set<Test>, ids: set<nat>)
    requires Cop2Pipelined in fails
    ensures MX4SIO_BD !in Unblocked(Program(c), fails, ids)
  {
    hide Program, Loads, Unblocked, Needs, Needed;
    var more := ids + Loads(Program(c));
    UnblockedMore(Program(c), fails, ids, more);
    ProgramUnblocked(c, fails, more);
    if MX4SIO_BD in Loads(Program(c)) {
      LoadsWithin(c);
    }
  }

  /**
    As long as the test for the floating point pipeline fails, a staged MX4SIO
    module stays staged, whatever is called, how often, and however it goes.
   */
  lemma {:induction false} UnsupportedStays(
          s: State, image: Option<Path>, mask: bv32, env: Env, turns: seq<Turn>)
    requires Inv(s) && Stage(s, image, mask, env).1 == Success && MX4SIO_BD in Expand(mask)
    requires forall k :: 0 <= k < |turns| ==> Cop2Pipelined in turns[k].world.fails
    ensures GetStaged(RunTurns(Fresh(Stage(s, image, mask, env).0), turns).staging, MX4SIO_BD).Some?
  {
    hide Inv, Stage, GetStaged, Expand, RunTurns, UnblockedBy, Unblocked, Program;
    UnblockedByWhich(turns, Expand(mask), MX4SIO_BD);
    forall k | 0 <= k < |turns|
      ensures MX4SIO_BD !in Unblocked(Program(turns[k].call), turns[k].world.fails, Expand(mask))
    {
      UnsupportedBlocked(turns[k].call, turns[k].world.fails, Expand(mask));
    }
    BlockedStays(s, image, mask, env, turns, MX4SIO_BD);
  }
}
