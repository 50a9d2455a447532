/**
  The file system initialisations against the requirement masks computed for
  them: what staging by the mask provides is what the init calls load.
 */
module BootCoverage {
  import opened Wrappers
  import opened Environment
  import opened Requirements
  import opened BootDevice
  import opened DriverTable
  import opened Drivers
  import opened DriverRuns
  import opened DriverCoverage
  import opened StagingSpec
  import opened StagingInvariant
  import MountPath

  /** The init calls of init_only_boot_ps2_filesystem_driver for a boot device. */
  function BootCalls(d: Option<Device>): seq<Call> {
    [Call(FileXio, false, false)] +
    match d
    case Some(Mc0) => [Call(Memcard, true, false)]
    case Some(Mc1) => [Call(Memcard, true, false)]
    case Some(CdRom) => [Call(Cdfs, false, false)]
    case Some(CdFs) => [Call(Cdfs, false, false)]
    case Some(Mass) => [Call(Usb, true, false), Call(Driver.Mx4sio, true, false)]
    case Some(Mass0) => [Call(Usb, true, false), Call(Driver.Mx4sio, true, false)]
    case Some(Mass1) => [Call(Usb, true, false), Call(Driver.Mx4sio, true, false)]
    case Some(Mx4sio) => [Call(Usb, true, false), Call(Driver.Mx4sio, true, false)]
    case Some(Mx4sio0) => [Call(Usb, true, false), Call(Driver.Mx4sio, true, false)]
    case Some(Mx4sio1) => [Call(Usb, true, false), Call(Driver.Mx4sio, true, false)]
    case Some(Hdd) => [Call(Poweroff, false, false), Call(Dev9, false, false), Call(Driver.Hdd, false, false)]
    case Some(Hdd0) => [Call(Poweroff, false, false), Call(Dev9, false, false), Call(Driver.Hdd, false, false)]
    case _ => []
  }

  /** The init calls of init_ps2_filesystem_driver. */
  const ALL_CALLS: seq<Call> :=
    [Call(Poweroff, false, false), Call(FileXio, false, false), Call(Memcard, true, false), Call(Usb, true, false),
     Call(Driver.Mx4sio, false, false), Call(Cdfs, false, false), Call(Dev9, false, false),
     Call(Driver.Hdd, false, true)]

  function LoadsOf(calls: seq<Call>): set<nat> {
    if calls == [] then {} else Loads(Program(calls[0])) + LoadsOf(calls[1..])
  }

  lemma {:induction false} LoadsOfAppend(a: seq<Call>, b: seq<Call>)
    ensures LoadsOf(a + b) == LoadsOf(a) + LoadsOf(b)
  {
    hide Program;
    if a == [] {
      assert a + b == b;
    } else {
      LoadsOfAppend(a[1..], b);
      assert (a + b)[1..] == a[1..] + b;
    }
  }

  lemma LoadsOfHead(c: Call)
    ensures LoadsOf([c]) == Loads(Program(c))
  {
    hide Program;
    assert LoadsOf([c]) == Loads(Program(c)) + LoadsOf([c][1..]);
  }

  lemma LoadsOfOne(c: Call)
    ensures LoadsOf([c]) == OwnModules(c.driver) + if c.deps then Needed(Needs(c.driver)) else {}
  {
    hide Program, OwnModules, Needs;
    ProgramLoads(c);
    LoadsOfHead(c);
  }

  lemma LoadsOfTwo(a: Call, b: Call)
    ensures LoadsOf([a, b]) == LoadsOf([a]) + LoadsOf([b])
  {
    LoadsOfAppend([a], [b]);
  }

  lemma LoadsOfThree(a: Call, b: Call, c: Call)
    ensures LoadsOf([a, b, c]) == LoadsOf([a]) + LoadsOf([b]) + LoadsOf([c])
  {
    LoadsOfTwo(a, b);
    LoadsOfAppend([a, b], [c]);
    assert [a, b, c] == [a, b] + [c];
  }

  // ---- the masks ----

  /** The mask's expansion, driver by driver. */
  lemma ExpandBoot(d: Option<Device>)
    ensures Expand(BootRequirements(d)) ==
            match d
            case Some(Mc0) => MarkSet(FileXio) + MarkSet(Memcard)
            case Some(Mc1) => MarkSet(FileXio) + MarkSet(Memcard)
            case Some(CdRom) => MarkSet(FileXio) + MarkSet(Cdfs)
            case Some(CdFs) => MarkSet(FileXio) + MarkSet(Cdfs)
            case Some(Hdd) => MarkSet(FileXio) + MarkSet(Poweroff) + MarkSet(Driver.Hdd)
            case Some(Hdd0) => MarkSet(FileXio) + MarkSet(Poweroff) + MarkSet(Driver.Hdd)
            case Some(Host) => MarkSet(FileXio)
            case Some(Host0) => MarkSet(FileXio)
            case Some(Host1) => MarkSet(FileXio)
            case None => MarkSet(FileXio)
            case _ => MarkSet(FileXio) + MarkSet(Usb) + MarkSet(Driver.Mx4sio)
  {
    hide Expand, Bit, With, MarkSet;
    var base := Bit(FileXio);
    ExpandBit(FileXio);
    ExpandWith(base, Memcard);
    ExpandWith(base, Cdfs);
    ExpandWith(base, Usb);
    ExpandWith(With(base, Usb), Driver.Mx4sio);
    ExpandWith(base, Poweroff);
    ExpandWith(With(base, Poweroff), Driver.Hdd);
  }

  /** The init calls' modules, call by call. */
  lemma BootLoads(d: Option<Device>)
    ensures LoadsOf(BootCalls(d)) ==
            match d
            case Some(Mc0) => MarkSet(FileXio) + MarkSet(Memcard)
            case Some(Mc1) => MarkSet(FileXio) + MarkSet(Memcard)
            case Some(CdRom) => MarkSet(FileXio) + MarkSet(Cdfs)
            case Some(CdFs) => MarkSet(FileXio) + MarkSet(Cdfs)
            case Some(Hdd) => MarkSet(FileXio) + (MarkSet(Poweroff) + MarkSet(Dev9) + OwnModules(Driver.Hdd))
            case Some(Hdd0) => MarkSet(FileXio) + (MarkSet(Poweroff) + MarkSet(Dev9) + OwnModules(Driver.Hdd))
            case Some(Host) => MarkSet(FileXio)
            case Some(Host0) => MarkSet(FileXio)
            case Some(Host1) => MarkSet(FileXio)
            case None => MarkSet(FileXio)
            case _ => MarkSet(FileXio) + (MarkSet(Usb) + MarkSet(Driver.Mx4sio))
  {
    hide LoadsOf, MarkSet, OwnModules;
    var rest := BootCalls(d)[1..];
    LoadsOfAppend([Call(FileXio, false, false)], rest);
    LoadsOfAlone(FileXio);
    NoCalls();
    if |rest| == 1 {
      LoadsOfAlone(Cdfs);
      LoadsOfClosed(Memcard);
      assert rest == [rest[0]];
    } else if |rest| == 2 {
      LoadsOfTwo(rest[0], rest[1]);
      LoadsOfClosed(Usb);
      LoadsOfClosed(Driver.Mx4sio);
      assert rest == [rest[0], rest[1]];
    } else if |rest| == 3 {
      LoadsOfThree(rest[0], rest[1], rest[2]);
      LoadsOfAlone(Poweroff);
      LoadsOfAlone(Dev9);
      LoadsOfOne(rest[2]);
      assert rest == [rest[0], rest[1], rest[2]];
    }
  }

  lemma NoCalls()
    ensures LoadsOf([]) == {}
  {
  }

  /** A call that brings up its dependencies loads what the requirement table lists. */
  lemma LoadsOfClosed(d: Driver)
    ensures LoadsOf([Call(d, true, false)]) == MarkSet(d)
  {
    hide Program, MarkSet;
    TablesAgree(d, false);
    LoadsOfHead(Call(d, true, false));
  }

  /** So does any call of a driver without dependencies. */
  lemma LoadsOfAlone(d: Driver)
    ensures Needs(d) == [] ==> LoadsOf([Call(d, false, false)]) == MarkSet(d)
  {
    hide Needs, MarkSet, OwnModules;
    LoadsOfClosed(d);
    LoadsOfOne(Call(d, true, false));
    LoadsOfOne(Call(d, false, false));
  }

  lemma HddAlone()
    ensures MarkSet(Poweroff) + MarkSet(Driver.Hdd) ==
            MarkSet(FileXio) + MarkSet(Poweroff) + MarkSet(Dev9) + OwnModules(Driver.Hdd) + {BDM, BDMFS_FATFS}
  {
  }

  lemma BlockModules()
    ensures BDM !in MarkSet(FileXio) + (MarkSet(Poweroff) + MarkSet(Dev9) + OwnModules(Driver.Hdd))
    ensures BDMFS_FATFS !in MarkSet(FileXio) + (MarkSet(Poweroff) + MarkSet(Dev9) + OwnModules(Driver.Hdd))
  {
  }

  predicate FromHdd(d: Option<Device>) {
    d == Some(Device.Hdd) || d == Some(Hdd0)
  }

  /** The hard disk driver's own test of the working directory agrees with the boot device. */
  lemma OnHddIsFromHdd(cwd: string)
    ensures MountPath.OnHdd(cwd) <==> FromHdd(BootDeviceOf(cwd))
  {
    hide BootDeviceOf;
    FoundIffStarts(cwd, Device.Hdd);
    FoundIffStarts(cwd, Hdd0);
  }

  /**
    For every boot device the computed mask stages what its initialisation
    loads and nothing else, except that booting from the hard disk stages the
    two block device modules, which its init calls, made without dependencies,
    never load.
   */
  lemma BootMaskExact(d: Option<Device>)
    ensures Expand(BootRequirements(d)) == LoadsOf(BootCalls(d)) + if FromHdd(d) then {BDM, BDMFS_FATFS} else {}
    ensures FromHdd(d) ==> BDM !in LoadsOf(BootCalls(d)) && BDMFS_FATFS !in LoadsOf(BootCalls(d))
  {
    hide Expand, LoadsOf, BootCalls, BootRequirements, MarkSet, OwnModules;
    ExpandBoot(d);
    BootLoads(d);
    HddAlone();
    BlockModules();
  }

  /** Whatever is asked for besides, the mask for a path covers booting from it. */
  lemma BootCovered(path: string, additional: bv32)
    requires !Unknown(additional)
    ensures LoadsOf(BootCalls(BootDeviceOf(path))) <= Expand(RequirementsForPath(Some(path), additional).value)
  {
    hide Expand, LoadsOf, BootCalls, BootRequirements, BootDeviceOf, Unknown;
    ExpandUnion(BootRequirements(BootDeviceOf(path)), additional);
    BootMaskExact(BootDeviceOf(path));
  }

  /** What is computed for a path is always a mask that staging takes. */
  lemma BootMaskTaken(path: Option<string>, additional: bv32)
    requires RequirementsForPath(path, additional).Some?
    ensures !BadMask(RequirementsForPath(path, additional).value)
  {
    hide BootDeviceOf, BootRequirements, Unknown, BadMask;
    BootMaskKnown(BootDeviceOf(path.value));
    KnownOr(BootRequirements(BootDeviceOf(path.value)), additional);
  }

  lemma KnownOr(a: bv32, b: bv32)
    requires !Unknown(a) && a != 0 && !Unknown(b)
    ensures !BadMask(a | b)
  {
    hide Unknown;
    UnknownOr(a, b);
    OrZero(a, b);
  }

  lemma BootMaskKnown(d: Option<Device>)
    ensures !Unknown(BootRequirements(d)) && BootRequirements(d) != 0
  {
    hide Unknown;
    KnownWith(Bit(FileXio), Memcard);
    KnownWith(Bit(FileXio), Cdfs);
    KnownWith(Bit(FileXio), Usb);
    KnownWith(With(Bit(FileXio), Usb), Driver.Mx4sio);
    KnownWith(Bit(FileXio), Poweroff);
    KnownWith(With(Bit(FileXio), Poweroff), Driver.Hdd);
    assert !Unknown(Bit(FileXio)) by {
      KnownBit(FileXio);
    }
  }

  lemma KnownBit(d: Driver)
    ensures !Unknown(Bit(d)) && Bit(d) != 0
  {
  }

  lemma KnownWith(mask: bv32, d: Driver)
    ensures Unknown(With(mask, d)) <==> Unknown(mask)
    ensures With(mask, d) != 0
  {
    hide Bit, Tests;
    UnknownOr(mask, Bit(d));
    KnownBit(d);
    OrZero(mask, Bit(d));
  }

  /** The mask of the given drivers' bits. */
  function MaskOf(ds: seq<Driver>): bv32 {
    if ds == [] then 0 else With(MaskOf(ds[..|ds| - 1]), ds[|ds| - 1])
  }

  /** The drivers of the all-file-systems mask, PS2_DRIVER_REQ_FILESYSTEM_ALL. */
  const FILESYSTEM_DRIVERS: seq<Driver> := [Poweroff, FileXio, Memcard, Usb, Driver.Mx4sio, Cdfs, Dev9, Driver.Hdd]

  lemma ExpandZero()
    ensures Expand(0) == {}
  {
    hide Bit, Marks;
    forall d: Driver
      ensures !Has(0, d)
    {
      ZeroTests(Bit(d));
    }
  }

  lemma ZeroTests(bits: bv32)
    ensures !Tests(0, bits)
  {
  }

  lemma {:induction false} ExpandMaskOf(ds: seq<Driver>)
    ensures Expand(MaskOf(ds)) == set d, id | d in ds && id in Marks(d) :: id
  {
    hide Expand, With, Marks;
    if ds == [] {
      ExpandZero();
    } else {
      var n := |ds| - 1;
      ExpandMaskOf(ds[..n]);
      ExpandWith(MaskOf(ds[..n]), ds[n]);
    }
  }

  lemma {:induction false} LoadsOfWithin(calls: seq<Call>, ids: set<nat>)
    requires forall i :: 0 <= i < |calls| ==> MarkSet(calls[i].driver) <= ids
    ensures LoadsOf(calls) <= ids
  {
    hide Program, MarkSet;
    if calls != [] {
      LoadsWithin(calls[0]);
      LoadsOfWithin(calls[1..], ids);
    }
  }

  /** Staging by the all-file-systems mask provides exactly what bringing up all file systems loads. */
  lemma AllMaskExact()
    ensures Expand(MaskOf(FILESYSTEM_DRIVERS)) == LoadsOf(ALL_CALLS)
  {
    hide Expand, LoadsOf, MaskOf, Marks, Program, OwnModules;
    var ids, ds, calls := Expand(MaskOf(FILESYSTEM_DRIVERS)), FILESYSTEM_DRIVERS, ALL_CALLS;
    ExpandMaskOf(ds);
    assert forall i :: 0 <= i < 8 ==> calls[i].driver == ds[i] && ds[i] in ds;
    LoadsOfWithin(calls, ids);
    forall id | id in ids
      ensures id in LoadsOf(calls)
    {
      var d :| d in ds && id in Marks(d);
      var i: nat :| i < 8 && ds[i] == d;
      AllReached(i);
    }
  }

  /** A driver called with its dependencies, or having none, has all its modules loaded. */
  lemma ReachedDirectly(i: nat)
    requires i < 8 && i != 4 && i != 7
    ensures MarkSet(FILESYSTEM_DRIVERS[i]) <= LoadsOf(ALL_CALLS)
  {
    hide Program, LoadsOf, MarkSet, OwnModules;
    var c := ALL_CALLS[i];
    LoadsOfMember(ALL_CALLS, i);
    ProgramLoads(c);
    ProgramLoads(c.(deps := true));
    TablesAgree(c.driver, c.onlyIfBooted);
  }

  /** The two called without theirs find them among the others. */
  lemma SharedModules()
    ensures MarkSet(Driver.Mx4sio) == OwnModules(Driver.Mx4sio) + MarkSet(Sio2man) + MarkSet(Bdm)
    ensures MarkSet(Driver.Hdd) == OwnModules(Driver.Hdd) + MarkSet(FileXio) + MarkSet(Dev9) + MarkSet(Bdm)
    ensures MarkSet(Sio2man) <= MarkSet(Memcard) && MarkSet(Bdm) <= MarkSet(Usb)
  {
  }

  /** Each of those drivers' modules is loaded by some call. */
  lemma AllReached(i: nat)
    requires i < 8
    ensures MarkSet(FILESYSTEM_DRIVERS[i]) <= LoadsOf(ALL_CALLS)
  {
    hide Program, LoadsOf, MarkSet, OwnModules, Needs, Needed;
    if i == 4 || i == 7 {
      SharedModules();
      ReachedDirectly(1);
      ReachedDirectly(2);
      ReachedDirectly(3);
      ReachedDirectly(6);
      LoadsOfMember(ALL_CALLS, i);
      ProgramLoads(ALL_CALLS[i]);
    } else {
      ReachedDirectly(i);
    }
  }

  // ---- booting over a staged image ----

  lemma {:induction false} LoadsOfMember(calls: seq<Call>, i: nat)
    requires i < |calls|
    ensures Loads(Program(calls[i])) <= LoadsOf(calls)
  {
    hide Program;
    if i > 0 {
      LoadsOfMember(calls[1..], i - 1);
    }
  }

  lemma {:induction false} LoadsOfCall(calls: seq<Call>, c: Call)
    requires c in calls
    ensures Loads(Program(c)) <= LoadsOf(calls)
  {
    hide Program, LoadsOf;
    var i :| 0 <= i < |calls| && calls[i] == c;
    LoadsOfMember(calls, i);
  }

  /**
    Booting after staging by the path's mask: whatever the system answers,
    a module is asked for in vain only if it has already run and left (-1, -1).
   */
  lemma {:induction false} BootMissesNothing(s: State, path: string, additional: bv32, image: Option<Path>, env: Env,
          turns: seq<Turn>, i: nat)
    requires !Unknown(additional) && Inv(s)
    requires Stage(s, image, RequirementsForPath(Some(path), additional).value, env).1 == Success
    requires forall k :: 0 <= k < |turns| ==> turns[k].call in BootCalls(BootDeviceOf(path))
    requires var mask := RequirementsForPath(Some(path), additional).value;
             var trace := RunTurns(Fresh(Stage(s, image, mask, env).0), turns).trace;
             i < |trace| && trace[i].Missed?
    ensures var mask := RequirementsForPath(Some(path), additional).value;
            var trace := RunTurns(Fresh(Stage(s, image, mask, env).0), turns).trace;
            exists j: nat :: j < i && LeftUnset(trace, j, trace[i].id)
  {
    hide Expand, LoadsOf, BootCalls, BootRequirements, BootDeviceOf, Stage, Inv, RunTurns, Program, Loads, Unknown,
      LeftUnset;
    var calls := BootCalls(BootDeviceOf(path));
    var mask := RequirementsForPath(Some(path), additional).value;
    BootCovered(path, additional);
    forall k | 0 <= k < |turns|
      ensures Loads(Program(turns[k].call)) <= Expand(mask)
    {
      LoadsOfCall(calls, turns[k].call);
    }
    OnlyRetriesMiss(s, image, mask, env, turns, i);
  }

  /** A module that no call gets to is neither executed nor asked for. */
  lemma {:induction false} Untouched(staged: State, turns: seq<Turn>, ids: set<nat>, id: nat)
    requires Inv(staged) && id !in ids
    requires forall k :: 0 <= k < |turns| ==> Guarded(turns[k]) || Loads(Program(turns[k].call)) <= ids
    ensures GetStaged(RunTurns(Fresh(staged), turns).staging, id) == GetStaged(staged, id)
  {
    hide Inv, RunTurns, Program, Loads, GetStaged, LastRun, AtMostOnce, OnStaged, MissesExplained, Guarded;
    var end := RunTurns(Fresh(staged), turns);
    TurnsAbout(Fresh(staged), turns, ids);
    RunConsistent(staged, turns);
    LastRunIs(end.trace, id);
    assert Agrees(staged, end, id);
  }

  // ---- when a file system initialisation empties the staging area ----

  ghost predicate TurnSucceeds(s: Sys, turns: seq<Turn>, i: nat, c: Call) {
    i < |turns| && turns[i].call == c && StatusOf(s, turns, i) >= 0
  }

  ghost predicate CallSucceeds(s: Sys, turns: seq<Turn>, c: Call) {
    exists i: nat :: TurnSucceeds(s, turns, i, c)
  }

  /** Only these calls are made, and each has succeeded at least once. */
  ghost predicate AllDone(s: Sys, turns: seq<Turn>, calls: seq<Call>) {
    && (forall k :: 0 <= k < |turns| ==> turns[k].call in calls)
    && forall c :: c in calls ==> CallSucceeds(s, turns, c)
  }

  lemma {:induction false} LoadsOfWhich(calls: seq<Call>, id: nat) returns (c: Call)
    requires id in LoadsOf(calls)
    ensures c in calls && id in Loads(Program(c))
  {
    hide Program, Loads;
    if id in Loads(Program(calls[0])) {
      c := calls[0];
    } else {
      c := LoadsOfWhich(calls[1..], id);
    }
  }

  lemma {:induction false} CallLoads(s: Sys, turns: seq<Turn>, c: Call, id: nat)
    requires CallSucceeds(s, turns, c) && id in Loads(Program(c))
    ensures LoadedOnce(s, turns, id)
  {
    hide RunTurns, Program, Loads, StatusOf;
    var i: nat :| TurnSucceeds(s, turns, i, c);
    assert LoadsAt(s, turns, i, id);
  }

  /**
    Once every one of the calls has succeeded, nothing is left staged exactly
    when the calls load all that was staged.
   */
  lemma {:induction false} EmptiedIffCovered(s: State, image: Option<Path>, mask: bv32, env: Env, turns: seq<Turn>,
          calls: seq<Call>)
    requires Inv(s) && Stage(s, image, mask, env).1 == Success
    requires AllDone(Fresh(Stage(s, image, mask, env).0), turns, calls)
    ensures RunTurns(Fresh(Stage(s, image, mask, env).0), turns).staging.slots.None? <==> Expand(mask) <= LoadsOf(calls)
  {
    hide Inv, RunTurns, Stage, Expand, LoadsOf, CallSucceeds, LoadedOnce, Program, Loads, GetStaged;
    var staged := Stage(s, image, mask, env).0;
    StageKeepsInv(s, image, mask, env);
    if Expand(mask) <= LoadsOf(calls) {
      forall id | id in Expand(mask)
        ensures LoadedOnce(Fresh(staged), turns, id)
      {
        var c := LoadsOfWhich(calls, id);
        CallLoads(Fresh(staged), turns, c, id);
      }
      AllConsumed(s, image, mask, env, turns);
    } else {
      var id :| id in Expand(mask) && id !in LoadsOf(calls);
      forall k | 0 <= k < |turns|
        ensures Loads(Program(turns[k].call)) <= LoadsOf(calls)
      {
        LoadsOfCall(calls, turns[k].call);
      }
      Untouched(staged, turns, LoadsOf(calls), id);
      StagedAll(s, image, mask, env, id);
      if RunTurns(Fresh(staged), turns).staging.slots.None? {
        NothingStaged(RunTurns(Fresh(staged), turns).staging, id);
      }
    }
  }

  /**
    The boot initialisation, every call of which has succeeded over a staging
    by the path's mask, empties the staging area exactly when the path is not
    on the hard disk and nothing was staged besides that it does not load.
   */
  lemma {:induction false} BootEmpties(s: State, path: string, additional: bv32, image: Option<Path>, env: Env,
          turns: seq<Turn>)
    requires !Unknown(additional) && Inv(s)
    requires Stage(s, image, RequirementsForPath(Some(path), additional).value, env).1 == Success
    requires var mask := RequirementsForPath(Some(path), additional).value;
             AllDone(Fresh(Stage(s, image, mask, env).0), turns, BootCalls(BootDeviceOf(path)))
    ensures var mask, d := RequirementsForPath(Some(path), additional).value, BootDeviceOf(path);
            RunTurns(Fresh(Stage(s, image, mask, env).0), turns).staging.slots.None? <==>
            !FromHdd(d) && Expand(additional) <= LoadsOf(BootCalls(d))
  {
    hide Expand, LoadsOf, BootCalls, BootRequirements, BootDeviceOf, Stage, Inv, RunTurns, Unknown, AllDone, FromHdd;
    var mask, d := RequirementsForPath(Some(path), additional).value, BootDeviceOf(path);
    EmptiedIffCovered(s, image, mask, env, turns, BootCalls(d));
    BootCovers(d, additional);
  }

  lemma BootCovers(d: Option<Device>, additional: bv32)
    ensures Expand(BootRequirements(d) | additional) <= LoadsOf(BootCalls(d)) <==>
            !FromHdd(d) && Expand(additional) <= LoadsOf(BootCalls(d))
  {
    hide Expand, LoadsOf, BootCalls, BootRequirements, FromHdd;
    BootMaskExact(d);
    ExpandUnion(BootRequirements(d), additional);
    Within(LoadsOf(BootCalls(d)), FromHdd(d), Expand(additional));
  }

  lemma Within(loads: set<nat>, more: bool, besides: set<nat>)
    requires more ==> BDM !in loads
    ensures loads + (if more then {BDM, BDMFS_FATFS} else {}) + besides <= loads <==> !more && besides <= loads
  {
  }

  /** With nothing staged besides, exactly when the path is not on the hard disk. */
  lemma {:induction false} PlainBootEmpties(s: State, path: string, image: Option<Path>, env: Env, turns: seq<Turn>)
    requires Inv(s) && Stage(s, image, RequirementsForPath(Some(path), 0).value, env).1 == Success
    requires var mask := RequirementsForPath(Some(path), 0).value;
             AllDone(Fresh(Stage(s, image, mask, env).0), turns, BootCalls(BootDeviceOf(path)))
    ensures var mask := RequirementsForPath(Some(path), 0).value;
            RunTurns(Fresh(Stage(s, image, mask, env).0), turns).staging.slots.None? <==> !FromHdd(BootDeviceOf(path))
  {
    hide Expand, LoadsOf, BootCalls, BootRequirements, BootDeviceOf, Stage, Inv, RunTurns, AllDone, FromHdd;
    ExpandZero();
    BootEmpties(s, path, 0, image, env, turns);
  }

  /** The all-file-systems initialisation, every call of which has succeeded, empties a staging by its own mask. */
  lemma {:induction false} AllFilesystemsEmpty(s: State, image: Option<Path>, env: Env, turns: seq<Turn>)
    requires Inv(s) && Stage(s, image, MaskOf(FILESYSTEM_DRIVERS), env).1 == Success
    requires AllDone(Fresh(Stage(s, image, MaskOf(FILESYSTEM_DRIVERS), env).0), turns, ALL_CALLS)
    ensures RunTurns(Fresh(Stage(s, image, MaskOf(FILESYSTEM_DRIVERS), env).0), turns).staging.slots.None?
  {
    hide Expand, LoadsOf, MaskOf, Stage, Inv, RunTurns, AllDone;
    EmptiedIffCovered(s, image, MaskOf(FILESYSTEM_DRIVERS), env, turns, ALL_CALLS);
    AllMaskExact();
  }

  /**
    But the hard disk driver is asked to check the working directory first, so
    a program that was not started from the hard disk keeps its three modules
    staged, however the calls go.
   */
  lemma {:induction false} ElsewhereKeepsHddStaged(s: State, image: Option<Path>, env: Env, turns: seq<Turn>)
    requires Inv(s) && Stage(s, image, MaskOf(FILESYSTEM_DRIVERS), env).1 == Success
    requires forall k :: 0 <= k < |turns| ==> turns[k].call in ALL_CALLS && CwdIsHdd in turns[k].world.fails
    ensures var end := RunTurns(Fresh(Stage(s, image, MaskOf(FILESYSTEM_DRIVERS), env).0), turns).staging;
            forall id :: id in OwnModules(Driver.Hdd) ==> GetStaged(end, id).Some?
  {
    hide Expand, LoadsOf, MaskOf, Stage, Inv, RunTurns, GetStaged, Program, Loads, OwnModules;
    var others := LoadsOf(ALL_CALLS[..7]);
    var staged := Stage(s, image, MaskOf(FILESYSTEM_DRIVERS), env).0;
    StageKeepsInv(s, image, MaskOf(FILESYSTEM_DRIVERS), env);
    forall k | 0 <= k < |turns|
      ensures Guarded(turns[k]) || Loads(Program(turns[k].call)) <= others
    {
      OtherCall(turns[k].call);
    }
    forall id | id in OwnModules(Driver.Hdd)
      ensures GetStaged(RunTurns(Fresh(staged), turns).staging, id).Some?
    {
      HddModule(id);
      AllMaskExact();
      StagedAll(s, image, MaskOf(FILESYSTEM_DRIVERS), env, id);
      Untouched(staged, turns, others, id);
    }
  }

  lemma OtherCall(c: Call)
    requires c in ALL_CALLS
    ensures c == Call(Driver.Hdd, false, true) || Loads(Program(c)) <= LoadsOf(ALL_CALLS[..7])
  {
    hide Program, Loads, LoadsOf;
    var i :| 0 <= i < 8 && ALL_CALLS[i] == c;
    if i < 7 {
      assert ALL_CALLS[..7][i] == c;
      LoadsOfMember(ALL_CALLS[..7], i);
    }
  }

  lemma HddModule(id: nat)
    requires id in OwnModules(Driver.Hdd)
    ensures id in LoadsOf(ALL_CALLS) && id !in LoadsOf(ALL_CALLS[..7])
  {
    hide Program, Loads, LoadsOf, Needs, Needed, MarkSet;
    AllReached(7);
    ProgramLoads(ALL_CALLS[7]);
    LoadsOfMember(ALL_CALLS, 7);
    if id in LoadsOf(ALL_CALLS[..7]) {
      var c := LoadsOfWhich(ALL_CALLS[..7], id);
      var i :| 0 <= i < 7 && ALL_CALLS[..7][i] == c;
      ProgramLoads(c);
      NeededModules(c.driver);
    }
  }

  // ---- when nothing goes wrong ----

  /** The calls one after the other, without mishaps. */
  ghost predicate Smoothly(turns: seq<Turn>, calls: seq<Call>, ids: set<nat>) {
    && |turns| == |calls|
    && forall i :: 0 <= i < |turns| ==> turns[i].call == calls[i] && Smooth(turns[i].world, ids)
  }

  /** Over a staging that covers them such calls all succeed, so the statements above are about something. */
  lemma {:induction false} SmoothCallsSucceed(s: State, image: Option<Path>, mask: bv32, env: Env, turns: seq<Turn>,
          calls: seq<Call>)
    requires Inv(s) && Stage(s, image, mask, env).1 == Success
    requires LoadsOf(calls) <= Expand(mask) && Smoothly(turns, calls, Expand(mask))
    ensures AllDone(Fresh(Stage(s, image, mask, env).0), turns, calls)
  {
    hide Inv, RunTurns, Stage, Expand, LoadsOf, Program, Loads, GetStaged, StatusOf, Done, Smooth;
    var start := Fresh(Stage(s, image, mask, env).0);
    StageKeepsInv(s, image, mask, env);
    forall id | id in Expand(mask)
      ensures Fine(start, id)
    {
      StagedAll(s, image, mask, env, id);
    }
    forall i | 0 <= i < |turns|
      ensures Loads(Program(turns[i].call)) <= Expand(mask)
    {
      LoadsOfMember(calls, i);
    }
    TurnsSmooth(start, turns, Expand(mask));
    forall c | c in calls
      ensures CallSucceeds(start, turns, c)
    {
      var i :| 0 <= i < |calls| && calls[i] == c;
      ErrsNegative(c.driver);
      assert TurnSucceeds(start, turns, i, c);
    }
  }

  /** Booting without mishaps empties the staging area exactly when it is not from the hard disk. */
  lemma {:induction false} SmoothBootEmpties(s: State, path: string, image: Option<Path>, env: Env, turns: seq<Turn>)
    requires Inv(s) && Stage(s, image, RequirementsForPath(Some(path), 0).value, env).1 == Success
    requires Smoothly(turns, BootCalls(BootDeviceOf(path)), Expand(RequirementsForPath(Some(path), 0).value))
    ensures var mask := RequirementsForPath(Some(path), 0).value;
            RunTurns(Fresh(Stage(s, image, mask, env).0), turns).staging.slots.None? <==> !FromHdd(BootDeviceOf(path))
  {
    hide Expand, LoadsOf, BootCalls, BootRequirements, BootDeviceOf, Stage, Inv, RunTurns, AllDone, FromHdd, Smoothly;
    var mask := RequirementsForPath(Some(path), 0).value;
    ZeroTests(!KNOWN_MASK);
    BootCovered(path, 0);
    SmoothCallsSucceed(s, image, mask, env, turns, BootCalls(BootDeviceOf(path)));
    PlainBootEmpties(s, path, image, env, turns);
  }

  /**
    Booting from the hard disk therefore never empties the staging area: both
    block device modules stay staged, however the init calls go.
   */
  lemma {:induction false} HddBootLeavesStaged(s: State, path: string, additional: bv32, image: Option<Path>,
          env: Env, turns: seq<Turn>)
    requires !Unknown(additional) && Inv(s) && FromHdd(BootDeviceOf(path))
    requires Stage(s, image, RequirementsForPath(Some(path), additional).value, env).1 == Success
    requires forall k :: 0 <= k < |turns| ==> turns[k].call in BootCalls(BootDeviceOf(path))
    ensures var mask := RequirementsForPath(Some(path), additional).value;
            var end := RunTurns(Fresh(Stage(s, image, mask, env).0), turns).staging;
            GetStaged(end, BDM).Some? && GetStaged(end, BDMFS_FATFS).Some?
  {
    hide Expand, LoadsOf, BootCalls, BootRequirements, BootDeviceOf, Stage, Inv, RunTurns, Unknown, GetStaged, Program,
      Loads;
    var d := BootDeviceOf(path);
    var mask := RequirementsForPath(Some(path), additional).value;
    var staged := Stage(s, image, mask, env).0;
    StageKeepsInv(s, image, mask, env);
    BootMaskExact(d);
    ExpandUnion(BootRequirements(d), additional);
    StagedAll(s, image, mask, env, BDM);
    StagedAll(s, image, mask, env, BDMFS_FATFS);
    forall k | 0 <= k < |turns|
      ensures Loads(Program(turns[k].call)) <= LoadsOf(BootCalls(d))
    {
      LoadsOfCall(BootCalls(d), turns[k].call);
    }
    Untouched(staged, turns, LoadsOf(BootCalls(d)), BDM);
    Untouched(staged, turns, LoadsOf(BootCalls(d)), BDMFS_FATFS);
  }
}
