/**
  The deinit functions: which modules they try to unload and in which order,
  and what that leaves in the modules' variables.
 */
module Unloading {
  import opened Requirements
  import opened DriverTable
  import opened Drivers

  /** CHECK_IRX_UNLOAD */
  predicate CheckUnload(v: Vars) {
    v.id >= 0 && (v.ret == 0 || v.ret == 2)
  }

  /** The modules of the driver's own deinit function. */
  function OwnUnloads(d: Driver): seq<nat> {
    match d
    case Sio2man => [SIO2MAN]
    case FileXio => [FILEXIO, IOMANX]
    case Memcard => [MCMAN, MCSERV]
    case Bdm => [BDMFS_FATFS, BDM]
    case Usbd => [USBD]
    case Usb => [USBMASS_BD]
    case Mx4sio => [MX4SIO_BD]
    case Cdfs => [CDFS]
    case Dev9 => [PS2DEV9]
    case Hdd => [PS2FS, PS2HDD, PS2ATAD]
    case Joystick => [MTAPMAN, PADMAN]
    case Audio => [AUDSRV, LIBSD]
    case Poweroff => [POWEROFF]
    case Mouse => [PS2MOUSE]
    case Keyboard => [PS2KBD]
    case Camera => [PS2CAM]
    case Netman => [NETMAN]
    case Smap => [SMAP]
    case Eeip => []
    case Iopip => [PS2IPS, PS2IP_NM]
  }

  /** The drivers a deinit function takes down after its own, in its order. */
  function Drops(d: Driver): seq<Driver> {
    match d
    case Memcard => [Sio2man]
    case Usb => [Usbd, Bdm]
    case Mx4sio => [Bdm, Sio2man]
    case Hdd => [Bdm, Dev9, FileXio]
    case Joystick => [Sio2man]
    case Mouse => [Usbd]
    case Keyboard => [Usbd]
    case Camera => [Usbd]
    case Eeip => [Smap, Netman, Dev9]
    case Iopip => [Smap, Netman, Dev9]
    case _ => []
  }

  function UnloadsOf(ds: seq<Driver>): seq<nat> {
    if ds == [] then [] else OwnUnloads(ds[0]) + UnloadsOf(ds[1..])
  }

  /** Everything one deinit call tries to unload. */
  function Unloads(d: Driver, deps: bool): seq<nat> {
    OwnUnloads(d) + if deps then UnloadsOf(Drops(d)) else []
  }

  /** One module: unloaded and reset if it is loaded and removable. */
  function UnloadOne(s: Sys, id: nat): Sys {
    if CheckUnload(s.VarsOf(id)) then s.(vars := s.vars[id := UNSET]) else s
  }

  function UnloadAll(s: Sys, ids: seq<nat>): Sys
    decreases |ids|
  {
    if ids == [] then s else UnloadAll(UnloadOne(s, ids[0]), ids[1..])
  }

  function Deinit(s: Sys, d: Driver, deps: bool): Sys {
    UnloadAll(s, Unloads(d, deps))
  }

  // ---- the third copy of the dependency graph ----

  lemma OwnUnloadsAre(d: Driver, id: nat)
    ensures id in OwnUnloads(d) <==> id in OwnModules(d)
  {
  }

  lemma {:induction false} UnloadsOfAre(ds: seq<Driver>, id: nat)
    ensures id in UnloadsOf(ds) <==> exists i :: 0 <= i < |ds| && id in OwnModules(ds[i])
  {
    hide OwnUnloads, OwnModules;
    if ds != [] {
      OwnUnloadsAre(ds[0], id);
      UnloadsOfAre(ds[1..], id);
      assert forall i :: 0 < i < |ds| ==> ds[i] == ds[1..][i - 1];
      assert forall i :: 0 <= i < |ds[1..]| ==> ds[1..][i] == ds[i + 1];
    }
  }

  lemma {:induction false} NeededAre(needs: seq<Need>, id: nat)
    ensures id in Needed(needs) <==> exists i :: 0 <= i < |needs| && id in OwnModules(needs[i].driver)
  {
    hide OwnModules;
    if needs != [] {
      NeededAre(needs[1..], id);
      assert forall i :: 0 < i < |needs| ==> needs[i] == needs[1..][i - 1];
      assert forall i :: 0 <= i < |needs[1..]| ==> needs[1..][i] == needs[i + 1];
    }
  }

  /** The dependencies are taken down in the reverse order of their bringing up. */
  lemma DropsReversed(d: Driver, i: nat)
    requires i < |Drops(d)| || i < |Needs(d)|
    ensures |Drops(d)| == |Needs(d)| && Drops(d)[i] == Needs(d)[|Needs(d)| - 1 - i].driver
  {
  }

  lemma UnloadsOfNeeds(d: Driver, id: nat)
    ensures id in UnloadsOf(Drops(d)) <==> id in Needed(Needs(d))
  {
    hide OwnModules, Drops, Needs, Needed, UnloadsOf;
    UnloadsOfAre(Drops(d), id);
    NeededAre(Needs(d), id);
    if id in UnloadsOf(Drops(d)) {
      var i :| 0 <= i < |Drops(d)| && id in OwnModules(Drops(d)[i]);
      DropsReversed(d, i);
      assert id in OwnModules(Needs(d)[|Needs(d)| - 1 - i].driver);
    }
    if id in Needed(Needs(d)) {
      var j :| 0 <= j < |Needs(d)| && id in OwnModules(Needs(d)[j].driver);
      DropsReversed(d, j);
      DropsReversed(d, |Needs(d)| - 1 - j);
      assert id in OwnModules(Drops(d)[|Needs(d)| - 1 - j]);
    }
  }

  /** A deinit call tries to unload exactly what the init call with the same flag loads. */
  lemma UnloadsAreLoads(c: Call, id: nat)
    ensures id in Unloads(c.driver, c.deps) <==> id in Loads(Program(c))
  {
    hide OwnUnloads, OwnModules, Drops, Needs, Needed, Program, Loads, UnloadsOf;
    ProgramLoads(c);
    OwnUnloadsAre(c.driver, id);
    UnloadsOfNeeds(c.driver, id);
  }

  // ---- the effect ----

  /** A deinit call resets the removable ones of its modules and touches nothing else. */
  lemma {:induction false} UnloadAllIs(s: Sys, ids: seq<nat>, id: nat)
    ensures var t := UnloadAll(s, ids);
            && t.staging == s.staging && t.trace == s.trace
            && t.VarsOf(id) == if id in ids && CheckUnload(s.VarsOf(id)) then UNSET else s.VarsOf(id)
    decreases |ids|
  {
    if ids != [] {
      UnloadAllIs(UnloadOne(s, ids[0]), ids[1..], id);
    }
  }

  /** The dependencies go even if another driver still uses them: nothing counts their users. */
  lemma SharedGoes(s: Sys, d: Driver, other: Driver, id: nat)
    requires id in MarkSet(d) && id in MarkSet(other) && CheckUnload(s.VarsOf(id))
    ensures CheckLoad(Deinit(s, d, true).VarsOf(id))
  {
    hide Unloads, UnloadAll, Program, Loads, MarkSet;
    UnloadsAreLoads(Call(d, true, false), id);
    TablesAgree(d, false);
    UnloadAllIs(s, Unloads(d, true), id);
  }

  lemma UnloadAllStep(s: Sys, ids: seq<nat>)
    requires ids != []
    ensures UnloadAll(s, ids) == UnloadAll(UnloadOne(s, ids[0]), ids[1..])
  {
  }
}
