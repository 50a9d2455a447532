/**
  What every driver's initialisation does, as a table: the drivers it brings up
  first, the modules it loads and the tests in between, each with the status
  reported when it fails.  The modules reached are shown to be the ones the
  requirement table lists, which the repository writes down a second time.
 */
module DriverTable {
  import opened Requirements

  /** The calls into the system and its libraries whose failure ends an initialisation. */
  datatype Test =
    | CwdIsHdd | HddReady | Cop2Pipelined | MtapInit | PadInit | AudsrvInit | PoweroffInit
    | MouseInit | KbdInit | CamInit | NetManInit | Ps2ipInit

  /** Loading a module unless it has been tried before, or a test; err is the status if it fails. */
  datatype Act = Load(id: nat, err: int) | Check(test: Test, err: int)

  /** A driver brought up as a dependency and the status if that fails. */
  datatype Need = Need(driver: Driver, err: int)

  /** A call of an init function with its two flags; drivers without a flag ignore it. */
  datatype Call = Call(driver: Driver, deps: bool, onlyIfBooted: bool)

  /** What an init function does once its dependencies are up. */
  function Own(d: Driver): seq<Act> {
    match d
    case Sio2man => [Load(SIO2MAN, -2)]
    case FileXio => [Load(IOMANX, -2), Load(FILEXIO, -3)]
    case Memcard => [Load(MCMAN, -2), Load(MCSERV, -3)]
    case Bdm => [Load(BDM, -2), Load(BDMFS_FATFS, -3)]
    case Usbd => [Load(USBD, -2)]
    case Usb => [Load(USBMASS_BD, -3)]
    case Mx4sio => [Check(Cop2Pipelined, -5), Load(MX4SIO_BD, -2)]
    case Cdfs => [Load(CDFS, -2)]
    case Dev9 => [Load(PS2DEV9, -2)]
    case Hdd => [Load(PS2ATAD, -3), Load(PS2HDD, -4), Check(HddReady, -6), Load(PS2FS, -5)]
    case Joystick => [Load(MTAPMAN, -4), Load(PADMAN, -5), Check(MtapInit, -2), Check(PadInit, -3)]
    case Audio => [Load(LIBSD, -3), Load(AUDSRV, -4), Check(AudsrvInit, -2)]
    case Poweroff => [Load(POWEROFF, -3), Check(PoweroffInit, -2)]
    case Mouse => [Load(PS2MOUSE, -3), Check(MouseInit, -2)]
    case Keyboard => [Load(PS2KBD, -3), Check(KbdInit, -2)]
    case Camera => [Load(PS2CAM, -3), Check(CamInit, -2)]
    case Netman => [Load(NETMAN, -2), Check(NetManInit, -3)]
    case Smap => [Load(SMAP, -2)]
    case Eeip => []
    case Iopip => [Load(PS2IP_NM, -4), Load(PS2IPS, -3), Check(Ps2ipInit, -2)]
  }

  /** The drivers an init function brings up first, in its order. */
  function Needs(d: Driver): seq<Need> {
    match d
    case Memcard => [Need(Sio2man, -4)]
    case Usb => [Need(Bdm, -4), Need(Usbd, -5)]
    case Mx4sio => [Need(Sio2man, -3), Need(Bdm, -4)]
    case Hdd => [Need(FileXio, -7), Need(Dev9, -7), Need(Bdm, -7)]
    case Joystick => [Need(Sio2man, -6)]
    case Mouse => [Need(Usbd, -4)]
    case Keyboard => [Need(Usbd, -4)]
    case Camera => [Need(Usbd, -4)]
    case Eeip => [Need(Dev9, -2), Need(Netman, -2), Need(Smap, -2)]
    case Iopip => [Need(Dev9, -5), Need(Netman, -5), Need(Smap, -5)]
    case _ => []
  }

  /** The status of success: two drivers report 1, the others 0. */
  function Done(d: Driver): int {
    match d
    case Memcard => 1
    case Usb => 1
    case _ => 0
  }

  /** The test the hard disk driver makes before anything else if asked to. */
  function Guard(c: Call): seq<Act> {
    if c.driver == Hdd && c.onlyIfBooted then [Check(CwdIsHdd, -2)] else []
  }

  /** A dependency's acts, with the status its failure is reported under. */
  function Under(acts: seq<Act>, err: int): (r: seq<Act>)
    ensures |r| == |acts|
    ensures forall i :: 0 <= i < |acts| ==> r[i] == acts[i].(err := err)
  {
    if acts == [] then [] else [acts[0].(err := err)] + Under(acts[1..], err)
  }

  function Dependencies(needs: seq<Need>): seq<Act> {
    if needs == [] then [] else Under(Own(needs[0].driver), needs[0].err) + Dependencies(needs[1..])
  }

  /** Everything one call goes through, dependencies included. */
  function Program(c: Call): seq<Act> {
    Guard(c) + (if c.deps then Dependencies(Needs(c.driver)) else []) + Own(c.driver)
  }

  // ---- the modules reached ----

  function Loads(acts: seq<Act>): set<nat> {
    if acts == [] then {}
    else (match acts[0] case Load(id, _) => {id} case Check(_, _) => {}) + Loads(acts[1..])
  }

  lemma {:induction false} LoadsAppend(a: seq<Act>, b: seq<Act>)
    ensures Loads(a + b) == Loads(a) + Loads(b)
  {
    if a == [] {
      assert a + b == b;
    } else {
      LoadsAppend(a[1..], b);
      assert (a + b)[1..] == a[1..] + b;
    }
  }

  lemma {:induction false} LoadsUnder(acts: seq<Act>, err: int)
    ensures Loads(Under(acts, err)) == Loads(acts)
  {
    if acts != [] {
      LoadsUnder(acts[1..], err);
    }
  }

  /** The ids a sequence of loads names, one step at a time. */
  lemma LoadsOne(a: Act)
    ensures Loads([a]) == match a case Load(id, _) => {id} case Check(_, _) => {}
  {
    assert [a][1..] == [];
  }

  lemma LoadsTwo(a: Act, b: Act)
    ensures Loads([a, b]) == Loads([a]) + Loads([b])
  {
    LoadsAppend([a], [b]);
  }

  lemma LoadsThree(a: Act, b: Act, c: Act)
    ensures Loads([a, b, c]) == Loads([a]) + Loads([b]) + Loads([c])
  {
    LoadsTwo(a, b);
    LoadsAppend([a, b], [c]);
    assert [a, b, c] == [a, b] + [c];
  }

  lemma LoadsFour(a: Act, b: Act, c: Act, d: Act)
    ensures Loads([a, b, c, d]) == Loads([a]) + Loads([b]) + Loads([c]) + Loads([d])
  {
    LoadsThree(a, b, c);
    LoadsAppend([a, b, c], [d]);
    assert [a, b, c, d] == [a, b, c] + [d];
  }

  /** The modules of the driver's own list, read off the table. */
  function OwnModules(d: Driver): set<nat> {
    match d
    case Sio2man => {SIO2MAN}
    case FileXio => {IOMANX, FILEXIO}
    case Memcard => {MCMAN, MCSERV}
    case Bdm => {BDM, BDMFS_FATFS}
    case Usbd => {USBD}
    case Usb => {USBMASS_BD}
    case Mx4sio => {MX4SIO_BD}
    case Cdfs => {CDFS}
    case Dev9 => {PS2DEV9}
    case Hdd => {PS2ATAD, PS2HDD, PS2FS}
    case Joystick => {MTAPMAN, PADMAN}
    case Audio => {LIBSD, AUDSRV}
    case Poweroff => {POWEROFF}
    case Mouse => {PS2MOUSE}
    case Keyboard => {PS2KBD}
    case Camera => {PS2CAM}
    case Netman => {NETMAN}
    case Smap => {SMAP}
    case Eeip => {}
    case Iopip => {PS2IP_NM, PS2IPS}
  }

  lemma LoadsOwn(d: Driver)
    ensures Loads(Own(d)) == OwnModules(d)
  {
    hide Loads;
    var own := Own(d);
    if |own| == 0 {
      LoadsNone();
    } else if |own| == 1 {
      LoadsOne(own[0]);
      assert own == [own[0]];
    } else if |own| == 2 {
      LoadsTwo(own[0], own[1]);
      LoadsOne(own[0]);
      LoadsOne(own[1]);
      assert own == [own[0], own[1]];
    } else if |own| == 3 {
      LoadsThree(own[0], own[1], own[2]);
      LoadsOne(own[0]);
      LoadsOne(own[1]);
      LoadsOne(own[2]);
      assert own == [own[0], own[1], own[2]];
    } else {
      LoadsFour(own[0], own[1], own[2], own[3]);
      LoadsOne(own[0]);
      LoadsOne(own[1]);
      LoadsOne(own[2]);
      LoadsOne(own[3]);
      assert own == [own[0], own[1], own[2], own[3]];
    }
  }

  lemma LoadsNone()
    ensures Loads([]) == {}
  {
  }

  /** The modules of the dependencies. */
  function Needed(needs: seq<Need>): set<nat> {
    if needs == [] then {} else OwnModules(needs[0].driver) + Needed(needs[1..])
  }

  lemma {:induction false} LoadsDependencies(needs: seq<Need>)
    ensures Loads(Dependencies(needs)) == Needed(needs)
  {
    hide Own, OwnModules;
    if needs != [] {
      var n := needs[0];
      LoadsAppend(Under(Own(n.driver), n.err), Dependencies(needs[1..]));
      LoadsUnder(Own(n.driver), n.err);
      LoadsOwn(n.driver);
      LoadsDependencies(needs[1..]);
    }
  }

  lemma NeededModules(d: Driver)
    ensures Needed(Needs(d)) ==
            match d
            case Memcard => {SIO2MAN}
            case Usb => {BDM, BDMFS_FATFS, USBD}
            case Mx4sio => {SIO2MAN, BDM, BDMFS_FATFS}
            case Hdd => {IOMANX, FILEXIO, PS2DEV9, BDM, BDMFS_FATFS}
            case Joystick => {SIO2MAN}
            case Mouse => {USBD}
            case Keyboard => {USBD}
            case Camera => {USBD}
            case Eeip => {PS2DEV9, NETMAN, SMAP}
            case Iopip => {PS2DEV9, NETMAN, SMAP}
            case _ => {}
  {
    var n := Needs(d);
    if |n| == 2 {
      NeededTwo(n[0], n[1]);
      assert n == [n[0], n[1]];
    } else if |n| == 3 {
      NeededTwo(n[1], n[2]);
      assert n[1..] == [n[1], n[2]];
    }
  }

  lemma NeededTwo(a: Need, b: Need)
    ensures Needed([a, b]) == OwnModules(a.driver) + OwnModules(b.driver)
  {
    hide OwnModules;
    assert [a, b][1..] == [b];
    assert Needed([b]) == OwnModules(b.driver) + Needed([b][1..]);
  }

  /** What a call loads: its own modules, and those of its dependencies if it brings them up. */
  lemma ProgramLoads(c: Call)
    ensures Loads(Program(c)) == OwnModules(c.driver) + if c.deps then Needed(Needs(c.driver)) else {}
  {
    hide Own, Needs, OwnModules;
    var needed := if c.deps then Dependencies(Needs(c.driver)) else [];
    LoadsAppend(Guard(c) + needed, Own(c.driver));
    LoadsAppend(Guard(c), needed);
    LoadsOne(Check(CwdIsHdd, -2));
    LoadsDependencies(Needs(c.driver));
    LoadsOwn(c.driver);
  }

  /**
    The two hand-written copies of the dependency graph agree: what a driver
    loads when it brings up its dependencies is what the requirement table
    lists for it.
   */
  lemma TablesAgree(d: Driver, onlyIfBooted: bool)
    ensures Loads(Program(Call(d, true, onlyIfBooted))) == MarkSet(d)
  {
    hide Loads, Own, Needs, Needed, Program;
    ProgramLoads(Call(d, true, onlyIfBooted));
    NeededModules(d);
  }

  /** A call never loads more than the requirement table lists. */
  lemma LoadsWithin(c: Call)
    ensures Loads(Program(c)) <= MarkSet(c.driver)
  {
    hide Loads, Own, Needs, Needed, OwnModules, Program, MarkSet;
    ProgramLoads(c);
    ProgramLoads(c.(deps := true));
    TablesAgree(c.driver, c.onlyIfBooted);
  }

  // ---- the statuses ----

  /** No two steps of a driver's own list fail alike. */
  lemma StepsDiffer(d: Driver, i: nat, j: nat)
    requires i < j < |Own(d)|
    ensures Own(d)[i].err != Own(d)[j].err
  {
  }

  /** Nor does a step fail like one of the dependencies. */
  lemma StepIsNoNeed(d: Driver, i: nat, k: nat)
    requires i < |Own(d)| && k < |Needs(d)|
    ensures Own(d)[i].err != Needs(d)[k].err
  {
  }

  /** Nor like the guard. */
  lemma StepIsNoGuard(c: Call, i: nat, a: Act)
    requires i < |Own(c.driver)| && a in Guard(c)
    ensures Own(c.driver)[i].err != a.err
  {
  }

  lemma {:induction false} DependencyStatus(needs: seq<Need>, a: Act)
    requires a in Dependencies(needs)
    ensures exists k :: 0 <= k < |needs| && needs[k].err == a.err
  {
    hide Own;
    if a in Dependencies(needs[1..]) {
      DependencyStatus(needs[1..], a);
      var k :| 0 <= k < |needs[1..]| && needs[1..][k].err == a.err;
      assert needs[k + 1].err == a.err;
    } else {
      assert needs[0].err == a.err;
    }
  }
}
