/**
  The tables in the numbers of the headers: requirement masks, module ids,
  statuses, and the order in which the file system initialisations load.
 */
module DriverNumbers {
  import opened Wrappers
  import opened Environment
  import opened Requirements
  import opened BootDevice
  import opened DriverTable
  import opened Drivers
  import opened DriverRuns
  import opened DriverCoverage
  import opened BootCoverage
  import opened LoadOrder
  import opened Unloading
  import opened StagingSpec
  import opened StagingInvariant

  // ---- masks ----

  /** The modules each of the twenty bits asks for. */
  lemma BitsInNumbers(d: Driver)
    ensures match d
            case Sio2man => Bit(d) == 0x1 && Expand(0x1) == {1}
            case FileXio => Bit(d) == 0x2 && Expand(0x2) == {2, 3}
            case Memcard => Bit(d) == 0x4 && Expand(0x4) == {1, 4, 5}
            case Bdm => Bit(d) == 0x8 && Expand(0x8) == {6, 7}
            case Usbd => Bit(d) == 0x10 && Expand(0x10) == {8}
            case Usb => Bit(d) == 0x20 && Expand(0x20) == {6, 7, 8, 9}
            case Mx4sio => Bit(d) == 0x40 && Expand(0x40) == {1, 6, 7, 10}
            case Cdfs => Bit(d) == 0x80 && Expand(0x80) == {11}
            case Dev9 => Bit(d) == 0x100 && Expand(0x100) == {12}
            case Hdd => Bit(d) == 0x200 && Expand(0x200) == {2, 3, 6, 7, 12, 13, 14, 15}
            case Joystick => Bit(d) == 0x400 && Expand(0x400) == {1, 16, 17}
            case Audio => Bit(d) == 0x800 && Expand(0x800) == {18, 19}
            case Poweroff => Bit(d) == 0x1000 && Expand(0x1000) == {20}
            case Mouse => Bit(d) == 0x2000 && Expand(0x2000) == {8, 21}
            case Keyboard => Bit(d) == 0x4000 && Expand(0x4000) == {8, 22}
            case Camera => Bit(d) == 0x8000 && Expand(0x8000) == {8, 23}
            case Netman => Bit(d) == 0x1_0000 && Expand(0x1_0000) == {24}
            case Smap => Bit(d) == 0x2_0000 && Expand(0x2_0000) == {25}
            case Eeip => Bit(d) == 0x4_0000 && Expand(0x4_0000) == {12, 24, 25}
            case Iopip => Bit(d) == 0x8_0000 && Expand(0x8_0000) == {12, 24, 25, 26, 27}
  {
    hide Expand;
    ExpandBit(d);
  }

  /** The masks for booting. */
  lemma BootMasksInNumbers(d: Option<Device>)
    ensures BootRequirements(d) ==
            match d
            case Some(Mc0) => 0x6
            case Some(Mc1) => 0x6
            case Some(CdRom) => 0x82
            case Some(CdFs) => 0x82
            case Some(Hdd) => 0x1202
            case Some(Hdd0) => 0x1202
            case Some(Host) => 0x2
            case Some(Host0) => 0x2
            case Some(Host1) => 0x2
            case None => 0x2
            case _ => 0x62
  {
  }

  // ---- init ----

  /** Each driver's init call with its dependencies, act by act. */
  function Listing(d: Driver): seq<Act> {
    match d
    case Sio2man => [Load(1, -2)]
    case FileXio => [Load(2, -2), Load(3, -3)]
    case Memcard => [Load(1, -4), Load(4, -2), Load(5, -3)]
    case Bdm => [Load(6, -2), Load(7, -3)]
    case Usbd => [Load(8, -2)]
    case Usb => [Load(6, -4), Load(7, -4), Load(8, -5), Load(9, -3)]
    case Mx4sio => [Load(1, -3), Load(6, -4), Load(7, -4), Check(Cop2Pipelined, -5), Load(10, -2)]
    case Cdfs => [Load(11, -2)]
    case Dev9 => [Load(12, -2)]
    case Hdd => [Load(2, -7), Load(3, -7), Load(12, -7), Load(6, -7), Load(7, -7),
                 Load(13, -3), Load(14, -4), Check(HddReady, -6), Load(15, -5)]
    case Joystick => [Load(1, -6), Load(16, -4), Load(17, -5), Check(MtapInit, -2), Check(PadInit, -3)]
    case Audio => [Load(18, -3), Load(19, -4), Check(AudsrvInit, -2)]
    case Poweroff => [Load(20, -3), Check(PoweroffInit, -2)]
    case Mouse => [Load(8, -4), Load(21, -3), Check(MouseInit, -2)]
    case Keyboard => [Load(8, -4), Load(22, -3), Check(KbdInit, -2)]
    case Camera => [Load(8, -4), Load(23, -3), Check(CamInit, -2)]
    case Netman => [Load(24, -2), Check(NetManInit, -3)]
    case Smap => [Load(25, -2)]
    case Eeip => [Load(12, -2), Load(24, -2), Check(NetManInit, -2), Load(25, -2)]
    case Iopip => [Load(12, -5), Load(24, -5), Check(NetManInit, -5), Load(25, -5),
                   Load(26, -4), Load(27, -3), Check(Ps2ipInit, -2)]
  }

  /** How many of them are the dependencies'. */
  function Before(d: Driver): (n: nat)
    ensures n <= |Listing(d)|
  {
    match d
    case Memcard => 1
    case Usb => 3
    case Mx4sio => 3
    case Hdd => 5
    case Joystick => 1
    case Mouse => 1
    case Keyboard => 1
    case Camera => 1
    case Eeip => 4
    case Iopip => 4
    case _ => 0
  }

  lemma DependenciesTwo(a: Need, b: Need)
    ensures Dependencies([a]) == Under(Own(a.driver), a.err)
    ensures Dependencies([a, b]) == Under(Own(a.driver), a.err) + Under(Own(b.driver), b.err)
  {
    hide Under, Own;
    assert [a, b][1..] == [b] && [a][1..] == [] && [b][1..] == [];
    assert Dependencies([a]) == Under(Own(a.driver), a.err) + Dependencies([]);
    assert Dependencies([b]) == Under(Own(b.driver), b.err) + Dependencies([]);
    assert Under(Own(b.driver), b.err) + [] == Under(Own(b.driver), b.err);
    assert Under(Own(a.driver), a.err) + [] == Under(Own(a.driver), a.err);
  }

  lemma DependenciesThree(a: Need, b: Need, c: Need)
    ensures Dependencies([a, b, c]) ==
            Under(Own(a.driver), a.err) + (Under(Own(b.driver), b.err) + Under(Own(c.driver), c.err))
  {
    hide Under, Own;
    assert [a, b, c][1..] == [b, c];
    DependenciesTwo(b, c);
  }

  lemma DependenciesListed(d: Driver)
    ensures Dependencies(Needs(d)) == Listing(d)[..Before(d)]
  {
    hide Dependencies, Listing, Before, Own, Under;
    var n := Needs(d);
    if |n| == 0 {
      NoDependencies();
      NoneListed(d);
    } else if |n| == 1 {
      DependenciesTwo(n[0], n[0]);
      assert n == [n[0]];
      OneListed(d);
    } else if |n| == 2 {
      DependenciesTwo(n[0], n[1]);
      assert n == [n[0], n[1]];
      TwoListed(d);
    } else {
      DependenciesThree(n[0], n[1], n[2]);
      assert n == [n[0], n[1], n[2]];
      ThreeListed(d);
    }
  }

  lemma NoneListed(d: Driver)
    ensures Needs(d) == [] ==> Before(d) == 0
  {
  }

  lemma UnderFew(acts: seq<Act>, err: int)
    ensures |acts| == 1 ==> Under(acts, err) == [acts[0].(err := err)]
    ensures |acts| == 2 ==> Under(acts, err) == [acts[0].(err := err), acts[1].(err := err)]
  {
    hide Under;
  }

  lemma OneListed(d: Driver)
    ensures |Needs(d)| == 1 ==> Under(Own(Needs(d)[0].driver), Needs(d)[0].err) == Listing(d)[..Before(d)]
  {
    hide Under;
    if |Needs(d)| == 1 {
      UnderFew(Own(Needs(d)[0].driver), Needs(d)[0].err);
    }
  }

  lemma TwoListed(d: Driver)
    ensures |Needs(d)| == 2 ==>
              Under(Own(Needs(d)[0].driver), Needs(d)[0].err) + Under(Own(Needs(d)[1].driver), Needs(d)[1].err) ==
              Listing(d)[..Before(d)]
  {
    hide Under;
    if |Needs(d)| == 2 {
      UnderFew(Own(Needs(d)[0].driver), Needs(d)[0].err);
      UnderFew(Own(Needs(d)[1].driver), Needs(d)[1].err);
    }
  }

  lemma ThreeListed(d: Driver)
    ensures |Needs(d)| == 3 ==>
              Under(Own(Needs(d)[0].driver), Needs(d)[0].err) +
              (Under(Own(Needs(d)[1].driver), Needs(d)[1].err) + Under(Own(Needs(d)[2].driver), Needs(d)[2].err)) ==
              Listing(d)[..Before(d)]
  {
    hide Under;
    if |Needs(d)| == 3 {
      UnderFew(Own(Needs(d)[0].driver), Needs(d)[0].err);
      UnderFew(Own(Needs(d)[1].driver), Needs(d)[1].err);
      UnderFew(Own(Needs(d)[2].driver), Needs(d)[2].err);
    }
  }

  lemma NoDependencies()
    ensures Dependencies([]) == []
  {
  }

  lemma OwnListed(d: Driver)
    ensures Own(d) == Listing(d)[Before(d)..]
  {
  }

  /** The program of any init call: the list, or what of it is not the dependencies', behind the guard if any. */
  lemma ProgramListed(c: Call)
    ensures Program(c) ==
            (if c.driver == Driver.Hdd && c.onlyIfBooted then [Check(CwdIsHdd, -2)] else []) +
            Listing(c.driver)[if c.deps then 0 else Before(c.driver)..]
  {
    hide Dependencies, Needs, Own, Listing, Before;
    DependenciesListed(c.driver);
    OwnListed(c.driver);
    Regroup(Guard(c), Listing(c.driver), Before(c.driver));
  }

  lemma Regroup(a: seq<Act>, b: seq<Act>, n: nat)
    requires n <= |b|
    ensures a + b[..n] + b[n..] == a + b[0..]
  {
  }

  // ---- the order of loading ----

  /** The module of act i, if it is one that has not come before. */
  function NewAt(acts: seq<Act>, i: nat, seen: set<nat>): seq<nat> {
    if && i < |acts| && acts[i].Load? && acts[i].id !in seen
       && forall j :: 0 <= j < i ==> !(acts[j].Load? && acts[j].id == acts[i].id)
    then [acts[i].id] else []
  }

  lemma OrderStep(acts: seq<Act>, seen: set<nat>)
    requires acts != []
    ensures Order(acts, seen) ==
            NewAt(acts, 0, seen) + Order(acts[1..], seen + if acts[0].Load? then {acts[0].id} else {})
  {
    if acts[0].Check? || acts[0].id in seen {
      assert seen + (if acts[0].Load? then {acts[0].id} else {}) == seen;
    }
  }

  lemma NewShift(acts: seq<Act>, i: nat, seen: set<nat>)
    requires acts != []
    ensures NewAt(acts[1..], i, seen + if acts[0].Load? then {acts[0].id} else {}) == NewAt(acts, i + 1, seen)
  {
    if i + 1 < |acts| {
      assert acts[1..][i] == acts[i + 1];
      assert forall j :: 0 <= j < i ==> acts[1..][j] == acts[j + 1];
      assert forall j :: 1 <= j < i + 1 ==> acts[j] == acts[1..][j - 1];
    }
  }

  lemma Sum(a: seq<nat>, b: seq<nat>, c: seq<nat>, d: seq<nat>, e: seq<nat>)
    ensures a + (b + c + d + e + []) == a + b + c + d + e
  {
  }

  /** The order of a short list, place by place. */
  lemma {:induction false} OrderOfFive(acts: seq<Act>, seen: set<nat>)
    requires |acts| <= 5
    ensures Order(acts, seen) == NewAt(acts, 0, seen) + NewAt(acts, 1, seen) + NewAt(acts, 2, seen) +
                                 NewAt(acts, 3, seen) + NewAt(acts, 4, seen)
    decreases |acts|
  {
    hide Order, NewAt;
    if acts == [] {
      NothingNew(seen);
    } else {
      var later := seen + if acts[0].Load? then {acts[0].id} else {};
      OrderStep(acts, seen);
      OrderOfFive(acts[1..], later);
      NewShift(acts, 0, seen);
      NewShift(acts, 1, seen);
      NewShift(acts, 2, seen);
      NewShift(acts, 3, seen);
      NewShift(acts, 4, seen);
      NothingBeyond(acts, seen);
      Sum(NewAt(acts, 0, seen), NewAt(acts, 1, seen), NewAt(acts, 2, seen), NewAt(acts, 3, seen), NewAt(acts, 4, seen));
    }
  }

  lemma NothingNew(seen: set<nat>)
    ensures Order([], seen) == [] && forall i :: NewAt([], i, seen) == []
  {
  }

  lemma NothingBeyond(acts: seq<Act>, seen: set<nat>)
    requires |acts| <= 5
    ensures NewAt(acts, 5, seen) == []
  {
  }

  /** A call of a driver other than the hard disk's with its dependencies. */
  lemma CallOrder(c: Call, seen: set<nat>)
    requires c.deps ==> |Listing(c.driver)| <= 5
    ensures var acts := (if c.driver == Driver.Hdd && c.onlyIfBooted then [Check(CwdIsHdd, -2)] else []) +
                        Listing(c.driver)[if c.deps then 0 else Before(c.driver)..];
            && Program(c) == acts
            && Order(Program(c), seen) == NewAt(acts, 0, seen) + NewAt(acts, 1, seen) + NewAt(acts, 2, seen) +
                                          NewAt(acts, 3, seen) + NewAt(acts, 4, seen)
  {
    hide Order, NewAt, Program;
    ProgramListed(c);
    OrderOfFive(Program(c), seen);
  }

  lemma OrderOfMore(calls: seq<Call>, c: Call)
    ensures OrderOf(calls + [c]) == OrderOf(calls) + Order(Program(c), LoadsOf(calls))
  {
    hide Order, Program, LoadsOf;
    assert (calls + [c])[..|calls|] == calls;
  }

  /** The modules of the all-file-systems initialisation, call by call. */
  const ALL_ORDER: seq<seq<nat>> := [[20], [2, 3], [1, 4, 5], [6, 7, 8, 9], [10], [11], [12], [13, 14, 15]]

  /** The first n rows one after the other. */
  function Flat(rows: seq<seq<nat>>): seq<nat> {
    if rows == [] then [] else Flat(rows[..|rows| - 1]) + rows[|rows| - 1]
  }

  function Members(ids: seq<nat>): set<nat> {
    set id | id in ids
  }

  lemma FirstCallOrders(k: nat, seen: set<nat>)
    requires k < 4 && forall id :: id in ALL_ORDER[k] ==> id !in seen
    ensures Order(Program(ALL_CALLS[k]), seen) == ALL_ORDER[k]
  {
    hide Order, Program;
    CallOrder(ALL_CALLS[k], seen);
  }

  lemma LastCallOrders(k: nat, seen: set<nat>)
    requires 4 <= k < 8 && forall id :: id in ALL_ORDER[k] ==> id !in seen
    ensures Order(Program(ALL_CALLS[k]), seen) == ALL_ORDER[k]
  {
    hide Order, Program;
    CallOrder(ALL_CALLS[k], seen);
  }

  lemma CallOrderIs(k: nat, seen: set<nat>)
    requires k < 8 && forall id :: id in ALL_ORDER[k] ==> id !in seen
    ensures Order(Program(ALL_CALLS[k]), seen) == ALL_ORDER[k]
  {
    if k < 4 {
      FirstCallOrders(k, seen);
    } else {
      LastCallOrders(k, seen);
    }
  }

  lemma CallLoadsAre(k: nat)
    requires k < 8
    ensures Loads(Program(ALL_CALLS[k])) == Members(ALL_ORDER[k])
  {
    hide Program, Loads;
    LoadsOfOne(ALL_CALLS[k]);
    LoadsOfHead(ALL_CALLS[k]);
    NeededModules(ALL_CALLS[k].driver);
  }

  lemma {:induction false} AllUpTo(k: nat)
    requires k <= 8
    ensures OrderOf(ALL_CALLS[..k]) == Flat(ALL_ORDER[..k]) && LoadsOf(ALL_CALLS[..k]) == Members(Flat(ALL_ORDER[..k]))
  {
    hide Order, Program, Loads, OrderOf, LoadsOf, Flat;
    if k == 0 {
      NothingOrdered();
    } else {
      var n := k - 1;
      AllUpTo(n);
      assert ALL_CALLS[..k] == ALL_CALLS[..n] + [ALL_CALLS[n]] && ALL_ORDER[..k] == ALL_ORDER[..n] + [ALL_ORDER[n]];
      OrderOfMore(ALL_CALLS[..n], ALL_CALLS[n]);
      LoadsOfAppend(ALL_CALLS[..n], [ALL_CALLS[n]]);
      LoadsOfHead(ALL_CALLS[n]);
      FlatMore(ALL_ORDER[..n], ALL_ORDER[n]);
      NoneTwice(n);
      CallOrderIs(n, LoadsOf(ALL_CALLS[..n]));
      CallLoadsAre(n);
      assert Members(Flat(ALL_ORDER[..n]) + ALL_ORDER[n]) == Members(Flat(ALL_ORDER[..n])) + Members(ALL_ORDER[n]);
    }
  }

  lemma NothingOrdered()
    ensures OrderOf(ALL_CALLS[..0]) == [] && LoadsOf(ALL_CALLS[..0]) == {} && Flat(ALL_ORDER[..0]) == []
  {
  }

  lemma FlatMore(rows: seq<seq<nat>>, row: seq<nat>)
    ensures Flat(rows + [row]) == Flat(rows) + row
  {
    assert (rows + [row])[..|rows|] == rows;
  }

  lemma {:induction false} FlatHolds(rows: seq<seq<nat>>, id: nat)
    ensures id in Flat(rows) <==> exists i :: 0 <= i < |rows| && id in rows[i]
  {
    if rows != [] {
      FlatHolds(rows[..|rows| - 1], id);
    }
  }

  /** No module stands in two rows. */
  lemma NoneTwice(n: nat)
    requires n < 8
    ensures forall id :: id in ALL_ORDER[n] ==> id !in Members(Flat(ALL_ORDER[..n]))
  {
    hide Flat;
    forall id | id in ALL_ORDER[n]
      ensures id !in Flat(ALL_ORDER[..n])
    {
      FlatHolds(ALL_ORDER[..n], id);
      forall i | 0 <= i < n
        ensures id !in ALL_ORDER[..n][i]
      {
        RowsApart(i, n, id);
      }
    }
  }

  lemma RowsApart(i: nat, n: nat, id: nat)
    requires i < n < 8 && id in ALL_ORDER[n]
    ensures id !in ALL_ORDER[i]
  {
  }

  lemma FlatTo(k: nat)
    requires k < 8
    ensures Flat(ALL_ORDER[..k + 1]) == Flat(ALL_ORDER[..k]) + ALL_ORDER[k]
  {
    assert ALL_ORDER[..k + 1] == ALL_ORDER[..k] + [ALL_ORDER[k]];
    FlatMore(ALL_ORDER[..k], ALL_ORDER[k]);
  }

  lemma FlatAll()
    ensures Flat(ALL_ORDER) == [20, 2, 3, 1, 4, 5, 6, 7, 8, 9, 10, 11, 12, 13, 14, 15]
  {
    hide Flat;
    NothingOrdered();
    FlatTo(0);
    FlatTo(1);
    FlatTo(2);
    FlatTo(3);
    FlatTo(4);
    FlatTo(5);
    FlatTo(6);
    FlatTo(7);
    assert ALL_ORDER[..8] == ALL_ORDER;
  }

  /**
    Bringing up all file systems over a staging that covers it, with no mishap,
    executes sixteen modules in this order.
   */
  lemma {:induction false} AllFilesystemsOrder(s: State, path: Option<Path>, mask: bv32, env: Env, turns: seq<Turn>)
    requires Inv(s) && Stage(s, path, mask, env).1 == Success && LoadsOf(ALL_CALLS) <= Expand(mask)
    requires CallsOf(turns) == ALL_CALLS
    requires forall i :: 0 <= i < |turns| ==> Smooth(turns[i].world, Expand(mask))
    ensures var trace := RunTurns(Fresh(Stage(s, path, mask, env).0), turns).trace;
            && Ids(trace) == [20, 2, 3, 1, 4, 5, 6, 7, 8, 9, 10, 11, 12, 13, 14, 15]
            && AllRan(trace)
  {
    hide Inv, Stage, Expand, RunTurns, Program, Loads, LoadsOf, OrderOf, GetStaged, Smooth, Flat, MissesExplained,
      OnStaged, AtMostOnce;
    var staged, ids := Stage(s, path, mask, env).0, Expand(mask);
    StageKeepsInv(s, path, mask, env);
    forall id | id in ids
      ensures GetStaged(staged, id).Some?
    {
      StagedAll(s, path, mask, env, id);
    }
    forall i | 0 <= i < |turns|
      ensures Loads(Program(turns[i].call)) <= ids
    {
      assert turns[i].call == ALL_CALLS[i];
      LoadsOfMember(ALL_CALLS, i);
    }
    SmoothOrder(staged, turns, ids);
    AllUpTo(8);
    assert ALL_CALLS[..8] == ALL_CALLS && ALL_ORDER[..8] == ALL_ORDER;
    FlatAll();
  }

  // ---- booting ----

  lemma FirstBootCall()
    ensures OrderOf([Call(FileXio, false, false)]) == [2, 3] && LoadsOf([Call(FileXio, false, false)]) == {2, 3}
  {
    hide Order, Program, Loads, LoadsOf, OrderOf;
    var c := Call(FileXio, false, false);
    EmptyOrders();
    OrderOfMore([], c);
    CallOrder(c, {});
    LoadsOfOne(c);
    assert [] + [c] == [c];
  }

  lemma EmptyOrders()
    ensures OrderOf([]) == [] && LoadsOf([]) == {}
  {
  }

  lemma BootMore(calls: seq<Call>, c: Call)
    ensures OrderOf(calls + [c]) == OrderOf(calls) + Order(Program(c), LoadsOf(calls))
    ensures LoadsOf(calls + [c]) ==
            LoadsOf(calls) + OwnModules(c.driver) + if c.deps then Needed(Needs(c.driver)) else {}
  {
    hide Order, Program, LoadsOf, OrderOf, OwnModules, Needs;
    OrderOfMore(calls, c);
    LoadsOfAppend(calls, [c]);
    LoadsOfOne(c);
  }

  lemma MemcardOrder()
    ensures OrderOf([Call(FileXio, false, false)] + [Call(Memcard, true, false)]) == [2, 3, 1, 4, 5]
  {
    hide Order, Program, LoadsOf, OrderOf;
    FirstBootCall();
    BootMore([Call(FileXio, false, false)], Call(Memcard, true, false));
    CallOrder(Call(Memcard, true, false), {2, 3});
  }

  lemma CdfsOrder()
    ensures OrderOf([Call(FileXio, false, false)] + [Call(Cdfs, false, false)]) == [2, 3, 11]
  {
    hide Order, Program, LoadsOf, OrderOf;
    FirstBootCall();
    BootMore([Call(FileXio, false, false)], Call(Cdfs, false, false));
    CallOrder(Call(Cdfs, false, false), {2, 3});
  }

  lemma MassOrder()
    ensures OrderOf([Call(FileXio, false, false)] + [Call(Usb, true, false)] + [Call(Driver.Mx4sio, true, false)]) ==
            [2, 3, 6, 7, 8, 9, 1, 10]
  {
    hide Order, Program, LoadsOf, OrderOf;
    var first := [Call(FileXio, false, false)];
    FirstBootCall();
    BootMore(first, Call(Usb, true, false));
    CallOrder(Call(Usb, true, false), {2, 3});
    NeededModules(Usb);
    assert LoadsOf(first + [Call(Usb, true, false)]) == {2, 3, 6, 7, 8, 9};
    BootMore(first + [Call(Usb, true, false)], Call(Driver.Mx4sio, true, false));
    CallOrder(Call(Driver.Mx4sio, true, false), {2, 3, 6, 7, 8, 9});
  }

  lemma HddOrder()
    ensures OrderOf([Call(FileXio, false, false)] + [Call(Poweroff, false, false)] + [Call(Dev9, false, false)] +
                    [Call(Driver.Hdd, false, false)]) ==
            [2, 3, 20, 12, 13, 14, 15]
  {
    hide Order, Program, LoadsOf, OrderOf;
    var first := [Call(FileXio, false, false)];
    var second := first + [Call(Poweroff, false, false)];
    FirstBootCall();
    BootMore(first, Call(Poweroff, false, false));
    CallOrder(Call(Poweroff, false, false), {2, 3});
    assert LoadsOf(second) == {2, 3, 20};
    BootMore(second, Call(Dev9, false, false));
    CallOrder(Call(Dev9, false, false), {2, 3, 20});
    assert LoadsOf(second + [Call(Dev9, false, false)]) == {2, 3, 20, 12};
    BootMore(second + [Call(Dev9, false, false)], Call(Driver.Hdd, false, false));
    CallOrder(Call(Driver.Hdd, false, false), {2, 3, 20, 12});
  }

  /** Which modules booting from a device loads, in which order. */
  lemma BootOrder(d: Option<Device>)
    ensures OrderOf(BootCalls(d)) ==
            match d
            case Some(Mc0) => [2, 3, 1, 4, 5]
            case Some(Mc1) => [2, 3, 1, 4, 5]
            case Some(CdRom) => [2, 3, 11]
            case Some(CdFs) => [2, 3, 11]
            case Some(Hdd) => [2, 3, 20, 12, 13, 14, 15]
            case Some(Hdd0) => [2, 3, 20, 12, 13, 14, 15]
            case Some(Host) => [2, 3]
            case Some(Host0) => [2, 3]
            case Some(Host1) => [2, 3]
            case None => [2, 3]
            case _ => [2, 3, 6, 7, 8, 9, 1, 10]
  {
    hide OrderOf, LoadsOf;
    var calls := BootCalls(d);
    var first := [Call(FileXio, false, false)];
    FirstBootCall();
    MemcardOrder();
    CdfsOrder();
    MassOrder();
    HddOrder();
    assert |calls| == 1 ==> calls == first;
    assert |calls| == 2 ==> calls == first + [calls[1]];
    assert |calls| == 3 ==> calls == first + [calls[1]] + [calls[2]];
    assert |calls| == 4 ==> calls == first + [calls[1]] + [calls[2]] + [calls[3]];
  }

  // ---- deinit ----

  /**
    A deinit call resets to -1 the variables of exactly those modules its init
    call lists that have an id which is not negative and the result 0 or 2.
   */
  lemma DeinitInNumbers(s: Sys, c: Call, id: nat)
    ensures var t := Deinit(s, c.driver, c.deps);
            && t.staging == s.staging && t.trace == s.trace
            && t.VarsOf(id) ==
               if id in Loads(Program(c)) && s.VarsOf(id).id >= 0 && (s.VarsOf(id).ret == 0 || s.VarsOf(id).ret == 2)
               then Vars(-1, -1) else s.VarsOf(id)
  {
    hide Unloads, UnloadAll, Program, Loads;
    UnloadsAreLoads(c, id);
    UnloadAllIs(s, Unloads(c.driver, c.deps), id);
  }

  lemma FewUnloads(ds: seq<Driver>)
    ensures |ds| == 0 ==> UnloadsOf(ds) == []
    ensures |ds| == 1 ==> UnloadsOf(ds) == OwnUnloads(ds[0])
    ensures |ds| == 2 ==> UnloadsOf(ds) == OwnUnloads(ds[0]) + OwnUnloads(ds[1])
    ensures |ds| == 3 ==> UnloadsOf(ds) == OwnUnloads(ds[0]) + OwnUnloads(ds[1]) + OwnUnloads(ds[2])
  {
    hide OwnUnloads;
    if ds != [] {
      FewUnloads(ds[1..]);
    }
  }

  /** What a deinit call unloads without the dependencies; memory card and joystick do not go in reverse order. */
  lemma OwnUnloadOrder(d: Driver)
    ensures Unloads(d, false) ==
            match d
            case Sio2man => [1]
            case FileXio => [3, 2]
            case Memcard => [4, 5]
            case Bdm => [7, 6]
            case Usbd => [8]
            case Usb => [9]
            case Mx4sio => [10]
            case Cdfs => [11]
            case Dev9 => [12]
            case Hdd => [15, 14, 13]
            case Joystick => [16, 17]
            case Audio => [19, 18]
            case Poweroff => [20]
            case Mouse => [21]
            case Keyboard => [22]
            case Camera => [23]
            case Netman => [24]
            case Smap => [25]
            case Eeip => []
            case Iopip => [27, 26]
  {
  }

  /** And with them: they come last. */
  lemma UnloadOrder(d: Driver)
    ensures Unloads(d, true) ==
            Unloads(d, false) +
            match d
            case Memcard => [1]
            case Usb => [8, 7, 6]
            case Mx4sio => [7, 6, 1]
            case Hdd => [7, 6, 12, 3, 2]
            case Joystick => [1]
            case Mouse => [8]
            case Keyboard => [8]
            case Camera => [8]
            case Eeip => [25, 24, 12]
            case Iopip => [25, 24, 12]
            case _ => []
  {
    hide UnloadsOf;
    FewUnloads(Drops(d));
  }
}
