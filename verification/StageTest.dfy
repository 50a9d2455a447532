/**
  The repository's test program of the staging interface, call by call but for
  its look at the error strings, on any packed image that holds all modules: it
  ends with status 0.
 */
module StageTest {
  import opened ImageConstants
  import opened Wrappers
  import opened Words
  import opened Environment
  import opened Requirements
  import opened BootDevice
  import opened BootCoverage
  import opened DriverNumbers
  import opened DriverRuns
  import opened DriverCoverage
  import opened Layout
  import opened PackedImages
  import opened StagedImages
  import opened StagingSpec
  import opened StagingInvariant
  import opened StagingHistory
  import S = Stager
  import M = Manifest

  // ---- boot paths ----

  datatype BootCase = BootCase(path: string, device: Option<Device>, mask: bv32)

  const BOOT_CASES: seq<BootCase> := [
    BootCase("mc0:/apps/test.elf", Some(Mc0), 0x6),
    BootCase("mc1:/apps/test.elf", Some(Mc1), 0x6),
    BootCase("cdrom0:/TEST.ELF;1", Some(CdRom), 0x82),
    BootCase("cdfs:/TEST.ELF", Some(CdFs), 0x82),
    BootCase("mass:/apps/test.elf", Some(Mass), 0x62),
    BootCase("mass0:/apps/test.elf", Some(Mass0), 0x62),
    BootCase("mass1:/apps/test.elf", Some(Mass1), 0x62),
    BootCase("mx4sio:/apps/test.elf", Some(Device.Mx4sio), 0x62),
    BootCase("mx4sio0:/apps/test.elf", Some(Mx4sio0), 0x62),
    BootCase("mx4sio1:/apps/test.elf", Some(Mx4sio1), 0x62),
    BootCase("hdd:/apps/test.elf", Some(Device.Hdd), 0x1202),
    BootCase("hdd0:/apps/test.elf", Some(Hdd0), 0x1202),
    BootCase("host:/apps/test.elf", Some(Host), 0x2),
    BootCase("host0:/apps/test.elf", Some(Host0), 0x2),
    BootCase("host1:/apps/test.elf", Some(Host1), 0x2),
    BootCase("/native/host/path/test.elf", None, 0x2)]

  lemma Recognised(path: string, d: Device, rest: string)
    requires path == Prefix(d) + rest
    ensures BootDeviceOf(path) == Some(d)
  {
    hide BootDeviceOf, Name;
    FoundIffStarts(path, d);
  }

  lemma MemoryCards()
    ensures BootDeviceOf("mc0:/apps/test.elf") == Some(Mc0) && BootDeviceOf("mc1:/apps/test.elf") == Some(Mc1)
  {
    hide BootDeviceOf;
    Recognised("mc0:/apps/test.elf", Mc0, "/apps/test.elf");
    Recognised("mc1:/apps/test.elf", Mc1, "/apps/test.elf");
  }

  lemma Discs()
    ensures BootDeviceOf("cdrom0:/TEST.ELF;1") == Some(CdRom) && BootDeviceOf("cdfs:/TEST.ELF") == Some(CdFs)
  {
    hide BootDeviceOf;
    Recognised("cdrom0:/TEST.ELF;1", CdRom, "/TEST.ELF;1");
    Recognised("cdfs:/TEST.ELF", CdFs, "/TEST.ELF");
  }

  lemma MassStorage()
    ensures BootDeviceOf("mass:/apps/test.elf") == Some(Mass) && BootDeviceOf("mass0:/apps/test.elf") == Some(Mass0)
    ensures BootDeviceOf("mass1:/apps/test.elf") == Some(Mass1)
  {
    hide BootDeviceOf;
    Recognised("mass:/apps/test.elf", Mass, "/apps/test.elf");
    Recognised("mass0:/apps/test.elf", Mass0, "/apps/test.elf");
    Recognised("mass1:/apps/test.elf", Mass1, "/apps/test.elf");
  }

  lemma MemoryCardAdapters()
    ensures BootDeviceOf("mx4sio:/apps/test.elf") == Some(Device.Mx4sio)
    ensures BootDeviceOf("mx4sio0:/apps/test.elf") == Some(Mx4sio0)
    ensures BootDeviceOf("mx4sio1:/apps/test.elf") == Some(Mx4sio1)
  {
    hide BootDeviceOf;
    Recognised("mx4sio:/apps/test.elf", Device.Mx4sio, "/apps/test.elf");
    Recognised("mx4sio0:/apps/test.elf", Mx4sio0, "/apps/test.elf");
    Recognised("mx4sio1:/apps/test.elf", Mx4sio1, "/apps/test.elf");
  }

  lemma HardDisks()
    ensures BootDeviceOf("hdd:/apps/test.elf") == Some(Device.Hdd) && BootDeviceOf("hdd0:/apps/test.elf") == Some(Hdd0)
  {
    hide BootDeviceOf;
    Recognised("hdd:/apps/test.elf", Device.Hdd, "/apps/test.elf");
    Recognised("hdd0:/apps/test.elf", Hdd0, "/apps/test.elf");
  }

  lemma Hosts()
    ensures BootDeviceOf("host:/apps/test.elf") == Some(Host) && BootDeviceOf("host0:/apps/test.elf") == Some(Host0)
    ensures BootDeviceOf("host1:/apps/test.elf") == Some(Host1)
  {
    hide BootDeviceOf;
    Recognised("host:/apps/test.elf", Host, "/apps/test.elf");
    Recognised("host0:/apps/test.elf", Host0, "/apps/test.elf");
    Recognised("host1:/apps/test.elf", Host1, "/apps/test.elf");
  }

  /** A path from the root is on none of the devices. */
  lemma RootedIsNowhere(path: string)
    requires path != [] && path[0] == '/'
    ensures BootDeviceOf(path) == None
  {
    hide BootDeviceOf;
    forall d: Device
      ensures BootDeviceOf(path) != Some(d)
    {
      FoundIffStarts(path, d);
      assert Prefix(d)[0] != '/';
    }
  }

  lemma BootCaseHolds(i: nat)
    requires i < 16
    ensures var c := BOOT_CASES[i];
            BootDeviceOf(c.path) == c.device && BootRequirements(c.device) == c.mask
  {
    hide BootDeviceOf, BootRequirements;
    BootMasksInNumbers(BOOT_CASES[i].device);
    MemoryCards();
    Discs();
    MassStorage();
    MemoryCardAdapters();
    HardDisks();
    Hosts();
    RootedIsNowhere("/native/host/path/test.elf");
  }

  /** check_boot_helpers */
  method CheckBootHelpers() returns (status: int)
    ensures status == 0
  {
    hide BootDeviceOf, BootRequirements;
    for i := 0 to 16 {
      BootCaseHolds(i);
      var c := BOOT_CASES[i];
      if BootDeviceOf(c.path) != c.device {
        return 1;
      }
      if BootRequirements(c.device) != c.mask {
        return 2;
      }
      if RequirementsForPath(Some(c.path), 0x800) != Some(c.mask | 0x800) {
        return 3;
      }
      if c.device.Some? {
        RootRoundTrip(c.device.value);
        if BootDeviceOf(RootPath(c.device.value)) != c.device {
          return 4;
        }
      }
    }
    return 0;
  }

  // ---- requirement masks ----

  /** Masks and the number of modules each is to stage. */
  const CASES: seq<(bv32, nat)> := [
    (0x1, 1), (0x2, 2), (0x4, 3), (0x8, 2), (0x10, 1), (0x20, 4), (0x40, 4), (0x80, 1), (0x100, 1), (0x200, 8),
    (0x400, 3), (0x800, 2), (0x1000, 1), (0x2000, 2), (0x4000, 2), (0x8000, 2), (0x1_0000, 1), (0x2_0000, 1),
    (0x4_0000, 3), (0x8_0000, 5), (0x13e6, 16)]

  /** The mask is acceptable and asks for n modules. */
  ghost predicate AsksFor(mask: bv32, n: nat) {
    !BadMask(mask) && |Expand(mask)| == n
  }

  lemma FirstCases()
    ensures forall i :: 0 <= i < 5 ==> CASES[i] == (Bit(ORDER[i]), |Marks(ORDER[i])|)
  {
  }

  lemma SecondCases()
    ensures forall i :: 5 <= i < 10 ==> CASES[i] == (Bit(ORDER[i]), |Marks(ORDER[i])|)
  {
  }

  lemma ThirdCases()
    ensures forall i :: 10 <= i < 15 ==> CASES[i] == (Bit(ORDER[i]), |Marks(ORDER[i])|)
  {
  }

  lemma FourthCases()
    ensures forall i :: 15 <= i < 20 ==> CASES[i] == (Bit(ORDER[i]), |Marks(ORDER[i])|)
  {
  }

  /** The first twenty are the drivers one by one, each with the length of its row in the requirement table. */
  lemma CaseIsDriver(i: nat)
    requires i < 20
    ensures CASES[i] == (Bit(ORDER[i]), |Marks(ORDER[i])|)
  {
    hide Bit, Marks;
    FirstCases();
    SecondCases();
    ThirdCases();
    FourthCases();
  }

  lemma MarksAscend(d: Driver, i: nat, j: nat)
    requires i < j < |Marks(d)|
    ensures Marks(d)[i] < Marks(d)[j]
  {
  }

  lemma {:induction false} SizeOfDistinct(ids: seq<nat>)
    requires forall i, j :: 0 <= i < j < |ids| ==> ids[i] < ids[j]
    ensures |Members(ids)| == |ids|
  {
    if ids != [] {
      var n := |ids| - 1;
      SizeOfDistinct(ids[..n]);
      assert Members(ids) == Members(ids[..n]) + {ids[n]};
    }
  }

  lemma OneDriverAsks(d: Driver)
    ensures AsksFor(Bit(d), |Marks(d)|)
  {
    hide Expand, Unknown, Bit, Marks;
    KnownBit(d);
    ExpandBit(d);
    forall i, j | 0 <= i < j < |Marks(d)|
      ensures Marks(d)[i] < Marks(d)[j]
    {
      MarksAscend(d, i, j);
    }
    SizeOfDistinct(Marks(d));
    assert MarkSet(d) == Members(Marks(d));
  }

  lemma AllFilesystemsMask()
    ensures Expand(0x13e6) == {20, 2, 3, 1, 4, 5, 6, 7, 8, 9, 10, 11, 12, 13, 14, 15}
  {
    hide Expand, LoadsOf, Flat;
    AllMaskExact();
    MaskIs();
    AllUpTo(8);
    assert ALL_CALLS[..8] == ALL_CALLS && ALL_ORDER[..8] == ALL_ORDER;
    FlatAll();
  }

  lemma MaskMore(n: nat, mask: bv32)
    requires n < 8 && MaskOf(FILESYSTEM_DRIVERS[..n]) == mask
    ensures MaskOf(FILESYSTEM_DRIVERS[..n + 1]) == mask | Bit(FILESYSTEM_DRIVERS[n])
  {
    hide Bit;
    assert FILESYSTEM_DRIVERS[..n + 1][..n] == FILESYSTEM_DRIVERS[..n];
  }

  lemma MaskIs()
    ensures MaskOf(FILESYSTEM_DRIVERS) == 0x13e6
  {
    hide MaskOf;
    assert MaskOf(FILESYSTEM_DRIVERS[..0]) == 0 by {
      NoMask();
    }
    MaskMore(0, 0);
    MaskMore(1, 0x1000);
    MaskMore(2, 0x1002);
    MaskMore(3, 0x1006);
    MaskMore(4, 0x1026);
    MaskMore(5, 0x1066);
    MaskMore(6, 0x10e6);
    MaskMore(7, 0x11e6);
    assert FILESYSTEM_DRIVERS[..8] == FILESYSTEM_DRIVERS;
  }

  lemma NoMask()
    ensures MaskOf(FILESYSTEM_DRIVERS[..0]) == 0
  {
  }

  /** A mask put together from two. */
  lemma Both(a: bv32, b: bv32, ids: seq<nat>)
    requires !BadMask(a) && !BadMask(b) && Expand(a) + Expand(b) == Members(ids)
    requires forall i, j :: 0 <= i < j < |ids| ==> ids[i] < ids[j]
    ensures AsksFor(a | b, |ids|) && Expand(a | b) == Members(ids)
  {
    hide Expand, Unknown, Members;
    ExpandUnion(a, b);
    KnownOr(a, b);
    SizeOfDistinct(ids);
  }

  lemma BitTaken(d: Driver)
    ensures !BadMask(Bit(d))
  {
    hide Bit;
    KnownBit(d);
  }

  /** The masks of the convenience calls. */
  lemma NowhereMask()
    ensures AsksFor(0x402, 5) && Expand(0x402) == Members([1, 2, 3, 16, 17])
  {
    hide Expand, BadMask;
    BitTaken(FileXio);
    BitTaken(Joystick);
    BitsInNumbers(FileXio);
    BitsInNumbers(Joystick);
    assert {2, 3} + {1, 16, 17} == Members([1, 2, 3, 16, 17]);
    Both(0x2, 0x400, [1, 2, 3, 16, 17]);
  }

  lemma HostMask()
    ensures AsksFor(0xc02, 7)
  {
    hide Expand, BadMask;
    NowhereMask();
    Taken(0x402, 5);
    BitTaken(Audio);
    BitsInNumbers(Audio);
    assert Members([1, 2, 3, 16, 17]) + {18, 19} == Members([1, 2, 3, 16, 17, 18, 19]);
    Both(0x402, 0x800, [1, 2, 3, 16, 17, 18, 19]);
  }

  lemma Taken(mask: bv32, n: nat)
    requires AsksFor(mask, n)
    ensures !BadMask(mask)
  {
  }

  lemma MemoryCardMask()
    ensures AsksFor(0x406, 7)
  {
    hide Expand, BadMask;
    BitTaken(FileXio);
    BitTaken(Memcard);
    BitTaken(Joystick);
    BitsInNumbers(FileXio);
    BitsInNumbers(Memcard);
    BitsInNumbers(Joystick);
    Both(0x2, 0x4, [1, 2, 3, 4, 5]);
    Taken(0x6, 5);
    Both(0x6, 0x400, [1, 2, 3, 4, 5, 16, 17]);
  }

  lemma AllAndAudio()
    ensures {20, 2, 3, 1, 4, 5, 6, 7, 8, 9, 10, 11, 12, 13, 14, 15} + {18, 19} ==
            Members([1, 2, 3, 4, 5, 6, 7, 8, 9, 10, 11, 12, 13, 14, 15, 18, 19, 20])
  {
  }

  lemma AudioMask()
    ensures !BadMask(0x800) && Expand(0x800) == {18, 19}
  {
    hide Expand, BadMask;
    BitTaken(Audio);
    BitsInNumbers(Audio);
  }

  lemma AllWithAudio()
    ensures AsksFor(0x1be6, 18)
  {
    hide Expand, BadMask, Members, AsksFor;
    LastCase();
    Taken(0x13e6, 16);
    AllFilesystemsMask();
    AllAndAudio();
    AudioMask();
    Both(0x13e6, 0x800, [1, 2, 3, 4, 5, 6, 7, 8, 9, 10, 11, 12, 13, 14, 15, 18, 19, 20]);
  }

  lemma CaseAsks(i: nat)
    requires i < 21
    ensures AsksFor(CASES[i].0, CASES[i].1)
  {
    hide Expand, Unknown, Bit, Marks;
    if i < 20 {
      CaseIsDriver(i);
      OneDriverAsks(ORDER[i]);
    } else {
      LastCase();
    }
  }

  lemma LastCase()
    ensures CASES[20] == (0x13e6, 16) && AsksFor(0x13e6, 16)
  {
    hide Expand;
    AllFilesystemsMask();
    FlatAll();
    Sixteen();
  }

  lemma Sixteen()
    ensures |{20, 2, 3, 1, 4, 5, 6, 7, 8, 9, 10, 11, 12, 13, 14, 15}| == 16
  {
    SizeOfDistinct([1, 2, 3, 4, 5, 6, 7, 8, 9, 10, 11, 12, 13, 14, 15, 20]);
    assert Members([1, 2, 3, 4, 5, 6, 7, 8, 9, 10, 11, 12, 13, 14, 15, 20]) ==
           {20, 2, 3, 1, 4, 5, 6, 7, 8, 9, 10, 11, 12, 13, 14, 15};
  }

  // ---- staging ----

  /** All twenty-seven modules are in the manifest, and every path of the environment leads to the packed image. */
  ghost predicate Provided(env: Env, m: seq<M.Entry>, ps: seq<seq<byte>>) {
    && Packable(m, ps) && Fits(m, ps) && (forall id :: 1 <= id <= 27 ==> Named(m, id))
    && env.Calm() && forall path :: path in env.files ==> env.files[path] == ImageOf(m, ps)
  }

  lemma {:induction false} WantedSize(ids: set<nat>, n: nat)
    requires forall id :: id in ids ==> 1 <= id <= n
    ensures |Wanted(ids, n)| == |ids|
  {
    if n == 0 {
      assert ids == {};
    } else {
      WantedWithout(ids, n, n - 1);
      WantedSize(ids - {n}, n - 1);
    }
  }

  lemma {:induction false} WantedWithout(ids: set<nat>, n: nat, k: nat)
    requires k < n
    ensures Wanted(ids - {n}, k) == Wanted(ids, k)
  {
    if k > 0 {
      WantedWithout(ids, n, k - 1);
    }
  }

  /** What such an image yields for a mask, by number and weight. */
  lemma FetchCounts(env: Env, m: seq<M.Entry>, ps: seq<seq<byte>>, path: Path, mask: bv32, n: nat)
    requires Provided(env, m, ps) && path in env.files && AsksFor(mask, n)
    ensures Fetch(path, mask, env).Ok? && |Fetch(path, mask, env).value| == n && Bytes(Fetch(path, mask, env).value) > 0
    ensures n > 0
  {
    hide ImageOf, Fits, Fetch, Expand, Wanted, Named, Unknown, HoldsPayloads, Bytes, Live, SlotOk;
    ExpandInRange(mask);
    FetchPacked(m, ps, path, mask, env);
    FetchedSlots(path, mask, env);
    WantedSize(Expand(mask), MAX_ENTRIES);
    SomethingWanted(mask);
    LivesWeigh(Fetch(path, mask, env).value);
  }

  lemma Absent(s: State, id: nat)
    requires Inv(s) && !(1 <= id <= 128)
    ensures GetStaged(s, id) == None
  {
    hide Unknown, Live, Bytes, FindLive;
    assert forall i :: 0 <= i < |SlotsOf(s)| ==> SlotOk(SlotsOf(s)[i]);
  }

  /** consume_all_staged_modules */
  method ConsumeAll(stager: S.Stager)
    requires stager.Valid()
    modifies stager, stager.heap, stager.modules
    ensures stager.Valid() && stager.count == 0 && stager.bytes == 0 && stager.modules == null
    ensures stager.Abs() == Discard(old(stager.Abs()))
  {
    hide GetStaged, Release, Inv;
    ghost var before := stager.Abs();
    for id := 1 to 129
      invariant stager.Valid() && (stager.modules == old(stager.modules) || stager.modules == null)
      invariant stager.Abs().path == before.path && stager.Abs().last == before.last
      invariant forall k :: 1 <= k < id ==> GetStaged(stager.Abs(), k) == None
    {
      ghost var s := stager.Abs();
      stager.Release(id);
      ReleaseRemembers(s, id);
      forall k | 1 <= k <= id
        ensures GetStaged(stager.Abs(), k) == None
      {
        ReleaseGets(s, id, k);
      }
    }
    forall id
      ensures GetStaged(stager.Abs(), id) == None
    {
      if !(1 <= id <= 128) {
        Absent(stager.Abs(), id);
      }
    }
    NothingLeft(stager.Abs());
    EmptyState(stager.Abs(), before);
  }

  lemma ReleaseRemembers(s: State, id: nat)
    ensures Release(s, id).path == s.path && Release(s, id).last == s.last
  {
    hide FindLive;
  }

  lemma EmptyState(s: State, before: State)
    requires Inv(s) && s.slots.None? && s.path == before.path && s.last == before.last
    ensures s == Discard(before)
  {
  }

  /** The state a success leaves when n modules have been fetched from the image under the path. */
  ghost predicate Holding(t: State, path: Path, mask: bv32, env: Env, n: nat) {
    && Fetch(path, mask, env).Ok? && |Fetch(path, mask, env).value| == n > 0 && Bytes(Fetch(path, mask, env).value) > 0
    && StagedAs(t, Fetch(path, mask, env).value, path, mask)
  }

  lemma Staging(s: State, env: Env, m: seq<M.Entry>, ps: seq<seq<byte>>, path: Path, mask: bv32, n: nat)
    requires Provided(env, m, ps) && path in env.files && AsksFor(mask, n) && Inv(s) && s.slots.None?
    ensures var (t, c) := Stage(s, Some(path), mask, env); c == Success && Holding(t, path, mask, env, n)
  {
    hide ImageOf, Fits, Fetch, Expand, Named, Unknown, Bytes, Inv, StagingSpec.Stage;
    FetchCounts(env, m, ps, path, mask, n);
    StageFetched(s, path, mask, env);
  }

  lemma Restaging(s: State, env: Env, m: seq<M.Entry>, ps: seq<seq<byte>>, path: Path, mask: bv32, n: nat)
    requires Provided(env, m, ps) && path in env.files && AsksFor(mask, n) && Inv(s) && s.slots.None?
    requires s.path == Some(path)
    ensures var (t, c) := Restage(s, mask, env); c == Success && Holding(t, path, mask, env, n)
  {
    hide ImageOf, Fits, Fetch, Expand, Named, Unknown, Bytes, Inv, StagingSpec.Restage;
    FetchCounts(env, m, ps, path, mask, n);
    RestageFetched(s, path, mask, env);
  }

  /** While something is staged every staging call is refused. */
  lemma Refusals(t: State, env: Env, path: Path, mask: bv32, n: nat)
    requires Holding(t, path, mask, env, n) && !BadMask(mask)
    ensures Stage(t, Some(path), mask, env) == (t, AlreadyStaged) && Restage(t, mask, env) == (t, AlreadyStaged)
    ensures RestageLast(t, env) == (t, AlreadyStaged)
  {
    hide Fetch, Unknown, Bytes;
  }

  /** The body of the loop over the masks. */
  method RunCase(stager: S.Stager, path: Path, mask: bv32, n: nat, env: Env, ghost m: seq<M.Entry>,
          ghost ps: seq<seq<byte>>)
    returns (failed: int)
    requires Provided(env, m, ps) && path in env.files && AsksFor(mask, n)
    requires stager.Valid() && stager.modules == null
    modifies stager, stager.heap
    ensures stager.Valid() && stager.modules == null && failed == 0
    ensures stager.Abs().path == Some(path) && stager.Abs().last == mask
  {
    hide Provided, Inv, StagingSpec.Stage, StagingSpec.Restage, StagingSpec.RestageLast, AsksFor;
    Staging(stager.Abs(), env, m, ps, path, mask, n);
    Taken(mask, n);
    var result := stager.Stage(Some(path), mask, env);
    if result != Success {
      return 10;
    }
    var bytes := stager.bytes;
    if stager.count != n || bytes == 0 {
      return 40;
    }
    Refusals(stager.Abs(), env, path, mask, n);
    result := stager.Stage(Some(path), mask, env);
    var second := stager.Restage(mask, env);
    var third := stager.RestageLast(env);
    if result != AlreadyStaged || second != AlreadyStaged || third != AlreadyStaged {
      return 70;
    }
    ConsumeAll(stager);
    if stager.count != 0 || stager.bytes != 0 {
      return 100;
    }
    Restaging(stager.Abs(), env, m, ps, path, mask, n);
    result := stager.Restage(mask, env);
    if result != Success || stager.count != n || stager.bytes != bytes {
      return 130;
    }
    stager.Discard();
    return 0;
  }

  const DEFAULT_PATH: Path := "ps2_drivers.irximg"
  const MISSING_PATH: Path := "__ps2_drivers_missing_image__.irximg"

  /** A single staging from the default path, and discarding what it has staged. */
  method StageDefault(stager: S.Stager, mask: bv32, n: nat, env: Env, ghost m: seq<M.Entry>, ghost ps: seq<seq<byte>>)
    returns (good: bool)
    requires Provided(env, m, ps) && DEFAULT_PATH in env.files && AsksFor(mask, n)
    requires stager.Valid() && stager.modules == null
    modifies stager, stager.heap
    ensures stager.Valid() && stager.modules == null && good
  {
    hide Provided, Inv, StagingSpec.Stage, AsksFor;
    Staging(stager.Abs(), env, m, ps, DEFAULT_PATH, mask, n);
    var result := stager.Stage(Some(DEFAULT_PATH), mask, env);
    good := result == Success && stager.count == n;
    stager.Discard();
  }

  /** The first part of check_convenience_staging. */
  method CheckHostStaging(stager: S.Stager, env: Env, ghost m: seq<M.Entry>, ghost ps: seq<seq<byte>>)
    returns (failed: int)
    requires Provided(env, m, ps) && DEFAULT_PATH in env.files
    requires stager.Valid() && stager.modules == null
    modifies stager, stager.heap
    ensures stager.Valid() && stager.modules == null && failed == 0
  {
    hide Provided, Inv, StagingSpec.Stage, StagingSpec.Restage, AsksFor, BootRequirements, Fetch, Bytes;
    HostMask();
    var mask := BootRequirements(Some(Host)) | (0x800 | 0x400);
    assert mask == 0xc02 by {
      BootMasksInNumbers(Some(Host));
    }
    Staging(stager.Abs(), env, m, ps, DEFAULT_PATH, 0xc02, 7);
    var result := stager.Stage(Some(DEFAULT_PATH), mask, env);
    if result != Success || stager.count != 7 {
      return 1;
    }
    ConsumeAll(stager);
    if stager.count != 0 || stager.bytes != 0 {
      return 2;
    }
    Restaging(stager.Abs(), env, m, ps, DEFAULT_PATH, 0xc02, 7);
    result := stager.RestageLast(env);
    if result != Success || stager.count != 7 {
      return 3;
    }
    stager.Discard();
    return 0;
  }

  /** check_convenience_staging; cwd is the directory the test runs in. */
  method CheckConvenience(stager: S.Stager, cwd: string, env: Env, ghost m: seq<M.Entry>, ghost ps: seq<seq<byte>>)
    returns (failed: int)
    requires Provided(env, m, ps) && DEFAULT_PATH in env.files && BootDeviceOf(cwd) == None
    requires stager.Valid() && stager.modules == null
    modifies stager, stager.heap
    ensures stager.Valid() && stager.modules == null && failed == 0
  {
    hide Provided, Inv, StagingSpec.Stage, StagingSpec.Restage, AsksFor, BootDeviceOf, BootRequirements, Expand;
    failed := CheckHostStaging(stager, env, m, ps);
    if failed != 0 {
      return;
    }
    MemoryCards();
    BootMasksInNumbers(Some(Mc0));
    MemoryCardMask();
    var forPath := RequirementsForPath(Some("mc0:/apps/test.elf"), 0x400);
    if forPath.None? {
      return 4;
    }
    var good := StageDefault(stager, forPath.value, 7, env, m, ps);
    if !good {
      return 4;
    }
    NowhereMask();
    BootMasksInNumbers(None);
    var forBoot := RequirementsForPath(Some(cwd), 0x400);
    if forBoot.None? {
      return 5;
    }
    good := StageDefault(stager, forBoot.value, 5, env, m, ps);
    if !good {
      return 5;
    }
    AllWithAudio();
    good := StageDefault(stager, 0x13e6 | 0x800, 18, env, m, ps);
    if !good {
      return 6;
    }
    stager.Forget();
    NothingRemembered(stager.Abs(), env);
    var result := stager.RestageLast(env);
    if result != NoSource {
      return 7;
    }
    return 0;
  }

  /** A stage that fails to open its image does not replace the remembered one. */
  method CheckFailedStage(stager: S.Stager, path: Path, env: Env, ghost m: seq<M.Entry>, ghost ps: seq<seq<byte>>)
    returns (failed: int)
    requires Provided(env, m, ps) && path in env.files && MISSING_PATH !in env.files
    requires stager.Valid() && stager.modules == null && stager.Abs().path == Some(path)
    modifies stager, stager.heap
    ensures stager.Valid() && stager.modules == null && failed == 0
  {
    hide Provided, Inv, StagingSpec.Stage, StagingSpec.Restage, AsksFor;
    CalmOf(env, m, ps);
    MissingImage(stager.Abs(), env, MISSING_PATH);
    var result := stager.Stage(Some(MISSING_PATH), 0x400, env);
    if result != OpenFailed {
      return 190;
    }
    CaseAsks(10);
    Restaging(stager.Abs(), env, m, ps, path, 0x400, 3);
    result := stager.Restage(0x400, env);
    if result != Success || stager.count != 3 {
      return 191;
    }
    stager.Discard();
    return 0;
  }

  lemma CalmOf(env: Env, m: seq<M.Entry>, ps: seq<seq<byte>>)
    requires Provided(env, m, ps)
    ensures env.Calm()
  {
  }

  /** main, with the path of the image as its argument. */
  method Test(path: Path, cwd: string, env: Env, ghost m: seq<M.Entry>, ghost ps: seq<seq<byte>>)
    returns (status: int)
    requires Provided(env, m, ps) && path in env.files && DEFAULT_PATH in env.files && MISSING_PATH !in env.files
    requires BootDeviceOf(cwd) == None
    ensures status == 0
  {
    hide Provided, Inv, StagingSpec.Stage, StagingSpec.Restage, AsksFor, BootDeviceOf;
    var failed := CheckBootHelpers();
    if failed != 0 {
      return 4;
    }
    var stager := new S.Stager();
    NothingRemembered(stager.Abs(), env);
    var result := stager.Restage(0x400, env);
    var second := stager.RestageLast(env);
    if result != NoSource || second != NoSource {
      return 5;
    }
    for i := 0 to 21
      invariant fresh(stager) && fresh(stager.heap) && stager.Valid() && stager.modules == null
      invariant i > 0 ==> stager.Abs().path == Some(path)
    {
      CaseAsks(i);
      failed := RunCase(stager, path, CASES[i].0, CASES[i].1, env, m, ps);
      if failed != 0 {
        return failed + i;
      }
    }
    failed := CheckFailedStage(stager, path, env, m, ps);
    if failed != 0 {
      return failed;
    }
    stager.Forget();
    NothingRemembered(stager.Abs(), env);
    result := stager.Restage(0x400, env);
    second := stager.RestageLast(env);
    if result != NoSource || second != NoSource {
      return 200;
    }
    failed := CheckConvenience(stager, cwd, env, m, ps);
    if failed != 0 {
      return 201;
    }
    return 0;
  }

  lemma NothingRemembered(s: State, env: Env)
    requires s.path.None?
    ensures Restage(s, 0x400, env) == (s, NoSource) && RestageLast(s, env) == (s, NoSource)
  {
    hide Fetch;
  }

  /** A path that cannot be opened; everything else is in order. */
  lemma MissingImage(s: State, env: Env, path: Path)
    requires Inv(s) && s.slots.None? && env.Calm() && path !in env.files
    ensures Stage(s, Some(path), 0x400, env) == (s, OpenFailed)
  {
    hide Expand, Wanted;
    SomethingWanted(0x400);
  }
}
