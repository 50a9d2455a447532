/**
  The driver requirement mask and its expansion into module ids.
 */
module Requirements {
  import opened ImageConstants

  datatype Driver =
    | Sio2man | FileXio | Memcard | Bdm | Usbd | Usb | Mx4sio | Cdfs | Dev9 | Hdd
    | Joystick | Audio | Poweroff | Mouse | Keyboard | Camera | Netman | Smap | Eeip | Iopip

  const KNOWN_MASK: bv32 := 0x000f_ffff

  // ---- module ids of the canonical manifest ----

  const SIO2MAN := 1
  const IOMANX := 2
  const FILEXIO := 3
  const MCMAN := 4
  const MCSERV := 5
  const BDM := 6
  const BDMFS_FATFS := 7
  const USBD := 8
  const USBMASS_BD := 9
  const MX4SIO_BD := 10
  const CDFS := 11
  const PS2DEV9 := 12
  const PS2ATAD := 13
  const PS2HDD := 14
  const PS2FS := 15
  const MTAPMAN := 16
  const PADMAN := 17
  const LIBSD := 18
  const AUDSRV := 19
  const POWEROFF := 20
  const PS2MOUSE := 21
  const PS2KBD := 22
  const PS2CAM := 23
  const NETMAN := 24
  const SMAP := 25
  const PS2IP_NM := 26
  const PS2IPS := 27

  /** The requirement bit of a driver. */
  function Bit(d: Driver): bv32 {
    match d
    case Sio2man => 0x1
    case FileXio => 0x2
    case Memcard => 0x4
    case Bdm => 0x8
    case Usbd => 0x10
    case Usb => 0x20
    case Mx4sio => 0x40
    case Cdfs => 0x80
    case Dev9 => 0x100
    case Hdd => 0x200
    case Joystick => 0x400
    case Audio => 0x800
    case Poweroff => 0x1000
    case Mouse => 0x2000
    case Keyboard => 0x4000
    case Camera => 0x8000
    case Netman => 0x1_0000
    case Smap => 0x2_0000
    case Eeip => 0x4_0000
    case Iopip => 0x8_0000
  }

  predicate Tests(mask: bv32, bits: bv32) {
    mask & bits != 0
  }

  predicate Has(mask: bv32, d: Driver) {
    Tests(mask, Bit(d))
  }

  /** A mask with bits no driver owns. */
  predicate Unknown(mask: bv32) {
    Tests(mask, !KNOWN_MASK)
  }

  /** The modules the requirement table lists for a driver. */
  function Marks(d: Driver): seq<nat> {
    match d
    case Sio2man => [SIO2MAN]
    case FileXio => [IOMANX, FILEXIO]
    case Memcard => [SIO2MAN, MCMAN, MCSERV]
    case Bdm => [BDM, BDMFS_FATFS]
    case Usbd => [USBD]
    case Usb => [BDM, BDMFS_FATFS, USBD, USBMASS_BD]
    case Mx4sio => [SIO2MAN, BDM, BDMFS_FATFS, MX4SIO_BD]
    case Cdfs => [CDFS]
    case Dev9 => [PS2DEV9]
    case Hdd => [IOMANX, FILEXIO, BDM, BDMFS_FATFS, PS2DEV9, PS2ATAD, PS2HDD, PS2FS]
    case Joystick => [SIO2MAN, MTAPMAN, PADMAN]
    case Audio => [LIBSD, AUDSRV]
    case Poweroff => [POWEROFF]
    case Mouse => [USBD, PS2MOUSE]
    case Keyboard => [USBD, PS2KBD]
    case Camera => [USBD, PS2CAM]
    case Netman => [NETMAN]
    case Smap => [SMAP]
    case Eeip => [PS2DEV9, NETMAN, SMAP]
    case Iopip => [PS2DEV9, NETMAN, SMAP, PS2IP_NM, PS2IPS]
  }

  /** Those modules as a set. */
  function MarkSet(d: Driver): set<nat> {
    set id | id in Marks(d)
  }

  /** The modules a mask asks for. */
  function Expand(mask: bv32): set<nat> {
    set d: Driver, id | Has(mask, d) && id in Marks(d) :: id
  }

  // ---- laws of the expansion ----

  lemma OrAnd(a: bv32, b: bv32, c: bv32)
    ensures (a | b) & c == (a & c) | (b & c)
  {
  }

  lemma OrZero(x: bv32, y: bv32)
    ensures x | y == 0 <==> x == 0 && y == 0
  {
  }

  lemma TestOr(a: bv32, b: bv32, c: bv32)
    ensures Tests(a | b, c) <==> Tests(a, c) || Tests(b, c)
  {
    OrAnd(a, b, c);
    OrZero(a & c, b & c);
  }

  lemma HasOr(a: bv32, b: bv32, d: Driver)
    ensures Has(a | b, d) <==> Has(a, d) || Has(b, d)
  {
    hide Bit, Tests;
    TestOr(a, b, Bit(d));
  }

  lemma UnknownOr(a: bv32, b: bv32)
    ensures Unknown(a | b) <==> Unknown(a) || Unknown(b)
  {
    hide Tests;
    TestOr(a, b, !KNOWN_MASK);
  }

  /** Requirements combine by union. */
  lemma ExpandUnion(a: bv32, b: bv32)
    ensures Expand(a | b) == Expand(a) + Expand(b)
  {
    forall id
      ensures id in Expand(a | b) <==> id in Expand(a) || id in Expand(b)
    {
      forall d: Driver
        ensures Has(a | b, d) <==> Has(a, d) || Has(b, d)
      {
        HasOr(a, b, d);
      }
    }
  }

  /** The mask with one more driver's bit. */
  function With(mask: bv32, d: Driver): bv32 {
    mask | Bit(d)
  }

  lemma BitsDiffer(d: Driver, e: Driver)
    ensures Has(Bit(d), e) <==> e == d
  {
  }

  lemma ExpandBit(d: Driver)
    ensures Expand(Bit(d)) == MarkSet(d)
  {
    hide Marks;
    forall e: Driver
      ensures Has(Bit(d), e) <==> e == d
    {
      BitsDiffer(d, e);
    }
  }

  lemma ExpandWith(mask: bv32, d: Driver)
    ensures Expand(With(mask, d)) == Expand(mask) + MarkSet(d)
  {
    hide Expand, Bit, MarkSet;
    ExpandUnion(mask, Bit(d));
    ExpandBit(d);
  }

  /** The id every driver's list certainly holds. */
  function Witness(d: Driver): (id: nat)
    ensures id in Marks(d)
  {
    match d
    case Sio2man => SIO2MAN
    case FileXio => FILEXIO
    case Memcard => MCMAN
    case Bdm => BDM
    case Usbd => USBD
    case Usb => USBMASS_BD
    case Mx4sio => MX4SIO_BD
    case Cdfs => CDFS
    case Dev9 => PS2DEV9
    case Hdd => PS2HDD
    case Joystick => PADMAN
    case Audio => AUDSRV
    case Poweroff => POWEROFF
    case Mouse => PS2MOUSE
    case Keyboard => PS2KBD
    case Camera => PS2CAM
    case Netman => NETMAN
    case Smap => SMAP
    case Eeip => SMAP
    case Iopip => PS2IPS
  }

  lemma NoBitSet(m: bv32)
    requires m & 0x1 == 0 && m & 0x2 == 0 && m & 0x4 == 0 && m & 0x8 == 0 && m & 0x10 == 0 && m & 0x20 == 0 &&
             m & 0x40 == 0
    requires m & 0x80 == 0 && m & 0x100 == 0 && m & 0x200 == 0 && m & 0x400 == 0 && m & 0x800 == 0 && m & 0x1000 == 0
    requires m & 0x2000 == 0 && m & 0x4000 == 0 && m & 0x8000 == 0 && m & 0x1_0000 == 0 && m & 0x2_0000 == 0
    requires m & 0x4_0000 == 0 && m & 0x8_0000 == 0 && m & !0x000f_ffff == 0
    ensures m == 0
  {
  }

  lemma NoDriverNoMask(mask: bv32)
    requires !Unknown(mask) && forall d :: !Has(mask, d)
    ensures mask == 0
  {
    assert !Has(mask, Sio2man) && !Has(mask, FileXio) && !Has(mask, Memcard) && !Has(mask, Bdm) && !Has(mask, Usbd);
    assert !Has(mask, Usb) && !Has(mask, Mx4sio) && !Has(mask, Cdfs) && !Has(mask, Dev9) && !Has(mask, Hdd);
    assert !Has(mask, Joystick) && !Has(mask, Audio) && !Has(mask, Poweroff) && !Has(mask, Mouse) &&
           !Has(mask, Keyboard);
    assert !Has(mask, Camera) && !Has(mask, Netman) && !Has(mask, Smap) && !Has(mask, Eeip) && !Has(mask, Iopip);
    NoBitSet(mask);
  }

  /** A mask the API accepts always asks for something. */
  lemma ExpandNonEmpty(mask: bv32)
    requires mask != 0 && !Unknown(mask)
    ensures Expand(mask) != {}
  {
    hide Has, Marks;
    if forall d :: !Has(mask, d) {
      NoDriverNoMask(mask);
    }
    var d :| Has(mask, d);
    assert Witness(d) in Expand(mask);
  }

  lemma ExpandInRange(mask: bv32)
    ensures forall id :: id in Expand(mask) ==> 1 <= id <= 27
  {
    hide Has;
  }

  // ---- the table as the source writes it ----

  /** The array marks exactly the given ids. */
  ghost predicate Marked(requested: array<bool>, ids: set<nat>)
    requires requested.Length == MAX_ENTRIES + 1
    reads requested
  {
    forall i :: 0 <= i <= MAX_ENTRIES ==> (requested[i] <==> i in ids)
  }

  method MarkModule(requested: array<bool>, id: nat, ghost ids: set<nat>) returns (ghost more: set<nat>)
    requires requested.Length == MAX_ENTRIES + 1 && Marked(requested, ids)
    modifies requested
    ensures more == ids + {id} && Marked(requested, more)
  {
    if id <= MAX_ENTRIES {
      requested[id] := true;
    }
    more := ids + {id};
  }

  /** The contribution of one driver. */
  ghost function Part(mask: bv32, d: Driver): set<nat> {
    if Has(mask, d) then MarkSet(d) else {}
  }

  ghost function Parts(mask: bv32, ds: seq<Driver>): set<nat> {
    if ds == [] then {} else Parts(mask, ds[..|ds| - 1]) + Part(mask, ds[|ds| - 1])
  }

  lemma PartsStep(mask: bv32, ds: seq<Driver>, d: Driver)
    ensures Parts(mask, ds + [d]) == Parts(mask, ds) + Part(mask, d)
  {
    assert (ds + [d])[..|ds|] == ds;
  }

  lemma {:induction false} PartsHold(mask: bv32, ds: seq<Driver>, id: nat)
    ensures id in Parts(mask, ds) <==> exists i :: 0 <= i < |ds| && id in Part(mask, ds[i])
  {
    hide Part;
    if ds != [] {
      PartsHold(mask, ds[..|ds| - 1], id);
    }
  }

  /** Every driver once, in the order of the source's blocks. */
  const ORDER: seq<Driver> :=
    [Sio2man, FileXio, Memcard, Bdm, Usbd, Usb, Mx4sio, Cdfs, Dev9, Hdd,
     Joystick, Audio, Poweroff, Mouse, Keyboard, Camera, Netman, Smap, Eeip, Iopip]

  lemma OrderIsComplete(d: Driver)
    ensures d in ORDER
  {
    var order := ORDER;
    match d
    case Sio2man => assert order[0] == Sio2man;
    case FileXio => assert order[1] == FileXio;
    case Memcard => assert order[2] == Memcard;
    case Bdm => assert order[3] == Bdm;
    case Usbd => assert order[4] == Usbd;
    case Usb => assert order[5] == Usb;
    case Mx4sio => assert order[6] == Mx4sio;
    case Cdfs => assert order[7] == Cdfs;
    case Dev9 => assert order[8] == Dev9;
    case Hdd => assert order[9] == Hdd;
    case Joystick => assert order[10] == Joystick;
    case Audio => assert order[11] == Audio;
    case Poweroff => assert order[12] == Poweroff;
    case Mouse => assert order[13] == Mouse;
    case Keyboard => assert order[14] == Keyboard;
    case Camera => assert order[15] == Camera;
    case Netman => assert order[16] == Netman;
    case Smap => assert order[17] == Smap;
    case Eeip => assert order[18] == Eeip;
    case Iopip => assert order[19] == Iopip;
  }

  lemma PartsOfAll(mask: bv32)
    ensures Parts(mask, ORDER) == Expand(mask)
  {
    hide Has, Marks;
    forall id
      ensures id in Parts(mask, ORDER) <==> id in Expand(mask)
    {
      PartsHold(mask, ORDER, id);
      if id in Expand(mask) {
        var d: Driver :| Has(mask, d) && id in Marks(d);
        OrderIsComplete(d);
      }
    }
  }

  /**
    expand_requirements: what it leaves marked is the expansion of the mask.
    The source spells the blocks out one after the other; here they are the
    rows of Marks, taken in the source's order.
   */
  method ExpandRequirements(mask: bv32, requested: array<bool>)
    requires requested.Length == MAX_ENTRIES + 1
    requires forall i :: 0 <= i <= MAX_ENTRIES ==> !requested[i]
    modifies requested
    ensures Marked(requested, Expand(mask))
  {
    hide Has, Marks, Marked, Parts;
    ghost var ids := NothingMarked(requested, mask);
    for k := 0 to |ORDER|
      invariant ids == Parts(mask, ORDER[..k]) && Marked(requested, ids)
    {
      var d := ORDER[k];
      if Has(mask, d) {
        ids := MarkAll(requested, Marks(d), ids);
      }
      PartsStep(mask, ORDER[..k], d);
      assert ORDER[..k + 1] == ORDER[..k] + [d];
    }
    assert ORDER[..|ORDER|] == ORDER;
    PartsOfAll(mask);
  }

  lemma NothingMarked(requested: array<bool>, mask: bv32) returns (ids: set<nat>)
    requires requested.Length == MAX_ENTRIES + 1
    requires forall i :: 0 <= i <= MAX_ENTRIES ==> !requested[i]
    ensures ids == {} == Parts(mask, ORDER[..0]) && Marked(requested, ids)
  {
    ids := {};
  }

  method MarkAll(requested: array<bool>, row: seq<nat>, ghost ids: set<nat>) returns (ghost more: set<nat>)
    requires requested.Length == MAX_ENTRIES + 1 && Marked(requested, ids)
    modifies requested
    ensures more == ids + (set id | id in row) && Marked(requested, more)
  {
    hide Marked;
    more := ids;
    for j := 0 to |row|
      invariant more == ids + (set id | id in row[..j]) && Marked(requested, more)
    {
      more := MarkModule(requested, row[j], more);
    }
  }
}
