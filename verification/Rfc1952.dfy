/**
  The table-driven CRC of section 8 of RFC 1952, with the constants of that
  section, and that the bitwise loop computes it.
 */
module Rfc1952 {
  import opened Words
  import opened Bitwise
  import opened Crc32

  function TableStep(c: u32): u32 {
    if c % 2 == 1 then Xor32(0xedb8_8320, c / 2) else c / 2
  }

  function TableSteps(c: u32, n: nat): u32 {
    if n == 0 then c else TableStep(TableSteps(c, n - 1))
  }

  /** Entry n of the table that make_crc_table fills. */
  function Table(n: byte): u32 {
    TableSteps(n, 8)
  }

  function TableRegister(c: u32, buf: seq<byte>): u32 {
    if buf == [] then c
    else
      var r := TableRegister(c, buf[..|buf| - 1]);
      Xor32(Table(Xor32(r, buf[|buf| - 1]) % 0x100), r / 0x100)
  }

  /** The update_crc of the RFC. */
  function TableUpdate(crc: u32, buf: seq<byte>): u32 {
    Xor32(TableRegister(Xor32(crc, 0xffff_ffff), buf), 0xffff_ffff)
  }

  lemma {:induction false} TableStepsAreBitSteps(c: u32, n: nat)
    ensures TableSteps(c, n) == BitSteps(c, n)
  {
    if n != 0 {
      TableStepsAreBitSteps(c, n - 1);
      var r := BitSteps(c, n - 1);
      XorCommutes(0xedb8_8320, r / 2);
      XorZero(r / 2);
    }
  }

  lemma SplitByte(x: u32)
    ensures Xor(x % 0x100, x / 0x100 * 0x100) == x
  {
    Pow2Word();
    ShlByte(x / 0x100);
    XorDisjoint(x % 0x100, x / 0x100, 8);
  }

  /** x splits into its low byte, which the table handles, and the rest, which eight steps only shift. */
  lemma ByteThroughTable(x: u32)
    ensures BitSteps(x, 8) == Xor32(Table(x % 0x100), x / 0x100)
  {
    SplitByte(x);
    BitStepsLinear(x % 0x100, x / 0x100 * 0x100, 8);
    ShlByte(x / 0x100);
    ShiftsOut(x / 0x100, 8);
    TableStepsAreBitSteps(x % 0x100, 8);
  }

  /** Xoring a byte in leaves the upper three bytes alone. */
  lemma ByteLeavesHigh(c: u32, b: byte)
    ensures Xor32(c, b) / 0x100 == c / 0x100
  {
    var low, high := c % 0x100, c / 0x100;
    SplitByte(c);
    XorCommutes(low, high * 0x100);
    XorAssociates(high * 0x100, low, b);
    XorCommutes(high * 0x100, Xor(low, b));
    Pow2Word();
    XorBelow(low, b, 8);
    ShlByte(high);
    XorDisjoint(Xor(low, b), high, 8);
  }

  lemma {:induction false} NotIsXor(c: nat, n: nat)
    requires c < Pow2(n)
    ensures Xor(c, Pow2(n) - 1) == Pow2(n) - 1 - c
  {
    if n != 0 {
      XorStep(c, Pow2(n) - 1);
      NotIsXor(c / 2, n - 1);
    }
  }

  lemma XorAllOnes(c: u32)
    ensures Xor32(c, ALL_ONES) == Not(c)
  {
    Pow2Word();
    NotIsXor(c, 32);
  }

  lemma {:induction false} RegisterByTable(c: u32, buf: seq<byte>)
    ensures TableRegister(c, buf) == Register(c, buf)
  {
    if buf != [] {
      var n := |buf| - 1;
      RegisterByTable(c, buf[..n]);
      var r := Register(c, buf[..n]);
      ByteThroughTable(Xor32(r, buf[n]));
      ByteLeavesHigh(r, buf[n]);
    }
  }

  /** The bitwise loop computes the CRC the RFC specifies, from any running value. */
  lemma MatchesRfc1952(crc: u32, buf: seq<byte>)
    ensures Update(crc, buf) == TableUpdate(crc, buf)
  {
    XorAllOnes(crc);
    RegisterByTable(Not(crc), buf);
    XorAllOnes(Register(Not(crc), buf));
  }

  /** A byte that clears the register's low byte leaves the rest shifted down. */
  lemma ClearsLow(high: nat)
    requires 0x100 * high + 0xff < 0x1_0000_0000
    ensures Absorb(0x100 * high + 0xff, 0xff) == high
  {
    ShlByte(high);
    Pow2Word();
    XorDisjoint(0xff, high, 8);
    XorCommutes(0xff, 0x100 * high);
    XorAssociates(0x100 * high, 0xff, 0xff);
    XorZero(0xff);
    XorZero(0x100 * high);
    ShiftsOut(high, 8);
  }

  lemma LeavesTop()
    ensures Absorb(0xff, 0x7f) == 0xedb8_8320
  {
    Pow2Word();
    assert Shl(1, 7) == 0x80;
    XorDisjoint(0x7f, 1, 7);
    XorCommutes(0x7f, 0x80);
    XorAssociates(0x80, 0x7f, 0x7f);
    XorZero(0x7f);
    XorZero(0x80);
    ShiftsOut(1, 7);
    XorZero(0xedb8_8320);
  }

  lemma RegisterSteps(c: u32, s: seq<byte>, i: nat)
    requires i < |s|
    ensures Register(c, s[..i + 1]) == Absorb(Register(c, s[..i]), s[i])
  {
    assert s[..i + 1][..i] == s[..i];
  }

  /** A known answer: here the register is down to one bit before the last step. */
  lemma KnownCrc()
    ensures Crc([255, 255, 255, 127]) == 0x1247_7cdf
  {
    hide Absorb;
    ClearsLow(0xff_ffff);
    ClearsLow(0xffff);
    ClearsLow(0xff);
    LeavesTop();
    var s: seq<byte> := [255, 255, 255, 127];
    RegisterSteps(0xffff_ffff, s, 0);
    RegisterSteps(0xffff_ffff, s, 1);
    RegisterSteps(0xffff_ffff, s, 2);
    RegisterSteps(0xffff_ffff, s, 3);
    assert s[..4] == s;
  }
}
