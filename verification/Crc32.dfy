/**
  CRC-32 as the host tool and the runtime compute it: one bit at a time,
  reflected, with polynomial 0xEDB88320.
 */
module Crc32 {
  import opened Words
  import opened Bitwise

  const POLY: u32 := 0xedb8_8320
  const ALL_ONES: u32 := 0xffff_ffff

  function Xor32(a: u32, b: u32): (r: u32)
    ensures r == Xor(a, b)
  {
    Pow2Word();
    XorBelow(a, b, 32);
    Xor(a, b)
  }

  /** ~crc */
  function Not(crc: u32): u32 {
    ALL_ONES - crc
  }

  /** One turn of the inner loop: the mask keeps the polynomial when the low bit is set. */
  function BitStep(crc: u32): u32 {
    Xor32(crc / 2, if crc % 2 == 1 then POLY else 0)
  }

  function BitSteps(crc: u32, n: nat): u32 {
    if n == 0 then crc else BitStep(BitSteps(crc, n - 1))
  }

  function Absorb(crc: u32, b: byte): u32 {
    BitSteps(Xor32(crc, b), 8)
  }

  function Register(crc: u32, data: seq<byte>): u32 {
    if data == [] then crc else Absorb(Register(crc, data[..|data| - 1]), data[|data| - 1])
  }

  function Update(crc: u32, data: seq<byte>): u32 {
    Not(Register(Not(crc), data))
  }

  /** The value an image records for a payload. */
  function Crc(data: seq<byte>): u32 {
    Update(0, data)
  }

  // ---- the two loops ----

  method UpdateLoop(start: u32, data: seq<byte>) returns (crc: u32)
    ensures crc == Update(start, data)
  {
    crc := Not(start);
    for i := 0 to |data|
      invariant crc == Register(Not(start), data[..i])
    {
      crc := Xor32(crc, data[i]);
      ghost var absorbed := crc;
      for bit := 0 to 8
        invariant crc == BitSteps(absorbed, bit)
      {
        var mask := if crc % 2 == 1 then POLY else 0;
        crc := Xor32(crc / 2, mask);
      }
      assert data[..i + 1][..i] == data[..i];
    }
    assert data[..|data|] == data;
    crc := Not(crc);
  }

  /** The runtime's own copy of the loop; it starts from all ones and takes no running value. */
  method BytesLoop(data: seq<byte>) returns (crc: u32)
    ensures crc == Crc(data)
  {
    crc := ALL_ONES;
    for i := 0 to |data|
      invariant crc == Register(ALL_ONES, data[..i])
    {
      crc := Xor32(crc, data[i]);
      ghost var absorbed := crc;
      for bit := 0 to 8
        invariant crc == BitSteps(absorbed, bit)
      {
        var mask := if crc % 2 == 1 then POLY else 0;
        crc := Xor32(crc / 2, mask);
      }
      assert data[..i + 1][..i] == data[..i];
    }
    assert data[..|data|] == data;
    crc := Not(crc);
  }

  // ---- chunking ----

  lemma {:induction false} RegisterComposes(crc: u32, a: seq<byte>, b: seq<byte>)
    ensures Register(crc, a + b) == Register(Register(crc, a), b)
  {
    if b == [] {
      assert a + b == a;
    } else {
      assert (a + b)[..|a + b| - 1] == a + b[..|b| - 1];
      RegisterComposes(crc, a, b[..|b| - 1]);
    }
  }

  /** Feeding a and then b is feeding a + b, whatever the running value. */
  lemma UpdateComposes(crc: u32, a: seq<byte>, b: seq<byte>)
    ensures Update(Update(crc, a), b) == Update(crc, a + b)
  {
    RegisterComposes(Not(crc), a, b);
  }

  // ---- the register step is linear and one-to-one ----

  lemma BitStepLinear(a: u32, b: u32)
    ensures BitStep(Xor32(a, b)) == Xor32(BitStep(a), BitStep(b))
  {
    var p := if a % 2 == 1 then POLY else 0;
    var q := if b % 2 == 1 then POLY else 0;
    XorStep(a, b);
    XorExchange(a / 2, p, b / 2, q);
    XorZero(POLY);
  }

  lemma {:induction false} BitStepsLinear(a: u32, b: u32, n: nat)
    ensures BitSteps(Xor32(a, b), n) == Xor32(BitSteps(a, n), BitSteps(b, n))
  {
    if n != 0 {
      BitStepsLinear(a, b, n - 1);
      BitStepLinear(BitSteps(a, n - 1), BitSteps(b, n - 1));
    }
  }

  /** The polynomial has its top bit set, so the bit shifted out can be read off the result. */
  lemma BitStepTop(a: u32)
    ensures BitStep(a) >= 0x8000_0000 <==> a % 2 == 1
  {
    Pow2Word();
    if a % 2 == 1 {
      XorTopBit(a / 2, POLY, 31);
    } else {
      XorZero(a / 2);
    }
  }

  lemma BitStepInjective(a: u32, b: u32)
    requires BitStep(a) == BitStep(b)
    ensures a == b
  {
    BitStepTop(a);
    BitStepTop(b);
    XorCancels(a / 2, b / 2, if a % 2 == 1 then POLY else 0);
  }

  lemma {:induction false} BitStepsInjective(a: u32, b: u32, n: nat)
    requires BitSteps(a, n) == BitSteps(b, n)
    ensures a == b
  {
    if n != 0 {
      BitStepInjective(BitSteps(a, n - 1), BitSteps(b, n - 1));
      BitStepsInjective(a, b, n - 1);
    }
  }

  // ---- the message as a string of bits, low bit of each byte first ----

  function BitValue(bits: seq<bool>): nat {
    if bits == [] then 0
    else BitValue(bits[..|bits| - 1]) + if bits[|bits| - 1] then Pow2(|bits| - 1) else 0
  }

  lemma {:induction false} BitValueBelow(bits: seq<bool>)
    ensures BitValue(bits) < Pow2(|bits|)
  {
    if bits != [] {
      BitValueBelow(bits[..|bits| - 1]);
    }
  }

  lemma {:induction false} BitValueInjective(a: seq<bool>, b: seq<bool>)
    requires |a| == |b| && BitValue(a) == BitValue(b)
    ensures a == b
  {
    if a != [] {
      var n := |a| - 1;
      BitValueBelow(a[..n]);
      BitValueBelow(b[..n]);
      BitValueInjective(a[..n], b[..n]);
      assert a == a[..n] + [a[n]] && b == b[..n] + [b[n]];
    }
  }

  function BitRegister(crc: u32, bits: seq<bool>): u32 {
    if bits == [] then crc
    else BitStep(Xor32(BitRegister(crc, bits[..|bits| - 1]), if bits[|bits| - 1] then 1 else 0))
  }

  /** While only zeros are shifted out, n steps are a plain shift by n. */
  lemma {:induction false} ShiftsOut(y: nat, n: nat)
    requires Shl(y, n) < 0x1_0000_0000
    ensures BitSteps(Shl(y, n), n) == y
  {
    if n != 0 {
      ShiftsOut(y, n - 1);
      EvenStep(Shl(y, n - 1));
      BitStepsFirst(Shl(y, n), n);
    }
  }

  lemma EvenStep(x: nat)
    requires 2 * x < 0x1_0000_0000
    ensures BitStep(2 * x) == x
  {
    XorZero(x);
  }

  lemma {:induction false} BitStepsFirst(x: u32, n: nat)
    requires n > 0
    ensures BitSteps(x, n) == BitSteps(BitStep(x), n - 1)
  {
    if n > 1 {
      BitStepsFirst(x, n - 1);
    }
  }

  /** A bit that arrives after n steps could have been xored in at position n before them. */
  lemma AbsorbEarly(crc: u32, low: nat, n: nat, bit: nat)
    requires n < 32 && low < Pow2(n) && bit <= 1
    ensures Shl(bit, n) + low < 0x1_0000_0000
    ensures Xor32(BitSteps(Xor32(crc, low), n), bit) == BitSteps(Xor32(crc, low + Shl(bit, n)), n)
  {
    Pow2Word();
    Pow2Monotone(n, 31);
    ShlBit(bit, n);
    var high: u32 := Shl(bit, n);
    ShiftsOut(bit, n);
    BitStepsLinear(Xor32(crc, low), high, n);
    XorAssociates(crc, low, high);
    XorDisjoint(low, bit, n);
  }

  lemma {:induction false} ShlBit(bit: nat, n: nat)
    requires bit <= 1
    ensures Shl(bit, n) == if bit == 1 then Pow2(n) else 0
  {
    if n != 0 {
      ShlBit(bit, n - 1);
    }
  }

  /**
    Up to 32 message bits may be xored into the register at once before any
    step is taken: absorbing bytes one at a time is absorbing their
    little-endian word.
   */
  lemma {:induction false} AbsorbWord(crc: u32, bits: seq<bool>)
    requires |bits| <= 32
    ensures BitValue(bits) < 0x1_0000_0000
    ensures BitRegister(crc, bits) == BitSteps(Xor32(crc, BitValue(bits)), |bits|)
  {
    if bits == [] {
      XorZero(crc);
    } else {
      var n := |bits| - 1;
      AbsorbWord(crc, bits[..n]);
      BitValueBelow(bits[..n]);
      ShlBit(if bits[n] then 1 else 0, n);
      AbsorbEarly(crc, BitValue(bits[..n]), n, if bits[n] then 1 else 0);
    }
  }

  function NatBits(v: nat, n: nat): (bits: seq<bool>)
    requires v < Pow2(n)
    ensures |bits| == n && BitValue(bits) == v
  {
    if n == 0 then []
    else
      var p := Pow2(n - 1);
      var rest := NatBits(if v >= p then v - p else v, n - 1);
      var bits := rest + [v >= p];
      assert bits[..n - 1] == rest;
      bits
  }

  function ByteBits(b: byte): (bits: seq<bool>)
    ensures |bits| == 8 && BitValue(bits) == b
  {
    Pow2Word();
    NatBits(b, 8)
  }

  function BitsOf(data: seq<byte>): (bits: seq<bool>)
    ensures |bits| == 8 * |data|
  {
    if data == [] then [] else BitsOf(data[..|data| - 1]) + ByteBits(data[|data| - 1])
  }

  lemma BitsOfSnoc(a: seq<byte>, x: byte)
    ensures BitsOf(a + [x]) == BitsOf(a) + ByteBits(x)
  {
    assert (a + [x])[..|a|] == a;
  }

  lemma {:induction false} BitsOfAppend(a: seq<byte>, b: seq<byte>)
    ensures BitsOf(a + b) == BitsOf(a) + BitsOf(b)
  {
    if b == [] {
      assert a + b == a;
    } else {
      var init, x := b[..|b| - 1], b[|b| - 1];
      assert b == init + [x] && a + b == (a + init) + [x];
      BitsOfAppend(a, init);
      BitsOfSnoc(a + init, x);
      BitsOfSnoc(init, x);
    }
  }

  lemma SplitBits(a: seq<bool>, b: seq<bool>, c: seq<bool>, d: seq<bool>)
    requires a + b == c + d && |a| == |c|
    ensures a == c && b == d
  {
    assert a == (a + b)[..|a|] && b == (a + b)[|a|..];
    assert c == (c + d)[..|c|] && d == (c + d)[|c|..];
  }

  lemma {:induction false} BitsOfInjective(a: seq<byte>, b: seq<byte>)
    requires |a| == |b| && BitsOf(a) == BitsOf(b)
    ensures a == b
  {
    if a != [] {
      var n := |a| - 1;
      SplitBits(BitsOf(a[..n]), ByteBits(a[n]), BitsOf(b[..n]), ByteBits(b[n]));
      BitsOfInjective(a[..n], b[..n]);
      assert a == a[..n] + [a[n]] && b == b[..n] + [b[n]];
    }
  }

  lemma {:induction false} BitRegisterComposes(crc: u32, a: seq<bool>, b: seq<bool>)
    ensures BitRegister(crc, a + b) == BitRegister(BitRegister(crc, a), b)
  {
    if b == [] {
      assert a + b == a;
    } else {
      assert (a + b)[..|a + b| - 1] == a + b[..|b| - 1];
      BitRegisterComposes(crc, a, b[..|b| - 1]);
    }
  }

  lemma {:induction false} RegisterReadsBits(crc: u32, data: seq<byte>)
    ensures Register(crc, data) == BitRegister(crc, BitsOf(data))
  {
    if data != [] {
      var n := |data| - 1;
      RegisterReadsBits(crc, data[..n]);
      BitRegisterComposes(crc, BitsOf(data[..n]), ByteBits(data[n]));
      AbsorbWord(Register(crc, data[..n]), ByteBits(data[n]));
    }
  }

  lemma {:induction false} BitRegisterInjective(s: u32, t: u32, bits: seq<bool>)
    requires BitRegister(s, bits) == BitRegister(t, bits)
    ensures s == t
  {
    if bits != [] {
      var n := |bits| - 1;
      var x, y := BitRegister(s, bits[..n]), BitRegister(t, bits[..n]);
      var b: u32 := if bits[n] then 1 else 0;
      BitStepInjective(Xor32(x, b), Xor32(y, b));
      XorCancels(x, y, b);
      BitRegisterInjective(s, t, bits[..n]);
    }
  }

  // ---- burst detection ----

  lemma WordDetected(crc: u32, x: seq<bool>, y: seq<bool>)
    requires |x| == |y| <= 32
    requires BitRegister(crc, x) == BitRegister(crc, y)
    ensures x == y
  {
    AbsorbWord(crc, x);
    AbsorbWord(crc, y);
    BitStepsInjective(Xor32(crc, BitValue(x)), Xor32(crc, BitValue(y)), |x|);
    XorCommutes(crc, BitValue(x));
    XorCommutes(crc, BitValue(y));
    XorCancels(BitValue(x), BitValue(y), crc);
    BitValueInjective(x, y);
  }

  lemma BitBurst(crc: u32, p: seq<bool>, x: seq<bool>, y: seq<bool>, q: seq<bool>)
    requires |x| == |y| <= 32
    requires BitRegister(crc, (p + x) + q) == BitRegister(crc, (p + y) + q)
    ensures x == y
  {
    BitRegisterComposes(crc, p + x, q);
    BitRegisterComposes(crc, p + y, q);
    BitRegisterInjective(BitRegister(crc, p + x), BitRegister(crc, p + y), q);
    BitRegisterComposes(crc, p, x);
    BitRegisterComposes(crc, p, y);
    WordDetected(BitRegister(crc, p), x, y);
  }

  lemma Cut(x: seq<bool>, from: nat, to: nat)
    requires from <= to <= |x|
    ensures x == (x[..from] + x[from..to]) + x[to..]
  {
  }

  /**
    Any damage confined to 32 consecutive bits, wherever they start, changes
    the CRC.
   */
  lemma BurstDetected(a: seq<byte>, b: seq<byte>, from: nat, to: nat)
    requires |a| == |b| && a != b
    requires from <= to <= from + 32 && to <= 8 * |a|
    requires BitsOf(a)[..from] == BitsOf(b)[..from] && BitsOf(a)[to..] == BitsOf(b)[to..]
    ensures Crc(a) != Crc(b)
  {
    var x, y := BitsOf(a), BitsOf(b);
    RegisterReadsBits(ALL_ONES, a);
    RegisterReadsBits(ALL_ONES, b);
    Cut(x, from, to);
    Cut(y, from, to);
    if Crc(a) == Crc(b) {
      BitBurst(ALL_ONES, x[..from], x[from..to], y[from..to], x[to..]);
      BitsOfInjective(a, b);
    }
  }

  /** The whole-byte case: a change within four consecutive bytes. */
  lemma FourByteBurstDetected(before: seq<byte>, x: seq<byte>, y: seq<byte>, after: seq<byte>)
    requires |x| == |y| <= 4 && x != y
    ensures Crc(before + x + after) != Crc(before + y + after)
  {
    var a, b := before + x + after, before + y + after;
    BitsOfAppend(before + x, after);
    BitsOfAppend(before, x);
    BitsOfAppend(before + y, after);
    BitsOfAppend(before, y);
    assert a[|before|..|before| + |x|] == x && b[|before|..|before| + |x|] == y;
    var from, to := 8 * |before|, 8 * (|before| + |x|);
    assert BitsOf(a)[..from] == BitsOf(before) == BitsOf(b)[..from];
    assert BitsOf(a)[to..] == BitsOf(after) == BitsOf(b)[to..];
    BurstDetected(a, b, from, to);
  }
}
