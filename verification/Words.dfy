/**
  Bytes, 32-bit words and the little-endian codec shared by the packer and the
  runtime parser.  Words are integers in range; every sum or difference that
  the C code leaves to wrap is written with Add32, Sub32 or Mul32.
 */
module Words {
  import opened ImageConstants

  const LIMIT: nat := 0x1_0000_0000

  type byte = x: int | 0 <= x < 0x100
  type u32 = x: int | 0 <= x < 0x1_0000_0000

  /** What is left of an integer in 32 bits. */
  function Wrap(x: int): u32 {
    x % 0x1_0000_0000
  }

  function Add32(a: u32, b: u32): u32 {
    Wrap(a + b)
  }

  function Sub32(a: u32, b: u32): u32 {
    Wrap(a - b)
  }

  function Mul32(a: u32, b: u32): u32 {
    Wrap(a * b)
  }

  /** One turn of the wrap in either direction. */
  lemma WrapOnce(x: int)
    requires 0 - LIMIT <= x < 2 * LIMIT
    ensures Wrap(x) == if x < 0 then x + LIMIT else if x < LIMIT then x else x - LIMIT
  {
  }

  predicate OnBoundary(n: int) {
    n % 16 == 0
  }

  /** Bytes needed to bring n up to a boundary, in exact arithmetic. */
  function Padding(n: nat): (p: nat)
    ensures p < ALIGNMENT && OnBoundary(n + p)
  {
    if n % 16 == 0 then 0 else 16 - n % 16
  }

  function Aligned(n: nat): (r: nat) {
    n + Padding(n)
  }

  /** (value + 15) & ~15 in 32-bit arithmetic: the addition wraps. */
  function AlignUp(value: u32): u32 {
    var t := Add32(value, 15);
    t - t % 16
  }

  /** Without a wrap, AlignUp is the least multiple of 16 at or above its argument. */
  lemma AlignUpIsLeast(value: u32)
    requires value <= LIMIT - ALIGNMENT
    ensures AlignUp(value) == Aligned(value)
    ensures value <= AlignUp(value) && OnBoundary(AlignUp(value))
    ensures forall m: nat :: value <= m && OnBoundary(m) ==> AlignUp(value) <= m
  {
    hide Wrap;
    WrapOnce(value + 15);
    Fifteen(value);
  }

  lemma Fifteen(n: nat)
    ensures (n + 15) % 16 == if n % 16 == 0 then 15 else n % 16 - 1
  {
  }

  /** The only other case: the last fifteen words align to zero. */
  lemma AlignUpWraps(value: u32)
    ensures AlignUp(value) < value <==> value > LIMIT - ALIGNMENT
    ensures value > LIMIT - ALIGNMENT ==> AlignUp(value) == 0
    ensures AlignUp(value) == Wrap(Aligned(value))
    ensures Sub32(AlignUp(value), value) == Padding(value)
  {
    hide Wrap;
    WrapOnce(value + 15);
    WrapOnce(Aligned(value));
    Fifteen(value);
    if value > LIMIT - ALIGNMENT {
      LastWords(value);
      assert AlignUp(value) == 0;
      WrapOnce(0 - value);
    } else {
      WrapOnce(Padding(value));
    }
  }

  lemma LastWords(value: u32)
    requires value > LIMIT - ALIGNMENT
    ensures value % 16 == value - (LIMIT - ALIGNMENT)
  {
  }

  function Le(v: u32): (s: seq<byte>)
    ensures |s| == 4
  {
    [v % 0x100, v / 0x100 % 0x100, v / 0x1_0000 % 0x100, v / 0x100_0000 % 0x100]
  }

  /** The low byte comes first. */
  lemma LowByteFirst()
    ensures Le(0x1234_5678) == [0x78, 0x56, 0x34, 0x12]
  {
  }

  function WordOf(a: int, b: int, c: int, d: int): int {
    a + 0x100 * b + 0x1_0000 * c + 0x100_0000 * d
  }

  function ReadLe(s: seq<byte>, at: nat): u32
    requires at + 4 <= |s|
  {
    WordOf(s[at], s[at + 1], s[at + 2], s[at + 3])
  }

  lemma ReadOfLe(v: u32)
    ensures ReadLe(Le(v), 0) == v
  {
    Quotients(v);
    var q := v / 0x100;
    var r := q / 0x100;
    var t := r / 0x100;
    assert v == 0x100 * q + v % 0x100 && q == 0x100 * r + q % 0x100 && r == 0x100 * t + r % 0x100;
    assert Le(v) == [v % 0x100, q % 0x100, r % 0x100, t];
  }

  lemma LeOfRead(s: seq<byte>)
    requires |s| == 4
    ensures Le(ReadLe(s, 0)) == s
  {
    hide Le;
    var r2 := WordOf(s[2], s[3], 0, 0);
    var r1 := WordOf(s[1], s[2], s[3], 0);
    var v := ReadLe(s, 0);
    LowByte(s[0], r1);
    LowByte(s[1], r2);
    LowByte(s[2], s[3]);
    LeParts(v, r1, r2);
    assert Le(v) == [s[0], s[1], s[2], s[3]];
  }

  lemma LeParts(v: u32, r1: nat, r2: nat)
    requires v / 0x100 == r1 && r1 / 0x100 == r2 && r2 / 0x100 < 0x100
    ensures Le(v) == [v % 0x100, r1 % 0x100, r2 % 0x100, r2 / 0x100]
  {
    Quotients(v);
  }

  lemma LowByte(b: byte, rest: int)
    ensures (b + 0x100 * rest) % 0x100 == b && (b + 0x100 * rest) / 0x100 == rest
  {
  }

  lemma Quotients(v: nat)
    ensures v / 0x1_0000 == v / 0x100 / 0x100 && v / 0x100_0000 == v / 0x100 / 0x100 / 0x100
  {
    var q := v / 0x100;
    assert v == 0x100 * q + v % 0x100;
    var r := q / 0x100;
    assert q == 0x100 * r + q % 0x100;
    assert r == 0x100 * (r / 0x100) + r % 0x100;
  }

  /** A field that lies inside a prefix is read from it alike. */
  lemma ReadPrefix(s: seq<byte>, n: nat, at: nat)
    requires at + 4 <= n <= |s|
    ensures ReadLe(s[..n], at) == ReadLe(s, at)
  {
  }

  lemma LeInjective(v: u32, w: u32)
    requires Le(v) == Le(w)
    ensures v == w
  {
    ReadOfLe(v);
    ReadOfLe(w);
  }

  /** A field is read back from wherever its four bytes stand. */
  lemma ReadAt(s: seq<byte>, at: nat, v: u32)
    requires at + 4 <= |s|
    ensures s[at..at + 4] == Le(v) <==> ReadLe(s, at) == v
  {
    var w := s[at..at + 4];
    assert ReadLe(s, at) == ReadLe(w, 0);
    LeOfRead(w);
    ReadOfLe(v);
  }

  /** The C function stores its word into a buffer in place. */
  method WriteLe(dst: array<byte>, at: nat, value: u32)
    requires at + 4 <= dst.Length
    modifies dst
    ensures dst[..at + 4] == old(dst[..at]) + Le(value)
    ensures dst[at + 4..] == old(dst[at + 4..])
  {
    dst[at] := value % 0x100;
    dst[at + 1] := value / 0x100 % 0x100;
    dst[at + 2] := value / 0x1_0000 % 0x100;
    dst[at + 3] := value / 0x100_0000 % 0x100;
  }

  function Zeros(n: nat): (s: seq<byte>)
    ensures |s| == n
  {
    seq(n, _ => 0)
  }

  lemma ZerosAppend(m: nat, n: nat)
    ensures Zeros(m) + Zeros(n) == Zeros(m + n)
  {
  }
}
