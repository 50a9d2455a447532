/**
  Exclusive or on unsigned integers, bit by bit, with the few laws the CRC
  needs.  Words are integers everywhere in this project, so the CRC register is
  one too.
 */
module Bitwise {

  /** y << n */
  function Shl(y: nat, n: nat): nat {
    if n == 0 then y else 2 * Shl(y, n - 1)
  }

  function Pow2(n: nat): nat {
    Shl(1, n)
  }

  lemma ShlByte(y: nat)
    ensures Shl(y, 8) == 0x100 * y
  {
    assert Shl(y, 1) == 2 * y;
    assert Shl(y, 2) == 4 * y;
    assert Shl(y, 3) == 8 * y;
    assert Shl(y, 4) == 16 * y;
    assert Shl(y, 5) == 32 * y;
    assert Shl(y, 6) == 64 * y;
    assert Shl(y, 7) == 128 * y;
  }

  lemma {:induction false} ShlAdd(y: nat, m: nat, n: nat)
    ensures Shl(Shl(y, m), n) == Shl(y, m + n)
  {
    if n != 0 {
      ShlAdd(y, m, n - 1);
    }
  }

  lemma {:induction false} Pow2Monotone(m: nat, n: nat)
    requires m <= n
    ensures 1 <= Pow2(m) <= Pow2(n)
  {
    if m < n {
      Pow2Monotone(m, n - 1);
    } else if m > 0 {
      Pow2Monotone(m - 1, n - 1);
    }
  }

  lemma Pow2Word()
    ensures Pow2(8) == 0x100 && Pow2(31) == 0x8000_0000 && Pow2(32) == 0x1_0000_0000
  {
    ShlByte(1);
    ShlByte(0x100);
    ShlByte(0x1_0000);
    ShlByte(0x100_0000);
    ShlAdd(1, 8, 8);
    ShlAdd(1, 16, 8);
    ShlAdd(1, 24, 8);
    assert Pow2(32) == 2 * Pow2(31);
  }

  function Xor(a: nat, b: nat): nat {
    if a == 0 && b == 0 then 0
    else (if a % 2 == b % 2 then 0 else 1) + 2 * Xor(a / 2, b / 2)
  }

  /** One level of the definition, also at zero. */
  lemma XorStep(a: nat, b: nat)
    ensures Xor(a, b) / 2 == Xor(a / 2, b / 2)
    ensures Xor(a, b) % 2 == if a % 2 == b % 2 then 0 else 1
  {
  }

  lemma {:induction false} XorZero(a: nat)
    ensures Xor(a, 0) == a && Xor(0, a) == a && Xor(a, a) == 0
  {
    if a != 0 {
      XorZero(a / 2);
    }
  }

  lemma {:induction false} XorCommutes(a: nat, b: nat)
    ensures Xor(a, b) == Xor(b, a)
  {
    if a != 0 || b != 0 {
      XorCommutes(a / 2, b / 2);
    }
  }

  lemma {:induction false} XorAssociates(a: nat, b: nat, c: nat)
    ensures Xor(Xor(a, b), c) == Xor(a, Xor(b, c))
    decreases a + b + c
  {
    if a != 0 || b != 0 || c != 0 {
      XorAssociates(a / 2, b / 2, c / 2);
      XorStep(a, b);
      XorStep(b, c);
      XorStep(Xor(a, b), c);
      XorStep(a, Xor(b, c));
    }
  }

  lemma XorCancels(a: nat, b: nat, c: nat)
    requires Xor(a, c) == Xor(b, c)
    ensures a == b
  {
    XorAssociates(a, c, c);
    XorAssociates(b, c, c);
    XorZero(a);
    XorZero(b);
    XorZero(c);
  }

  /** (a ^ p) ^ (b ^ q) == (a ^ b) ^ (p ^ q) */
  lemma XorExchange(a: nat, p: nat, b: nat, q: nat)
    ensures Xor(Xor(a, p), Xor(b, q)) == Xor(Xor(a, b), Xor(p, q))
  {
    XorAssociates(a, p, Xor(b, q));
    XorAssociates(p, b, q);
    XorCommutes(p, b);
    XorAssociates(b, p, q);
    XorAssociates(a, b, Xor(p, q));
  }

  lemma {:induction false} XorBelow(a: nat, b: nat, n: nat)
    requires a < Pow2(n) && b < Pow2(n)
    ensures Xor(a, b) < Pow2(n)
  {
    if n != 0 {
      XorStep(a, b);
      XorBelow(a / 2, b / 2, n - 1);
    }
  }

  /** A top bit set in only one operand is set in the result. */
  lemma {:induction false} XorTopBit(a: nat, b: nat, n: nat)
    requires a < Pow2(n) <= b
    ensures Xor(a, b) >= Pow2(n)
  {
    XorStep(a, b);
    if n == 0 {
      XorZero(b);
    } else {
      XorTopBit(a / 2, b / 2, n - 1);
    }
  }

  /** Operands with no bit in common add up. */
  lemma {:induction false} XorDisjoint(a: nat, b: nat, n: nat)
    requires a < Pow2(n)
    ensures Xor(a, Shl(b, n)) == a + Shl(b, n)
  {
    if n == 0 {
      XorZero(b);
    } else {
      var p := Shl(b, n - 1);
      XorDisjoint(a / 2, b, n - 1);
      XorStep(a, 2 * p);
      Halves(a, Xor(a, 2 * p), p);
    }
  }

  lemma Halves(a: nat, x: nat, p: nat)
    requires x / 2 == a / 2 + p && x % 2 == a % 2
    ensures x == a + 2 * p
  {
  }
}
