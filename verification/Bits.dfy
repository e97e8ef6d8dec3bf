/** Bitwise and, bit by bit. */
module Bits {
  /** The bits set in both numbers. */
  function And(a: nat, b: nat): nat
    decreases a
  {
    if a == 0 || b == 0 then 0 else 2 * And(a / 2, b / 2) + if a % 2 == 1 && b % 2 == 1 then 1 else 0
  }

  lemma AndZero(a: nat)
    ensures And(a, 0) == 0
  {
  }

  /** The lowest bit of both. */
  function Bit(a: nat, m: nat): nat {
    if m % 2 == 1 then a % 2 else 0
  }

  lemma BitStep(a: nat, m: nat)
    ensures And(a, m) == 2 * And(a / 2, m / 2) + Bit(a, m)
  {
  }

  lemma FourBits(a: nat, m: nat)
    ensures And(a, m) == 16 * And(a / 16, m / 16) + 8 * Bit(a / 8, m / 8) + 4 * Bit(a / 4, m / 4) + 2 * Bit(a / 2, m / 2) + Bit(a, m)
  {
    hide And, Bit;
    BitStep(a, m);
    BitStep(a / 2, m / 2);
    BitStep(a / 4, m / 4);
    BitStep(a / 8, m / 8);
    Halves(a);
    Halves(m);
  }

  lemma Halves(a: nat)
    ensures a / 2 / 2 == a / 4 && a / 4 / 2 == a / 8 && a / 8 / 2 == a / 16
  {
  }

  lemma NibbleBits(a: nat)
    ensures a % 16 == 8 * (a / 8 % 2) + 4 * (a / 4 % 2) + 2 * (a / 2 % 2) + a % 2
  {
    Halves(a);
  }

  lemma LowNibble(a: nat, m: nat)
    ensures m % 16 == 15 ==> And(a, m) == 16 * And(a / 16, m / 16) + a % 16
    ensures m % 16 == 0 ==> And(a, m) == 16 * And(a / 16, m / 16)
  {
    hide And;
    FourBits(a, m);
    NibbleBits(a);
    NibbleBits(m);
  }
}
