/** Rounding addresses with masks, bit by bit, and what it means for powers of two (kallsyms.rs). */
module Alignment {
  import opened Memory

  /** The bits of `a` that are clear in `mask`: `a & !mask`. */
  function AndNot(a: nat, mask: nat): (r: nat)
    ensures r <= a
    decreases a
  {
    if a == 0 then 0
    else 2 * AndNot(a / 2, mask / 2) + if a % 2 == 1 && mask % 2 == 0 then 1 else 0
  }

  function AlignDown(address: u64, alignment: nat): u64 {
    AndNot(address, SaturatingSub(alignment, 1))
  }

  function AlignUp(address: u64, alignment: nat): u64 {
    AndNot(SaturatingAdd(address, SaturatingSub(alignment, 1)), SaturatingSub(alignment, 1))
  }

  function Pow2(k: nat): (p: nat)
    ensures p >= 1
  {
    if k == 0 then 1 else 2 * Pow2(k - 1)
  }

  /** The low `k` bits are clear: a multiple of two to the `k`. */
  predicate Aligned(x: nat, k: nat) {
    k == 0 || (x % 2 == 0 && Aligned(x / 2, k - 1))
  }

  /** `x` is the first aligned address not below `from`: where a linker places the next table. */
  predicate IsNextAligned(x: nat, from: nat, k: nat) {
    Aligned(x, k) && from <= x < from + Pow2(k)
  }

  /** Clearing the low bits of a power of two rounds down to a multiple of it. */
  lemma {:induction false} AndNotRoundsDown(a: nat, k: nat)
    ensures var r := AndNot(a, Pow2(k) - 1);
            Aligned(r, k) && r <= a < r + Pow2(k)
    decreases k
  {
    if k == 0 {
      AndNotZero(a);
    } else if a > 0 {
      AndNotRoundsDown(a / 2, k - 1);
    } else {
      ZeroAligned(k);
    }
  }

  lemma {:induction false} AndNotZero(a: nat)
    ensures AndNot(a, 0) == a
    decreases a
  {
    if a > 0 { AndNotZero(a / 2); }
  }

  lemma {:induction false} ZeroAligned(k: nat)
    ensures Aligned(0, k)
  {
    if k > 0 { ZeroAligned(k - 1); }
  }

  lemma {:induction false} AlignedApart(x: nat, y: nat, k: nat)
    requires Aligned(x, k) && Aligned(y, k) && x < y
    ensures x + Pow2(k) <= y
  {
    if k > 0 { AlignedApart(x / 2, y / 2, k - 1); }
  }

  lemma {:induction false} AlignedStep(x: nat, k: nat)
    requires Aligned(x, k)
    ensures Aligned(x + Pow2(k), k)
  {
    if k > 0 { AlignedStep(x / 2, k - 1); }
  }

  lemma {:induction false} Pow2Aligned(n: nat, k: nat)
    requires k <= n
    ensures Aligned(Pow2(n), k)
  {
    if k > 0 { Pow2Aligned(n - 1, k - 1); }
  }

  lemma {:induction false} Pow2Monotone(k: nat, n: nat)
    requires k <= n
    ensures Pow2(k) <= Pow2(n)
  {
    if k < n { Pow2Monotone(k, n - 1); }
  }

  lemma EightMoreBits(k: nat)
    ensures Pow2(k + 8) == 0x100 * Pow2(k)
  {
    assert Pow2(k + 2) == 4 * Pow2(k);
    assert Pow2(k + 4) == 4 * Pow2(k + 2);
    assert Pow2(k + 6) == 4 * Pow2(k + 4);
  }

  lemma NoBits()
    ensures Pow2(0) == 1
  {
  }

  lemma AllBits()
    ensures Pow2(64) == U64_MAX + 1
  {
    hide Pow2;
    NoBits();
    EightMoreBits(0);
    EightMoreBits(8);
    EightMoreBits(16);
    EightMoreBits(24);
    EightMoreBits(32);
    EightMoreBits(40);
    EightMoreBits(48);
    EightMoreBits(56);
  }

  /** The last aligned step of the address space fits entirely. */
  lemma AlignedStepFits(x: u64, k: nat)
    requires Aligned(x, k) && k < 64
    ensures x + Pow2(k) - 1 <= U64_MAX
  {
    hide Aligned;
    Pow2Aligned(64, k);
    AllBits();
    AlignedApart(x, Pow2(64), k);
  }

  /** Clearing the low byte. */
  lemma LowByteCleared(a: nat)
    ensures a - a % 0x100 == AndNot(a, 0xff)
  {
    hide AndNot, Aligned;
    NoBits();
    EightMoreBits(0);
    AndNotRoundsDown(a, 8);
    var r := AndNot(a, 0xff);
    AlignedByte(r);
    assert a / 0x100 == r / 0x100;
  }

  lemma AlignedByte(r: nat)
    requires Aligned(r, 8)
    ensures r % 0x100 == 0
  {
    hide Aligned;
    AlignedNibble(r, 4);
    AlignedNibble(r / 16, 0);
  }

  lemma AlignedNibble(r: nat, k: nat)
    requires Aligned(r, k + 4)
    ensures r % 16 == 0 && Aligned(r / 16, k)
  {
    hide Aligned;
    AlignedBit(r, k + 3);
    AlignedBit(r / 2, k + 2);
    AlignedBit(r / 4, k + 1);
    AlignedBit(r / 8, k);
  }

  lemma AlignedBit(r: nat, k: nat)
    requires Aligned(r, k + 1)
    ensures r % 2 == 0 && Aligned(r / 2, k)
  {
  }

  lemma AlignDownRounds(address: u64, k: nat)
    ensures var r := AlignDown(address, Pow2(k));
            Aligned(r, k) && r <= address < r + Pow2(k)
  {
    AndNotRoundsDown(address, k);
  }

  /** Rounding up finds the next aligned address whenever there is one. */
  lemma AlignUpFinds(x: u64, from: u64, k: nat)
    requires k < 64 && IsNextAligned(x, from, k)
    ensures AlignUp(from, Pow2(k)) == x
  {
    AlignedStepFits(x, k);
    AndNotRoundsDown(from + Pow2(k) - 1, k);
    NextAlignedUnique(x, AlignUp(from, Pow2(k)), from, k);
  }

  /** Wherever there is room above, there is a next aligned address. */
  lemma NextAlignedExists(from: u64, k: nat)
    requires from + Pow2(k) - 1 <= U64_MAX
    ensures IsNextAligned(AlignUp(from, Pow2(k)), from, k)
  {
    hide AndNot, Aligned, Pow2;
    AndNotRoundsDown(from + Pow2(k) - 1, k);
  }

  /** An aligned address at or below another, closer than one step, is what rounding down finds. */
  lemma AlignDownFinds(x: nat, address: u64, k: nat)
    requires Aligned(x, k) && x <= address < x + Pow2(k)
    ensures AlignDown(address, Pow2(k)) == x
  {
    AlignDownRounds(address, k);
    var r := AlignDown(address, Pow2(k));
    if r < x { AlignedApart(r, x, k); }
    if x < r { AlignedApart(x, r, k); }
  }

  lemma NextAlignedUnique(x: nat, y: nat, from: nat, k: nat)
    requires IsNextAligned(x, from, k) && IsNextAligned(y, from, k)
    ensures x == y
  {
    if x < y { AlignedApart(x, y, k); }
    if y < x { AlignedApart(y, x, k); }
  }

  /** The next aligned address after a small object at an aligned address is one step on. */
  lemma NextAfterSmall(x: nat, size: nat, next: nat, k: nat)
    requires Aligned(x, k) && 0 < size <= Pow2(k) && IsNextAligned(next, x + size, k)
    ensures next == x + Pow2(k)
  {
    AlignedStep(x, k);
    if next < x + Pow2(k) { AlignedApart(x, next, k); }
    if x + Pow2(k) < next { AlignedApart(x + Pow2(k), next, k); }
  }
}
