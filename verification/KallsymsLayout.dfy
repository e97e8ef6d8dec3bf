/** Finding the kallsyms tables around the names and the token index (kallsyms.rs). */
module KallsymsLayout {
  import opened Wrappers
  import opened Memory
  import opened Alignment
  import opened Kallsyms

  function ReadU64(m: Memory, a: nat): Option<u64> {
    var lo, hi := ReadU32(m, a), ReadU32(m, a + 4);
    if lo.None? || hi.None? then None else Some((lo.value as int) + 0x1_0000_0000 * (hi.value as int))
  }

  /** Eight bytes are a little-endian word. */
  lemma ReadU64Meaning(m: Memory, a: nat, n: u64)
    ensures ReadU64(m, a) == Some(n) <==> BytesAt(m, a, Bytes64(n))
  {
    hide ReadU32, Bytes32;
    var lo, hi := n % 0x1_0000_0000, n / 0x1_0000_0000;
    ReadU32Meaning(m, a, lo);
    ReadU32Meaning(m, a + 4, hi);
    assert |Bytes32(lo)| == 4 by { FourBytes(lo); }
    BytesAtBoth(m, a, Bytes32(lo), Bytes32(hi));
  }

  lemma FourBytes(n: u32)
    ensures |Bytes32(n)| == 4
  {
  }

  function NumSymsAddr(names: u64, alignment: nat): Option<u64> {
    if names == 0 then None else Some(AlignDown(names - 1, alignment))
  }

  /** Newer kernels: the offsets follow the token index, and the relative base follows the offsets. */
  function ModernLayout(tokenIndex: u64, alignment: nat, numSyms: u32): Option<Layout> {
    var end := CheckedAdd(tokenIndex, KALLSYMS_TOKEN_INDEX_BYTES);
    if end.None? then None
    else
      var offsets := AlignUp(end.value, alignment);
      var offsetsEnd := CheckedAdd(offsets, 4 * numSyms);
      if offsetsEnd.None? then None
      else Some(Layout(offsets, AlignUp(offsetsEnd.value, alignment), RelativeUnsigned))
  }

  /** Older kernels: walking down from the names, past the count and the relative base, to the offsets. */
  function LegacyLayout(names: u64, alignment: nat, numSyms: u32): Option<Layout> {
    var count := NumSymsAddr(names, alignment);
    var below := if count.None? then None else CheckedSub(count.value, alignment);
    if below.None? then None
    else
      var base := AlignDown(below.value, alignment);
      var start := CheckedSub(base, 4 * numSyms);
      if start.None? then None else Some(Layout(AlignDown(start.value, alignment), base, LegacySigned))
  }

  /** The address entry `i` of a layout stands for. */
  function EntryAddress(m: Memory, l: Layout, base: u64, i: nat): Option<nat> {
    var word := ReadU32(m, l.offsets + 4 * i);
    if word.None? then None else Some(AddressOf(l.encoding, base, word.value))
  }

  /** The relative base is a kernel pointer, and the first four entries are kernel pointers in ascending order. */
  predicate IsPlausible(m: Memory, l: Layout, numSyms: nat) {
    var base := ReadU64(m, l.relativeBaseAddr);
    && base.Some? && LooksLikeKernelPointer(base.value)
    && FirstPlausible(m, l, base.value, Min(numSyms, 4))
  }

  predicate FirstPlausible(m: Memory, l: Layout, base: u64, count: nat) {
    && (forall i :: 0 <= i < count ==>
          EntryAddress(m, l, base, i).Some? && LooksLikeKernelPointer(EntryAddress(m, l, base, i).value))
    && (forall i, j :: 0 <= i < j < count ==> EntryAddress(m, l, base, i).value <= EntryAddress(m, l, base, j).value)
  }

  method IsPlausibleLayout(m: Memory, l: Layout, numSyms: nat) returns (r: bool)
    ensures r <==> IsPlausible(m, l, numSyms)
  {
    hide EntryAddress, ReadU64, LooksLikeKernelPointer;
    var base := ReadU64(m, l.relativeBaseAddr);
    if base.None? { return false; }
    if !LooksLikeKernelPointer(base.value) { return false; }
    var prev: Option<nat> := None;
    for i := 0 to Min(numSyms, 4)
      invariant FirstPlausible(m, l, base.value, i)
      invariant prev == if i == 0 then None else EntryAddress(m, l, base.value, i - 1)
    {
      var address := EntryAddress(m, l, base.value, i);
      if address.None? { return false; }
      if !LooksLikeKernelPointer(address.value) { return false; }
      if prev.Some? && address.value < prev.value { return false; }
      prev := address;
    }
    return true;
  }

  function ResolveLayout(m: Memory, names: u64, tokenIndex: u64, alignment: nat, numSyms: u32): Option<Layout> {
    if numSyms == 0 then None
    else
      var modern := ModernLayout(tokenIndex, alignment, numSyms);
      if modern.None? then None
      else if IsPlausible(m, modern.value, numSyms) then modern
      else
        var legacy := LegacyLayout(names, alignment, numSyms);
        if legacy.Some? && IsPlausible(m, legacy.value, numSyms) then legacy else None
  }

  function New(names: u64, tokenTable: u64, tokenIndex: u64, alignment: nat, m: Memory): Option<Info> {
    var countAddr := NumSymsAddr(names, alignment);
    var numSyms := if countAddr.None? then None else ReadU32(m, countAddr.value);
    var l := if numSyms.None? then None else ResolveLayout(m, names, tokenIndex, alignment, numSyms.value);
    var base := if l.None? then None else ReadU64(m, l.value.relativeBaseAddr);
    if base.None? then None
    else Some(Info(l.value.offsets, base.value, numSyms.value, names, tokenTable, tokenIndex, l.value.encoding))
  }

  // ----- where the kernel's build places the tables -----

  /** Each table starts at the first aligned address after the one before it: count, names. */
  predicate NamesPlaced(count: u64, names: u64, k: nat) {
    Aligned(count, k) && IsNextAligned(names, count + 4, k)
  }

  /** Token index, offsets, relative base. */
  predicate ModernPlaced(tokenIndex: u64, l: Layout, numSyms: u32, k: nat) {
    && l.encoding == RelativeUnsigned && l.relativeBaseAddr <= U64_MAX
    && IsNextAligned(l.offsets, tokenIndex + 512, k)
    && IsNextAligned(l.relativeBaseAddr, l.offsets + 4 * numSyms, k)
  }

  /** Offsets, relative base, count. */
  predicate LegacyPlaced(l: Layout, count: u64, numSyms: u32, k: nat) {
    && l.encoding == LegacySigned && Aligned(l.offsets, k)
    && IsNextAligned(l.relativeBaseAddr, l.offsets + 4 * numSyms, k)
    && IsNextAligned(count, l.relativeBaseAddr + 8, k)
  }

  /** Placement forwards is undone by the same rounding, for every alignment. */
  lemma ModernRecovered(tokenIndex: u64, l: Layout, numSyms: u32, k: nat)
    requires k < 64 && ModernPlaced(tokenIndex, l, numSyms, k)
    ensures ModernLayout(tokenIndex, Pow2(k), numSyms) == Some(l)
  {
    hide AlignUp, Aligned;
    AlignUpFinds(l.offsets, tokenIndex + KALLSYMS_TOKEN_INDEX_BYTES, k);
    AlignUpFinds(l.relativeBaseAddr, l.offsets + 4 * numSyms, k);
  }

  lemma SmallPowers(k: nat)
    ensures Pow2(k) == 1 <==> k == 0
    ensures Pow2(k) == 2 <==> k == 1
    ensures Pow2(k) == 4 <==> k == 2
    ensures Pow2(k) >= 8 <==> k >= 3
  {
    if k >= 3 { Pow2Monotone(3, k); }
  }

  /** The next aligned address after four or eight bytes, when a step is no larger than they are. */
  lemma NextAfterLarge(x: nat, size: nat, next: nat, k: nat)
    requires Aligned(x, k) && IsNextAligned(next, x + size, k) && size in {4, 8} && Pow2(k) <= size
    ensures next == x + size
  {
    hide Aligned;
    SmallPowers(k);
    AlignedStep(x, k);
    AlignedStep(x + Pow2(k), k);
    AlignedStep(x + 2 * Pow2(k), k);
    AlignedStep(x + 3 * Pow2(k), k);
    if k == 0 {
      AlignedStep(x + 4, k);
      AlignedStep(x + 5, k);
      AlignedStep(x + 6, k);
      AlignedStep(x + 7, k);
    }
    NextAlignedUnique(next, x + size, x + size, k);
  }

  /** The count is found below the names exactly for alignments of four bytes or more. */
  lemma CountRecovered(count: u64, names: u64, k: nat)
    requires NamesPlaced(count, names, k)
    ensures NumSymsAddr(names, Pow2(k)) == Some(count) <==> Pow2(k) >= 4
    ensures Pow2(k) < 4 ==> NumSymsAddr(names, Pow2(k)) == Some(count + 4 - Pow2(k))
  {
    hide Aligned;
    SmallPowers(k);
    if k >= 2 {
      NextAfterSmall(count, 4, names, k);
      AlignDownFinds(count, names - 1, k);
    } else {
      NextAfterLarge(count, 4, names, k);
      AlignedStep(count, k);
      AlignedStep(count + Pow2(k), k);
      AlignedStep(count + 2 * Pow2(k), k);
      AlignDownFinds(count + 4 - Pow2(k), names - 1, k);
    }
  }

  /** Walking down recovers a legacy placement exactly for alignments of eight bytes or more. */
  lemma LegacyRecovered(l: Layout, count: u64, names: u64, numSyms: u32, k: nat)
    requires LegacyPlaced(l, count, numSyms, k) && NamesPlaced(count, names, k)
    ensures LegacyLayout(names, Pow2(k), numSyms) == Some(l) <==> Pow2(k) >= 8
  {
    hide Aligned, AlignDown;
    SmallPowers(k);
    CountRecovered(count, names, k);
    if k >= 3 {
      NextAfterSmall(l.relativeBaseAddr, 8, count, k);
      AlignDownFinds(l.relativeBaseAddr, l.relativeBaseAddr, k);
      AlignDownFinds(l.offsets, l.relativeBaseAddr - 4 * numSyms, k);
    } else {
      NextAfterLarge(l.relativeBaseAddr, 8, count, k);
      var found := NumSymsAddr(names, Pow2(k)).value;
      AlignDownRounds(found - Pow2(k), k);
    }
  }

  // ----- which layout is chosen -----

  /** Memory holds the addresses in a layout, with their relative base. */
  ghost predicate AddressesStored(m: Memory, l: Layout, base: u64, addresses: seq<u64>) {
    && BytesAt(m, l.relativeBaseAddr, Bytes64(base))
    && forall i {:trigger addresses[i]} :: 0 <= i < |addresses| ==>
         && Addressable(l.encoding, base, addresses[i])
         && BytesAt(m, l.offsets + 4 * i, Bytes32(EncodeAddress(l.encoding, base, addresses[i])))
  }

  ghost predicate Ascending(s: seq<u64>) {
    forall i, j :: 0 <= i < j < |s| ==> s[i] <= s[j]
  }

  /** The upper half of the address space without its last address. */
  predicate IsKernelAddress(a: u64) {
    0xFFFF_8000_0000_0000 <= a < 0xFFFF_FFFF_FFFF_FFFF
  }

  /** The base and the first four addresses are kernel pointers. */
  predicate LooksLikeKernel(base: u64, addresses: seq<u64>) {
    && IsKernelAddress(base)
    && forall i :: 0 <= i < |addresses| && i < 4 ==> IsKernelAddress(addresses[i])
  }

  /** A stored table in address order is accepted exactly when its base and first four symbols are kernel pointers.
    * In particular a legacy table that opens with absolute (per-CPU) symbols is rejected. */
  lemma PlausibleIffKernelPointers(m: Memory, l: Layout, base: u64, addresses: seq<u64>)
    requires AddressesStored(m, l, base, addresses) && Ascending(addresses)
    ensures IsPlausible(m, l, |addresses|) <==> LooksLikeKernel(base, addresses)
  {
    hide ReadU64, EncodeAddress, ReadU32, BytesAt, Bytes32, Bytes64;
    ReadU64Meaning(m, l.relativeBaseAddr, base);
    forall i | 0 <= i < |addresses| ensures EntryAddress(m, l, base, i) == Some(addresses[i] as nat) {
      AddressReadsBack(l.encoding, base, addresses[i]);
      ReadU32Meaning(m, l.offsets + 4 * i, EncodeAddress(l.encoding, base, addresses[i]));
    }
  }

  /** A modern table is found by `New`, with its count, offsets and base. */
  lemma NewFindsModern(m: Memory, l: Layout, base: u64, addresses: seq<u64>, count: u64, names: u64, tokenTable: u64,
                       tokenIndex: u64, k: nat)
    requires 2 <= k < 64 && 0 < |addresses| < 0x1_0000_0000
    requires NamesPlaced(count, names, k) && BytesAt(m, count, Bytes32(|addresses|))
    requires ModernPlaced(tokenIndex, l, |addresses|, k)
    requires AddressesStored(m, l, base, addresses) && Ascending(addresses)
    ensures LooksLikeKernel(base, addresses) <==> ResolveLayout(m, names, tokenIndex, Pow2(k), |addresses|) == Some(l)
    ensures LooksLikeKernel(base, addresses) ==>
              New(names, tokenTable, tokenIndex, Pow2(k), m)
              == Some(Info(l.offsets, base, |addresses|, names, tokenTable, tokenIndex, l.encoding))
  {
    hide ReadU64, ReadU32, LooksLikeKernel, IsPlausible, NumSymsAddr, ModernLayout, NamesPlaced;
    SmallPowers(k);
    Pow2Monotone(2, k);
    ReadU32Meaning(m, count, |addresses|);
    ReadU64Meaning(m, l.relativeBaseAddr, base);
    CountRecovered(count, names, k);
    ModernRecovered(tokenIndex, l, |addresses|, k);
    PlausibleIffKernelPointers(m, l, base, addresses);
    LegacyEncoding(names, Pow2(k), |addresses|);
  }

  lemma LegacyEncoding(names: u64, alignment: nat, numSyms: u32)
    ensures var l := LegacyLayout(names, alignment, numSyms);
            l.Some? ==> l.value.encoding == LegacySigned
  {
  }

  /** A legacy table that looks like kernel pointers is found exactly when the modern guess exists and does not itself
    * look like a table: the guess is tried first, and a guess past the end of memory ends the search. */
  lemma NewFindsLegacy(m: Memory, l: Layout, base: u64, addresses: seq<u64>, count: u64, names: u64, tokenTable: u64,
                       tokenIndex: u64, k: nat)
    requires 3 <= k < 64 && 0 < |addresses| < 0x1_0000_0000
    requires NamesPlaced(count, names, k) && BytesAt(m, count, Bytes32(|addresses|))
    requires LegacyPlaced(l, count, |addresses|, k)
    requires AddressesStored(m, l, base, addresses) && Ascending(addresses)
    requires LooksLikeKernel(base, addresses)
    ensures var guess := ModernLayout(tokenIndex, Pow2(k), |addresses|);
            New(names, tokenTable, tokenIndex, Pow2(k), m)
              == Some(Info(l.offsets, base, |addresses|, names, tokenTable, tokenIndex, l.encoding))
            <==> guess.Some? && !IsPlausible(m, guess.value, |addresses|)
  {
    hide ReadU64, ReadU32, LooksLikeKernel, IsPlausible, NumSymsAddr, LegacyLayout, NamesPlaced;
    SmallPowers(k);
    Pow2Monotone(2, k);
    ReadU32Meaning(m, count, |addresses|);
    ReadU64Meaning(m, l.relativeBaseAddr, base);
    CountRecovered(count, names, k);
    LegacyRecovered(l, count, names, |addresses|, k);
    PlausibleIffKernelPointers(m, l, base, addresses);
  }

  /** On any memory, whatever is found has symbols, the number of them below the names, its base where the layout says, and
    * a base and first four addresses that are kernel pointers in ascending order. */
  lemma NewSound(names: u64, tokenTable: u64, tokenIndex: u64, alignment: nat, m: Memory)
    ensures var r := New(names, tokenTable, tokenIndex, alignment, m);
            r.Some? ==>
              var info := r.value;
              && info.numSyms > 0 && info.names == names && info.tokenTable == tokenTable && info.tokenIndex == tokenIndex
              && IsKernelAddress(info.relativeBase)
              && (exists at: nat :: at < names && BytesAt(m, at, Bytes32(info.numSyms)))
              && (exists at: nat :: BytesAt(m, at, Bytes64(info.relativeBase)))
              && FirstAscend(m, info, if info.numSyms < 4 then info.numSyms else 4)
  {
    hide ReadU32, ReadU64, ModernLayout, LegacyLayout, AlignDown, BytesAt, EntryAddress, AddressOf;
    var r := New(names, tokenTable, tokenIndex, alignment, m);
    if r.Some? {
      var at := NumSymsAddr(names, alignment).value;
      CountBelow(names, alignment);
      ReadU32Meaning(m, at, r.value.numSyms);
      var l := ResolveLayout(m, names, tokenIndex, alignment, r.value.numSyms).value;
      ReadU64Meaning(m, l.relativeBaseAddr, r.value.relativeBase);
      PlausibleAscends(m, l, r.value);
    }
  }

  lemma CountBelow(names: u64, alignment: nat)
    ensures NumSymsAddr(names, alignment).Some? ==> NumSymsAddr(names, alignment).value < names
  {
  }

  /** The first addresses of a table are there, are kernel pointers, and ascend. */
  ghost predicate FirstAscend(m: Memory, info: Info, count: nat) {
    && (forall i :: 0 <= i < count ==>
          SymAddress(m, info, i).Some? && 0xFFFF_8000_0000_0000 <= SymAddress(m, info, i).value != 0xFFFF_FFFF_FFFF_FFFF)
    && (forall i, j :: 0 <= i < j < count ==> SymAddress(m, info, i).value <= SymAddress(m, info, j).value)
  }

  lemma PlausibleAscends(m: Memory, l: Layout, info: Info)
    requires IsPlausible(m, l, info.numSyms) && ReadU64(m, l.relativeBaseAddr) == Some(info.relativeBase)
    requires info.offsets == l.offsets && info.encoding == l.encoding && info.numSyms < 0x1_0000_0000
    ensures FirstAscend(m, info, if info.numSyms < 4 then info.numSyms else 4)
  {
    hide ReadU32, ReadU64;
    forall i: nat ensures SymAddress(m, info, i) == EntryAddress(m, l, info.relativeBase, i) { }
    var k := if info.numSyms < 4 then info.numSyms else 4;
    assert FirstPlausible(m, l, info.relativeBase, k);
  }
}
