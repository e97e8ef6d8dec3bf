/** Finding and validating the kernel in physical memory with the help of a profile (kernel.rs, profile.rs). */
module Bootstrap {
  import opened Wrappers
  import opened Memory
  import opened Scan

  const MB2: nat := 0x20_0000
  const PAGE: nat := 0x1000
  const KERNEL_SCAN_CHUNK_SIZE: nat := 0x400_0000
  const BANNER_SCAN_PREFIX_LEN: nat := 96

  /** The name of the idle task, `swapper/0`. */
  const SWAPPER: seq<byte> := [0x73, 0x77, 0x61, 0x70, 0x70, 0x65, 0x72, 0x2f, 0x30]

  /** As a task record holds it. */
  function SwapperComm(): seq<byte> {
    SWAPPER + [0]
  }

  datatype TaskOffsets = TaskOffsets(comm: nat, commLen: nat, pid: nat, tgid: nat, groupLeader: nat, parent: nat,
                                     realParent: nat)

  datatype Profile = Profile(text: u64, initTask: u64, initTopPgt: Option<u64>, level4KernelPgt: Option<u64>,
                             linuxBanner: u64, banner: seq<byte>, task: TaskOffsets)

  /** Physical memory and what page tables make of it: translation of an address under a page table, and a virtual read. */
  datatype Machine = Machine(mem: PhysicalMemory, translate: (u64, u64) -> Option<u64>,
                             readVirtual: (u64, u64, nat) -> Option<seq<byte>>)

  datatype TaskCandidate = TaskCandidate(physTask: nat, runtimeInitTask: u64, slide: int)

  datatype KernelInfo = KernelInfo(cr3: u64, physBase: u64, virtText: u64, physText: u64)

  // ----- arithmetic -----

  function ComputeSlideFromSymbol(runtime: u64, profile: u64): Result<int> {
    var delta := runtime - profile;
    if -0x8000_0000_0000_0000 <= delta < 0x8000_0000_0000_0000 then Ok(delta) else Err
  }

  function ComputeSlide(p: Profile, runtimeText: u64): Result<int> {
    ComputeSlideFromSymbol(runtimeText, p.text)
  }

  /** A slide is the signed distance, if it fits 64 bits. */
  lemma SlideMeaning(p: Profile, runtimeText: u64, slide: int)
    ensures ComputeSlide(p, runtimeText) == Ok(slide) <==>
            slide == runtimeText - p.text && -0x8000_0000_0000_0000 <= slide <= 0x7FFF_FFFF_FFFF_FFFF
  {
  }

  /** The sum, cut to 64 bits. */
  function Rebase(address: u64, slide: int): u64 {
    (address + slide) % (U64_MAX + 1)
  }

  predicate IsKernelSlideAligned(slide: int) {
    slide >= 0 && slide % MB2 == 0
  }

  function CheckedSymbolDelta(base: u64, target: u64): Option<u64> {
    CheckedSub(target, base)
  }

  function PageAligned(a: u64): u64 {
    a - a % PAGE
  }

  function TrimTrailingNuls(s: seq<byte>): seq<byte> {
    if s != [] && s[|s| - 1] == 0 then TrimTrailingNuls(s[..|s| - 1]) else s
  }

  // ----- physical reads -----

  function ReadPhysicalU32(m: PhysicalMemory, a: nat): Option<u32> {
    var b := m.ReadRaw(a, 4);
    if b.None? then None
    else
      var s := b.value;
      Some((s[0] as int) + 0x100 * (s[1] as int) + 0x1_0000 * (s[2] as int) + 0x100_0000 * (s[3] as int))
  }

  function ReadPhysicalAddr(m: PhysicalMemory, a: nat): Option<u64> {
    var lo, hi := ReadPhysicalU32(m, a), ReadPhysicalU32(m, a + 4);
    if lo.None? || hi.None? then None else Some((lo.value as int) + 0x1_0000_0000 * (hi.value as int))
  }

  function UpToNul(s: seq<byte>): seq<byte> {
    if s == [] || s[0] == 0 then [] else [s[0]] + UpToNul(s[1..])
  }

  function ReadPhysicalCString(m: PhysicalMemory, a: nat, maxLen: nat): Option<seq<byte>> {
    var buf := m.ReadInto(a, Zeros(maxLen));
    if buf.Err? then None else Some(UpToNul(buf.value))
  }

  /** Four bytes are a little-endian word. */
  lemma PhysicalU32Meaning(m: PhysicalMemory, a: nat, n: u32)
    ensures ReadPhysicalU32(m, a) == Some(n) <==> BytesIn(m, a, Bytes32(n))
  {
    hide PhysicalMemory.ReadRaw, BytesIn;
    ReadRawMeaning(m, a, Bytes32(n));
    var b := m.ReadRaw(a, 4);
    if b.Some? {
      ReadRawMeaning(m, a, b.value);
      WordBytes(b.value, n);
    }
  }

  lemma WordBytes(s: seq<byte>, n: u32)
    requires |s| == 4
    ensures (s[0] as int) + 0x100 * (s[1] as int) + 0x1_0000 * (s[2] as int) + 0x100_0000 * (s[3] as int) == n <==> s == Bytes32(n)
  {
    var q, r := n / 0x100, n / 0x1_0000;
    assert n == 0x100 * q + n % 0x100 && q == 0x100 * r + q % 0x100 && r == 0x100 * (n / 0x100_0000) + r % 0x100;
    if (s[0] as int) + 0x100 * (s[1] as int) + 0x1_0000 * (s[2] as int) + 0x100_0000 * (s[3] as int) == n {
      assert n / 0x100 == (s[1] as int) + 0x100 * (s[2] as int) + 0x1_0000 * (s[3] as int);
      assert n / 0x1_0000 == (s[2] as int) + 0x100 * (s[3] as int);
      assert s == [s[0], s[1], s[2], s[3]];
    }
  }

  /** Eight bytes are a little-endian word. */
  lemma PhysicalAddrMeaning(m: PhysicalMemory, a: nat, n: u64)
    ensures ReadPhysicalAddr(m, a) == Some(n) <==> BytesIn(m, a, Bytes64(n))
  {
    hide ReadPhysicalU32, Bytes32, BytesIn;
    var lo, hi := n % 0x1_0000_0000, n / 0x1_0000_0000;
    PhysicalU32Meaning(m, a, lo);
    PhysicalU32Meaning(m, a + 4, hi);
    assert |Bytes32(lo)| == 4 by { FourBytes(lo); }
    BytesInBoth(m, a, Bytes32(lo), Bytes32(hi));
  }

  lemma FourBytes(n: u32)
    ensures |Bytes32(n)| == 4
  {
  }

  lemma BytesInBoth(m: PhysicalMemory, a: nat, x: seq<byte>, y: seq<byte>)
    ensures BytesIn(m, a, x + y) <==> BytesIn(m, a, x) && BytesIn(m, a + |x|, y)
  {
    if BytesIn(m, a, x + y) {
      forall i | 0 <= i < |x| ensures m.byteAt(a + i) == Some(x[i]) { assert m.byteAt(a + i) == Some((x + y)[i]); }
      forall i | 0 <= i < |y| ensures m.byteAt(a + |x| + i) == Some(y[i]) {
        assert m.byteAt(a + (|x| + i)) == Some((x + y)[|x| + i]);
      }
    }
    if BytesIn(m, a, x) && BytesIn(m, a + |x|, y) {
      forall i | 0 <= i < |x + y| ensures m.byteAt(a + i) == Some((x + y)[i]) {
        assert i >= |x| ==> m.byteAt(a + |x| + (i - |x|)) == Some(y[i - |x|]);
      }
    }
  }

  // ----- one candidate -----

  /** A name buffer of `len` bytes holds `swapper/0`, ended by a NUL, by unreadable memory or by the end of the buffer. */
  ghost predicate IsSwapperName(m: PhysicalMemory, a: nat, len: nat) {
    && !m.fails(a, len) && len >= 9
    && (forall i: nat :: i < 9 ==> IsNameByte(m, a, i))
    && (len > 9 ==> m.byteAt(a + 9).None? || m.byteAt(a + 9) == Some(0))
  }

  ghost predicate IsNameByte(m: PhysicalMemory, a: nat, i: nat)
    requires i < 9
  {
    m.byteAt(a + i) == Some("swapper/0"[i] as int)
  }

  /** A task named `swapper/0`, with process and thread group id 0, that is its own leader and parent. */
  ghost predicate IsIdleTask(m: PhysicalMemory, o: TaskOffsets, physTask: nat, self: u64) {
    && IsSwapperName(m, physTask + o.comm, o.commLen)
    && BytesIn(m, physTask + o.pid, [0, 0, 0, 0]) && BytesIn(m, physTask + o.tgid, [0, 0, 0, 0])
    && BytesIn(m, physTask + o.groupLeader, Bytes64(self))
    && BytesIn(m, physTask + o.parent, Bytes64(self)) && BytesIn(m, physTask + o.realParent, Bytes64(self))
  }

  lemma {:induction false} UpToNulMeaning(s: seq<byte>, name: seq<byte>)
    requires forall i :: 0 <= i < |name| ==> name[i] != 0
    ensures UpToNul(s) == name <==> |name| <= |s| && s[..|name|] == name && (|name| < |s| ==> s[|name|] == 0)
  {
    if s != [] && s[0] != 0 && name != [] {
      UpToNulMeaning(s[1..], name[1..]);
      assert name == [name[0]] + name[1..] && s == [s[0]] + s[1..];
      if |name| <= |s| { assert s[..|name|] == [s[0]] + s[1..][..|name| - 1]; }
    }
  }

  lemma SwapperText()
    ensures |SWAPPER| == 9 && forall i :: 0 <= i < 9 ==> SWAPPER[i] == "swapper/0"[i] as int && SWAPPER[i] != 0
  {
  }

  lemma SwapperNameMeaning(m: PhysicalMemory, a: nat, len: nat)
    ensures ReadPhysicalCString(m, a, len) == Some(SWAPPER) <==> IsSwapperName(m, a, len)
  {
    hide PhysicalMemory.Fill, IsSwapperName;
    var w := m.Fill(a, Zeros(len));
    SwapperText();
    UpToNulMeaning(w, SWAPPER);
    SwapperBytes(m, a, len);
  }

  lemma SwapperBytes(m: PhysicalMemory, a: nat, len: nat)
    ensures var w := m.Fill(a, Zeros(len));
            !m.fails(a, len) && len >= 9 && w[..9] == SWAPPER && (9 < len ==> w[9] == 0) <==> IsSwapperName(m, a, len)
  {
    hide PhysicalMemory.Fill;
    var w := m.Fill(a, Zeros(len));
    SwapperText();
    if len >= 9 {
      forall i: nat | i < 9 ensures w[i] == SWAPPER[i] <==> IsNameByte(m, a, i) { SwapperByte(m, a, len, i); }
      SamePrefix(w, SWAPPER);
      assert w[..9] == SWAPPER <==> forall i: nat :: i < 9 ==> IsNameByte(m, a, i);
      assert len > 9 ==> w[9] == m.byteAt(a + 9).GetOr(0);
    }
  }

  lemma SamePrefix(w: seq<byte>, p: seq<byte>)
    requires |p| <= |w|
    ensures w[..|p|] == p <==> forall i: nat :: i < |p| ==> w[i] == p[i]
  {
    if w[..|p|] == p {
      forall i: nat | i < |p| ensures w[i] == p[i] { assert w[..|p|][i] == p[i]; }
    }
  }

  lemma SwapperByte(m: PhysicalMemory, a: nat, len: nat, i: nat)
    requires i < 9 <= len
    ensures m.Fill(a, Zeros(len))[i] == SWAPPER[i] <==> IsNameByte(m, a, i)
  {
    hide PhysicalMemory.Fill;
    SwapperText();
    assert m.Fill(a, Zeros(len))[i] == m.byteAt(a + i).GetOr(0);
  }

  function ValidateInitTaskCandidate(m: PhysicalMemory, p: Profile, physTask: nat): Result<TaskCandidate>
  {
    var o := p.task;
    if ReadPhysicalCString(m, physTask + o.comm, o.commLen) != Some(SWAPPER) then Err
    else
      var pid, tgid := ReadPhysicalU32(m, physTask + o.pid), ReadPhysicalU32(m, physTask + o.tgid);
      if pid != Some(0) || tgid != Some(0) then Err
      else
        var leader := ReadPhysicalAddr(m, physTask + o.groupLeader);
        if leader.None? || !LooksLikeKernelPointer(leader.value) then Err
        else
          var parent, realParent := ReadPhysicalAddr(m, physTask + o.parent), ReadPhysicalAddr(m, physTask + o.realParent);
          if parent != leader || realParent != leader then Err
          else
            var slide := ComputeSlideFromSymbol(leader.value, p.initTask);
            if slide.Err? || !IsKernelSlideAligned(slide.value) then Err
            else Ok(TaskCandidate(physTask, leader.value, slide.value))
  }

  /** A candidate is accepted exactly when it is an idle task whose own pointer is a kernel pointer at an aligned slide. */
  lemma CandidateMeaning(m: PhysicalMemory, p: Profile, physTask: nat, c: TaskCandidate)
    ensures ValidateInitTaskCandidate(m, p, physTask) == Ok(c) <==>
            && c.physTask == physTask && IsIdleTask(m, p.task, physTask, c.runtimeInitTask)
            && IsAlignedSlide(p, c.runtimeInitTask) && c.slide == c.runtimeInitTask - p.initTask
  {
    hide ReadPhysicalCString, ReadPhysicalU32, ReadPhysicalAddr, IsSwapperName, BytesIn, Bytes64;
    var o := p.task;
    SwapperNameMeaning(m, physTask + o.comm, o.commLen);
    assert Bytes32(0) == [0, 0, 0, 0];
    PhysicalU32Meaning(m, physTask + o.pid, 0);
    PhysicalU32Meaning(m, physTask + o.tgid, 0);
    PhysicalAddrMeaning(m, physTask + o.groupLeader, c.runtimeInitTask);
    PhysicalAddrMeaning(m, physTask + o.parent, c.runtimeInitTask);
    PhysicalAddrMeaning(m, physTask + o.realParent, c.runtimeInitTask);
  }

  /** A kernel pointer that `init_task` has been moved to by a multiple of 2 MiB, upwards. */
  predicate IsAlignedSlide(p: Profile, runtime: u64) {
    && 0xFFFF_8000_0000_0000 <= runtime < 0xFFFF_FFFF_FFFF_FFFF && p.initTask <= runtime
    && runtime - p.initTask < 0x8000_0000_0000_0000 && (runtime - p.initTask) % 0x20_0000 == 0
  }

  /** The page tables the profile names, those it has. */
  function Present(p: Profile): seq<u64> {
    (if p.initTopPgt.Some? then [p.initTopPgt.value] else [])
    + (if p.level4KernelPgt.Some? then [p.level4KernelPgt.value] else [])
  }

  /** The physical address of a page table symbol; nothing when it lies below the text or past the end of memory. */
  function TableAt(p: Profile, physText: u64, symbol: u64): Option<u64> {
    var delta := CheckedSymbolDelta(p.text, symbol);
    var phys := if delta.None? then None else CheckedAdd(physText, delta.value);
    if phys.None? then None else Some(PageAligned(phys.value))
  }

  /** A table's address is the page that the symbol falls into once the text is moved to its physical address. */
  lemma TableAtIsPage(p: Profile, physText: u64, symbol: u64, t: u64)
    ensures TableAt(p, physText, symbol) == Some(t) <==>
            && p.text <= symbol && physText + (symbol - p.text) <= U64_MAX
            && t % PAGE == 0 && t <= physText + (symbol - p.text) < t + PAGE
  {
  }

  /** The distinct tables of some symbols in the order of their first mention; an error if any cannot be placed. */
  function Tables(p: Profile, physText: u64, symbols: seq<u64>): Result<seq<u64>> {
    if symbols == [] then Ok([])
    else
      var front, t := Tables(p, physText, symbols[..|symbols| - 1]), TableAt(p, physText, symbols[|symbols| - 1]);
      if front.Err? || t.None? then Err
      else if t.value in front.value then front else Ok(front.value + [t.value])
  }

  method PageTableCandidates(p: Profile, physText: u64) returns (r: Result<seq<u64>>)
    ensures r == if Present(p) == [] then Err else Tables(p, physText, Present(p))
  {
    var symbols, candidates := Present(p), [];
    for i := 0 to |symbols|
      invariant Tables(p, physText, symbols[..i]) == Ok(candidates)
      invariant candidates == [] <==> i == 0
    {
      assert symbols[..i + 1][..i] == symbols[..i];
      var t := TableAt(p, physText, symbols[i]);
      if t.None? {
        TablesFail(p, physText, symbols, i + 1);
        return Err;
      }
      if t.value !in candidates { candidates := candidates + [t.value]; }
    }
    assert symbols[..|symbols|] == symbols;
    return if candidates == [] then Err else Ok(candidates);
  }

  lemma {:induction false} TablesFail(p: Profile, physText: u64, symbols: seq<u64>, k: nat)
    requires k <= |symbols| && Tables(p, physText, symbols[..k]).Err?
    ensures Tables(p, physText, symbols).Err?
  {
    if k == |symbols| {
      assert symbols[..k] == symbols;
    } else {
      assert symbols[..|symbols| - 1][..k] == symbols[..k];
      TablesFail(p, physText, symbols[..|symbols| - 1], k);
    }
  }

  /** Exactly the tables of the symbols, each once. */
  lemma {:induction false} TablesAreDistinct(p: Profile, physText: u64, symbols: seq<u64>)
    ensures var r := Tables(p, physText, symbols);
            && (r.Ok? <==> forall s :: s in symbols ==> TableAt(p, physText, s).Some?)
            && (r.Ok? ==> (forall t :: t in r.value <==> exists s :: s in symbols && TableAt(p, physText, s) == Some(t))
                          && forall j, k :: 0 <= j < k < |r.value| ==> r.value[j] != r.value[k])
  {
    hide TableAt;
    if symbols != [] {
      var front, last := symbols[..|symbols| - 1], symbols[|symbols| - 1];
      TablesAreDistinct(p, physText, front);
      assert symbols == front + [last];
    }
  }

  /** The page table maps the text and `init_task` where the candidate has them, and the banner reads as the profile has it. */
  predicate ValidateKernelTranslation(w: Machine, p: Profile, cr3: u64, virtText: u64, physText: u64, c: TaskCandidate) {
    var expected := TrimTrailingNuls(p.banner);
    && w.translate(cr3, virtText) == Some(physText)
    && (var task := w.translate(cr3, c.runtimeInitTask); task.Some? && task.value as nat == c.physTask)
    && (var n := Min(|expected|, 256);
        expected == [] || w.readVirtual(cr3, Rebase(p.linuxBanner, c.slide), n) == Some(expected[..n]))
  }

  /** The text address a candidate goes with: the hint, or the one computed from `init_task` when the hint is null. */
  function PhysTextOf(p: Profile, c: TaskCandidate, hint: u64): Option<u64> {
    if hint != 0 then Some(hint)
    else
      var delta := CheckedSymbolDelta(p.text, p.initTask);
      if delta.None? || c.physTask < delta.value || c.physTask > U64_MAX || (c.physTask - delta.value) % MB2 != 0 then None
      else Some(c.physTask - delta.value)
  }

  /** The kernel under the first table that validates. */
  function FirstValid(w: Machine, p: Profile, tables: seq<u64>, physText: u64, c: TaskCandidate): Result<KernelInfo> {
    var virtText := Rebase(p.text, c.slide);
    if tables == [] then Err
    else if ValidateKernelTranslation(w, p, tables[0], virtText, physText, c) then
      Ok(KernelInfo(tables[0], physText, virtText, physText))
    else FirstValid(w, p, tables[1..], physText, c)
  }

  function Resolve(w: Machine, p: Profile, c: TaskCandidate, hint: u64): Result<KernelInfo> {
    var physText := PhysTextOf(p, c, hint);
    if physText.None? || Present(p) == [] then Err
    else
      var tables := Tables(p, physText.value, Present(p));
      if tables.Err? then Err else FirstValid(w, p, tables.value, physText.value, c)
  }

  method ResolveKernelFromCandidate(w: Machine, p: Profile, c: TaskCandidate, hint: u64) returns (r: Result<KernelInfo>)
    ensures r == Resolve(w, p, c, hint)
  {
    hide ValidateKernelTranslation, Tables, PhysTextOf;
    var virtText := Rebase(p.text, c.slide);
    var physText := PhysTextOf(p, c, hint);
    if physText.None? { return Err; }
    var tables := PageTableCandidates(p, physText.value);
    if tables.Err? { return Err; }
    for i := 0 to |tables.value|
      invariant FirstValid(w, p, tables.value, physText.value, c) == FirstValid(w, p, tables.value[i..], physText.value, c)
    {
      assert tables.value[i..][1..] == tables.value[i + 1..];
      if !ValidateKernelTranslation(w, p, tables.value[i], virtText, physText.value, c) { continue; }
      return Ok(KernelInfo(tables.value[i], physText.value, virtText, physText.value));
    }
    return Err;
  }

  /** The attempt at one physical text address. */
  function Attempt(w: Machine, p: Profile, physText: u64): Result<KernelInfo> {
    var delta := CheckedSymbolDelta(p.text, p.initTask);
    var physTask := if delta.None? then None else CheckedAdd(physText, delta.value);
    if physTask.None? then Err
    else
      var c := ValidateInitTaskCandidate(w.mem, p, physTask.value);
      if c.Err? then Err else Resolve(w, p, c.value, physText)
  }

  method DiscoverKernelWithHint(w: Machine, p: Profile, physText: u64) returns (r: Result<KernelInfo>)
    ensures r == Attempt(w, p, physText)
  {
    hide Resolve, ValidateInitTaskCandidate;
    var delta := CheckedSymbolDelta(p.text, p.initTask);
    if delta.None? { return Err; }
    var physTask := CheckedAdd(physText, delta.value);
    if physTask.None? { return Err; }
    var c := ValidateInitTaskCandidate(w.mem, p, physTask.value);
    if c.Err? { return Err; }
    r := ResolveKernelFromCandidate(w, p, c.value, physText);
  }

  // ----- what an attempt establishes -----

  /** `n` bytes are left without the NULs at the end. */
  ghost predicate IsTrimmed(s: seq<byte>, n: nat) {
    n <= |s| && (forall i :: n <= i < |s| ==> s[i] == 0) && (n > 0 ==> s[n - 1] != 0)
  }

  lemma {:induction false} TrimMeaning(s: seq<byte>)
    ensures TrimTrailingNuls(s) <= s && IsTrimmed(s, |TrimTrailingNuls(s)|)
  {
    if s != [] && s[|s| - 1] == 0 { TrimMeaning(s[..|s| - 1]); }
  }

  /** The profile has no banner, or the first bytes of it, at most 256, are read under the page table where the slide has
    * moved them. */
  ghost predicate HasBanner(w: Machine, p: Profile, cr3: u64, slide: int) {
    exists n: nat :: IsTrimmed(p.banner, n)
      && (n == 0 || var k := if n < 256 then n else 256;
                    w.readVirtual(cr3, (p.linuxBanner + slide) % 0x1_0000_0000_0000_0000, k) == Some(p.banner[..k]))
  }

  /** The page table symbols that the profile has. */
  ghost predicate IsTableSymbol(p: Profile, symbol: u64) {
    p.initTopPgt == Some(symbol) || p.level4KernelPgt == Some(symbol)
  }

  /** The page of a symbol once the text is at `physText`. */
  ghost predicate IsPageOf(p: Profile, physText: u64, symbol: u64, page: u64) {
    && CanPlace(p, physText, symbol)
    && page % 0x1000 == 0 && page <= physText + (symbol - p.text) < page + 0x1000
  }

  ghost predicate CanPlace(p: Profile, physText: u64, symbol: u64) {
    p.text <= symbol && physText + (symbol - p.text) <= 0xFFFF_FFFF_FFFF_FFFF
  }

  /** The page table is that of one of the profile's symbols, and none of them is out of place. */
  ghost predicate IsTable(p: Profile, physText: u64, cr3: u64) {
    && (exists symbol: u64 :: IsTableSymbol(p, symbol) && IsPageOf(p, physText, symbol, cr3))
    && forall symbol: u64 :: IsTableSymbol(p, symbol) ==> CanPlace(p, physText, symbol)
  }

  /** A kernel that fits the profile: under one of its page tables the text translates to its physical address, an idle task
    * is where `init_task` translates to, the banner is read, and one slide explains all addresses. */
  ghost predicate IsKernel(w: Machine, p: Profile, k: KernelInfo) {
    exists runtime: u64, physTask: u64 :: IsKernelWith(w, p, k, runtime, physTask)
  }

  ghost predicate IsKernelWith(w: Machine, p: Profile, k: KernelInfo, runtime: u64, physTask: u64) {
    && IsAlignedSlide(p, runtime) && p.text <= p.initTask
    && var slide := runtime - p.initTask;
    && k.physBase == k.physText && k.virtText == p.text + slide && physTask == k.physText + (p.initTask - p.text)
    && IsTable(p, k.physText, k.cr3)
    && w.translate(k.cr3, k.virtText) == Some(k.physText) && w.translate(k.cr3, runtime) == Some(physTask)
    && IsIdleTask(w.mem, p.task, physTask, runtime)
    && HasBanner(w, p, k.cr3, slide)
  }

  lemma {:induction false} FirstValidSound(w: Machine, p: Profile, tables: seq<u64>, physText: u64, c: TaskCandidate)
    ensures var r, virtText := FirstValid(w, p, tables, physText, c), Rebase(p.text, c.slide);
            && (r.Ok? ==> r.value.cr3 in tables && ValidateKernelTranslation(w, p, r.value.cr3, virtText, physText, c)
                          && r.value == KernelInfo(r.value.cr3, physText, virtText, physText))
            && (r.Err? ==> forall t :: t in tables ==> !ValidateKernelTranslation(w, p, t, virtText, physText, c))
  {
    hide ValidateKernelTranslation, Rebase;
    if tables != [] { FirstValidSound(w, p, tables[1..], physText, c); }
  }

  /** A slide taken from a symbol above the text carries the text and the symbol to their runtime addresses. */
  lemma SlideIsExact(p: Profile, runtime: u64)
    requires p.text <= p.initTask <= runtime && runtime - p.initTask < 0x8000_0000_0000_0000
    ensures var slide := runtime - p.initTask;
            && Rebase(p.text, slide) == p.text + slide && Rebase(p.initTask, slide) == runtime
            && ComputeSlide(p, Rebase(p.text, slide)) == Ok(slide)
  {
  }

  lemma BannerMeaning(w: Machine, p: Profile, cr3: u64, slide: int)
    ensures var expected := TrimTrailingNuls(p.banner);
            HasBanner(w, p, cr3, slide) <==>
              || expected == []
              || w.readVirtual(cr3, Rebase(p.linuxBanner, slide), Min(|expected|, 256)) == Some(expected[..Min(|expected|, 256)])
  {
    var expected := TrimTrailingNuls(p.banner);
    TrimMeaning(p.banner);
    var k := Min(|expected|, 256);
    assert expected[..k] == p.banner[..k];
    forall n: nat | IsTrimmed(p.banner, n) ensures n == |expected| { TrimmedOnce(p.banner, n, |expected|); }
  }

  lemma TrimmedOnce(s: seq<byte>, n: nat, k: nat)
    requires IsTrimmed(s, n) && IsTrimmed(s, k)
    ensures n == k
  {
    hide IsTrimmed;
    TailIsZero(s, n);
    TailIsZero(s, k);
  }

  lemma TailIsZero(s: seq<byte>, n: nat)
    requires IsTrimmed(s, n)
    ensures n <= |s| && (n > 0 ==> s[n - 1] != 0)
    ensures forall i {:trigger s[i - 1]} :: n < i <= |s| ==> s[i - 1] == 0
  {
  }

  lemma PresentMeaning(p: Profile, symbol: u64)
    ensures symbol in Present(p) <==> IsTableSymbol(p, symbol)
  {
  }

  /** The candidates that are tried are the profile's page tables. */
  lemma TablesMeaning(p: Profile, physText: u64, cr3: u64)
    ensures var r := Tables(p, physText, Present(p));
            r.Ok? && cr3 in r.value <==> IsTable(p, physText, cr3)
    ensures Tables(p, physText, Present(p)).Ok? <==> forall symbol: u64 :: IsTableSymbol(p, symbol) ==> CanPlace(p, physText, symbol)
  {
    hide Tables, TableAt, Present, IsTableSymbol;
    TablesAreDistinct(p, physText, Present(p));
    forall symbol: u64, t: u64 ensures TableAt(p, physText, symbol) == Some(t) <==> IsPageOf(p, physText, symbol, t) {
      TableAtIsPage(p, physText, symbol, t);
    }
    forall symbol: u64 ensures TableAt(p, physText, symbol).Some? <==> CanPlace(p, physText, symbol) {
      TablePlaced(p, physText, symbol);
    }
    forall symbol: u64 ensures symbol in Present(p) <==> IsTableSymbol(p, symbol) { PresentMeaning(p, symbol); }
  }

  lemma TablePlaced(p: Profile, physText: u64, symbol: u64)
    ensures TableAt(p, physText, symbol).Some? <==> CanPlace(p, physText, symbol)
  {
  }

  /** The attempt, step by step. */
  lemma AttemptSteps(w: Machine, p: Profile, physText: u64, c: TaskCandidate)
    requires p.text <= p.initTask && physText + (p.initTask - p.text) <= U64_MAX
    requires ValidateInitTaskCandidate(w.mem, p, physText + (p.initTask - p.text)) == Ok(c)
    requires c.physTask == physText + (p.initTask - p.text)
    ensures var tables := Tables(p, physText, Present(p));
            Attempt(w, p, physText) == if Present(p) == [] || tables.Err? then Err else FirstValid(w, p, tables.value, physText, c)
  {
    hide Tables, FirstValid, ValidateInitTaskCandidate, Present;
  }

  /** Every successful attempt finds a kernel that fits the profile, at the text address it was asked about; and it succeeds
    * whenever there is one. */
  lemma AttemptIff(w: Machine, p: Profile, physText: u64)
    ensures Attempt(w, p, physText).Ok? <==> exists k :: IsKernel(w, p, k) && k.physText == physText
    ensures var r := Attempt(w, p, physText);
            r.Ok? ==> IsKernel(w, p, r.value) && r.value.physText == physText
  {
    hide Attempt, IsKernelWith;
    if Attempt(w, p, physText).Ok? { SuccessIsKernel(w, p, physText); }
    if k :| IsKernel(w, p, k) && k.physText == physText {
      var runtime: u64, physTask: u64 :| IsKernelWith(w, p, k, runtime, physTask);
      KernelIsFound(w, p, k, runtime, physTask);
    }
  }

  lemma SuccessIsKernel(w: Machine, p: Profile, physText: u64)
    requires Attempt(w, p, physText).Ok?
    ensures IsKernel(w, p, Attempt(w, p, physText).value) && Attempt(w, p, physText).value.physText == physText
  {
    hide IsIdleTask, Tables, FirstValid, Rebase, ValidateInitTaskCandidate, IsTable, HasBanner, TrimTrailingNuls;
    var physTask := physText + CheckedSymbolDelta(p.text, p.initTask).value;
    var c := ValidateInitTaskCandidate(w.mem, p, physTask).value;
    CandidateMeaning(w.mem, p, physTask, c);
    AttemptSteps(w, p, physText, c);
    var r := Attempt(w, p, physText).value;
    FirstValidSound(w, p, Tables(p, physText, Present(p)).value, physText, c);
    TablesMeaning(p, physText, r.cr3);
    BannerMeaning(w, p, r.cr3, c.slide);
    SlideIsExact(p, c.runtimeInitTask);
    assert IsKernelWith(w, p, r, c.runtimeInitTask, physTask);
  }

  /** A kernel that fits passes every check of the attempt. */
  lemma KernelValidates(w: Machine, p: Profile, k: KernelInfo, runtime: u64, physTask: u64)
    requires IsKernelWith(w, p, k, runtime, physTask)
    ensures var c := TaskCandidate(physTask, runtime, runtime - p.initTask);
            && ValidateInitTaskCandidate(w.mem, p, physTask) == Ok(c)
            && ValidateKernelTranslation(w, p, k.cr3, Rebase(p.text, c.slide), k.physText, c)
            && k == KernelInfo(k.cr3, k.physText, Rebase(p.text, c.slide), k.physText)
  {
    hide IsIdleTask, IsTable, HasBanner, ValidateInitTaskCandidate, TrimTrailingNuls;
    var c := TaskCandidate(physTask, runtime, runtime - p.initTask);
    CandidateMeaning(w.mem, p, physTask, c);
    BannerMeaning(w, p, k.cr3, c.slide);
    SlideIsExact(p, runtime);
  }

  lemma KernelIsFound(w: Machine, p: Profile, k: KernelInfo, runtime: u64, physTask: u64)
    requires IsKernelWith(w, p, k, runtime, physTask)
    ensures Attempt(w, p, k.physText).Ok?
  {
    hide IsIdleTask, Tables, FirstValid, Rebase, ValidateInitTaskCandidate, ValidateKernelTranslation, IsTable, HasBanner;
    var c := TaskCandidate(physTask, runtime, runtime - p.initTask);
    KernelValidates(w, p, k, runtime, physTask);
    AttemptSteps(w, p, k.physText, c);
    TablesMeaning(p, k.physText, k.cr3);
    NoTables(p, k.physText);
    FirstValidSound(w, p, Tables(p, k.physText, Present(p)).value, k.physText, c);
  }

  lemma NoTables(p: Profile, physText: u64)
    ensures Present(p) == [] ==> Tables(p, physText, Present(p)) == Ok([])
  {
  }

  /** Of two page tables that fit, that of `init_top_pgt` is chosen. */
  lemma FirstTableDecides(w: Machine, p: Profile, k: KernelInfo, symbol: u64)
    requires IsKernel(w, p, k) && p.initTopPgt == Some(symbol) && IsPageOf(p, k.physText, symbol, k.cr3)
    ensures Attempt(w, p, k.physText) == Ok(k)
  {
    hide IsIdleTask, Rebase, ValidateInitTaskCandidate, ValidateKernelTranslation, IsTable, HasBanner, Tables, FirstValid;
    var runtime: u64, physTask: u64 :| IsKernelWith(w, p, k, runtime, physTask);
    var c := TaskCandidate(physTask, runtime, runtime - p.initTask);
    KernelValidates(w, p, k, runtime, physTask);
    AttemptSteps(w, p, k.physText, c);
    TablesMeaning(p, k.physText, k.cr3);
    FirstTable(p, k.physText, symbol, k.cr3);
    FirstDecides(w, p, Tables(p, k.physText, Present(p)).value, k.physText, c);
  }

  lemma FirstDecides(w: Machine, p: Profile, tables: seq<u64>, physText: u64, c: TaskCandidate)
    requires tables != [] && ValidateKernelTranslation(w, p, tables[0], Rebase(p.text, c.slide), physText, c)
    ensures FirstValid(w, p, tables, physText, c) == Ok(KernelInfo(tables[0], physText, Rebase(p.text, c.slide), physText))
  {
    hide ValidateKernelTranslation, Rebase;
  }

  lemma OneTable(p: Profile, physText: u64, symbol: u64, page: u64)
    requires TableAt(p, physText, symbol) == Some(page)
    ensures Tables(p, physText, [symbol]) == Ok([page])
  {
    hide TableAt;
    var s := [symbol];
    assert s[..|s| - 1] == [] && s[|s| - 1] == symbol;
    assert Tables(p, physText, []) == Ok([]);
    assert [] + [page] == [page];
  }

  lemma FirstTable(p: Profile, physText: u64, symbol: u64, page: u64)
    requires p.initTopPgt == Some(symbol) && IsPageOf(p, physText, symbol, page)
    ensures var r := Tables(p, physText, Present(p));
            r.Ok? ==> r.value != [] && r.value[0] == page
  {
    hide TableAt;
    TableAtIsPage(p, physText, symbol, page);
    OneTable(p, physText, symbol, page);
    if p.level4KernelPgt.Some? { assert Present(p)[..1] == [symbol]; }
  }

  /** A null hint means the text address that goes with `init_task`, so a physical text base of zero needs no special case. */
  lemma NullHintIsAligned(w: Machine, p: Profile, c: TaskCandidate, physText: u64)
    requires p.text <= p.initTask && c.physTask == physText + (p.initTask - p.text) && c.physTask <= U64_MAX
    requires physText % MB2 == 0
    ensures Resolve(w, p, c, 0) == Resolve(w, p, c, physText)
  {
  }

  // ----- the scans -----

  /** All attempts at aligned text addresses below a limit fail. */
  ghost predicate FailsBelow(w: Machine, p: Profile, limit: nat) {
    forall t: u64 {:trigger Attempt(w, p, t)} :: t < limit && t % 0x20_0000 == 0 ==> Attempt(w, p, t).Err?
  }

  /** The first aligned text address whose attempt succeeds decides. */
  ghost predicate FirstAligned(w: Machine, p: Profile, r: Result<KernelInfo>) {
    if r.Err? then FailsBelow(w, p, w.mem.Total())
    else r.value.physText < w.mem.Total() && r.value.physText % 0x20_0000 == 0 && r == Attempt(w, p, r.value.physText)
         && FailsBelow(w, p, r.value.physText)
  }

  method DiscoverKernelFromCandidateScan(w: Machine, p: Profile) returns (r: Result<KernelInfo>)
    ensures FirstAligned(w, p, r)
  {
    hide Resolve, ValidateInitTaskCandidate;
    var delta := CheckedSymbolDelta(p.text, p.initTask);
    if delta.None? { return Err; }
    var total := w.mem.Total();
    var physText := 0;
    while physText < total
      invariant physText % MB2 == 0 && FailsBelow(w, p, physText)
    {
      var physTask := CheckedAdd(physText, delta.value);
      if physTask.None? {
        assert FailsBelow(w, p, total);
        break;
      }
      var c := ValidateInitTaskCandidate(w.mem, p, physTask.value);
      if c.Ok? {
        r := ResolveKernelFromCandidate(w, p, c.value, physText);
        if r.Ok? {
          AttemptIff(w, p, physText);
          return;
        }
      }
      NextAligned(w, p, physText);
      physText := physText + MB2;
    }
    return Err;
  }

  lemma NextAligned(w: Machine, p: Profile, physText: u64)
    requires physText % MB2 == 0 && FailsBelow(w, p, physText) && Attempt(w, p, physText).Err?
    ensures FailsBelow(w, p, physText + MB2)
  {
    hide Attempt;
    forall t: u64 {:trigger Attempt(w, p, t)} | t < physText + MB2 && t % MB2 == 0 ensures Attempt(w, p, t).Err? {
      assert t < physText || t == physText;
    }
  }
}
