/** The mmap-list walk, the choice between the two walks, and the per-process caches (process.rs). */
module LinuxProcess {
  import opened Wrappers
  import opened Memory
  import opened Sorting
  import opened MapleTree
  import opened MapleRefinement
  import opened ModuleSeeds
  import Paths

  // ----- the linked list of VMAs -----

  function WithInfo(info: Option<Vma>, rest: seq<Vma>): seq<Vma> {
    if info.Some? then [info.value] + rest else rest
  }

  function ListVmas(v: View, vmNext: nat, current: u64, steps: nat): Result<seq<Vma>>
    decreases steps, current
  {
    if steps == 0 || current == 0 then Ok([])
    else
      var info :- ReadVma(v, current);
      var next := ReadPointerOrNull(v.mem, current + vmNext);
      if next == 0 || next == current then Ok(WithInfo(info, []))
      else
        var rest :- ListVmas(v, vmNext, next, steps - 1);
        Ok(WithInfo(info, rest))
  }

  function CollectMmap(v: View, head: nat, vmNext: nat): Result<seq<Vma>> {
    ListVmas(v, vmNext, ReadPointerOrNull(v.mem, head), MAX_VMA_ITER)
  }

  function Prepend(found: seq<Vma>, rest: Result<seq<Vma>>): Result<seq<Vma>> {
    if rest.Ok? then Ok(found + rest.value) else Err
  }

  lemma PrependInfo(out: seq<Vma>, info: Option<Vma>, rest: Result<seq<Vma>>)
    ensures rest.Ok? ==> out + WithInfo(info, []) + rest.value == out + WithInfo(info, rest.value)
    ensures rest.Ok? ==> [] + rest.value == rest.value
    ensures out + [] == out
  {
  }

  method CollectVmasMmap(v: View, head: nat, vmNext: nat) returns (r: Result<seq<Vma>>)
    ensures r == CollectMmap(v, head, vmNext)
  {
    var out: seq<Vma> := [];
    var current: u64 := ReadPointerOrNull(v.mem, head);
    PrependInfo([], None, CollectMmap(v, head, vmNext));
    for i := 0 to MAX_VMA_ITER
      invariant Prepend(out, ListVmas(v, vmNext, current, MAX_VMA_ITER - i)) == CollectMmap(v, head, vmNext)
    {
      if current == 0 { break; }
      var info :- ReadVma(v, current);
      PrependInfo(out, info, ListVmas(v, vmNext, ReadPointerOrNull(v.mem, current + vmNext), MAX_VMA_ITER - i - 1));
      out := out + WithInfo(info, []);
      var next := ReadPointerOrNull(v.mem, current + vmNext);
      if next == 0 || next == current { return Ok(out); }
      current := next;
    }
    assert out + [] == out;
    return Ok(out);
  }

  /** `addresses` are the VMAs chained from `current`, ending at a next pointer that is null, unreadable or refers to itself. */
  ghost predicate Chained(v: View, vmNext: nat, current: u64, addresses: seq<u64>)
    decreases |addresses|
  {
    if addresses == [] then current == 0
    else
      var next := v.mem.u64At(current + vmNext).GetOr(0);
      && current == addresses[0] != 0 && CanBeRead(v, current)
      && if |addresses| == 1 then next == 0 || next == current
         else next != current && Chained(v, vmNext, next, addresses[1..])
  }

  /** The VMAs that memory holds at these addresses, in this order. */
  ghost function VmasAt(v: View, addresses: seq<u64>): seq<Vma> {
    if addresses == [] then [] else VmaAt(v, addresses[0]) + VmasAt(v, addresses[1..])
  }

  lemma {:induction false} VmasAtMeaning(v: View, addresses: seq<u64>, x: Vma)
    ensures x in VmasAt(v, addresses) <==> x.vma in addresses && IsVmaOf(v, x)
  {
    hide IsVmaOf, VmaAt;
    if addresses != [] {
      VmaAtMeaning(v, addresses[0], x);
      VmasAtMeaning(v, addresses[1..], x);
      assert addresses == [addresses[0]] + addresses[1..];
    }
  }

  lemma WithInfoOfVma(v: View, vma: u64, rest: seq<Vma>)
    requires ReadVma(v, vma).Ok?
    ensures WithInfo(ReadVma(v, vma).value, rest) == VmaAt(v, vma) + rest
  {
    hide ReadVma, VmaAt, IsVmaOf;
    ReadVmaGivesVma(v, vma);
    assert [] + rest == rest;
  }

  /** A well-formed list of at most `steps` VMAs is returned whole and in list order. */
  lemma {:induction false} ListRefines(v: View, vmNext: nat, current: u64, addresses: seq<u64>, steps: nat)
    requires Chained(v, vmNext, current, addresses) && |addresses| <= steps
    ensures ListVmas(v, vmNext, current, steps) == Ok(VmasAt(v, addresses))
    decreases |addresses|
  {
    hide ReadVma, CanBeRead, VmaAt;
    if addresses != [] {
      ReadVmaGivesVma(v, current);
      WithInfoOfVma(v, current, VmasAt(v, addresses[1..]));
      if |addresses| == 1 {
        assert VmasAt(v, addresses[1..]) == [];
      } else {
        ListRefines(v, vmNext, v.mem.u64At(current + vmNext).GetOr(0), addresses[1..], steps - 1);
      }
    }
  }

  /** The list head leads through at most 1,048,576 VMAs to the end. */
  ghost predicate IsList(v: View, head: nat, vmNext: nat, addresses: seq<u64>) {
    Chained(v, vmNext, v.mem.u64At(head).GetOr(0), addresses) && |addresses| <= 1_048_576
  }

  /** A well-formed list gives exactly the VMAs that memory holds at its addresses, in list order. */
  lemma CollectMmapRefines(v: View, head: nat, vmNext: nat, addresses: seq<u64>)
    requires IsList(v, head, vmNext, addresses)
    ensures CollectMmap(v, head, vmNext) == Ok(VmasAt(v, addresses))
    ensures forall x :: x in VmasAt(v, addresses) <==> x.vma in addresses && IsVmaOf(v, x)
  {
    hide IsVmaOf, VmasAt, Chained;
    ListRefines(v, vmNext, v.mem.u64At(head).GetOr(0), addresses, MAX_VMA_ITER);
    forall x ensures x in VmasAt(v, addresses) <==> x.vma in addresses && IsVmaOf(v, x) { VmasAtMeaning(v, addresses, x); }
  }

  /** The root word of the tree is the entry of a well-formed tree that one walk can collect. */
  ghost predicate IsTree(v: View, tree: nat, t: Tree) {
    exists entry: u64 :: v.mem.u64At(tree + v.o.maRoot) == Some(entry) && Represents(v, entry, 0, U64_MAX, t)
                         && IsWhole(t) && HeightAtMost(t, 64) && LeafCount(t) <= 1_048_576
  }

  /** The VMA is behind a leaf of the tree. */
  ghost predicate IsLive(v: View, t: Tree, x: Vma) {
    HasLeaf(t, x.vma) && x.vma >= 4096 && IsVmaOf(v, x)
  }

  lemma CollectTree(v: View, tree: nat, t: Tree)
    requires IsTree(v, tree, t)
    ensures var r := CollectMaple(v, tree);
            r.Ok? && InOrder(r.value) && forall x :: x in r.value <==> IsLive(v, t, x)
  {
    hide IsVmaOf, HasLeaf, Represents, HeightAtMost, IsWhole, InOrder;
    var entry: u64 :| v.mem.u64At(tree + v.o.maRoot) == Some(entry) && Represents(v, entry, 0, U64_MAX, t)
                      && IsWhole(t) && HeightAtMost(t, 64) && LeafCount(t) <= 1_048_576;
    CollectMapleRefines(v, tree, entry, t);
  }

  /** A well-formed tree and a well-formed list in address order that hold the same VMAs. */
  ghost predicate HoldSameVmas(v: View, tree: nat, t: Tree, head: nat, vmNext: nat, addresses: seq<u64>) {
    && IsTree(v, tree, t) && IsList(v, head, vmNext, addresses) && InOrder(VmasAt(v, addresses))
    && forall x: Vma :: x.vma in addresses && IsVmaOf(v, x) <==> IsLive(v, t, x)
  }

  /** The two walks agree whenever the tree and the list hold the same VMAs and the list is in address order. */
  lemma WalksAgree(v: View, tree: nat, t: Tree, head: nat, vmNext: nat, addresses: seq<u64>)
    requires HoldSameVmas(v, tree, t, head, vmNext, addresses)
    ensures CollectMaple(v, tree) == CollectMmap(v, head, vmNext) == Ok(VmasAt(v, addresses))
  {
    hide IsVmaOf, IsTree, IsList, IsLive, InOrder, VmasAt;
    CollectTree(v, tree, t);
    CollectMmapRefines(v, head, vmNext, addresses);
    SortedInOrder(CollectMaple(v, tree).value);
    SortedInOrder(VmasAt(v, addresses));
    StrictlySortedUnique(CollectMaple(v, tree).value, VmasAt(v, addresses), KEY);
  }

  // ----- choosing a walk, and the caches -----

  /** Where a process keeps its VMAs: the mm_struct and the profile offsets that are known for it. */
  datatype MmSource = MmSource(mm: u64, mmMt: Option<nat>, mmap: Option<nat>, vmNext: Option<nat>)

  function CollectList(v: View, s: MmSource): Result<seq<Vma>> {
    if s.mmap.Some? && s.vmNext.Some? then CollectMmap(v, s.mm + s.mmap.value, s.vmNext.value) else Ok([])
  }

  /** The maple tree is preferred; an empty or failed maple walk falls back to the list. */
  function Collect(v: View, s: MmSource): Result<seq<Vma>> {
    if s.mm == 0 then Ok([])
    else if s.mmMt.None? then CollectList(v, s)
    else
      match CollectMaple(v, s.mm + s.mmMt.value)
      case Ok(vmas) => if vmas != [] then Ok(vmas) else CollectList(v, s)
      case Err => CollectList(v, s)
  }

  /** There is no tree, its root or a part of it cannot be read, or no leaf of it leads to a VMA. */
  ghost predicate TreeGivesNothing(v: View, s: MmSource) {
    s.mmMt.Some? ==> HasNoVmas(v, s.mm + s.mmMt.value)
  }

  ghost predicate IsTornTree(v: View, tree: nat, t: Tree) {
    var root := v.mem.u64At(tree + v.o.maRoot);
    root.Some? && Represents(v, root.value, 0, U64_MAX, t) && !IsWhole(t) && HeightAtMost(t, 64) && LeafCount(t) < 1_048_576
  }

  ghost predicate HasNoVmas(v: View, tree: nat) {
    || v.mem.u64At(tree + v.o.maRoot).None?
    || (exists t :: IsTree(v, tree, t) && NothingLive(v, t))
    || (exists t :: IsTornTree(v, tree, t))
  }

  ghost predicate NothingLive(v: View, t: Tree) {
    forall x :: !IsLive(v, t, x)
  }

  /** With a tree that leads to some VMA, the collection is the tree's, whatever is known of the list. */
  lemma CollectFromTree(v: View, s: MmSource, t: Tree, some: Vma)
    requires s.mm != 0 && s.mmMt.Some? && IsTree(v, s.mm + s.mmMt.value, t) && IsLive(v, t, some)
    ensures var r := Collect(v, s);
            r.Ok? && InOrder(r.value) && forall x :: x in r.value <==> IsLive(v, t, x)
  {
    hide IsLive, IsTree, InOrder, CollectMaple;
    CollectTree(v, s.mm + s.mmMt.value, t);
    assert some in CollectMaple(v, s.mm + s.mmMt.value).value;
  }

  /** When the tree gives nothing, the collection is the list's; without a list, or without memory of its own, a process
    * has no VMAs. */
  lemma CollectWithoutTree(v: View, s: MmSource, addresses: seq<u64>)
    requires TreeGivesNothing(v, s)
    ensures s.mm != 0 && s.mmap.Some? && s.vmNext.Some? && IsList(v, s.mm + s.mmap.value, s.vmNext.value, addresses) ==>
              Collect(v, s) == Ok(VmasAt(v, addresses))
    ensures s.mm == 0 || s.mmap.None? || s.vmNext.None? ==> Collect(v, s) == Ok([])
  {
    hide HasNoVmas, IsList, CollectMmap, CollectMaple;
    if s.mm != 0 && s.mmap.Some? && s.vmNext.Some? && IsList(v, s.mm + s.mmap.value, s.vmNext.value, addresses) {
      CollectMmapRefines(v, s.mm + s.mmap.value, s.vmNext.value, addresses);
    }
    if s.mmMt.Some? { NoVmasFound(v, s.mm + s.mmMt.value); }
  }

  lemma SomeMember(vmas: seq<Vma>)
    ensures vmas != [] ==> exists x :: x in vmas
  {
    if vmas != [] { assert vmas[0] in vmas; }
  }

  lemma NoVmasFound(v: View, tree: nat)
    requires HasNoVmas(v, tree)
    ensures CollectMaple(v, tree).Err? || CollectMaple(v, tree) == Ok([])
  {
    hide IsLive, IsTree, IsTornTree, InOrder, WalkEntry;
    if t :| IsTornTree(v, tree, t) {
      TornTreeFails(v, tree, t);
    } else if t :| IsTree(v, tree, t) && NothingLive(v, t) {
      CollectTree(v, tree, t);
      SomeMember(CollectMaple(v, tree).value);
    }
  }

  lemma TornTreeFails(v: View, tree: nat, t: Tree)
    requires IsTornTree(v, tree, t)
    ensures CollectMaple(v, tree).Err?
  {
    hide CollectMaple, Represents;
    CollectMapleFails(v, tree, t);
  }

  /** When tree and list hold the same VMAs in address order, it does not matter which one is known. */
  lemma CollectIgnoresSource(v: View, mm: u64, mt: nat, mmap: nat, vmNext: nat, t: Tree, addresses: seq<u64>)
    requires mm != 0 && HoldSameVmas(v, mm + mt, t, mm + mmap, vmNext, addresses)
    ensures var both := Collect(v, MmSource(mm, Some(mt), Some(mmap), Some(vmNext)));
            && both == Ok(VmasAt(v, addresses))
            && both == Collect(v, MmSource(mm, Some(mt), None, None))
            && both == Collect(v, MmSource(mm, None, Some(mmap), Some(vmNext)))
  {
    hide Collect, HoldSameVmas, VmasAt, CollectMaple, CollectMmap;
    WalksAgree(v, mm + mt, t, mm + mmap, vmNext, addresses);
    EitherSource(v, mm, mt, mmap, vmNext, VmasAt(v, addresses));
  }

  lemma EitherSource(v: View, mm: u64, mt: nat, mmap: nat, vmNext: nat, vmas: seq<Vma>)
    requires mm != 0 && CollectMaple(v, mm + mt) == Ok(vmas) && CollectMmap(v, mm + mmap, vmNext) == Ok(vmas)
    ensures Collect(v, MmSource(mm, Some(mt), Some(mmap), Some(vmNext))) == Ok(vmas)
    ensures Collect(v, MmSource(mm, Some(mt), None, None)) == Ok(vmas)
    ensures Collect(v, MmSource(mm, None, Some(mmap), Some(vmNext))) == Ok(vmas)
  {
    hide CollectMaple, CollectMmap;
  }

  function IsElfImage(m: Memory, base: u64): bool {
    m.u8(base) == Some(0x7f) && m.u8(base + 1) == Some(0x45) && m.u8(base + 2) == Some(0x4c) && m.u8(base + 3) == Some(0x46)
  }

  function Seeds(m: Memory, vmas: seq<Vma>): seq<Seed> {
    if vmas == [] then []
    else
      var front, x := Seeds(m, vmas[..|vmas| - 1]), vmas[|vmas| - 1];
      if x.file == 0 || x.end <= x.start then front
      else front + [Seed(x.start, x.end, x.file, x.path, x.name, IsElfImage(m, x.start))]
  }

  /** The four bytes that open an ELF image. */
  ghost predicate HasElfMagic(m: Memory, a: nat) {
    forall i {:trigger ELF[i]} :: 0 <= i < 4 ==> m.u8(a + i) == Some(ELF[i])
  }

  const ELF: seq<byte> := [0x7f, 0x45, 0x4c, 0x46]

  lemma ElfImageMeaning(m: Memory, base: u64)
    ensures IsElfImage(m, base) <==> HasElfMagic(m, base)
  {
    assert ELF[0] == 0x7f && ELF[1] == 0x45 && ELF[2] == 0x4c && ELF[3] == 0x46;
    assert m.u8(base + 0) == m.u8(base);
  }

  /** The seed that a file-backed VMA of some size makes. */
  ghost predicate IsSeedOf(m: Memory, s: Seed, x: Vma) {
    && x.file != 0 && x.start < x.end
    && s.start == x.start && s.end == x.end && s.file == x.file && s.path == x.path && s.name == x.name
    && (s.hasElfHeader <==> HasElfMagic(m, x.start))
  }

  /** The seeds are those of the file-backed VMAs of some size, in their order. */
  lemma {:induction false} SeedsMeaning(m: Memory, vmas: seq<Vma>, s: Seed)
    ensures s in Seeds(m, vmas) <==> exists x :: x in vmas && IsSeedOf(m, s, x)
    ensures forall k :: 0 <= k <= |vmas| ==> Seeds(m, vmas[..k]) <= Seeds(m, vmas)
  {
    hide HasElfMagic, IsElfImage;
    if vmas != [] {
      var front, x := vmas[..|vmas| - 1], vmas[|vmas| - 1];
      SeedsMeaning(m, front, s);
      ElfImageMeaning(m, x.start);
      assert vmas == front + [x];
      assert vmas[|vmas| - 1] == x && forall i :: 0 <= i < |front| ==> vmas[i] == front[i];
      var made := Seeds(m, vmas);
      if s in made {
        if s in Seeds(m, front) {
          var y :| y in front && IsSeedOf(m, s, y);
          assert y in vmas;
        } else {
          assert IsSeedOf(m, s, x);
        }
      }
      forall k | 0 <= k <= |vmas| ensures Seeds(m, vmas[..k]) <= Seeds(m, vmas) {
        if k < |vmas| { assert vmas[..k] == front[..k]; } else { assert vmas[..k] == vmas; }
      }
    }
  }

  function Modules(v: View, s: MmSource): Result<seq<Module>> {
    var vmas :- Collect(v, s);
    Ok(Aggregate(Seeds(v.mem, vmas)))
  }

  /** A live VMA of a file whose memory opens an ELF image. */
  ghost predicate IsImage(v: View, t: Tree, x: Vma) {
    IsLive(v, t, x) && x.file != 0 && HasElfMagic(v.mem, x.start)
  }

  ghost predicate HoldsVma(m: Module, x: Vma) {
    m.file == x.file && m.base <= x.start && x.end <= m.base + m.size
  }

  /** From the maple tree to the modules: every module begins at an image in memory, and every image lies in a module. */
  lemma ModulesOfTree(v: View, s: MmSource, t: Tree, some: Vma)
    requires s.mm != 0 && s.mmMt.Some? && IsTree(v, s.mm + s.mmMt.value, t) && IsLive(v, t, some)
    ensures var r := Modules(v, s);
            && r.Ok?
            && (forall i, j :: 0 <= i < j < |r.value| ==> r.value[i].base <= r.value[j].base)
            && (forall m :: m in r.value ==> exists x :: IsImage(v, t, x) && x.file == m.file && x.start == m.base)
            && (forall x :: IsImage(v, t, x) ==> exists m :: m in r.value && HoldsVma(m, x))
  {
    hide IsLive, IsTree, IsImage, Seeds, HoldsVma, Collect, Aggregate;
    CollectFromTree(v, s, t, some);
    var vmas := Collect(v, s).value;
    var seeds := Seeds(v.mem, vmas);
    AggregateMakesModules(seeds);
    var r := Aggregate(seeds);
    forall m | m in r ensures exists x :: IsImage(v, t, x) && x.file == m.file && x.start == m.base {
      var k :| 0 <= k < |r| && r[k] == m;
      var x := ImageOfModule(v, t, vmas, seeds, m);
    }
    forall x | IsImage(v, t, x) ensures exists m :: m in r && HoldsVma(m, x) {
      var m := ModuleOfImage(v, t, vmas, seeds, r, x);
    }
  }

  lemma ImageOfModule(v: View, t: Tree, vmas: seq<Vma>, seeds: seq<Seed>, m: Module) returns (x: Vma)
    requires forall x :: x in vmas <==> IsLive(v, t, x)
    requires seeds == Seeds(v.mem, vmas) && StartsAtElf(m, seeds)
    ensures IsImage(v, t, x) && x.file == m.file && x.start == m.base
  {
    hide IsLive, Seeds, HasElfMagic;
    var seed :| seed in seeds && seed.hasElfHeader && seed.file == m.file && seed.start == m.base;
    SeedsMeaning(v.mem, vmas, seed);
    x :| x in vmas && IsSeedOf(v.mem, seed, x);
  }

  lemma ModuleOfImage(v: View, t: Tree, vmas: seq<Vma>, seeds: seq<Seed>, r: seq<Module>, x: Vma) returns (m: Module)
    requires forall x :: x in vmas <==> IsLive(v, t, x)
    requires seeds == Seeds(v.mem, vmas) && IsImage(v, t, x)
    requires forall s :: s in seeds && s.hasElfHeader && s.start < s.end ==> Held(s, r)
    ensures m in r && HoldsVma(m, x)
  {
    hide IsLive, Seeds, HasElfMagic;
    LiveHasRange(v, t, x);
    var seed := Seed(x.start, x.end, x.file, x.path, x.name, true);
    assert x in vmas && IsSeedOf(v.mem, seed, x);
    SeedsMeaning(v.mem, vmas, seed);
    assert Held(seed, r);
    var k :| 0 <= k < |r| && Holds(r[k], seed);
    m := r[k];
  }

  lemma LiveHasRange(v: View, t: Tree, x: Vma)
    requires IsLive(v, t, x)
    ensures x.start < x.end
  {
  }

  /** A process with its cached VMAs and modules.  `root` is its root path, if its file system information is known. */
  class Process {
    const source: MmSource
    const o: Offsets
    const paths: Paths.PathOffsets
    const filePath: nat
    const root: Option<nat>
    var mem: Memory
    var cachedVmas: Option<seq<Vma>>
    var cachedModules: Option<seq<Module>>

    /** What the process reads: its memory through the current translation, and file paths seen from its own root. */
    function View(): View
      reads this
    {
      ProcessView(mem, o, filePath, paths, root)
    }

    /** A cache always holds what walking memory through the current translation would give. */
    ghost predicate Valid()
      reads this
    {
      && (cachedVmas.Some? ==> Collect(View(), source) == Ok(cachedVmas.value))
      && (cachedModules.Some? ==> Modules(View(), source) == Ok(cachedModules.value))
    }

    constructor (mem: Memory, o: Offsets, paths: Paths.PathOffsets, filePath: nat, root: Option<nat>, source: MmSource)
      ensures Valid() && View() == ProcessView(mem, o, filePath, paths, root) && this.source == source
      ensures cachedVmas.None? && cachedModules.None?
    {
      this.mem, this.o, this.paths, this.filePath, this.root, this.source := mem, o, paths, filePath, root, source;
      cachedVmas, cachedModules := None, None;
    }

    method CollectVmas() returns (r: Result<seq<Vma>>)
      ensures r == Collect(View(), source)
    {
      hide CollectMaple, CollectMmap;
      if source.mm == 0 { return Ok([]); }
      if source.mmMt.Some? {
        r := CollectVmasMaple(View(), source.mm + source.mmMt.value);
        if r.Ok? && r.value != [] { return; }
      }
      if source.mmap.Some? && source.vmNext.Some? {
        r := CollectVmasMmap(View(), source.mm + source.mmap.value, source.vmNext.value);
        return;
      }
      return Ok([]);
    }

    method VmaCache() returns (r: Result<seq<Vma>>)
      requires Valid()
      modifies this`cachedVmas
      ensures Valid() && r == Collect(View(), source)
      ensures cachedVmas == if r.Ok? then Some(r.value) else old(cachedVmas)
    {
      if cachedVmas.None? {
        var vmas :- CollectVmas();
        cachedVmas := Some(vmas);
      }
      return Ok(cachedVmas.value);
    }

    method ModuleCache() returns (r: Result<seq<Module>>)
      requires Valid()
      modifies this`cachedVmas, this`cachedModules
      ensures Valid() && r == Modules(View(), source)
      ensures cachedModules == if r.Ok? then Some(r.value) else old(cachedModules)
    {
      if cachedModules.None? {
        var vmas :- VmaCache();
        var seeds: seq<Seed> := [];
        for i := 0 to |vmas|
          invariant Valid() && seeds == Seeds(mem, vmas[..i])
        {
          assert vmas[..i + 1][..i] == vmas[..i];
          var x := vmas[i];
          if x.file == 0 || SaturatingSub(x.end, x.start) == 0 { continue; }
          seeds := seeds + [Seed(x.start, x.end, x.file, x.path, x.name, IsElfImage(mem, x.start))];
        }
        assert vmas[..|vmas|] == vmas;
        var modules := AggregateModuleSeeds(seeds);
        cachedModules := Some(modules);
      }
      return Ok(cachedModules.value);
    }

    /** A new page table changes what memory reads return, so both caches are dropped. */
    method SetDtb(translated: Memory)
      requires Valid()
      modifies this
      ensures Valid() && mem == translated && cachedVmas.None? && cachedModules.None?
    {
      mem := translated;
      cachedVmas, cachedModules := None, None;
    }
  }
}
