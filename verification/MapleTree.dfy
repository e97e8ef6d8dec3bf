/** The maple-tree VMA walk, and what it does on any memory (process.rs). */
module MapleTree {
  import opened Bits
  import opened Wrappers
  import opened Memory
  import opened Sorting
  import opened Alignment
  import Paths

  const MAPLE_DENSE_SLOTS: nat := 31
  const MAX_MAPLE_DEPTH: nat := 64
  const MAX_VMA_ITER: nat := 1_048_576
  const PAGE: nat := 4096

  datatype NodeLayout = NodeLayout(pivot: nat, pivotCount: nat, slot: nat, slotCount: nat, metaEnd: nat)

  datatype Offsets = Offsets(
    maRoot: nat, range64: NodeLayout, arange64: NodeLayout,
    vmStart: nat, vmEnd: nat, vmFlags: nat, vmFile: nat)

  datatype NodeType = DenseNode | Leaf64 | Range64 | Arange64

  datatype Vma = Vma(vma: u64, start: u64, end: u64, flags: u64, file: u64, path: string, name: string)

  /** What a walk reads from: the process memory, the profile, and the path of each backing file. */
  datatype View = View(mem: Memory, o: Offsets, filePath: u64 -> string)

  /** The view of a process: a file's path is what path reconstruction gives, or empty when that fails. */
  function ProcessView(mem: Memory, o: Offsets, fPath: nat, paths: Paths.PathOffsets, root: Option<nat>): View {
    View(mem, o, (file: u64) =>
      var path := Paths.ReadPath(mem, paths, file + fPath, root);
      if path.Ok? then path.value else "")
  }

  // ----- one VMA -----

  predicate IsSeparator(c: char) {
    c == '/' || c == '\\'
  }

  function LastIndexOfSeparator(path: string): (k: nat)
    ensures k <= |path|
  {
    if path == "" then 0
    else if IsSeparator(path[|path| - 1]) then |path|
    else LastIndexOfSeparator(path[..|path| - 1])
  }

  function ModuleName(path: string): string {
    var base := path[LastIndexOfSeparator(path)..];
    if base == "" then "unknown" else base
  }

  function ReadVma(v: View, vma: u64): Result<Option<Vma>> {
    var start :- Paths.Required(v.mem.u64At(vma + v.o.vmStart));
    var end :- Paths.Required(v.mem.u64At(vma + v.o.vmEnd));
    if start == 0 || end <= start then Ok(None)
    else
      var flags :- Paths.Required(v.mem.u64At(vma + v.o.vmFlags));
      var file := ReadPointerOrNull(v.mem, vma + v.o.vmFile);
      var path := if file == 0 then "" else v.filePath(file);
      Ok(Some(Vma(vma, start, end, flags, file, path, if path == "" then "" else ModuleName(path))))
  }

  /** The name is the last component of the path, or a placeholder when the path ends in a separator. */
  lemma {:induction false} ModuleNameIsLast(path: string)
    ensures var k := LastIndexOfSeparator(path);
            && (k > 0 ==> path[k - 1] == '/' || path[k - 1] == '\\')
            && '/' !in path[k..] && '\\' !in path[k..]
            && ModuleName(path) == if k == |path| then "unknown" else path[k..]
  {
    if path != "" && !IsSeparator(path[|path| - 1]) {
      var front := path[..|path| - 1];
      ModuleNameIsLast(front);
      var k := LastIndexOfSeparator(front);
      assert path[k..] == front[k..] + [path[|path| - 1]];
    }
  }

  /** Memory holds this VMA at its address: its bounds make a non-empty range above zero, its backing file may be missing,
    * and its path and name go with the file. */
  ghost predicate IsVmaOf(v: View, x: Vma) {
    && 0 < x.start < x.end
    && v.mem.u64At(x.vma + v.o.vmStart) == Some(x.start) && v.mem.u64At(x.vma + v.o.vmEnd) == Some(x.end)
    && v.mem.u64At(x.vma + v.o.vmFlags) == Some(x.flags)
    && (if v.mem.u64At(x.vma + v.o.vmFile).Some? then v.mem.u64At(x.vma + v.o.vmFile).value == x.file else x.file == 0)
    && x.path == (if x.file == 0 then "" else v.filePath(x.file))
    && x.name == (if x.path == "" then "" else ModuleName(x.path))
  }

  /** The bounds are there, but make no range above zero. */
  ghost predicate HasNoRange(v: View, vma: u64) {
    var start, end := v.mem.u64At(vma + v.o.vmStart), v.mem.u64At(vma + v.o.vmEnd);
    start.Some? && end.Some? && (start.value == 0 || end.value <= start.value)
  }

  /** A VMA is read exactly when memory holds it, and skipped exactly when its bounds make no range; otherwise a word is
    * missing.  So a VMA is determined by its address, which is why dedup by address loses nothing. */
  lemma ReadVmaMeaning(v: View, vma: u64, x: Vma)
    ensures ReadVma(v, vma) == Ok(Some(x)) <==> x.vma == vma && IsVmaOf(v, x)
    ensures ReadVma(v, vma) == Ok(None) <==> HasNoRange(v, vma)
  {
    hide ModuleName;
  }

  predicate KeyLe(a: Vma, b: Vma) {
    a.start < b.start || (a.start == b.start && (a.end < b.end || (a.end == b.end && a.vma <= b.vma)))
  }

  const KEY := (a: Vma, b: Vma) => KeyLe(a, b)

  /** By start, then by end, then by address. */
  predicate Before(a: Vma, b: Vma) {
    a.start < b.start || (a.start == b.start && (a.end < b.end || (a.end == b.end && a.vma < b.vma)))
  }

  ghost predicate InOrder(r: seq<Vma>) {
    forall i, j :: 0 <= i < j < |r| ==> Before(r[i], r[j])
  }

  lemma SortedInOrder(r: seq<Vma>)
    ensures StrictlySorted(r, KEY) <==> InOrder(r)
  {
    forall i, j | 0 <= i < j < |r| ensures Before(r[i], r[j]) <==> KEY(r[i], r[j]) && !KEY(r[j], r[i]) {
    }
  }

  // ----- the maple walk, as a function of memory -----

  function TypeOf(entry: u64): Option<NodeType> {
    if entry / 2 % 4 == 0 then None
    else match entry / 8 % 16
      case 0 => Some(DenseNode)
      case 1 => Some(Leaf64)
      case 2 => Some(Range64)
      case 3 => Some(Arange64)
      case _ => None
  }

  function NodeOf(entry: u64): nat {
    entry - entry % 256
  }

  /** A node's address is its entry without the low byte. */
  lemma NodeBits(entry: u64)
    ensures NodeOf(entry) == AndNot(entry, 0xff) && NodeOf(entry) % 0x100 == 0 && NodeOf(entry) <= entry < NodeOf(entry) + 0x100
  {
    hide AndNot;
    LowByteCleared(entry);
  }

  /** An entry is a node when one of its two tag bits is set and the four type bits name a known type. */
  lemma TagBits(entry: u64)
    ensures TypeOf(entry) == if And(entry, 0x06) == 0 then None
                             else match And(entry / 8, 0x0f)
                               case 0 => Some(DenseNode)
                               case 1 => Some(Leaf64)
                               case 2 => Some(Range64)
                               case 3 => Some(Arange64)
                               case _ => None
  {
    hide And;
    AndZero(entry / 2 / 2 / 2);
    BitStep(entry, 0x06);
    BitStep(entry / 2, 0x03);
    BitStep(entry / 2 / 2, 0x01);
    AndZero(entry / 8 / 16);
    LowNibble(entry / 8, 0x0f);
  }

  datatype Walk = Walk(ok: bool, out: seq<Vma>)

  function Remaining(depth: nat): nat {
    if depth > MAX_MAPLE_DEPTH then 0 else MAX_MAPLE_DEPTH + 1 - depth
  }

  function PushVma(v: View, vma: u64, out: seq<Vma>): Walk {
    if vma < PAGE then Walk(true, out)
    else match ReadVma(v, vma)
      case Ok(Some(info)) => Walk(true, out + [info])
      case Ok(None) => Walk(true, out)
      case Err => Walk(false, out)
  }

  function WalkEntry(v: View, entry: u64, min: u64, max: u64, depth: nat, out: seq<Vma>): Walk
    decreases Remaining(depth), 3, entry
  {
    if entry == 0 || depth > MAX_MAPLE_DEPTH || |out| >= MAX_VMA_ITER then Walk(true, out)
    else match TypeOf(entry)
      case Some(DenseNode) => WalkDense(v, NodeOf(entry), 0, min, DenseSlots(min, max), depth, out)
      case Some(Leaf64) => WalkRange64(v, NodeOf(entry), true, min, max, depth, out)
      case Some(Range64) => WalkRange64(v, NodeOf(entry), false, min, max, depth, out)
      case Some(Arange64) => WalkArange64(v, NodeOf(entry), min, max, depth, out)
      case None => PushVma(v, entry, out)
  }

  function DenseSlots(min: u64, max: u64): nat {
    Min(MAPLE_DENSE_SLOTS, SaturatingAdd(SaturatingSub(max, min), 1))
  }

  function WalkDense(v: View, node: nat, index: nat, min: u64, slots: nat, depth: nat, out: seq<Vma>): Walk
    requires depth <= MAX_MAPLE_DEPTH && index <= slots
    decreases Remaining(depth), 1, slots - index, node
  {
    if index == slots then Walk(true, out)
    else match v.mem.u64At(node + 8 * index)
      case None => Walk(false, out)
      case Some(slot) =>
        var slotMin := SaturatingAdd(min, index);
        var w := if slot == 0 then Walk(true, out) else WalkEntry(v, slot, slotMin, slotMin, depth + 1, out);
        if !w.ok then w else WalkDense(v, node, index + 1, min, slots, depth, w.out)
  }

  /** The loop over the slots of a range64 or arange64 node, from slot `index` through slot `dataEnd`. */
  function WalkSlots(v: View, n: NodeLayout, node: nat, index: nat, dataEnd: nat, currentMin: u64, max: u64,
                     depth: nat, out: seq<Vma>): Walk
    requires depth <= MAX_MAPLE_DEPTH && index <= dataEnd + 1
    decreases Remaining(depth), 1, dataEnd + 1 - index, node
  {
    if index > dataEnd then Walk(true, out)
    else
      var last := LastOf(v.mem, n, node, index, max);
      var slot := v.mem.u64At(node + n.slot + 8 * index);
      if last.None? || slot.None? then Walk(false, out)
      else
        var w := if slot.value == 0 then Walk(true, out)
                 else WalkEntry(v, slot.value, currentMin, last.value, depth + 1, out);
        if !w.ok || last.value >= max then w
        else WalkSlots(v, n, node, index + 1, dataEnd, SaturatingAdd(last.value, 1), max, depth, w.out)
  }

  function LastOf(m: Memory, n: NodeLayout, node: nat, index: nat, max: u64): Option<u64> {
    if index < n.pivotCount then m.u64At(node + n.pivot + 8 * index) else Some(max)
  }

  function WalkRange64(v: View, node: nat, leaf: bool, min: u64, max: u64, depth: nat, out: seq<Vma>): Walk
    requires depth <= MAX_MAPLE_DEPTH
    decreases Remaining(depth), 2, node
  {
    var n := v.o.range64;
    var dataEnd := Range64DataEnd(v.mem, n, node, max);
    if dataEnd.Err? then Walk(false, out)
    else
      var w := WalkSlots(v, n, node, 0, dataEnd.value, min, max, depth, out);
      if w.ok && leaf then Walk(true, Sort(w.out, KEY)) else w
  }

  function WalkArange64(v: View, node: nat, min: u64, max: u64, depth: nat, out: seq<Vma>): Walk
    requires depth <= MAX_MAPLE_DEPTH
    decreases Remaining(depth), 2, node
  {
    var n := v.o.arange64;
    WalkSlots(v, n, node, 0, Arange64DataEnd(v.mem, n, node), min, max, depth, out)
  }

  function Arange64DataEnd(m: Memory, n: NodeLayout, node: nat): nat {
    Min(ReadByteOrZero(m, node + n.metaEnd), SaturatingSub(n.slotCount, 1))
  }

  function Range64DataEnd(m: Memory, n: NodeLayout, node: nat, max: u64): Result<nat> {
    var lastPivot :- Paths.Required(m.u64At(node + n.pivot + 8 * SaturatingSub(n.pivotCount, 1)));
    var dataEnd := if lastPivot == 0 then ReadByteOrZero(m, node + n.metaEnd)
                   else if lastPivot == max then SaturatingSub(n.pivotCount, 1)
                   else SaturatingSub(n.slotCount, 1);
    Ok(Min(dataEnd, SaturatingSub(n.slotCount, 1)))
  }

  /** The data end is a slot of the node, zero when the end marker is needed and missing, and an error without the last pivot. */
  lemma DataEndInNode(m: Memory, n: NodeLayout, node: nat, max: u64)
    ensures Arange64DataEnd(m, n, node) <= (if n.slotCount == 0 then 0 else n.slotCount - 1)
    ensures Range64DataEnd(m, n, node, max).Ok? ==>
              Range64DataEnd(m, n, node, max).value <= (if n.slotCount == 0 then 0 else n.slotCount - 1)
    ensures Range64DataEnd(m, n, node, max).Err? <==>
              m.u64At(node + n.pivot + 8 * (if n.pivotCount == 0 then 0 else n.pivotCount - 1)).None?
    ensures m.u8(node + n.metaEnd).None? ==> Arange64DataEnd(m, n, node) == 0
    ensures m.u8(node + n.metaEnd).None? && m.u64At(node + n.pivot + 8 * (if n.pivotCount == 0 then 0 else n.pivotCount - 1)) == Some(0)
            ==> Range64DataEnd(m, n, node, max) == Ok(0)
  {
  }

  function DedupByVma(s: seq<Vma>): seq<Vma> {
    if |s| < 2 then s
    else if s[|s| - 2].vma == s[|s| - 1].vma then DedupByVma(s[..|s| - 1])
    else DedupByVma(s[..|s| - 1]) + [s[|s| - 1]]
  }

  function CollectMaple(v: View, tree: nat): Result<seq<Vma>> {
    var root :- Paths.Required(v.mem.u64At(tree + v.o.maRoot));
    var w := WalkEntry(v, root, 0, U64_MAX, 0, []);
    if w.ok then Ok(DedupByVma(Sort(w.out, KEY))) else Err
  }

  // ----- every memory, cyclic or corrupt -----

  /** What any part of the walk may do to the output: never lose an entry, never pass the bound, only add read VMAs. */
  ghost predicate Grows(v: View, before: seq<Vma>, after: seq<Vma>) {
    && multiset(before) <= multiset(after)
    && |after| <= Max(|before|, MAX_VMA_ITER)
    && forall x :: x in after ==> x in before || (IsVmaOf(v, x) && x.vma >= 4096)
  }

  lemma GrowsTransitive(v: View, a: seq<Vma>, b: seq<Vma>, c: seq<Vma>)
    requires Grows(v, a, b) && Grows(v, b, c)
    ensures Grows(v, a, c)
  {
  }

  lemma KeyIsTotal()
    ensures TotalPreorder(KEY)
  {
  }

  lemma SortGrows(v: View, a: seq<Vma>, b: seq<Vma>)
    requires Grows(v, a, b)
    ensures Grows(v, a, Sort(b, KEY))
  {
    KeyIsTotal();
    SortSorts(b, KEY);
    SameMembers(b, Sort(b, KEY));
  }

  /** Memory holds a VMA at this address, or bounds that make no range. */
  ghost predicate CanBeRead(v: View, vma: u64) {
    HasNoRange(v, vma) || exists x: Vma :: x.vma == vma && IsVmaOf(v, x)
  }

  /** The VMA that memory holds at this address, if any. */
  ghost function VmaAt(v: View, vma: u64): seq<Vma> {
    if x: Vma :| x.vma == vma && IsVmaOf(v, x) then [x] else []
  }

  lemma VmaAtMeaning(v: View, vma: u64, x: Vma)
    ensures x in VmaAt(v, vma) <==> x.vma == vma && IsVmaOf(v, x)
    ensures |VmaAt(v, vma)| <= 1
  {
    hide ModuleName;
  }

  /** Reading either gives the VMA that is there, or fails because a word is missing. */
  lemma ReadVmaGivesVma(v: View, vma: u64)
    ensures ReadVma(v, vma).Ok? <==> CanBeRead(v, vma)
    ensures ReadVma(v, vma).Ok? ==>
              var r := ReadVma(v, vma).value;
              && VmaAt(v, vma) == (if r.Some? then [r.value] else [])
              && (r.Some? ==> r.value.vma == vma && IsVmaOf(v, r.value))
  {
    hide ReadVma, IsVmaOf;
    var r := ReadVma(v, vma);
    forall x: Vma ensures r == Ok(Some(x)) <==> x.vma == vma && IsVmaOf(v, x) { ReadVmaMeaning(v, vma, x); }
    ReadVmaMeaning(v, vma, Vma(vma, 0, 0, 0, 0, "", ""));
    if r.Ok? && r.value.Some? {
      assert r == Ok(Some(r.value.value));
      VmaAtMeaning(v, vma, r.value.value);
    }
  }

  /** What a VMA pointer adds: nothing below the first page, otherwise the VMA that memory holds there. */
  ghost function VmaBehind(v: View, vma: u64): seq<Vma> {
    if vma < 4096 then [] else VmaAt(v, vma)
  }

  ghost predicate PointerCanBeRead(v: View, vma: u64) {
    vma < 4096 || CanBeRead(v, vma)
  }

  lemma PushVmaMeaning(v: View, vma: u64, out: seq<Vma>)
    ensures var w := PushVma(v, vma, out);
            && (w.ok <==> PointerCanBeRead(v, vma))
            && w.out == if w.ok then out + VmaBehind(v, vma) else out
  {
    hide ReadVma, IsVmaOf, VmaAt;
    ReadVmaGivesVma(v, vma);
    assert out + [] == out;
  }

  lemma VmaBehindMeaning(v: View, vma: u64, x: Vma)
    ensures x in VmaBehind(v, vma) <==> x.vma == vma >= 4096 && IsVmaOf(v, x)
    ensures |VmaBehind(v, vma)| <= 1
  {
    hide IsVmaOf, VmaAt;
    VmaAtMeaning(v, vma, x);
  }

  lemma {:induction false} WalkEntryGrows(v: View, entry: u64, min: u64, max: u64, depth: nat, out: seq<Vma>)
    ensures Grows(v, out, WalkEntry(v, entry, min, max, depth, out).out)
    decreases Remaining(depth), 3, 0
  {
    if entry == 0 || depth > MAX_MAPLE_DEPTH || |out| >= MAX_VMA_ITER {
    } else if TypeOf(entry) == Some(DenseNode) {
      WalkDenseGrows(v, NodeOf(entry), 0, min, DenseSlots(min, max), depth, out);
    } else if TypeOf(entry) == Some(Arange64) {
      WalkSlotsGrows(v, v.o.arange64, NodeOf(entry), 0, Arange64DataEnd(v.mem, v.o.arange64, NodeOf(entry)), min, max, depth, out);
    } else if TypeOf(entry).Some? {
      var dataEnd := Range64DataEnd(v.mem, v.o.range64, NodeOf(entry), max);
      if dataEnd.Ok? {
        WalkSlotsGrows(v, v.o.range64, NodeOf(entry), 0, dataEnd.value, min, max, depth, out);
        SortGrows(v, out, WalkSlots(v, v.o.range64, NodeOf(entry), 0, dataEnd.value, min, max, depth, out).out);
      }
    } else {
      PushGrows(v, entry, out);
    }
  }

  lemma PushGrows(v: View, vma: u64, out: seq<Vma>)
    requires |out| < MAX_VMA_ITER
    ensures Grows(v, out, PushVma(v, vma, out).out)
  {
    hide PushVma, VmaBehind, IsVmaOf;
    PushVmaMeaning(v, vma, out);
    forall x: Vma | x in VmaBehind(v, vma) ensures IsVmaOf(v, x) && x.vma >= 4096 { VmaBehindMeaning(v, vma, x); }
    VmaBehindMeaning(v, vma, Vma(vma, 0, 0, 0, 0, "", ""));
  }

  lemma {:induction false} WalkDenseGrows(v: View, node: nat, index: nat, min: u64, slots: nat, depth: nat, out: seq<Vma>)
    requires depth <= MAX_MAPLE_DEPTH && index <= slots
    ensures Grows(v, out, WalkDense(v, node, index, min, slots, depth, out).out)
    decreases Remaining(depth), 1, slots - index
  {
    if index < slots && v.mem.u64At(node + 8 * index).Some? {
      var slot := v.mem.u64At(node + 8 * index).value;
      var slotMin := SaturatingAdd(min, index);
      WalkEntryGrows(v, slot, slotMin, slotMin, depth + 1, out);
      var w := WalkEntry(v, slot, slotMin, slotMin, depth + 1, out);
      if w.ok {
        WalkDenseGrows(v, node, index + 1, min, slots, depth, w.out);
        GrowsTransitive(v, out, w.out, WalkDense(v, node, index + 1, min, slots, depth, w.out).out);
      }
    }
  }

  lemma {:induction false} WalkSlotsGrows(v: View, n: NodeLayout, node: nat, index: nat, dataEnd: nat, currentMin: u64,
                                          max: u64, depth: nat, out: seq<Vma>)
    requires depth <= MAX_MAPLE_DEPTH && index <= dataEnd + 1
    ensures Grows(v, out, WalkSlots(v, n, node, index, dataEnd, currentMin, max, depth, out).out)
    decreases Remaining(depth), 1, dataEnd + 1 - index
  {
    var whole := WalkSlots(v, n, node, index, dataEnd, currentMin, max, depth, out);
    var last := LastOf(v.mem, n, node, index, max);
    var slot := v.mem.u64At(node + n.slot + 8 * index);
    if index <= dataEnd && last.Some? && slot.Some? {
      WalkEntryGrows(v, slot.value, currentMin, last.value, depth + 1, out);
      var w := WalkEntry(v, slot.value, currentMin, last.value, depth + 1, out);
      if w.ok && last.value < max {
        var rest := WalkSlots(v, n, node, index + 1, dataEnd, last.value + 1, max, depth, w.out);
        assert whole == rest;
        WalkSlotsGrows(v, n, node, index + 1, dataEnd, last.value + 1, max, depth, w.out);
        GrowsTransitive(v, out, w.out, rest.out);
      } else {
        assert whole == w;
      }
    } else {
      assert whole.out == out;
    }
  }

  /** On every memory the collected list is strictly sorted by (start, end, address), holds no address twice,
    * stays within the bound, and every entry is a valid VMA as memory describes it. */
  lemma CollectMapleOnAnyMemory(v: View, tree: nat)
    ensures var r := CollectMaple(v, tree);
            r.Ok? ==>
              && InOrder(r.value)
              && (forall i, j :: 0 <= i < j < |r.value| ==> r.value[i].vma != r.value[j].vma)
              && |r.value| <= 1_048_576
              && forall x :: x in r.value ==> IsVmaOf(v, x) && x.vma >= 4096
  {
    hide InOrder, Before, KeyLe, IsVmaOf;
    if CollectMaple(v, tree).Ok? {
      var raw := WalkEntry(v, v.mem.u64At(tree + v.o.maRoot).value, 0, U64_MAX, 0, []).out;
      WalkEntryGrows(v, v.mem.u64At(tree + v.o.maRoot).value, 0, U64_MAX, 0, []);
      SortedDedup(v, raw);
      SortedInOrder(CollectMaple(v, tree).value);
    }
  }

  /** Sorting then dropping repeated addresses keeps exactly the members, once each. */
  lemma SortedDedup(v: View, raw: seq<Vma>)
    requires forall x :: x in raw ==> IsVmaOf(v, x)
    ensures var r := DedupByVma(Sort(raw, KEY));
            && StrictlySorted(r, KEY)
            && (forall i, j :: 0 <= i < j < |r| ==> r[i].vma != r[j].vma)
            && |r| <= |raw|
            && forall x :: x in r <==> x in raw
  {
    hide IsVmaOf, DedupByVma;
    var s := Sort(raw, KEY);
    KeyIsTotal();
    SortSorts(raw, KEY);
    SameMembers(raw, s);
    DedupKeepsMembers(v, s);
    var r := DedupByVma(s);
    forall i, j | 0 <= i < j < |r| ensures r[i].vma != r[j].vma {
      assert r[i] in raw && r[j] in raw;
      if r[i].vma == r[j].vma { SameVma(v, r[i], r[j]); }
      assert KeyLe(r[i], r[j]) && !KeyLe(r[j], r[i]);
    }
  }

  lemma {:induction false} DedupKeepsMembers(v: View, s: seq<Vma>)
    requires Sorted(s, KEY)
    requires forall x :: x in s ==> IsVmaOf(v, x)
    ensures var r := DedupByVma(s);
            && StrictlySorted(r, KEY) && |r| <= |s|
            && (s != [] ==> r != [] && r[|r| - 1] == s[|s| - 1])
            && forall x :: x in r <==> x in s
  {
    hide IsVmaOf, KeyLe;
    if |s| >= 2 {
      var front, prev, last := s[..|s| - 1], s[|s| - 2], s[|s| - 1];
      assert s == front + [last] && prev == front[|front| - 1];
      DedupKeepsMembers(v, front);
      if prev.vma == last.vma {
        assert prev == last by { assert prev in s && last in s; SameVma(v, prev, last); }
      } else {
        StrictlySortedAppend(DedupByVma(front), last);
      }
    }
  }

  lemma SameVma(v: View, a: Vma, b: Vma)
    requires IsVmaOf(v, a) && IsVmaOf(v, b) && a.vma == b.vma
    ensures a == b
  {
  }

  lemma StrictlySortedAppend(r: seq<Vma>, last: Vma)
    requires StrictlySorted(r, KEY) && r != []
    requires KeyLe(r[|r| - 1], last) && r[|r| - 1].vma != last.vma
    ensures StrictlySorted(r + [last], KEY)
  {
    forall i | 0 <= i < |r| ensures KeyLe(r[i], last) && !KeyLe(last, r[i]) {
      assert i < |r| - 1 ==> KEY(r[i], r[|r| - 1]);
    }
  }

  // ----- the methods -----

  /** The output vector shared by the walkers. */
  class VmaList {
    var items: seq<Vma>

    constructor ()
      ensures items == []
    {
      items := [];
    }
  }

  method WalkMapleEntry(v: View, entry: u64, min: u64, max: u64, depth: nat, out: VmaList) returns (ok: bool)
    modifies out
    ensures Walk(ok, out.items) == WalkEntry(v, entry, min, max, depth, old(out.items))
    ensures Grows(v, old(out.items), out.items)
    decreases Remaining(depth), 3, 0
  {
    WalkEntryGrows(v, entry, min, max, depth, out.items);
    if entry == 0 || depth > MAX_MAPLE_DEPTH || |out.items| >= MAX_VMA_ITER { return true; }
    match TypeOf(entry) {
      case Some(DenseNode) => ok := WalkMapleDense(v, NodeOf(entry), min, max, depth, out);
      case Some(Leaf64) => ok := WalkMapleRange64(v, NodeOf(entry), true, min, max, depth, out);
      case Some(Range64) => ok := WalkMapleRange64(v, NodeOf(entry), false, min, max, depth, out);
      case Some(Arange64) => ok := WalkMapleArange64(v, NodeOf(entry), min, max, depth, out);
      case None => ok := PushVmaEntry(v, entry, out);
    }
  }

  method PushVmaEntry(v: View, vma: u64, out: VmaList) returns (ok: bool)
    modifies out
    ensures Walk(ok, out.items) == PushVma(v, vma, old(out.items))
  {
    if vma < PAGE { return true; }
    var info := ReadVma(v, vma);
    if info.Err? { return false; }
    if info.value.Some? { out.items := out.items + [info.value.value]; }
    return true;
  }

  method WalkMapleDense(v: View, node: nat, min: u64, max: u64, depth: nat, out: VmaList) returns (ok: bool)
    requires depth <= MAX_MAPLE_DEPTH
    modifies out
    ensures Walk(ok, out.items) == WalkDense(v, node, 0, min, DenseSlots(min, max), depth, old(out.items))
    decreases Remaining(depth), 2, 0
  {
    var slots := DenseSlots(min, max);
    for index := 0 to slots
      invariant WalkDense(v, node, index, min, slots, depth, out.items)
             == WalkDense(v, node, 0, min, slots, depth, old(out.items))
    {
      var slot := v.mem.u64At(node + 8 * index);
      if slot.None? { return false; }
      if slot.value == 0 { continue; }
      var slotMin := SaturatingAdd(min, index);
      ok := WalkMapleEntry(v, slot.value, slotMin, slotMin, depth + 1, out);
      if !ok { return false; }
    }
    return true;
  }

  method WalkMapleRange64(v: View, node: nat, leaf: bool, min: u64, max: u64, depth: nat, out: VmaList)
    returns (ok: bool)
    requires depth <= MAX_MAPLE_DEPTH
    modifies out
    ensures Walk(ok, out.items) == WalkRange64(v, node, leaf, min, max, depth, old(out.items))
    decreases Remaining(depth), 2, 0
  {
    var n := v.o.range64;
    var dataEnd := Range64DataEnd(v.mem, n, node, max);
    if dataEnd.Err? { return false; }
    ok := WalkMapleSlots(v, n, node, dataEnd.value, min, max, depth, out);
    if ok && leaf { out.items := Sort(out.items, KEY); }
  }

  method WalkMapleArange64(v: View, node: nat, min: u64, max: u64, depth: nat, out: VmaList) returns (ok: bool)
    requires depth <= MAX_MAPLE_DEPTH
    modifies out
    ensures Walk(ok, out.items) == WalkArange64(v, node, min, max, depth, old(out.items))
    decreases Remaining(depth), 2, 0
  {
    var n := v.o.arange64;
    ok := WalkMapleSlots(v, n, node, Arange64DataEnd(v.mem, n, node), min, max, depth, out);
  }

  /** The slot loop, which range64 and arange64 nodes have in common. */
  method WalkMapleSlots(v: View, n: NodeLayout, node: nat, dataEnd: nat, min: u64, max: u64, depth: nat, out: VmaList)
    returns (ok: bool)
    requires depth <= MAX_MAPLE_DEPTH
    modifies out
    ensures Walk(ok, out.items) == WalkSlots(v, n, node, 0, dataEnd, min, max, depth, old(out.items))
    decreases Remaining(depth), 1, 0
  {
    var currentMin: u64 := min;
    for index := 0 to dataEnd + 1
      invariant WalkSlots(v, n, node, index, dataEnd, currentMin, max, depth, out.items)
             == WalkSlots(v, n, node, 0, dataEnd, min, max, depth, old(out.items))
    {
      var last := LastOf(v.mem, n, node, index, max);
      if last.None? { return false; }
      var slot := v.mem.u64At(node + n.slot + 8 * index);
      if slot.None? { return false; }
      if slot.value != 0 {
        ok := WalkMapleEntry(v, slot.value, currentMin, last.value, depth + 1, out);
        if !ok { return false; }
      }
      if last.value >= max { return true; }
      currentMin := SaturatingAdd(last.value, 1);
    }
    return true;
  }

  method CollectVmasMaple(v: View, tree: nat) returns (r: Result<seq<Vma>>)
    ensures r == CollectMaple(v, tree)
  {
    var root :- Paths.Required(v.mem.u64At(tree + v.o.maRoot));
    var out := new VmaList();
    var ok := WalkMapleEntry(v, root, 0, U64_MAX, 0, out);
    if !ok { return Err; }
    return Ok(DedupByVma(Sort(out.items, KEY)));
  }
}
