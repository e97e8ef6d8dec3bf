/** Well-formed maple trees and VMA lists, and what the walks return on them (process.rs). */
module MapleRefinement {
  import opened Wrappers
  import opened Memory
  import opened Sorting
  import opened MapleTree

  /** An abstract maple tree.  `lasts[i]` is the last index that child `i` of a range node covers; a torn part is one of
    * which memory has lost a word. */
  datatype Tree =
    | Empty
    | Torn
    | Leaf(vma: u64)
    | Dense(slots: seq<Tree>)
    | Node(kind: NodeType, children: seq<Tree>, lasts: seq<u64>)

  function Layout(o: Offsets, kind: NodeType): NodeLayout {
    if kind == Arange64 then o.arange64 else o.range64
  }

  /** The first index child `i` covers. */
  function First(lasts: seq<u64>, min: nat, i: nat): nat
    requires i <= |lasts|
  {
    if i == 0 then min else lasts[i - 1] as int + 1
  }

  /** The pivots of a node over [min, max]: increasing, ending at max, stored as far as there are pivot words. */
  ghost predicate PivotsStored(m: Memory, n: NodeLayout, node: nat, lasts: seq<u64>, min: nat, max: u64) {
    && 1 <= |lasts| <= n.slotCount
    && n.slotCount == n.pivotCount + 1 && n.pivotCount >= 2
    && lasts[|lasts| - 1] == max
    && (forall i {:trigger First(lasts, min, i)} :: 0 <= i < |lasts| ==> First(lasts, min, i) <= lasts[i])
    && (forall i :: 0 <= i < |lasts| && i < n.pivotCount ==> m.u64At(node + n.pivot + 8 * i) == Some(lasts[i]))
  }

  /** The end marker: arange nodes always store the last live slot; range nodes only while the last pivot is unused. */
  ghost predicate EndStored(m: Memory, n: NodeLayout, node: nat, kind: NodeType, used: nat)
    requires 1 <= used
  {
    if kind == Arange64 then m.u8(node + n.metaEnd) == Some(used - 1)
    else used < n.pivotCount ==>
      m.u64At(node + n.pivot + 8 * (n.pivotCount - 1)) == Some(0) && m.u8(node + n.metaEnd) == Some(used - 1)
  }

  /** Memory holds the tree `t` behind `entry`, covering the indices [min, max]. */
  ghost predicate Represents(v: View, entry: u64, min: nat, max: u64, t: Tree)
    decreases t, 0
  {
    && min <= max
    && match t
       case Empty => entry == 0
       case Torn => IsTorn(v, entry)
       case Leaf(vma) =>
         entry == vma && vma != 0 && TypeOf(entry).None? && PointerCanBeRead(v, vma)
       case Dense(slots) =>
         && entry != 0 && TypeOf(entry) == Some(DenseNode)
         && |slots| == (if max - min < 31 then max - min + 1 else 31)
         && DenseChildren(v, NodeOf(entry), min, max, slots)
       case Node(kind, children, lasts) =>
         var n := Layout(v.o, kind);
         && entry != 0 && TypeOf(entry) == Some(kind) && kind != DenseNode
         && PivotsStored(v.mem, n, NodeOf(entry), lasts, min, max)
         && EndStored(v.mem, n, NodeOf(entry), kind, |lasts|)
         && RangeChildren(v, NodeOf(entry) + n.slot, min, children, lasts)
  }

  /** A VMA pointer behind which a word is missing, or a range node without its last pivot. */
  ghost predicate IsTorn(v: View, entry: u64) {
    var n := v.o.range64;
    && entry != 0
    && match TypeOf(entry)
       case None => !PointerCanBeRead(v, entry)
       case Some(Leaf64) => n.pivotCount > 0 && v.mem.u64At(NodeOf(entry) + n.pivot + 8 * (n.pivotCount - 1)).None?
       case Some(Range64) => n.pivotCount > 0 && v.mem.u64At(NodeOf(entry) + n.pivot + 8 * (n.pivotCount - 1)).None?
       case _ => false
  }

  ghost predicate DenseChildren(v: View, slots: nat, min: nat, max: u64, ts: seq<Tree>)
    decreases ts, 2
  {
    forall i {:trigger ts[i]} :: 0 <= i < |ts| ==> min + i <= max && ChildStored(v, slots, i, min + i, min + i, ts[i])
  }

  ghost predicate RangeChildren(v: View, slots: nat, min: nat, ts: seq<Tree>, lasts: seq<u64>)
    decreases ts, 2
  {
    && |ts| == |lasts|
    && forall i {:trigger ChildStored(v, slots, i, First(lasts, min, i), lasts[i], ts[i])} :: 0 <= i < |ts| ==>
         ChildStored(v, slots, i, First(lasts, min, i), lasts[i], ts[i])
  }

  /** Slot `i` of the slot array holds the tree `t`, covering the indices [min, max]. */
  ghost predicate ChildStored(v: View, slots: nat, i: nat, min: nat, max: u64, t: Tree)
    decreases t, 1
  {
    var slot := v.mem.u64At(slots + 8 * i);
    if slot.Some? then Represents(v, slot.value, min, max, t) else t.Torn?
  }

  /** The VMAs that memory holds behind the leaves, in slot order. */
  ghost function LiveVmas(v: View, t: Tree): seq<Vma>
    decreases t
  {
    match t
    case Empty => []
    case Torn => []
    case Leaf(vma) => VmaBehind(v, vma)
    case Dense(slots) => LiveVmasOf(v, slots)
    case Node(_, children, _) => LiveVmasOf(v, children)
  }

  ghost function LiveVmasOf(v: View, ts: seq<Tree>): seq<Vma>
    decreases ts
  {
    if ts == [] then [] else LiveVmas(v, ts[0]) + LiveVmasOf(v, ts[1..])
  }

  /** One of the tree's leaves points to this address. */
  predicate HasLeaf(t: Tree, vma: u64)
    decreases t
  {
    match t
    case Empty => false
    case Torn => false
    case Leaf(a) => a == vma
    case Dense(slots) => exists c :: c in slots && HasLeaf(c, vma)
    case Node(_, children, _) => exists c :: c in children && HasLeaf(c, vma)
  }

  function LeafCount(t: Tree): nat
    decreases t
  {
    match t
    case Empty => 0
    case Torn => 0
    case Leaf(_) => 1
    case Dense(slots) => LeafCountOf(slots)
    case Node(_, children, _) => LeafCountOf(children)
  }

  function LeafCountOf(ts: seq<Tree>): nat
    decreases ts
  {
    if ts == [] then 0 else LeafCount(ts[0]) + LeafCountOf(ts[1..])
  }

  /** The live VMAs are those that memory holds at the address of some leaf, from the first page on. */
  lemma {:induction false} LiveVmasMeaning(v: View, t: Tree, x: Vma)
    ensures x in LiveVmas(v, t) <==> HasLeaf(t, x.vma) && x.vma >= 4096 && IsVmaOf(v, x)
    ensures |LiveVmas(v, t)| <= LeafCount(t)
    decreases t, 1
  {
    hide IsVmaOf, VmaBehind, LiveVmasOf, LeafCountOf;
    match t {
      case Empty =>
      case Torn =>
      case Leaf(vma) => VmaBehindMeaning(v, vma, x);
      case Dense(slots) => LiveVmasOfMeaning(v, slots, x);
      case Node(_, children, _) => LiveVmasOfMeaning(v, children, x);
    }
  }

  lemma {:induction false} LiveVmasOfMeaning(v: View, ts: seq<Tree>, x: Vma)
    ensures x in LiveVmasOf(v, ts) <==> (exists c :: c in ts && HasLeaf(c, x.vma)) && x.vma >= 4096 && IsVmaOf(v, x)
    ensures |LiveVmasOf(v, ts)| <= LeafCountOf(ts)
    decreases ts, 0
  {
    hide IsVmaOf, HasLeaf, LiveVmas, LeafCount;
    if ts != [] {
      LiveVmasMeaning(v, ts[0], x);
      LiveVmasOfMeaning(v, ts[1..], x);
      assert ts == [ts[0]] + ts[1..];
    }
  }

  predicate HeightAtMost(t: Tree, h: nat)
    decreases t
  {
    match t
    case Empty => true
    case Torn => true
    case Leaf(_) => true
    case Dense(slots) => h > 0 && AllHeightAtMost(slots, h - 1)
    case Node(_, children, _) => h > 0 && AllHeightAtMost(children, h - 1)
  }

  predicate AllHeightAtMost(ts: seq<Tree>, h: nat)
    decreases ts
  {
    forall c :: c in ts ==> HeightAtMost(c, h)
  }

  /** No part of the tree is torn. */
  predicate IsWhole(t: Tree)
    decreases t
  {
    match t
    case Empty => true
    case Torn => false
    case Leaf(_) => true
    case Dense(slots) => AllWhole(slots)
    case Node(_, children, _) => AllWhole(children)
  }

  predicate AllWhole(ts: seq<Tree>)
    decreases ts
  {
    forall c :: c in ts ==> IsWhole(c)
  }

  function Take(s: seq<Vma>, k: nat): seq<Vma> {
    s[..Min(|s|, k)]
  }

  /** `after` is `before` and the first of `added` that still fit, in some order. */
  ghost predicate Adds(before: seq<Vma>, added: seq<Vma>, after: seq<Vma>) {
    |before| <= MAX_VMA_ITER && multiset(after) == multiset(before) + multiset(Take(added, MAX_VMA_ITER - |before|))
  }

  lemma AddsSize(before: seq<Vma>, added: seq<Vma>, after: seq<Vma>)
    requires Adds(before, added, after)
    ensures |after| == |before| + Min(|added|, MAX_VMA_ITER - |before|)
  {
    assert |multiset(after)| == |after|;
  }

  lemma AddsCompose(a: seq<Vma>, x: seq<Vma>, b: seq<Vma>, y: seq<Vma>, c: seq<Vma>)
    requires Adds(a, x, b) && Adds(b, y, c)
    ensures Adds(a, x + y, c)
  {
    AddsSize(a, x, b);
    var whole := Take(x + y, MAX_VMA_ITER - |a|);
    assert whole == Take(x, MAX_VMA_ITER - |a|) + Take(y, MAX_VMA_ITER - |b|);
  }

  /** The walk adds exactly the valid VMAs of the tree, up to the bound and in some order. */
  lemma {:induction false} WalkEntryRefines(v: View, entry: u64, min: u64, max: u64, depth: nat, out: seq<Vma>, t: Tree)
    requires Represents(v, entry, min, max, t) && IsWhole(t) && HeightAtMost(t, SaturatingSub(MAX_MAPLE_DEPTH, depth))
    requires |out| <= MAX_VMA_ITER && depth <= MAX_MAPLE_DEPTH
    ensures var w := WalkEntry(v, entry, min, max, depth, out);
            w.ok && Adds(out, LiveVmas(v, t), w.out)
    decreases Remaining(depth), 3, 0
  {
    if entry == 0 || |out| == MAX_VMA_ITER {
      NothingToAdd(v, entry, min, max, depth, out, t);
    } else {
      match t {
        case Leaf(vma) => WalkLeafRefines(v, vma, min, max, depth, out);
        case Dense(slots) =>
          WalkDenseRefines(v, NodeOf(entry), 0, min, max, depth, out, slots);
          assert slots[0..] == slots;
        case Node(kind, children, lasts) => WalkNodeRefines(v, entry, min, max, depth, out, t);
      }
    }
  }

  lemma NothingToAdd(v: View, entry: u64, min: u64, max: u64, depth: nat, out: seq<Vma>, t: Tree)
    requires Represents(v, entry, min, max, t) && |out| <= MAX_VMA_ITER
    requires entry == 0 || |out| == MAX_VMA_ITER
    ensures WalkEntry(v, entry, min, max, depth, out) == Walk(true, out) && Adds(out, LiveVmas(v, t), out)
  {
    assert Take(LiveVmas(v, t), MAX_VMA_ITER - |out|) == [];
  }

  lemma WalkLeafRefines(v: View, vma: u64, min: u64, max: u64, depth: nat, out: seq<Vma>)
    requires vma != 0 && TypeOf(vma).None? && PointerCanBeRead(v, vma) && |out| < MAX_VMA_ITER && depth <= MAX_MAPLE_DEPTH
    ensures var w := WalkEntry(v, vma, min, max, depth, out);
            w.ok && Adds(out, LiveVmas(v, Leaf(vma)), w.out)
  {
    hide PushVma, VmaBehind, PointerCanBeRead;
    var added := LiveVmas(v, Leaf(vma));
    PushVmaMeaning(v, vma, out);
    VmaBehindMeaning(v, vma, Vma(vma, 0, 0, 0, 0, "", ""));
    assert Take(added, MAX_VMA_ITER - |out|) == added;
  }

  lemma {:induction false} WalkNodeRefines(v: View, entry: u64, min: u64, max: u64, depth: nat, out: seq<Vma>, t: Tree)
    requires t.Node? && Represents(v, entry, min, max, t) && IsWhole(t) && HeightAtMost(t, SaturatingSub(MAX_MAPLE_DEPTH, depth))
    requires |out| < MAX_VMA_ITER && depth <= MAX_MAPLE_DEPTH
    ensures var w := WalkEntry(v, entry, min, max, depth, out);
            w.ok && Adds(out, LiveVmas(v, t), w.out)
    decreases Remaining(depth), 2, 0
  {
    var Node(kind, children, lasts) := t;
    var n, node := Layout(v.o, kind), NodeOf(entry);
    var dataEnd := NodeDataEnd(v, node, kind, lasts, min, max);
    WalkSlotsRefines(v, n, node, 0, dataEnd, min, min, max, depth, out, children, lasts);
    assert children[0..] == children;
    WalkNodeStep(v, entry, kind, dataEnd, min, max, depth, out);
  }

  lemma WalkNodeStep(v: View, entry: u64, kind: NodeType, dataEnd: nat, min: u64, max: u64, depth: nat, out: seq<Vma>)
    requires entry != 0 && depth <= MAX_MAPLE_DEPTH && |out| < MAX_VMA_ITER
    requires TypeOf(entry) == Some(kind) && kind != DenseNode
    requires if kind == Arange64 then Arange64DataEnd(v.mem, v.o.arange64, NodeOf(entry)) == dataEnd
             else Range64DataEnd(v.mem, v.o.range64, NodeOf(entry), max) == Ok(dataEnd)
    ensures var slots := WalkSlots(v, Layout(v.o, kind), NodeOf(entry), 0, dataEnd, min, max, depth, out);
            var w := WalkEntry(v, entry, min, max, depth, out);
            w.ok == slots.ok && multiset(w.out) == multiset(slots.out)
  {
    KeyIsTotal();
    SortSorts(WalkSlots(v, Layout(v.o, kind), NodeOf(entry), 0, dataEnd, min, max, depth, out).out, KEY);
  }

  /** `Range64DataEnd` and the arange end marker both name the last live slot. */
  lemma NodeDataEnd(v: View, node: nat, kind: NodeType, lasts: seq<u64>, min: nat, max: u64) returns (dataEnd: nat)
    requires kind != DenseNode
    requires PivotsStored(v.mem, Layout(v.o, kind), node, lasts, min, max)
    requires EndStored(v.mem, Layout(v.o, kind), node, kind, |lasts|)
    ensures dataEnd == |lasts| - 1
    ensures if kind == Arange64 then Arange64DataEnd(v.mem, v.o.arange64, node) == dataEnd
            else Range64DataEnd(v.mem, v.o.range64, node, max) == Ok(dataEnd)
  {
    dataEnd := |lasts| - 1;
    var n := Layout(v.o, kind);
    var k := n.pivotCount - 1;
    if kind != Arange64 && |lasts| > k {
      assert v.mem.u64At(node + n.pivot + 8 * k) == Some(lasts[k]);
      assert First(lasts, min, k) <= lasts[k];
      if |lasts| > k + 1 {
        assert First(lasts, min, k + 1) <= lasts[k + 1];
        assert lasts[k] != max;
      }
    }
  }

  lemma {:induction false} ChildRefines(v: View, slots: nat, i: nat, min: u64, max: u64, depth: nat, out: seq<Vma>, t: Tree)
    returns (slot: u64, w: Walk)
    requires ChildStored(v, slots, i, min, max, t) && IsWhole(t)
    requires |out| <= MAX_VMA_ITER && depth < MAX_MAPLE_DEPTH && HeightAtMost(t, MAX_MAPLE_DEPTH - depth - 1)
    ensures v.mem.u64At(slots + 8 * i) == Some(slot) && w == WalkEntry(v, slot, min, max, depth + 1, out)
    ensures w.ok && Adds(out, LiveVmas(v, t), w.out) && |w.out| <= MAX_VMA_ITER
    decreases Remaining(depth), 0, 0
  {
    slot := v.mem.u64At(slots + 8 * i).value;
    w := WalkEntry(v, slot, min, max, depth + 1, out);
    WalkEntryRefines(v, slot, min, max, depth + 1, out, t);
    AddsSize(out, LiveVmas(v, t), w.out);
  }

  lemma AddsChild(v: View, ts: seq<Tree>, index: nat, out: seq<Vma>, mid: seq<Vma>, end: seq<Vma>)
    requires index < |ts|
    requires Adds(out, LiveVmas(v, ts[index]), mid) && Adds(mid, LiveVmasOf(v, ts[index + 1..]), end)
    ensures Adds(out, LiveVmasOf(v, ts[index..]), end)
  {
    AddsCompose(out, LiveVmas(v, ts[index]), mid, LiveVmasOf(v, ts[index + 1..]), end);
    assert ts[index..][1..] == ts[index + 1..];
  }

  lemma WalkDenseStep(v: View, node: nat, index: nat, min: u64, slots: nat, depth: nat, out: seq<Vma>, slot: u64, w: Walk)
    requires depth <= MAX_MAPLE_DEPTH && index < slots && min + index <= U64_MAX
    requires v.mem.u64At(node + 8 * index) == Some(slot)
    requires w == WalkEntry(v, slot, min + index, min + index, depth + 1, out) && w.ok
    ensures WalkDense(v, node, index, min, slots, depth, out) == WalkDense(v, node, index + 1, min, slots, depth, w.out)
  {
  }

  lemma {:induction false} WalkDenseRefines(v: View, node: nat, index: nat, min: u64, max: u64, depth: nat,
                                            out: seq<Vma>, slots: seq<Tree>)
    requires |out| <= MAX_VMA_ITER && index <= |slots|
    requires DenseChildren(v, node, min, max, slots)
    requires depth < MAX_MAPLE_DEPTH && AllHeightAtMost(slots, MAX_MAPLE_DEPTH - depth - 1) && AllWhole(slots)
    ensures var w := WalkDense(v, node, index, min, |slots|, depth, out);
            w.ok && Adds(out, LiveVmasOf(v, slots[index..]), w.out)
    decreases Remaining(depth), 1, |slots| - index
  {
    if index == |slots| {
      assert Take(LiveVmasOf(v, slots[index..]), MAX_VMA_ITER - |out|) == [];
    } else {
      hide Represents, HeightAtMost, LiveVmas, WalkEntry, Adds;
      assert slots[index] in slots && min + index <= max;
      var slot, w := ChildRefines(v, node, index, min + index, min + index, depth, out, slots[index]);
      WalkDenseStep(v, node, index, min, |slots|, depth, out, slot, w);
      WalkDenseRefines(v, node, index + 1, min, max, depth, w.out, slots);
      AddsChild(v, slots, index, out, w.out, WalkDense(v, node, index + 1, min, |slots|, depth, w.out).out);
    }
  }

  lemma WalkSlotsStep(v: View, n: NodeLayout, node: nat, index: nat, dataEnd: nat, first: u64, last: u64, max: u64,
                      depth: nat, out: seq<Vma>, slot: u64, w: Walk)
    requires depth <= MAX_MAPLE_DEPTH && index <= dataEnd && LastOf(v.mem, n, node, index, max) == Some(last)
    requires v.mem.u64At(node + n.slot + 8 * index) == Some(slot)
    requires w == WalkEntry(v, slot, first, last, depth + 1, out) && w.ok
    ensures last >= max ==> WalkSlots(v, n, node, index, dataEnd, first, max, depth, out) == w
    ensures last < max ==>
              WalkSlots(v, n, node, index, dataEnd, first, max, depth, out)
              == WalkSlots(v, n, node, index + 1, dataEnd, last + 1, max, depth, w.out)
  {
  }

  lemma OneLive(v: View, t: Tree)
    ensures LiveVmasOf(v, [t]) == LiveVmas(v, t)
  {
    hide LiveVmas;
    assert [t][1..] == [];
    assert LiveVmasOf(v, [t]) == LiveVmas(v, t) + LiveVmasOf(v, []);
  }

  lemma AddsLastChild(v: View, ts: seq<Tree>, out: seq<Vma>, after: seq<Vma>)
    requires ts != [] && Adds(out, LiveVmas(v, ts[|ts| - 1]), after) && |after| <= MAX_VMA_ITER
    ensures Adds(out, LiveVmasOf(v, ts[|ts| - 1..]), after)
  {
    hide LiveVmas, Adds;
    assert ts[|ts| - 1..] == [ts[|ts| - 1]];
    OneLive(v, ts[|ts| - 1]);
  }

  /** One turn of the slot loop on a well-formed node: the child's VMAs are added, and the range moves on. */
  lemma {:induction false} SlotRefines(v: View, n: NodeLayout, node: nat, index: nat, dataEnd: nat, first: u64, min: u64,
                                       max: u64, depth: nat, out: seq<Vma>, children: seq<Tree>, lasts: seq<u64>)
    returns (w: Walk)
    requires |out| <= MAX_VMA_ITER && index < |children| == |lasts| && dataEnd == |lasts| - 1
    requires PivotsStored(v.mem, n, node, lasts, min, max)
    requires RangeChildren(v, node + n.slot, min, children, lasts)
    requires depth < MAX_MAPLE_DEPTH && AllHeightAtMost(children, MAX_MAPLE_DEPTH - depth - 1) && IsWhole(children[index])
    requires first as int == First(lasts, min, index)
    ensures w.ok && Adds(out, LiveVmas(v, children[index]), w.out) && |w.out| <= MAX_VMA_ITER
    ensures index == dataEnd ==> WalkSlots(v, n, node, index, dataEnd, first, max, depth, out) == w
    ensures index < dataEnd ==>
              lasts[index] < max
              && WalkSlots(v, n, node, index, dataEnd, first, max, depth, out)
                 == WalkSlots(v, n, node, index + 1, dataEnd, lasts[index] + 1, max, depth, w.out)
    decreases Remaining(depth), 0, 1
  {
    hide Represents, HeightAtMost, LiveVmas, WalkEntry, Adds, PivotsStored;
    var slot;
    assert children[index] in children;
    assert ChildStored(v, node + n.slot, index, First(lasts, min, index), lasts[index], children[index]);
    slot, w := ChildRefines(v, node + n.slot, index, first, lasts[index], depth, out, children[index]);
    LastInNode(v.mem, n, node, lasts, min, max, index);
    WalkSlotsStep(v, n, node, index, dataEnd, first, lasts[index], max, depth, out, slot, w);
  }

  lemma {:induction false} WalkSlotsRefines(v: View, n: NodeLayout, node: nat, index: nat, dataEnd: nat, first: u64, min: u64,
                                            max: u64, depth: nat, out: seq<Vma>, children: seq<Tree>, lasts: seq<u64>)
    requires |out| <= MAX_VMA_ITER && index < |children| == |lasts| && dataEnd == |lasts| - 1
    requires PivotsStored(v.mem, n, node, lasts, min, max)
    requires RangeChildren(v, node + n.slot, min, children, lasts)
    requires depth < MAX_MAPLE_DEPTH && AllHeightAtMost(children, MAX_MAPLE_DEPTH - depth - 1) && AllWhole(children)
    requires first as int == First(lasts, min, index)
    ensures var w := WalkSlots(v, n, node, index, dataEnd, first, max, depth, out);
            w.ok && Adds(out, LiveVmasOf(v, children[index..]), w.out)
    decreases Remaining(depth), 1, |children| - index
  {
    hide RangeChildren, AllHeightAtMost, LiveVmas, WalkEntry, WalkSlots, Adds, PivotsStored, IsWhole;
    assert children[index] in children;
    var w := SlotRefines(v, n, node, index, dataEnd, first, min, max, depth, out, children, lasts);
    if index == dataEnd {
      AddsLastChild(v, children, out, w.out);
    } else {
      WalkSlotsRefines(v, n, node, index + 1, dataEnd, lasts[index] + 1, min, max, depth, w.out, children, lasts);
      AddsChild(v, children, index, out, w.out,
        WalkSlots(v, n, node, index + 1, dataEnd, lasts[index] + 1, max, depth, w.out).out);
    }
  }

  lemma LastInNode(m: Memory, n: NodeLayout, node: nat, lasts: seq<u64>, min: u64, max: u64, index: nat)
    requires PivotsStored(m, n, node, lasts, min, max) && index < |lasts|
    ensures LastOf(m, n, node, index, max) == Some(lasts[index])
    ensures lasts[index] <= max && (lasts[index] == max <==> index == |lasts| - 1)
  {
    LastsIncrease(lasts, min, Min(index + 1, |lasts| - 1));
  }

  lemma {:induction false} LastsIncrease(lasts: seq<u64>, min: nat, i: nat)
    requires i < |lasts| && forall k {:trigger First(lasts, min, k)} :: 0 <= k < |lasts| ==> First(lasts, min, k) <= lasts[k]
    ensures lasts[i] <= lasts[|lasts| - 1]
    ensures i > 0 ==> lasts[i - 1] < lasts[|lasts| - 1]
    decreases |lasts| - i
  {
    assert First(lasts, min, i) <= lasts[i];
    if i < |lasts| - 1 {
      LastsIncrease(lasts, min, i + 1);
    }
  }

  /** On a well-formed tree of height at most 64 the result holds exactly the VMAs that memory describes at the addresses of
    * the tree's leaves, each once, by start, end and address; of more than 1,048,576 it holds the first in slot order. */
  lemma CollectMapleRefines(v: View, tree: nat, entry: u64, t: Tree)
    requires v.mem.u64At(tree + v.o.maRoot) == Some(entry)
    requires Represents(v, entry, 0, U64_MAX, t) && IsWhole(t) && HeightAtMost(t, 64)
    ensures var r := CollectMaple(v, tree);
            && r.Ok?
            && InOrder(r.value)
            && (forall i, j :: 0 <= i < j < |r.value| ==> r.value[i].vma != r.value[j].vma)
            && (forall x :: x in r.value <==> x in Take(LiveVmas(v, t), 1_048_576))
            && (LeafCount(t) <= 1_048_576 ==>
                  forall x :: x in r.value <==> HasLeaf(t, x.vma) && x.vma >= 4096 && IsVmaOf(v, x))
  {
    hide IsVmaOf, HasLeaf, LeafCount, LiveVmas, KeyLe, Before, HeightAtMost, Represents, WalkEntry;
    var raw := WalkFromRoot(v, entry, 0, U64_MAX, 0, t);
    FinishRefines(v, raw, Take(LiveVmas(v, t), MAX_VMA_ITER));
    CollectedFrom(v, tree, entry, raw);
    SortedInOrder(CollectMaple(v, tree).value);
    if LeafCount(t) <= 1_048_576 {
      forall x ensures x in LiveVmas(v, t) <==> HasLeaf(t, x.vma) && x.vma >= 4096 && IsVmaOf(v, x) { LiveVmasMeaning(v, t, x); }
      LiveVmasMeaning(v, t, Vma(0, 0, 0, 0, 0, "", ""));
      assert Take(LiveVmas(v, t), MAX_VMA_ITER) == LiveVmas(v, t);
    }
  }

  lemma CollectedFrom(v: View, tree: nat, entry: u64, raw: seq<Vma>)
    requires v.mem.u64At(tree + v.o.maRoot) == Some(entry)
    requires WalkEntry(v, entry, 0, U64_MAX, 0, []) == Walk(true, raw)
    ensures CollectMaple(v, tree) == Ok(DedupByVma(Sort(raw, KEY)))
  {
  }

  lemma WalkFromRoot(v: View, entry: u64, min: u64, max: u64, depth: nat, t: Tree) returns (raw: seq<Vma>)
    requires Represents(v, entry, min, max, t) && IsWhole(t) && HeightAtMost(t, MAX_MAPLE_DEPTH) && depth == 0
    ensures WalkEntry(v, entry, min, max, depth, []) == Walk(true, raw)
    ensures Grows(v, [], raw) && multiset(raw) == multiset(Take(LiveVmas(v, t), MAX_VMA_ITER))
  {
    var w := WalkEntry(v, entry, min, max, depth, []);
    WalkEntryRefines(v, entry, min, max, depth, [], t);
    WalkEntryGrows(v, entry, min, max, depth, []);
    raw := w.out;
  }

  lemma FinishRefines(v: View, raw: seq<Vma>, live: seq<Vma>)
    requires Grows(v, [], raw) && multiset(raw) == multiset(live)
    ensures var r := DedupByVma(Sort(raw, KEY));
            && StrictlySorted(r, KEY)
            && (forall i, j :: 0 <= i < j < |r| ==> r[i].vma != r[j].vma)
            && (forall x :: x in r <==> x in live)
  {
    SameMembers(raw, live);
    SortedDedup(v, raw);
  }

  // ----- torn trees -----

  /** If there is room for all that comes before it, a torn part makes the whole walk fail. */
  lemma {:induction false} TornFails(v: View, entry: u64, min: u64, max: u64, depth: nat, out: seq<Vma>, t: Tree)
    requires Represents(v, entry, min, max, t) && !IsWhole(t) && HeightAtMost(t, SaturatingSub(MAX_MAPLE_DEPTH, depth))
    requires |out| + LeafCount(t) < MAX_VMA_ITER && depth <= MAX_MAPLE_DEPTH
    ensures !WalkEntry(v, entry, min, max, depth, out).ok
    decreases Remaining(depth), 3, 0
  {
    match t {
      case Torn => TornEntryFails(v, entry, min, max, depth, out);
      case Dense(slots) =>
        assert slots[0..] == slots;
        DenseTornFails(v, NodeOf(entry), 0, min, max, depth, out, slots);
      case Node(_, _, _) => NodeTornFails(v, entry, min, max, depth, out, t);
    }
  }

  lemma {:induction false} NodeTornFails(v: View, entry: u64, min: u64, max: u64, depth: nat, out: seq<Vma>, t: Tree)
    requires t.Node? && Represents(v, entry, min, max, t) && !IsWhole(t) && HeightAtMost(t, SaturatingSub(MAX_MAPLE_DEPTH, depth))
    requires |out| + LeafCount(t) < MAX_VMA_ITER && depth <= MAX_MAPLE_DEPTH
    ensures !WalkEntry(v, entry, min, max, depth, out).ok
    decreases Remaining(depth), 2, 0
  {
    hide WalkEntry, WalkSlots, ChildStored;
    var Node(kind, children, lasts) := t;
    var n, node := Layout(v.o, kind), NodeOf(entry);
    var dataEnd := NodeDataEnd(v, node, kind, lasts, min, max);
    assert children[0..] == children;
    FirstStart(v.mem, n, node, lasts, min, max);
    SlotsTornFail(v, n, node, 0, dataEnd, min, min, max, depth, out, children, lasts);
    WalkNodeStep(v, entry, kind, dataEnd, min, max, depth, out);
  }

  lemma FirstStart(m: Memory, n: NodeLayout, node: nat, lasts: seq<u64>, min: u64, max: u64)
    requires PivotsStored(m, n, node, lasts, min, max)
    ensures First(lasts, min, 0) == min && lasts != []
  {
  }

  lemma TornEntryFails(v: View, entry: u64, min: u64, max: u64, depth: nat, out: seq<Vma>)
    requires IsTorn(v, entry) && |out| < MAX_VMA_ITER && depth <= MAX_MAPLE_DEPTH
    ensures !WalkEntry(v, entry, min, max, depth, out).ok
  {
    hide PushVma, PointerCanBeRead;
    PushVmaMeaning(v, entry, out);
  }

  lemma NothingTorn(ts: seq<Tree>)
    ensures AllWhole(ts[|ts|..])
  {
    assert ts[|ts|..] == [];
  }

  lemma LeavesFirst(ts: seq<Tree>, index: nat)
    requires index < |ts|
    ensures LeafCountOf(ts[index..]) == LeafCount(ts[index]) + LeafCountOf(ts[index + 1..])
    ensures AllWhole(ts[index..]) <==> IsWhole(ts[index]) && AllWhole(ts[index + 1..])
  {
    hide LeafCount, IsWhole;
    assert ts[index..] == [ts[index]] + ts[index + 1..] && ts[index..][1..] == ts[index + 1..];
  }

  lemma {:induction false} DenseTornFails(v: View, node: nat, index: nat, min: u64, max: u64, depth: nat,
                                          out: seq<Vma>, slots: seq<Tree>)
    requires index <= |slots| && DenseChildren(v, node, min, max, slots)
    requires depth < MAX_MAPLE_DEPTH && AllHeightAtMost(slots, MAX_MAPLE_DEPTH - depth - 1)
    requires !AllWhole(slots[index..]) && |out| + LeafCountOf(slots[index..]) < MAX_VMA_ITER
    ensures !WalkDense(v, node, index, min, |slots|, depth, out).ok
    decreases Remaining(depth), 1, |slots| - index
  {
    hide Represents, HeightAtMost, LiveVmas, WalkEntry, Adds, LeafCount, IsWhole;
    assert index < |slots| && slots[index] in slots && min + index <= max;
    LeavesFirst(slots, index);
    assert ChildStored(v, node, index, min + index, min + index, slots[index]);
    var word := v.mem.u64At(node + 8 * index);
    if IsWhole(slots[index]) {
      var slot, w := ChildRefines(v, node, index, min + index, min + index, depth, out, slots[index]);
      WalkDenseStep(v, node, index, min, |slots|, depth, out, slot, w);
      ChildRoom(v, out, slots[index], w.out);
      DenseTornFails(v, node, index + 1, min, max, depth, w.out, slots);
    } else if word.Some? {
      TornFails(v, word.value, min + index, min + index, depth + 1, out, slots[index]);
      TornIsNotEmpty(v, word.value, min + index, min + index, slots[index]);
    }
  }

  lemma TornIsNotEmpty(v: View, entry: u64, min: nat, max: u64, t: Tree)
    requires Represents(v, entry, min, max, t) && !IsWhole(t)
    ensures entry != 0
  {
  }

  lemma ChildRoom(v: View, out: seq<Vma>, t: Tree, after: seq<Vma>)
    requires |out| <= MAX_VMA_ITER && Adds(out, LiveVmas(v, t), after)
    ensures |after| <= |out| + LeafCount(t)
  {
    hide LiveVmas, LeafCount;
    AddsSize(out, LiveVmas(v, t), after);
    LiveVmasMeaning(v, t, Vma(0, 0, 0, 0, 0, "", ""));
  }

  lemma SlotFails(v: View, n: NodeLayout, node: nat, index: nat, dataEnd: nat, first: u64, last: u64, max: u64,
                  depth: nat, out: seq<Vma>)
    requires depth <= MAX_MAPLE_DEPTH && index <= dataEnd && LastOf(v.mem, n, node, index, max) == Some(last)
    requires var word := v.mem.u64At(node + n.slot + 8 * index);
             word.Some? ==> word.value != 0 && !WalkEntry(v, word.value, first, last, depth + 1, out).ok
    ensures !WalkSlots(v, n, node, index, dataEnd, first, max, depth, out).ok
  {
  }

  lemma {:induction false} SlotsTornFail(v: View, n: NodeLayout, node: nat, index: nat, dataEnd: nat, first: u64, min: u64,
                                         max: u64, depth: nat, out: seq<Vma>, children: seq<Tree>, lasts: seq<u64>)
    requires index < |children| == |lasts| && dataEnd == |lasts| - 1
    requires PivotsStored(v.mem, n, node, lasts, min, max)
    requires RangeChildren(v, node + n.slot, min, children, lasts)
    requires depth < MAX_MAPLE_DEPTH && AllHeightAtMost(children, MAX_MAPLE_DEPTH - depth - 1)
    requires first as int == First(lasts, min, index)
    requires !AllWhole(children[index..]) && |out| + LeafCountOf(children[index..]) < MAX_VMA_ITER
    ensures !WalkSlots(v, n, node, index, dataEnd, first, max, depth, out).ok
    decreases Remaining(depth), 1, |children| - index
  {
    hide Represents, HeightAtMost, LiveVmas, WalkEntry, WalkSlots, Adds, PivotsStored, LeafCount, IsWhole;
    LeavesFirst(children, index);
    assert children[index] in children;
    if IsWhole(children[index]) {
      var w := SlotRefines(v, n, node, index, dataEnd, first, min, max, depth, out, children, lasts);
      ChildRoom(v, out, children[index], w.out);
      NothingTorn(children);
      SlotsTornFail(v, n, node, index + 1, dataEnd, lasts[index] + 1, min, max, depth, w.out, children, lasts);
    } else {
      assert ChildStored(v, node + n.slot, index, First(lasts, min, index), lasts[index], children[index]);
      LastInNode(v.mem, n, node, lasts, min, max, index);
      var word := v.mem.u64At(node + n.slot + 8 * index);
      if word.Some? {
        TornFails(v, word.value, first, lasts[index], depth + 1, out, children[index]);
        TornIsNotEmpty(v, word.value, first, lasts[index], children[index]);
      }
      SlotFails(v, n, node, index, dataEnd, first, lasts[index], max, depth, out);
    }
  }

  /** A tree of which a part cannot be read, or without a root, is an error. */
  lemma CollectMapleFails(v: View, tree: nat, t: Tree)
    ensures v.mem.u64At(tree + v.o.maRoot).None? ==> CollectMaple(v, tree).Err?
    ensures var root := v.mem.u64At(tree + v.o.maRoot);
            root.Some? && Represents(v, root.value, 0, U64_MAX, t) && !IsWhole(t) && HeightAtMost(t, 64) && LeafCount(t) < 1_048_576
            ==> CollectMaple(v, tree).Err?
  {
    hide Represents, HeightAtMost, LeafCount, IsWhole, WalkEntry;
    var root := v.mem.u64At(tree + v.o.maRoot);
    if root.Some? && Represents(v, root.value, 0, U64_MAX, t) && !IsWhole(t) && HeightAtMost(t, 64) && LeafCount(t) < 1_048_576 {
      TornFromRoot(v, root.value, 0, U64_MAX, 0, t);
    }
  }

  lemma TornFromRoot(v: View, entry: u64, min: u64, max: u64, depth: nat, t: Tree)
    requires Represents(v, entry, min, max, t) && !IsWhole(t) && HeightAtMost(t, MAX_MAPLE_DEPTH) && depth == 0
    requires LeafCount(t) < MAX_VMA_ITER
    ensures !WalkEntry(v, entry, min, max, depth, []).ok
  {
    TornFails(v, entry, min, max, depth, [], t);
  }

  // ----- the predicates are met by a real layout -----

  /** A leaf node at 0x1000 with one VMA at 0x200000 that covers [0x400000, 0x401000), and nothing else mapped. */
  function ExampleWord(a: nat): u64 {
    if a == 0x500 then 0x100A
    else if a == 0x1008 then 0x400FFF
    else if a == 0x1010 then U64_MAX
    else if a == 0x1080 then 0x20_0000
    else if a == 0x20_0000 then 0x40_0000
    else if a == 0x20_0008 then 0x40_1000
    else 0
  }

  function ExampleView(): View {
    var node := NodeLayout(8, 15, 0x80, 16, 0xF8);
    var m := Memory((a: nat) => Some(if a == 0x10F8 then 1 else 0), (a: nat) => Some(ExampleWord(a)), (a: nat) => None);
    View(m, Offsets(0, node, node.(pivotCount := 9, slotCount := 10), 0, 8, 16, 24), (file: u64) => "")
  }

  function ExampleChildren(): seq<Tree> {
    [Leaf(0x20_0000), Empty]
  }

  function ExampleLasts(): seq<u64> {
    [0x400FFF, U64_MAX]
  }

  lemma ExampleSlots()
    ensures RangeChildren(ExampleView(), 0x1080, 0, ExampleChildren(), ExampleLasts())
  {
    var v, children, lasts := ExampleView(), ExampleChildren(), ExampleLasts();
    assert IsVmaOf(v, EXAMPLE_VMA);
    assert Represents(v, 0x20_0000, 0, 0x400FFF, children[0]);
    assert Represents(v, 0, 0x401000, U64_MAX, children[1]);
    assert ChildStored(v, 0x1080, 0, First(lasts, 0, 0), lasts[0], children[0]);
    assert ChildStored(v, 0x1080, 1, First(lasts, 0, 1), lasts[1], children[1]);
  }

  lemma ExamplePivots()
    ensures PivotsStored(ExampleView().mem, ExampleView().o.range64, 0x1000, ExampleLasts(), 0, U64_MAX)
    ensures EndStored(ExampleView().mem, ExampleView().o.range64, 0x1000, Leaf64, 2)
  {
    var lasts := ExampleLasts();
    assert First(lasts, 0, 0) <= lasts[0] && First(lasts, 0, 1) <= lasts[1];
  }

  const EXAMPLE_VMA := Vma(0x20_0000, 0x40_0000, 0x40_1000, 0, 0, "", "")

  lemma ExampleLive()
    ensures LiveVmasOf(ExampleView(), ExampleChildren()) == [EXAMPLE_VMA]
    ensures VmaBehind(ExampleView(), 0x20_0000) == [EXAMPLE_VMA]
  {
    var v, children := ExampleView(), ExampleChildren();
    assert IsVmaOf(v, EXAMPLE_VMA);
    VmaBehindMeaning(v, 0x20_0000, EXAMPLE_VMA);
    assert children[1..] == [Empty] && children[1..][1..] == [];
    assert LiveVmasOf(v, children[1..]) == LiveVmas(v, Empty) + LiveVmasOf(v, []);
  }

  /** The predicates are met: memory represents a tree with a live VMA. */
  lemma ExampleTree() returns (t: Tree)
    ensures var v := ExampleView();
            && v.mem.u64At(0x500 + v.o.maRoot) == Some(0x100A)
            && Represents(v, 0x100A, 0, U64_MAX, t) && IsWhole(t) && HeightAtMost(t, 64)
            && LiveVmas(v, t) == [Vma(0x20_0000, 0x40_0000, 0x40_1000, 0, 0, "", "")]
  {
    hide RangeChildren, PivotsStored, EndStored, LiveVmasOf, ExampleWord, IsVmaOf;
    t := Node(Leaf64, ExampleChildren(), ExampleLasts());
    ExampleSlots();
    ExamplePivots();
    ExampleLive();
    ExampleRoot();
  }

  lemma ExampleRoot()
    ensures ExampleView().mem.u64At(0x500) == Some(0x100A)
  {
  }
}
