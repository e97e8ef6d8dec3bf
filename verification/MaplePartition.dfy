/** The index ranges the maple walk assigns to slots: consecutive, and together exactly the node's range. */
module MaplePartition {
  import opened Wrappers
  import opened Memory
  import opened MapleTree
  import opened MapleRefinement

  /** One slot as the loop sees it: its entry and the index range handed down with it. */
  datatype Slot = Slot(entry: u64, lo: u64, hi: u64)

  /** The slots the loop visits from `index` on; None when a read fails on the way. */
  function Visited(m: Memory, n: NodeLayout, node: nat, index: nat, dataEnd: nat, currentMin: u64, max: u64): Option<seq<Slot>>
    requires index <= dataEnd + 1
    decreases dataEnd + 1 - index, node
  {
    if index > dataEnd then Some([])
    else
      var last := LastOf(m, n, node, index, max);
      var entry := m.u64At(node + n.slot + 8 * index);
      if last.None? || entry.None? then None
      else
        var here := Slot(entry.value, currentMin, last.value);
        if last.value >= max then Some([here])
        else
          var rest := Visited(m, n, node, index + 1, dataEnd, last.value + 1, max);
          if rest.None? then None else Some([here] + rest.value)
  }

  function WalkEach(v: View, slots: seq<Slot>, depth: nat, out: seq<Vma>): Walk {
    if slots == [] then Walk(true, out)
    else
      var w := WalkEntry(v, slots[0].entry, slots[0].lo, slots[0].hi, depth, out);
      if w.ok then WalkEach(v, slots[1..], depth, w.out) else w
  }

  /** On every memory whose node can be read, the loop walks exactly the visited slots with those ranges,
    * and the ranges follow one another without gap or overlap. */
  lemma {:induction false} LoopWalksVisited(v: View, n: NodeLayout, node: nat, index: nat, dataEnd: nat, currentMin: u64,
                                            max: u64, depth: nat, out: seq<Vma>)
    requires depth <= MAX_MAPLE_DEPTH && index <= dataEnd + 1
    requires Visited(v.mem, n, node, index, dataEnd, currentMin, max).Some?
    ensures var slots := Visited(v.mem, n, node, index, dataEnd, currentMin, max).value;
            && WalkSlots(v, n, node, index, dataEnd, currentMin, max, depth, out) == WalkEach(v, slots, depth + 1, out)
            && |slots| <= dataEnd + 1 - index
            && (slots != [] ==> slots[0].lo == currentMin)
            && forall i :: 0 < i < |slots| ==> slots[i].lo == slots[i - 1].hi + 1
    decreases dataEnd + 1 - index
  {
    if index <= dataEnd {
      var slots := Visited(v.mem, n, node, index, dataEnd, currentMin, max).value;
      var s := slots[0];
      var w := WalkEntry(v, s.entry, s.lo, s.hi, depth + 1, out);
      if s.hi < max {
        LoopWalksVisited(v, n, node, index + 1, dataEnd, s.hi + 1, max, depth, w.out);
        var rest := Visited(v.mem, n, node, index + 1, dataEnd, s.hi + 1, max).value;
        assert slots == [s] + rest && slots[1..] == rest;
      } else {
        assert slots[1..] == [];
      }
    }
  }

  /** The ranges fill [lo, hi] from left to right. */
  ghost predicate IsPartition(slots: seq<Slot>, lo: nat, hi: nat)
    decreases |slots|
  {
    && slots != [] && slots[0].lo == lo <= slots[0].hi
    && if |slots| == 1 then slots[0].hi == hi
       else slots[0].hi < hi && IsPartition(slots[1..], slots[0].hi + 1, hi)
  }

  /** In a partition every index of the range lies in exactly one slot, and no slot leaves the range. */
  lemma {:induction false} PartitionMeaning(slots: seq<Slot>, lo: nat, hi: nat, x: nat)
    requires IsPartition(slots, lo, hi)
    ensures lo <= x <= hi ==> exists i :: 0 <= i < |slots| && slots[i].lo <= x <= slots[i].hi
    ensures forall i :: 0 <= i < |slots| ==> lo <= slots[i].lo <= slots[i].hi <= hi
    ensures forall i, j :: 0 <= i < j < |slots| ==> slots[i].hi < slots[j].lo
    decreases |slots|
  {
    if |slots| > 1 {
      PartitionMeaning(slots[1..], slots[0].hi + 1, hi, x);
      forall i | 0 < i < |slots| ensures slots[0].hi < slots[i].lo <= slots[i].hi <= hi {
        assert slots[i] == slots[1..][i - 1];
      }
      forall i, j | 0 <= i < j < |slots| ensures slots[i].hi < slots[j].lo {
        assert i > 0 ==> slots[i] == slots[1..][i - 1] && slots[j] == slots[1..][j - 1];
      }
      if slots[0].hi < x <= hi {
        var i :| 0 <= i < |slots[1..]| && slots[1..][i].lo <= x <= slots[1..][i].hi;
        assert slots[i + 1].lo <= x <= slots[i + 1].hi;
      }
    }
    assert slots[0].lo <= slots[0].hi;
  }

  lemma {:induction false} PartitionConcat(a: seq<Slot>, b: seq<Slot>, lo: nat, mid: nat, hi: nat)
    requires IsPartition(a, lo, mid) && IsPartition(b, mid + 1, hi) && mid < hi
    ensures IsPartition(a + b, lo, hi)
    decreases |a|
  {
    if |a| == 1 {
      assert (a + b)[1..] == b;
    } else {
      PartitionUpper(a[1..], a[0].hi + 1, mid);
      PartitionConcat(a[1..], b, a[0].hi + 1, mid, hi);
      assert (a + b)[1..] == a[1..] + b;
    }
  }

  lemma {:induction false} PartitionUpper(a: seq<Slot>, lo: nat, hi: nat)
    requires IsPartition(a, lo, hi)
    ensures lo <= hi
    decreases |a|
  {
    if |a| > 1 {
      PartitionUpper(a[1..], a[0].hi + 1, hi);
    }
  }

  lemma FirstInNode(m: Memory, n: NodeLayout, node: nat, lasts: seq<u64>, min: u64, max: u64, index: nat)
    requires PivotsStored(m, n, node, lasts, min, max) && index < |lasts|
    ensures First(lasts, min, index) <= lasts[index]
  {
  }

  /** The last live slot ends the loop. */
  lemma VisitedLast(m: Memory, n: NodeLayout, node: nat, index: nat, currentMin: u64, max: u64, entry: u64)
    requires LastOf(m, n, node, index, max) == Some(max) && m.u64At(node + n.slot + 8 * index) == Some(entry)
    ensures Visited(m, n, node, index, index, currentMin, max) == Some([Slot(entry, currentMin, max)])
  {
  }

  /** A slot before it is followed by the rest. */
  lemma VisitedNext(m: Memory, n: NodeLayout, node: nat, index: nat, dataEnd: nat, currentMin: u64, last: u64, max: u64,
                    entry: u64, rest: seq<Slot>)
    requires index < dataEnd && last < max && LastOf(m, n, node, index, max) == Some(last)
    requires m.u64At(node + n.slot + 8 * index) == Some(entry)
    requires Visited(m, n, node, index + 1, dataEnd, last + 1, max) == Some(rest)
    ensures Visited(m, n, node, index, dataEnd, currentMin, max) == Some([Slot(entry, currentMin, last)] + rest)
  {
  }

  lemma PartitionNext(here: Slot, rest: seq<Slot>, hi: nat)
    requires here.lo <= here.hi < hi && IsPartition(rest, here.hi + 1, hi)
    ensures IsPartition([here] + rest, here.lo, hi)
  {
    assert ([here] + rest)[1..] == rest;
  }

  /** In a well-formed node the visited slots are the live ones, with exactly the stored ranges. */
  lemma {:induction false} VisitedInNode(m: Memory, n: NodeLayout, node: nat, index: nat, currentMin: u64, min: u64, max: u64,
                                         lasts: seq<u64>, entries: seq<u64>)
    requires PivotsStored(m, n, node, lasts, min, max) && |entries| == |lasts| && index < |lasts|
    requires forall i {:trigger entries[i]} :: 0 <= i < |entries| ==> m.u64At(node + n.slot + 8 * i) == Some(entries[i])
    requires currentMin as int == First(lasts, min, index)
    ensures Visited(m, n, node, index, |lasts| - 1, currentMin, max) == Some(RangesFrom(entries, lasts, min, index))
    ensures IsPartition(RangesFrom(entries, lasts, min, index), currentMin, max)
    decreases |lasts| - index
  {
    hide PivotsStored, Visited, LastOf;
    LastInNode(m, n, node, lasts, min, max, index);
    FirstInNode(m, n, node, lasts, min, max, index);
    assert m.u64At(node + n.slot + 8 * index) == Some(entries[index]);
    if index < |lasts| - 1 {
      hide IsPartition;
      VisitedInNode(m, n, node, index + 1, lasts[index] + 1, min, max, lasts, entries);
      var rest := RangesFrom(entries, lasts, min, index + 1);
      VisitedNext(m, n, node, index, |lasts| - 1, currentMin, lasts[index], max, entries[index], rest);
      PartitionNext(Slot(entries[index], currentMin, lasts[index]), rest, max);
    } else {
      VisitedLast(m, n, node, index, currentMin, max, entries[index]);
    }
  }

  function RangesFrom(entries: seq<u64>, lasts: seq<u64>, min: u64, index: nat): seq<Slot>
    requires |entries| == |lasts| && index <= |lasts|
    requires index < |lasts| ==> First(lasts, min, index) <= U64_MAX
    decreases |lasts| - index
  {
    if index == |lasts| then []
    else
      var here := Slot(entries[index], First(lasts, min, index), lasts[index]);
      if index == |lasts| - 1 || lasts[index] == U64_MAX then [here]
      else [here] + RangesFrom(entries, lasts, min, index + 1)
  }

  /** The leaves of a whole walk: the ranges at which it reaches a VMA pointer or an empty slot. */
  function LeafRanges(v: View, entry: u64, lo: u64, hi: u64, levels: nat): Option<seq<Slot>>
    decreases levels, 1, entry
  {
    if entry == 0 || TypeOf(entry).None? then Some([Slot(entry, lo, hi)])
    else if levels == 0 || TypeOf(entry) == Some(DenseNode) then None
    else
      var kind := TypeOf(entry).value;
      var dataEnd := if kind == Arange64 then Ok(Arange64DataEnd(v.mem, v.o.arange64, NodeOf(entry)))
                     else Range64DataEnd(v.mem, v.o.range64, NodeOf(entry), hi);
      if dataEnd.Err? then None
      else
        var slots := Visited(v.mem, Layout(v.o, kind), NodeOf(entry), 0, dataEnd.value, lo, hi);
        if slots.None? then None else LeafRangesOf(v, slots.value, levels - 1)
  }

  function LeafRangesOf(v: View, slots: seq<Slot>, levels: nat): Option<seq<Slot>>
    decreases levels, 2, |slots|
  {
    if slots == [] then Some([])
    else
      var first := LeafRanges(v, slots[0].entry, slots[0].lo, slots[0].hi, levels);
      var rest := LeafRangesOf(v, slots[1..], levels);
      if first.None? || rest.None? then None else Some(first.value + rest.value)
  }

  /** A tree of range nodes only. */
  predicate RangeNodesOnly(t: Tree)
    decreases t
  {
    match t
    case Empty => true
    case Torn => false
    case Leaf(_) => true
    case Dense(_) => false
    case Node(_, children, _) => forall c :: c in children ==> RangeNodesOnly(c)
  }

  lemma LeafIsOneRange(v: View, entry: u64, lo: u64, hi: u64, t: Tree, levels: nat)
    requires Represents(v, entry, lo, hi, t) && RangeNodesOnly(t) && !t.Node?
    ensures LeafRanges(v, entry, lo, hi, levels) == Some([Slot(entry, lo, hi)])
    ensures IsPartition([Slot(entry, lo, hi)], lo, hi)
  {
  }

  lemma NodeParts(v: View, entry: u64, lo: u64, hi: u64, t: Tree, levels: nat)
    requires t.Node? && Represents(v, entry, lo, hi, t) && RangeNodesOnly(t) && HeightAtMost(t, levels)
    ensures entry != 0 && TypeOf(entry) == Some(t.kind) && t.kind != DenseNode && levels > 0
    ensures PivotsStored(v.mem, Layout(v.o, t.kind), NodeOf(entry), t.lasts, lo, hi) && t.lasts != []
    ensures EndStored(v.mem, Layout(v.o, t.kind), NodeOf(entry), t.kind, |t.lasts|)
    ensures RangeChildren(v, NodeOf(entry) + Layout(v.o, t.kind).slot, lo, t.children, t.lasts)
    ensures AllHeightAtMost(t.children, levels - 1) && forall c :: c in t.children ==> RangeNodesOnly(c)
  {
  }

  lemma NodeRanges(v: View, entry: u64, lo: u64, hi: u64, kind: NodeType, dataEnd: nat, slots: seq<Slot>, levels: nat)
    requires entry != 0 && TypeOf(entry) == Some(kind) && kind != DenseNode && levels > 0
    requires if kind == Arange64 then Arange64DataEnd(v.mem, v.o.arange64, NodeOf(entry)) == dataEnd
             else Range64DataEnd(v.mem, v.o.range64, NodeOf(entry), hi) == Ok(dataEnd)
    requires Visited(v.mem, Layout(v.o, kind), NodeOf(entry), 0, dataEnd, lo, hi) == Some(slots)
    ensures LeafRanges(v, entry, lo, hi, levels) == LeafRangesOf(v, slots, levels - 1)
  {
    hide Visited, LeafRangesOf, Range64DataEnd, Arange64DataEnd, Layout;
  }

  /** The leaf ranges of a whole well-formed tree partition the root's range. */
  lemma {:induction false} LeavesPartition(v: View, entry: u64, lo: u64, hi: u64, t: Tree, levels: nat)
    requires Represents(v, entry, lo, hi, t) && RangeNodesOnly(t) && HeightAtMost(t, levels)
    ensures LeafRanges(v, entry, lo, hi, levels).Some?
    ensures IsPartition(LeafRanges(v, entry, lo, hi, levels).value, lo, hi)
    decreases levels, 1
  {
    hide Represents, RangeNodesOnly, HeightAtMost, LeafRanges, LeafRangesOf, RangesFrom, Visited, IsPartition, PivotsStored,
      RangeChildren, Range64DataEnd, Arange64DataEnd, TypeOf;
    if t.Node? {
      var Node(kind, children, lasts) := t;
      var n, node := Layout(v.o, kind), NodeOf(entry);
      NodeParts(v, entry, lo, hi, t, levels);
      var dataEnd := NodeDataEnd(v, node, kind, lasts, lo, hi);
      var entries := StoredEntries(v, node + n.slot, lo, children, lasts);
      VisitedInNode(v.mem, n, node, 0, lo, lo, hi, lasts, entries);
      NodeRanges(v, entry, lo, hi, kind, dataEnd, RangesFrom(entries, lasts, lo, 0), levels);
      ChildrenPartition(v, n, node, 0, lo, lo, hi, children, lasts, entries, levels - 1);
    } else {
      LeafIsOneRange(v, entry, lo, hi, t, levels);
    }
  }

  lemma StoredEntries(v: View, slots: nat, min: u64, children: seq<Tree>, lasts: seq<u64>) returns (entries: seq<u64>)
    requires RangeChildren(v, slots, min, children, lasts) && forall c :: c in children ==> RangeNodesOnly(c)
    ensures |entries| == |lasts|
    ensures forall i {:trigger entries[i]} :: 0 <= i < |entries| ==> v.mem.u64At(slots + 8 * i) == Some(entries[i])
  {
    entries := seq(|lasts|, i requires 0 <= i < |lasts| => v.mem.u64At(slots + 8 * i).GetOr(0));
    forall i | 0 <= i < |entries| ensures v.mem.u64At(slots + 8 * i) == Some(entries[i]) {
      assert ChildStored(v, slots, i, First(lasts, min, i), lasts[i], children[i]) && children[i] in children;
    }
  }

  lemma {:induction false} ChildrenPartition(v: View, n: NodeLayout, node: nat, index: nat, currentMin: u64, min: u64, max: u64,
                                             children: seq<Tree>, lasts: seq<u64>, entries: seq<u64>, levels: nat)
    requires PivotsStored(v.mem, n, node, lasts, min, max) && |entries| == |lasts| && index < |lasts|
    requires RangeChildren(v, node + n.slot, min, children, lasts)
    requires forall i {:trigger entries[i]} :: 0 <= i < |entries| ==> v.mem.u64At(node + n.slot + 8 * i) == Some(entries[i])
    requires AllHeightAtMost(children, levels) && forall c :: c in children ==> RangeNodesOnly(c)
    requires currentMin as int == First(lasts, min, index)
    ensures LeafRangesOf(v, RangesFrom(entries, lasts, min, index), levels).Some?
    ensures IsPartition(LeafRangesOf(v, RangesFrom(entries, lasts, min, index), levels).value, currentMin, max)
    decreases levels, 2, |lasts| - index
  {
    hide Represents, HeightAtMost, LeafRanges, PivotsStored, IsPartition;
    var slots := RangesFrom(entries, lasts, min, index);
    LastInNode(v.mem, n, node, lasts, min, max, index);
    assert children[index] in children;
    assert ChildStored(v, node + n.slot, index, First(lasts, min, index), lasts[index], children[index]);
    assert v.mem.u64At(node + n.slot + 8 * index) == Some(entries[index]);
    LeavesPartition(v, entries[index], currentMin, lasts[index], children[index], levels);
    var first := LeafRanges(v, entries[index], currentMin, lasts[index], levels).value;
    if index < |lasts| - 1 {
      ChildrenPartition(v, n, node, index + 1, lasts[index] + 1, min, max, children, lasts, entries, levels);
      var rest := RangesFrom(entries, lasts, min, index + 1);
      assert slots[1..] == rest;
      PartitionConcat(first, LeafRangesOf(v, rest, levels).value, currentMin, lasts[index], max);
    } else {
      assert slots[1..] == [] && LeafRangesOf(v, [], levels) == Some([]);
      assert first + [] == first;
      assert slots[0] == Slot(entries[index], currentMin, max);
    }
  }

  // ----- the leaf ranges are what the walk walks -----

  /** The VMAs that memory holds behind the entries of some slots, in slot order. */
  ghost function Pushed(v: View, slots: seq<Slot>): seq<Vma> {
    if slots == [] then [] else VmaBehind(v, slots[0].entry) + Pushed(v, slots[1..])
  }

  ghost predicate AllRead(v: View, slots: seq<Slot>) {
    forall s :: s in slots ==> PointerCanBeRead(v, s.entry)
  }

  lemma {:induction false} PushedMeaning(v: View, slots: seq<Slot>, x: Vma)
    ensures x in Pushed(v, slots) <==> (exists s :: s in slots && s.entry == x.vma) && x.vma >= 4096 && IsVmaOf(v, x)
  {
    hide IsVmaOf, VmaBehind;
    if slots != [] {
      PushedMeaning(v, slots[1..], x);
      VmaBehindMeaning(v, slots[0].entry, x);
      assert slots == [slots[0]] + slots[1..];
    }
  }

  lemma {:induction false} PushedConcat(v: View, a: seq<Slot>, b: seq<Slot>)
    ensures Pushed(v, a + b) == Pushed(v, a) + Pushed(v, b)
  {
    if a == [] {
      assert a + b == b;
    } else {
      assert (a + b)[1..] == a[1..] + b;
      PushedConcat(v, a[1..], b);
    }
  }

  /** A leaf or an empty slot adds its VMA, if it is valid and there is room. */
  lemma WalkLeafAdds(v: View, entry: u64, lo: u64, hi: u64, depth: nat, out: seq<Vma>)
    requires entry == 0 || TypeOf(entry).None?
    requires PointerCanBeRead(v, entry) && |out| <= MAX_VMA_ITER && depth <= MAX_MAPLE_DEPTH
    ensures var w := WalkEntry(v, entry, lo, hi, depth, out);
            w.ok && Adds(out, Pushed(v, [Slot(entry, lo, hi)]), w.out)
  {
    hide VmaAt, IsVmaOf, PointerCanBeRead, PushVma;
    var w, added := WalkEntry(v, entry, lo, hi, depth, out), VmaBehind(v, entry);
    PushVmaMeaning(v, entry, out);
    VmaBehindMeaning(v, entry, Vma(entry, 0, 0, 0, 0, "", ""));
    assert [Slot(entry, lo, hi)][1..] == [];
    assert Pushed(v, [Slot(entry, lo, hi)]) == added + [] == added;
    if entry == 0 || |out| == MAX_VMA_ITER {
      assert w == Walk(true, out);
      assert Take(added, MAX_VMA_ITER - |out|) == [];
    } else {
      assert w == PushVma(v, entry, out);
      assert Take(added, MAX_VMA_ITER - |out|) == added;
      assert w.out == out + added;
    }
  }

  lemma FullAdds(v: View, entry: u64, lo: u64, hi: u64, depth: nat, out: seq<Vma>, added: seq<Vma>)
    requires |out| == MAX_VMA_ITER
    ensures WalkEntry(v, entry, lo, hi, depth, out) == Walk(true, out) && Adds(out, added, out)
  {
    assert Take(added, MAX_VMA_ITER - |out|) == [];
  }

  /** A node's leaf ranges come from the slots its loop visits. */
  lemma NodeLeaves(v: View, entry: u64, lo: u64, hi: u64, levels: nat)
    returns (kind: NodeType, dataEnd: nat, slots: seq<Slot>)
    requires entry != 0 && TypeOf(entry).Some? && LeafRanges(v, entry, lo, hi, levels).Some?
    ensures TypeOf(entry) == Some(kind) && kind != DenseNode && levels > 0
    ensures if kind == Arange64 then Arange64DataEnd(v.mem, v.o.arange64, NodeOf(entry)) == dataEnd
            else Range64DataEnd(v.mem, v.o.range64, NodeOf(entry), hi) == Ok(dataEnd)
    ensures Visited(v.mem, Layout(v.o, kind), NodeOf(entry), 0, dataEnd, lo, hi) == Some(slots)
    ensures LeafRanges(v, entry, lo, hi, levels) == LeafRangesOf(v, slots, levels - 1)
  {
    hide Visited, LeafRangesOf, Range64DataEnd, Arange64DataEnd;
    kind := TypeOf(entry).value;
    dataEnd := if kind == Arange64 then Arange64DataEnd(v.mem, v.o.arange64, NodeOf(entry))
               else Range64DataEnd(v.mem, v.o.range64, NodeOf(entry), hi).value;
    slots := Visited(v.mem, Layout(v.o, kind), NodeOf(entry), 0, dataEnd, lo, hi).value;
  }

  /** On any memory whose leaf ranges can be read, the whole walk adds what their entries hold, up to order and the bound. */
  lemma {:induction false} WalkAddsLeaves(v: View, entry: u64, lo: u64, hi: u64, levels: nat, depth: nat, out: seq<Vma>)
    requires LeafRanges(v, entry, lo, hi, levels).Some? && AllRead(v, LeafRanges(v, entry, lo, hi, levels).value)
    requires depth + levels <= MAX_MAPLE_DEPTH && |out| <= MAX_VMA_ITER
    ensures var w := WalkEntry(v, entry, lo, hi, depth, out);
            w.ok && Adds(out, Pushed(v, LeafRanges(v, entry, lo, hi, levels).value), w.out)
    decreases levels, 1, 0
  {
    hide WalkEntry, WalkSlots, LeafRanges, LeafRangesOf, Visited, Pushed, AllRead, Adds, PointerCanBeRead;
    if entry == 0 || TypeOf(entry).None? {
      LeafOnly(v, entry, lo, hi, levels);
      WalkLeafAdds(v, entry, lo, hi, depth, out);
    } else if |out| == MAX_VMA_ITER {
      FullAdds(v, entry, lo, hi, depth, out, Pushed(v, LeafRanges(v, entry, lo, hi, levels).value));
    } else {
      var kind, dataEnd, slots := NodeLeaves(v, entry, lo, hi, levels);
      LoopWalksVisited(v, Layout(v.o, kind), NodeOf(entry), 0, dataEnd, lo, hi, depth, out);
      SlotsAddLeaves(v, slots, levels - 1, depth + 1, out);
      WalkNodeStep(v, entry, kind, dataEnd, lo, hi, depth, out);
      SameAdds(out, Pushed(v, LeafRanges(v, entry, lo, hi, levels).value),
        WalkSlots(v, Layout(v.o, kind), NodeOf(entry), 0, dataEnd, lo, hi, depth, out).out,
        WalkEntry(v, entry, lo, hi, depth, out).out);
    }
  }

  /** As long as there is room, the whole walk finds exactly the VMAs that memory holds at the entries of its leaf ranges. */
  lemma WalkFindsLeaves(v: View, entry: u64, lo: u64, hi: u64, levels: nat, depth: nat, out: seq<Vma>, x: Vma)
    requires LeafRanges(v, entry, lo, hi, levels).Some? && AllRead(v, LeafRanges(v, entry, lo, hi, levels).value)
    requires depth + levels <= 64 && |out| + |LeafRanges(v, entry, lo, hi, levels).value| <= 1_048_576
    ensures var w := WalkEntry(v, entry, lo, hi, depth, out);
            && w.ok
            && (x in w.out <==>
                  || x in out
                  || ((exists s :: s in LeafRanges(v, entry, lo, hi, levels).value && s.entry == x.vma)
                      && x.vma >= 4096 && IsVmaOf(v, x)))
  {
    hide WalkEntry, LeafRanges, IsVmaOf, AllRead, Pushed;
    var slots := LeafRanges(v, entry, lo, hi, levels).value;
    WalkAddsLeaves(v, entry, lo, hi, levels, depth, out);
    PushedMeaning(v, slots, x);
    PushedSize(v, slots);
    AllAdded(out, Pushed(v, slots), WalkEntry(v, entry, lo, hi, depth, out).out, x);
  }

  lemma {:induction false} PushedSize(v: View, slots: seq<Slot>)
    ensures |Pushed(v, slots)| <= |slots|
  {
    hide VmaBehind;
    if slots != [] {
      PushedSize(v, slots[1..]);
      VmaBehindMeaning(v, slots[0].entry, Vma(0, 0, 0, 0, 0, "", ""));
    }
  }

  lemma AllAdded(before: seq<Vma>, added: seq<Vma>, after: seq<Vma>, x: Vma)
    requires Adds(before, added, after) && |before| + |added| <= MAX_VMA_ITER
    ensures x in after <==> x in before || x in added
  {
    assert Take(added, MAX_VMA_ITER - |before|) == added;
    assert x in after <==> x in multiset(after);
    assert x in before <==> x in multiset(before);
    assert x in added <==> x in multiset(added);
  }

  lemma LeafOnly(v: View, entry: u64, lo: u64, hi: u64, levels: nat)
    requires entry == 0 || TypeOf(entry).None?
    requires LeafRanges(v, entry, lo, hi, levels).Some? && AllRead(v, LeafRanges(v, entry, lo, hi, levels).value)
    ensures LeafRanges(v, entry, lo, hi, levels) == Some([Slot(entry, lo, hi)]) && PointerCanBeRead(v, entry)
  {
    assert Slot(entry, lo, hi) in [Slot(entry, lo, hi)];
  }

  lemma SameAdds(before: seq<Vma>, added: seq<Vma>, a: seq<Vma>, b: seq<Vma>)
    requires Adds(before, added, a) && multiset(a) == multiset(b)
    ensures Adds(before, added, b)
  {
  }

  lemma {:induction false} SlotsAddLeaves(v: View, slots: seq<Slot>, levels: nat, depth: nat, out: seq<Vma>)
    requires LeafRangesOf(v, slots, levels).Some? && AllRead(v, LeafRangesOf(v, slots, levels).value)
    requires depth + levels <= MAX_MAPLE_DEPTH && |out| <= MAX_VMA_ITER
    ensures var w := WalkEach(v, slots, depth, out);
            w.ok && Adds(out, Pushed(v, LeafRangesOf(v, slots, levels).value), w.out)
    decreases levels, 2, |slots|
  {
    hide WalkEntry, LeafRanges, Adds, PointerCanBeRead, VmaBehind;
    if slots == [] {
      NothingAdded(out);
    } else {
      var first, rest := LeafRanges(v, slots[0].entry, slots[0].lo, slots[0].hi, levels).value, LeafRangesOf(v, slots[1..], levels).value;
      assert forall s :: s in first ==> s in first + rest;
      WalkAddsLeaves(v, slots[0].entry, slots[0].lo, slots[0].hi, levels, depth, out);
      var w := WalkEntry(v, slots[0].entry, slots[0].lo, slots[0].hi, depth, out);
      AddsWithin(out, Pushed(v, first), w.out);
      SlotsAddLeaves(v, slots[1..], levels, depth, w.out);
      PushedConcat(v, first, rest);
      AddsCompose(out, Pushed(v, first), w.out, Pushed(v, rest), WalkEach(v, slots[1..], depth, w.out).out);
    }
  }

  lemma NothingAdded(out: seq<Vma>)
    requires |out| <= MAX_VMA_ITER
    ensures Adds(out, [], out)
  {
  }

  lemma AddsWithin(before: seq<Vma>, added: seq<Vma>, after: seq<Vma>)
    requires Adds(before, added, after)
    ensures |after| <= MAX_VMA_ITER
  {
    AddsSize(before, added, after);
  }
}
