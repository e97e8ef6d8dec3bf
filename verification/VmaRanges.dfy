/** Turning VMAs into memory ranges (process.rs, `emit_vma_ranges`). */
module VmaRanges {
  import opened Bits
  import opened Wrappers
  import opened Memory
  import opened MapleTree

  datatype Access = Writable | ReadOnly | Unknown

  datatype PageType = PageType(access: Access, noexec: bool)

  /** VM_READ, VM_WRITE and VM_EXEC are the three lowest flag bits. */
  function PageTypeOf(flags: u64): PageType {
    PageType(if flags / 2 % 2 == 1 then Writable else if flags % 2 == 1 then ReadOnly else Unknown, flags / 4 % 2 == 0)
  }

  /** The page type is decided by the three bits with their masks: writable first, then readable. */
  lemma PageTypeBits(flags: u64)
    ensures PageTypeOf(flags) == PageType(if And(flags, 2) != 0 then Writable else if And(flags, 1) != 0 then ReadOnly else Unknown,
                                          And(flags, 4) == 0)
  {
    hide And;
    AndZero(flags / 2);
    AndZero(flags / 2 / 2);
    AndZero(flags / 2 / 2 / 2);
    BitStep(flags, 1);
    BitStep(flags, 2);
    BitStep(flags / 2, 1);
    BitStep(flags, 4);
    BitStep(flags / 2, 2);
    BitStep(flags / 2 / 2, 1);
  }

  datatype Range = Range(start: u64, size: u64, pageType: PageType) {
    function End(): nat {
      start + size
    }

    predicate Has(x: nat) {
      start <= x < End()
    }

    /** All of `inner`, with its page type. */
    predicate Covers(inner: Range) {
      start <= inner.start && inner.End() <= End() && inner.pageType == pageType
    }
  }

  /** The part of a VMA inside the window [lo, hi). */
  function Clip(x: Vma, lo: u64, hi: u64): Option<Range> {
    if x.end <= lo || x.start >= hi then None
    else
      var start := if x.start < lo then lo else x.start;
      var end := if x.end > hi then hi else x.end;
      if end <= start then None else Some(Range(start, SaturatingSub(end, start), PageTypeOf(x.flags)))
  }

  function Clips(vmas: seq<Vma>, lo: u64, hi: u64): seq<Range> {
    if vmas == [] then []
    else
      var last := Clip(vmas[|vmas| - 1], lo, hi);
      Clips(vmas[..|vmas| - 1], lo, hi) + if last.Some? then [last.value] else []
  }

  predicate CanMerge(pending: Range, next: Range, gap: int) {
    && gap >= 0
    && pending.pageType == next.pageType
    && SaturatingAdd(SaturatingAdd(pending.start, pending.size), gap) >= next.start
  }

  function Extend(pending: Range, next: Range): Range {
    pending.(size := SaturatingSub(SaturatingAdd(next.start, next.size), pending.start))
  }

  /** One more range: it extends the last run or opens a new one. */
  function AddRange(runs: seq<Range>, next: Range, gap: int): seq<Range> {
    if runs != [] && CanMerge(runs[|runs| - 1], next, gap)
    then runs[..|runs| - 1] + [Extend(runs[|runs| - 1], next)]
    else runs + [next]
  }

  function Runs(clips: seq<Range>, gap: int): seq<Range> {
    if clips == [] then [] else AddRange(Runs(clips[..|clips| - 1], gap), clips[|clips| - 1], gap)
  }

  // ----- the callback and the loop -----

  /** A consumer of ranges; it may ask for no more, depending on all it has received. */
  class RangeCallback {
    const keepGoing: seq<Range> -> bool
    var received: seq<Range>

    constructor (keepGoing: seq<Range> -> bool)
      ensures this.keepGoing == keepGoing && received == []
    {
      this.keepGoing := keepGoing;
      received := [];
    }

    method Call(r: Range) returns (more: bool)
      modifies this
      ensures received == old(received) + [r] && more == keepGoing(received)
    {
      received := received + [r];
      more := keepGoing(received);
    }
  }

  /** What a callback has received once it has been offered `ranges` in order until it stops. */
  function Delivered(keepGoing: seq<Range> -> bool, received: seq<Range>, ranges: seq<Range>): seq<Range>
    decreases |ranges|
  {
    if ranges == [] then received
    else
      var now := received + [ranges[0]];
      if keepGoing(now) then Delivered(keepGoing, now, ranges[1..]) else now
  }

  lemma {:induction false} DeliveredIsPrefix(keepGoing: seq<Range> -> bool, received: seq<Range>, ranges: seq<Range>)
    ensures exists k :: 0 <= k <= |ranges| && Delivered(keepGoing, received, ranges) == received + ranges[..k]
                        && (k < |ranges| ==> k > 0 && !keepGoing(received + ranges[..k]))
                        && forall i :: 0 < i < k ==> keepGoing(received + ranges[..i])
    decreases |ranges|
  {
    if ranges == [] {
      assert received + ranges[..0] == received;
    } else {
      var now := received + [ranges[0]];
      assert received + ranges[..1] == now;
      if keepGoing(now) {
        DeliveredIsPrefix(keepGoing, now, ranges[1..]);
        var k :| 0 <= k <= |ranges[1..]| && Delivered(keepGoing, now, ranges[1..]) == now + ranges[1..][..k]
                 && (k < |ranges[1..]| ==> k > 0 && !keepGoing(now + ranges[1..][..k]))
                 && forall i :: 0 < i < k ==> keepGoing(now + ranges[1..][..i]);
        forall i | 0 <= i <= k ensures now + ranges[1..][..i] == received + ranges[..i + 1] {
        }
        forall i | 0 < i < k + 1 ensures keepGoing(received + ranges[..i]) {
          assert i > 1 ==> keepGoing(now + ranges[1..][..i - 1]);
        }
        assert Delivered(keepGoing, received, ranges) == received + ranges[..k + 1];
      } else {
        assert Delivered(keepGoing, received, ranges) == received + ranges[..1];
      }
    }
  }

  /** The runs of the first `i` VMAs. */
  function RunsUpTo(vmas: seq<Vma>, i: nat, gap: int, lo: u64, hi: u64): seq<Range>
    requires i <= |vmas|
  {
    Runs(Clips(vmas[..i], lo, hi), gap)
  }

  lemma NextRuns(vmas: seq<Vma>, i: nat, gap: int, lo: u64, hi: u64)
    requires i < |vmas|
    ensures RunsUpTo(vmas, i + 1, gap, lo, hi)
         == if Clip(vmas[i], lo, hi).None? then RunsUpTo(vmas, i, gap, lo, hi)
            else AddRange(RunsUpTo(vmas, i, gap, lo, hi), Clip(vmas[i], lo, hi).value, gap)
  {
    hide Clip, AddRange;
    assert vmas[..i + 1][..i] == vmas[..i];
    var clips, range := Clips(vmas[..i], lo, hi), Clip(vmas[i], lo, hi);
    if range.Some? {
      assert (clips + [range.value])[..|clips|] == clips;
    } else {
      assert Clips(vmas[..i + 1], lo, hi) == clips;
    }
  }

  lemma AddToOpenRun(closed: seq<Range>, last: Range, next: Range, gap: int)
    ensures AddRange(closed + [last], next, gap)
         == if CanMerge(last, next, gap) then closed + [Extend(last, next)] else closed + [last] + [next]
  {
    assert (closed + [last])[..|closed|] == closed;
  }

  /** Runs before the last one never change again. */
  lemma {:induction false} ClosedRunsStay(vmas: seq<Vma>, i: nat, gap: int, lo: u64, hi: u64, closed: seq<Range>, last: Range)
    requires i <= |vmas|
    requires RunsUpTo(vmas, i, gap, lo, hi) == closed + [last]
    ensures closed <= RunsUpTo(vmas, |vmas|, gap, lo, hi)
    decreases |vmas| - i
  {
    hide RunsUpTo, Clip, AddRange, CanMerge, Extend;
    if i < |vmas| {
      NextRuns(vmas, i, gap, lo, hi);
      var range := Clip(vmas[i], lo, hi);
      if range.Some? { AddToOpenRun(closed, last, range.value, gap); }
      if range.None? {
        ClosedRunsStay(vmas, i + 1, gap, lo, hi, closed, last);
      } else if CanMerge(last, range.value, gap) {
        ClosedRunsStay(vmas, i + 1, gap, lo, hi, closed, Extend(last, range.value));
      } else {
        ClosedRunsStay(vmas, i + 1, gap, lo, hi, closed + [last], range.value);
      }
    }
  }

  /** Offering one more range of a sequence that is being delivered. */
  lemma DeliverNext(keepGoing: seq<Range> -> bool, received: seq<Range>, all: seq<Range>, k: nat)
    requires k < |all|
    ensures Delivered(keepGoing, received, all[k..])
         == if keepGoing(received + [all[k]]) then Delivered(keepGoing, received + [all[k]], all[k + 1..])
            else received + [all[k]]
  {
    assert all[k..][1..] == all[k + 1..];
  }

  method EmitVmaRanges(vmas: seq<Vma>, gap: int, lo: u64, hi: u64, out: RangeCallback)
    modifies out
    ensures out.received == Delivered(out.keepGoing, old(out.received), RunsUpTo(vmas, |vmas|, gap, lo, hi))
  {
    hide RunsUpTo, Clip, Delivered, AddRange, CanMerge, Extend;
    var pending: Option<Range> := None;
    ghost var emitted: seq<Range> := [];
    ghost var all := RunsUpTo(vmas, |vmas|, gap, lo, hi);
    assert RunsUpTo(vmas, 0, gap, lo, hi) == [] by { NoRuns(vmas, gap, lo, hi); }
    assert all[0..] == all;
    for i := 0 to |vmas|
      invariant emitted + Pending(pending) == RunsUpTo(vmas, i, gap, lo, hi)
      invariant pending.None? ==> emitted == []
      invariant emitted <= all
      invariant Delivered(out.keepGoing, old(out.received), all)
             == Delivered(out.keepGoing, out.received, all[|emitted|..])
    {
      NextRuns(vmas, i, gap, lo, hi);
      var range := Clip(vmas[i], lo, hi);
      if range.None? { continue; }
      if pending.Some? {
        AddToOpenRun(emitted, pending.value, range.value, gap);
        if CanMerge(pending.value, range.value, gap) {
          pending := Some(Extend(pending.value, range.value));
          continue;
        }
        ClosedRunsStay(vmas, i + 1, gap, lo, hi, emitted + [pending.value], range.value);
        DeliverNext(out.keepGoing, out.received, all, |emitted|);
        emitted := emitted + [pending.value];
        var more := out.Call(pending.value);
        if !more { return; }
      } else {
        FirstRun(range.value, gap);
      }
      pending := Some(range.value);
    }
    if pending.Some? {
      DeliverNext(out.keepGoing, out.received, all, |emitted|);
      NothingLeft(out.keepGoing, out.received + [pending.value]);
      assert all[|emitted| + 1..] == [];
      var _ := out.Call(pending.value);
    } else {
      NothingLeft(out.keepGoing, out.received);
      assert all[|emitted|..] == [];
    }
  }

  lemma FirstRun(next: Range, gap: int)
    ensures AddRange([], next, gap) == [next]
  {
  }

  lemma NoRuns(vmas: seq<Vma>, gap: int, lo: u64, hi: u64)
    ensures RunsUpTo(vmas, 0, gap, lo, hi) == []
  {
  }

  lemma NothingLeft(keepGoing: seq<Range> -> bool, received: seq<Range>)
    ensures Delivered(keepGoing, received, []) == received
  {
  }

  function Pending(pending: Option<Range>): seq<Range> {
    if pending.Some? then [pending.value] else []
  }

  // ----- what the ranges mean, for sorted disjoint VMAs -----

  ghost predicate SortedDisjointVmas(vmas: seq<Vma>) {
    forall i, j :: 0 <= i < j < |vmas| ==> vmas[i].end <= vmas[j].start
  }

  ghost predicate SortedDisjoint(ranges: seq<Range>, lo: nat, hi: nat) {
    && (forall i :: 0 <= i < |ranges| ==> lo <= ranges[i].start < ranges[i].End() <= hi)
    && (forall i, j :: 0 <= i < j < |ranges| ==> ranges[i].End() <= ranges[j].start)
  }

  /** `c` is what the window [lo, hi) leaves of the VMA. */
  ghost predicate IsCut(x: Vma, lo: u64, hi: u64, c: Range) {
    && c.start == (if x.start < lo then lo else x.start) && c.start + c.size == (if hi < x.end then hi else x.end)
    && c.size > 0 && c.pageType == PageTypeOf(x.flags)
  }

  /** `c` is what the window leaves of one of the VMAs. */
  ghost predicate IsClip(vmas: seq<Vma>, lo: u64, hi: u64, c: Range) {
    exists i :: 0 <= i < |vmas| && IsCut(vmas[i], lo, hi, c)
  }

  lemma ClipIsCut(x: Vma, lo: u64, hi: u64, c: Range)
    ensures Clip(x, lo, hi) == Some(c) <==> IsCut(x, lo, hi, c)
  {
  }

  /** The clips are the VMAs cut to the window: none added and none lost. */
  lemma {:induction false} ClipsAreTheWindow(vmas: seq<Vma>, lo: u64, hi: u64)
    ensures forall c :: c in Clips(vmas, lo, hi) <==> IsClip(vmas, lo, hi, c)
  {
    hide Clip, IsCut;
    if vmas != [] {
      var front, last := vmas[..|vmas| - 1], vmas[|vmas| - 1];
      ClipsAreTheWindow(front, lo, hi);
      forall c ensures c in Clips(vmas, lo, hi) <==> IsClip(vmas, lo, hi, c) {
        ClipIsCut(last, lo, hi, c);
        ClipOfMore(front, last, lo, hi, c);
        assert vmas == front + [last];
      }
    }
  }

  lemma ClipOfMore(front: seq<Vma>, last: Vma, lo: u64, hi: u64, c: Range)
    ensures IsClip(front + [last], lo, hi, c) <==> IsClip(front, lo, hi, c) || IsCut(last, lo, hi, c)
  {
    hide IsCut;
    var vmas := front + [last];
    if IsClip(front, lo, hi, c) {
      var i :| 0 <= i < |front| && IsCut(front[i], lo, hi, c);
      assert vmas[i] == front[i];
    }
    if IsCut(last, lo, hi, c) { assert vmas[|front|] == last; }
    if IsClip(vmas, lo, hi, c) {
      var i :| 0 <= i < |vmas| && IsCut(vmas[i], lo, hi, c);
      assert i < |front| ==> front[i] == vmas[i];
    }
  }

  /** The clips of sorted disjoint VMAs are sorted and disjoint. */
  lemma {:induction false} ClipsSorted(vmas: seq<Vma>, lo: u64, hi: u64)
    requires SortedDisjointVmas(vmas)
    ensures SortedDisjoint(Clips(vmas, lo, hi), lo, hi)
  {
    hide Clip;
    if vmas != [] {
      var front, last := vmas[..|vmas| - 1], vmas[|vmas| - 1];
      var clips := Clips(front, lo, hi);
      ClipsSorted(front, lo, hi);
      ClipsAreTheWindow(front, lo, hi);
      if Clip(last, lo, hi).Some? {
        ClipInside(last, lo, hi);
        forall k | 0 <= k < |clips| ensures clips[k].End() <= Clip(last, lo, hi).value.start {
          assert clips[k] in clips;
          assert IsClip(front, lo, hi, clips[k]);
          var i :| 0 <= i < |front| && IsCut(front[i], lo, hi, clips[k]);
          assert front[i] == vmas[i];
        }
      }
    }
  }

  lemma ClipInside(x: Vma, lo: u64, hi: u64)
    ensures Clip(x, lo, hi).Some? ==>
              var c := Clip(x, lo, hi).value;
              lo <= c.start < c.End() <= hi && x.start <= c.start && c.End() <= x.end
  {
  }

  lemma ClipBytes(x: Vma, lo: u64, hi: u64, b: nat)
    ensures (x.start <= b < x.end && lo <= b < hi) <==> (Clip(x, lo, hi).Some? && Clip(x, lo, hi).value.Has(b))
    ensures Clip(x, lo, hi).Some? ==> Clip(x, lo, hi).value.pageType == PageTypeOf(x.flags)
  {
  }

  /** `b` lies between two neighbouring clips of type `t` that are at most `gap` apart. */
  ghost predicate InHole(clips: seq<Range>, gap: int, t: PageType, b: nat) {
    exists i {:trigger clips[i]} :: 0 <= i < |clips| - 1
      && clips[i].pageType == t && clips[i + 1].pageType == t
      && clips[i].End() <= b < clips[i + 1].start <= clips[i].End() + gap
  }

  ghost predicate InClip(clips: seq<Range>, t: PageType, b: nat) {
    exists i :: 0 <= i < |clips| && clips[i].pageType == t && clips[i].Has(b)
  }

  ghost predicate CoverAll(runs: seq<Range>, clips: seq<Range>) {
    forall i :: 0 <= i < |clips| ==> CoverOne(runs, clips[i])
  }

  ghost predicate CoverOne(runs: seq<Range>, c: Range) {
    exists k :: 0 <= k < |runs| && runs[k].Covers(c)
  }

  ghost predicate HoldNothingElse(runs: seq<Range>, clips: seq<Range>, gap: int) {
    forall k, b: nat :: 0 <= k < |runs| && runs[k].Has(b) ==>
      InClip(clips, runs[k].pageType, b) || InHole(clips, gap, runs[k].pageType, b)
  }

  /** No two neighbouring runs could still be joined. */
  ghost predicate Maximal(runs: seq<Range>, gap: int) {
    forall k {:trigger runs[k]} :: 0 <= k < |runs| - 1 ==>
      gap < 0 || runs[k].pageType != runs[k + 1].pageType || runs[k].End() + gap < runs[k + 1].start
  }

  ghost predicate EndAlike(runs: seq<Range>, clips: seq<Range>) {
    && (runs == [] <==> clips == [])
    && (clips != [] ==> runs[|runs| - 1].End() == clips[|clips| - 1].End()
                        && runs[|runs| - 1].pageType == clips[|clips| - 1].pageType)
  }

  /** The runs are the clips joined across small holes between equal types, and nothing else. */
  ghost predicate AreRuns(runs: seq<Range>, clips: seq<Range>, gap: int, lo: nat, hi: nat) {
    && SortedDisjoint(runs, lo, hi)
    && CoverAll(runs, clips)
    && HoldNothingElse(runs, clips, gap)
    && Maximal(runs, gap)
    && EndAlike(runs, clips)
  }

  lemma InFront(clips: seq<Range>, c: Range, gap: int, t: PageType, b: nat)
    ensures InClip(clips, t, b) ==> InClip(clips + [c], t, b)
    ensures InHole(clips, gap, t, b) ==> InHole(clips + [c], gap, t, b)
  {
    if InClip(clips, t, b) {
      var i :| 0 <= i < |clips| && clips[i].pageType == t && clips[i].Has(b);
      assert (clips + [c])[i] == clips[i];
    }
    if InHole(clips, gap, t, b) {
      var i :| 0 <= i < |clips| - 1 && clips[i].pageType == t && clips[i + 1].pageType == t
               && clips[i].End() <= b < clips[i + 1].start <= clips[i].End() + gap;
      assert (clips + [c])[i] == clips[i] && (clips + [c])[i + 1] == clips[i + 1];
    }
  }

  lemma {:induction false} RunsAreRuns(clips: seq<Range>, gap: int, lo: u64, hi: u64)
    requires SortedDisjoint(clips, lo, hi)
    ensures AreRuns(Runs(clips, gap), clips, gap, lo, hi)
  {
    hide AreRuns, SortedDisjoint;
    if clips == [] {
      NoClips(gap, lo, hi);
    } else {
      var front, c := clips[..|clips| - 1], clips[|clips| - 1];
      assert clips == front + [c];
      SortedFront(front, c, lo, hi);
      RunsAreRuns(front, gap, lo, hi);
      var runs := Runs(front, gap);
      if runs != [] && CanMerge(runs[|runs| - 1], c, gap) {
        MergeKeepsRuns(runs, front, c, gap, lo, hi);
      } else {
        NewRunKeepsRuns(runs, front, c, gap, lo, hi);
      }
    }
  }

  lemma NoClips(gap: int, lo: nat, hi: nat)
    ensures AreRuns([], [], gap, lo, hi)
  {
  }

  lemma SortedFront(front: seq<Range>, c: Range, lo: nat, hi: nat)
    requires SortedDisjoint(front + [c], lo, hi)
    ensures SortedDisjoint(front, lo, hi)
  {
    var clips := front + [c];
    assert forall i :: 0 <= i < |front| ==> clips[i] == front[i];
  }

  /** A clip that cannot merge opens a run of its own. */
  lemma NewRunKeepsRuns(runs: seq<Range>, front: seq<Range>, c: Range, gap: int, lo: u64, hi: u64)
    requires SortedDisjoint(front + [c], lo, hi) && AreRuns(runs, front, gap, lo, hi)
    requires runs != [] ==> !CanMerge(runs[|runs| - 1], c, gap)
    ensures AreRuns(runs + [c], front + [c], gap, lo, hi)
  {
    hide CoverAll, HoldNothingElse, InClip, InHole, SortedDisjoint, Maximal, CanMerge;
    LastIsBefore(runs, front, c, lo, hi);
    AppendRun(runs, c, gap, lo, hi);
    forall k | 0 <= k < |runs| ensures (runs + [c])[k].Covers(runs[k]) {
    }
    CoverMore(runs, runs + [c], front, c);
    forall k, b: nat | 0 <= k < |runs + [c]| && (runs + [c])[k].Has(b)
      ensures ((runs + [c])[k].pageType == c.pageType && c.Has(b)) || (k < |runs| && runs[k] == (runs + [c])[k])
    {
    }
    HoldOneMore(runs, runs + [c], front, c, gap);
  }

  lemma AppendRun(runs: seq<Range>, c: Range, gap: int, lo: u64, hi: u64)
    requires SortedDisjoint(runs, lo, hi) && Maximal(runs, gap)
    requires lo <= c.start < c.End() <= hi && (forall k :: 0 <= k < |runs| ==> runs[k].End() <= c.start)
    requires runs != [] ==> !CanMerge(runs[|runs| - 1], c, gap)
    ensures SortedDisjoint(runs + [c], lo, hi) && Maximal(runs + [c], gap)
  {
  }

  /** A clip that can merge extends the last run over the hole before it. */
  lemma MergeKeepsRuns(runs: seq<Range>, front: seq<Range>, c: Range, gap: int, lo: u64, hi: u64)
    requires SortedDisjoint(front + [c], lo, hi) && AreRuns(runs, front, gap, lo, hi)
    requires runs != [] && CanMerge(runs[|runs| - 1], c, gap)
    ensures AreRuns(runs[..|runs| - 1] + [Extend(runs[|runs| - 1], c)], front + [c], gap, lo, hi)
  {
    hide CoverAll, HoldNothingElse, InClip, InHole, SortedDisjoint, Maximal, CanMerge, Extend;
    var n := |runs| - 1;
    var last := Extend(runs[n], c);
    var next := runs[..n] + [last];
    LastIsBefore(runs, front, c, lo, hi);
    ExtendLast(runs, last, c, gap, lo, hi);
    CoverMore(runs, next, front, c);
    HoldOneMore(runs, next, front, c, gap);
  }

  lemma ExtendLast(runs: seq<Range>, last: Range, c: Range, gap: int, lo: u64, hi: u64)
    requires SortedDisjoint(runs, lo, hi) && Maximal(runs, gap) && runs != []
    requires lo <= c.start < c.End() <= hi && (forall k :: 0 <= k < |runs| ==> runs[k].End() <= c.start)
    requires CanMerge(runs[|runs| - 1], c, gap) && last == Extend(runs[|runs| - 1], c)
    ensures last.End() == c.End() && last.start == runs[|runs| - 1].start && last.pageType == runs[|runs| - 1].pageType
    ensures last.pageType == c.pageType && gap >= 0 && c.start <= runs[|runs| - 1].End() + gap
    ensures SortedDisjoint(runs[..|runs| - 1] + [last], lo, hi) && Maximal(runs[..|runs| - 1] + [last], gap)
  {
  }

  /** Runs that grow keep covering, and cover a clip that the last of them covers. */
  lemma CoverMore(runs: seq<Range>, next: seq<Range>, front: seq<Range>, c: Range)
    requires |runs| <= |next| && (forall k :: 0 <= k < |runs| ==> next[k].Covers(runs[k]))
    requires next != [] && next[|next| - 1].Covers(c) && CoverAll(runs, front)
    ensures CoverAll(next, front + [c])
  {
    forall i | 0 <= i < |front + [c]| ensures CoverOne(next, (front + [c])[i]) {
      if i < |front| {
        assert CoverOne(runs, front[i]);
        var k :| 0 <= k < |runs| && runs[k].Covers(front[i]);
        assert next[k].Covers(front[i]);
      }
    }
  }

  /** Every byte a run gains lies in the new clip or in the hole before it. */
  lemma HoldOneMore(runs: seq<Range>, next: seq<Range>, front: seq<Range>, c: Range, gap: int)
    requires HoldNothingElse(runs, front, gap) && EndAlike(runs, front)
    requires forall k, b: nat :: 0 <= k < |next| && next[k].Has(b) ==>
               || (k < |runs| && runs[k].pageType == next[k].pageType && runs[k].Has(b))
               || (next[k].pageType == c.pageType
                   && (c.Has(b) || (front != [] && front[|front| - 1].pageType == c.pageType
                                    && front[|front| - 1].End() <= b < c.start <= front[|front| - 1].End() + gap)))
    ensures HoldNothingElse(next, front + [c], gap)
  {
    hide InClip, InHole;
    forall k, b: nat | 0 <= k < |next| && next[k].Has(b)
      ensures InClip(front + [c], next[k].pageType, b) || InHole(front + [c], gap, next[k].pageType, b)
    {
      InFront(front, c, gap, next[k].pageType, b);
      if k < |runs| && runs[k].pageType == next[k].pageType && runs[k].Has(b) {
        assert InClip(front, runs[k].pageType, b) || InHole(front, gap, runs[k].pageType, b);
        assert InClip(front + [c], runs[k].pageType, b) || InHole(front + [c], gap, runs[k].pageType, b);
      } else {
        LastByte(front, c, gap, b);
        assert next[k].pageType == c.pageType;
        assert InClip(front + [c], c.pageType, b) || InHole(front + [c], gap, c.pageType, b);
      }
    }
  }

  lemma LastByte(front: seq<Range>, c: Range, gap: int, b: nat)
    ensures c.Has(b) ==> InClip(front + [c], c.pageType, b)
    ensures front != [] && front[|front| - 1].pageType == c.pageType
            && front[|front| - 1].End() <= b < c.start <= front[|front| - 1].End() + gap
            ==> InHole(front + [c], gap, c.pageType, b)
  {
    var clips := front + [c];
    assert clips[|front|] == c;
    if front != [] { assert clips[|front| - 1] == front[|front| - 1]; }
  }

  lemma LastIsBefore(runs: seq<Range>, front: seq<Range>, c: Range, lo: u64, hi: u64)
    requires SortedDisjoint(front + [c], lo, hi) && SortedDisjoint(runs, lo, hi) && EndAlike(runs, front)
    ensures lo <= c.start < c.End() <= hi
    ensures forall k :: 0 <= k < |runs| ==> runs[k].End() <= c.start
  {
    var clips := front + [c];
    assert clips[|front|] == c;
    if front != [] {
      assert clips[|front| - 1] == front[|front| - 1];
      assert clips[|front| - 1].End() <= clips[|front|].start;
    }
  }

  /** The emitted ranges, for sorted disjoint VMAs: sorted, disjoint, inside the window and as large as the gap allows;
    * every mapped byte of the window is in exactly one of them, with its own page type; and any other byte they
    * hold lies in a hole of at most `gap` bytes between two neighbouring VMAs of that type. */
  lemma EmittedRanges(vmas: seq<Vma>, gap: int, lo: u64, hi: u64)
    requires SortedDisjointVmas(vmas)
    ensures AreRuns(RunsUpTo(vmas, |vmas|, gap, lo, hi), Clips(vmas, lo, hi), gap, lo, hi)
    ensures forall i, b :: 0 <= i < |vmas| && vmas[i].start <= b < vmas[i].end && lo <= b < hi ==>
              InOneRange(RunsUpTo(vmas, |vmas|, gap, lo, hi), PageTypeOf(vmas[i].flags), b)
  {
    hide Clip, Runs, Clips, AreRuns, InOneRange;
    var clips := Clips(vmas, lo, hi);
    ClipsAreTheWindow(vmas, lo, hi);
    ClipsSorted(vmas, lo, hi);
    assert vmas[..|vmas|] == vmas;
    RunsAreRuns(clips, gap, lo, hi);
    forall i, b | 0 <= i < |vmas| && vmas[i].start <= b < vmas[i].end && lo <= b < hi
      ensures InOneRange(RunsUpTo(vmas, |vmas|, gap, lo, hi), PageTypeOf(vmas[i].flags), b)
    {
      ClipBytes(vmas[i], lo, hi, b);
      ClipIsCut(vmas[i], lo, hi, Clip(vmas[i], lo, hi).value);
      assert IsClip(vmas, lo, hi, Clip(vmas[i], lo, hi).value);
      ClippedByteInOneRange(Runs(clips, gap), clips, gap, lo, hi, Clip(vmas[i], lo, hi).value, b);
    }
  }

  lemma ClippedByteInOneRange(runs: seq<Range>, clips: seq<Range>, gap: int, lo: u64, hi: u64, c: Range, b: nat)
    requires AreRuns(runs, clips, gap, lo, hi) && c in clips && c.Has(b)
    ensures InOneRange(runs, c.pageType, b)
  {
    var i :| 0 <= i < |clips| && clips[i] == c;
    assert CoverOne(runs, clips[i]);
    var k :| 0 <= k < |runs| && runs[k].Covers(clips[i]);
    assert runs[k].Has(b);
  }

  /** `b` is in a range of type `t`, and in no other range. */
  ghost predicate InOneRange(ranges: seq<Range>, t: PageType, b: nat) {
    exists k :: 0 <= k < |ranges| && ranges[k].Has(b) && ranges[k].pageType == t
                && forall j :: 0 <= j < |ranges| && ranges[j].Has(b) ==> j == k
  }

  /** A negative gap merges nothing: the output is exactly the clipped VMAs. */
  lemma {:induction false} NegativeGapClipsOnly(clips: seq<Range>, gap: int)
    requires gap < 0
    ensures Runs(clips, gap) == clips
  {
    if clips != [] {
      NegativeGapClipsOnly(clips[..|clips| - 1], gap);
      assert clips == clips[..|clips| - 1] + [clips[|clips| - 1]];
    }
  }
}
