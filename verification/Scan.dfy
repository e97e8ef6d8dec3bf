/** Searching physical memory through windows: what one window finds and what consecutive windows cover. */
module Scan {
  import opened Wrappers
  import opened Memory

  /** Physical memory: any partial assignment of bytes to addresses up to a highest one.  A read of a stretch of it may
    * also fail as a whole. */
  datatype PhysicalMemory = PhysicalMemory(maxAddress: u64, byteAt: nat -> Option<byte>, fails: (nat, nat) -> bool) {
    /** The number of bytes the scans cover; an address space with all 64 bits loses its last byte. */
    function Total(): u64 {
      SaturatingAdd(maxAddress, 1)
    }

    /** All of a stretch of memory, or nothing when any byte of it cannot be read. */
    function ReadRaw(a: nat, n: nat): (r: Option<seq<byte>>)
      ensures r.Some? ==> |r.value| == n && forall x {:trigger byteAt(x)} :: a <= x < a + n ==> byteAt(x) == Some(r.value[x - a])
      ensures r.None? ==> exists x :: a <= x < a + n && byteAt(x).None?
    {
      if n == 0 then Some([])
      else
        var front, last := ReadRaw(a, n - 1), byteAt(a + n - 1);
        if front.None? || last.None? then None else Some(front.value + [last.value])
    }

    /** A read that must be complete. */
    function ReadAll(a: nat, n: nat): Option<seq<byte>> {
      if fails(a, n) then None else ReadRaw(a, n)
    }

    /** What a buffer holds after a read into it that keeps partial data: bytes that cannot be read stay as they were. */
    function Fill(a: nat, buf: seq<byte>): (r: seq<byte>)
      ensures |r| == |buf| && forall i :: 0 <= i < |r| ==> r[i] == byteAt(a + i).GetOr(buf[i])
    {
      seq(|buf|, i requires 0 <= i < |buf| => byteAt(a + i).GetOr(buf[i]))
    }

    function ReadInto(a: nat, buf: seq<byte>): Result<seq<byte>> {
      if fails(a, |buf|) then Err else Ok(Fill(a, buf))
    }

    ghost predicate Readable() {
      forall a: nat :: a < Total() ==> byteAt(a).Some?
    }

    ghost predicate NeverFails() {
      forall a, n :: !fails(a, n)
    }

    /** Every byte of the window that can be read is what memory holds. */
    ghost predicate Agrees(a: nat, w: seq<byte>) {
      forall x {:trigger byteAt(x)} :: a <= x < a + |w| && byteAt(x).Some? ==> byteAt(x) == Some(w[x - a])
    }

    /** No readable byte speaks against the pattern being here. */
    ghost predicate MayHold(p: seq<byte>, a: nat) {
      a + |p| <= Total() && Agrees(a, p)
    }

    ghost predicate Holds(p: seq<byte>, a: nat) {
      a + |p| <= Total() && forall x {:trigger byteAt(x)} :: a <= x < a + |p| ==> byteAt(x) == Some(p[x - a])
    }
  }

  /** The highest address is the last one scanned, unless it is the last of all. */
  lemma TotalMeaning(m: PhysicalMemory)
    ensures m.Total() == if m.maxAddress < 0xFFFF_FFFF_FFFF_FFFF then m.maxAddress + 1 else 0xFFFF_FFFF_FFFF_FFFF
  {
  }

  /** Memory holds these bytes, each of them readable. */
  ghost predicate BytesIn(m: PhysicalMemory, a: nat, bytes: seq<byte>) {
    forall i {:trigger bytes[i]} :: 0 <= i < |bytes| ==> m.byteAt(a + i) == Some(bytes[i])
  }

  /** A read gives the bytes that are there, or nothing when any of them is missing. */
  lemma ReadRawMeaning(m: PhysicalMemory, a: nat, bytes: seq<byte>)
    ensures m.ReadRaw(a, |bytes|) == Some(bytes) <==> BytesIn(m, a, bytes)
  {
    hide PhysicalMemory.ReadRaw;
    var r := m.ReadRaw(a, |bytes|);
    if BytesIn(m, a, bytes) {
      forall x | a <= x < a + |bytes| ensures m.byteAt(x).Some? {
        assert m.byteAt(a + (x - a)) == Some(bytes[x - a]);
      }
      forall i | 0 <= i < |bytes| ensures r.value[i] == bytes[i] {
        assert m.byteAt(a + i) == Some(r.value[a + i - a]) && m.byteAt(a + i) == Some(bytes[i]);
      }
      assert r.value == bytes;
    }
  }

  /** A cleared buffer. */
  function Zeros(n: nat): seq<byte> {
    seq(n, _ => 0)
  }

  // ----- substring search -----

  predicate MatchesAt(s: seq<byte>, p: seq<byte>, i: nat) {
    i + |p| <= |s| && s[i..i + |p|] == p
  }

  function NextMatch(s: seq<byte>, p: seq<byte>, from: nat): (r: Option<nat>)
    ensures r.Some? ==> from <= r.value && MatchesAt(s, p, r.value)
    ensures forall i {:trigger MatchesAt(s, p, i)} :: from <= i && (r.None? || i < r.value) ==> !MatchesAt(s, p, i)
    decreases |s| - from
  {
    if from + |p| > |s| then None
    else if MatchesAt(s, p, from) then Some(from)
    else NextMatch(s, p, from + 1)
  }

  /** The matches a substring iterator reports: the leftmost one, then the leftmost one after its end, and so on. */
  function FindIter(s: seq<byte>, p: seq<byte>, from: nat): (r: seq<nat>)
    requires p != []
    ensures forall k :: 0 <= k < |r| ==> from <= r[k] && MatchesAt(s, p, r[k])
    ensures forall j, k :: 0 <= j < k < |r| ==> r[j] < r[k]
    decreases |s| - from
  {
    var next := NextMatch(s, p, from);
    if next.None? then [] else [next.value] + FindIter(s, p, next.value + |p|)
  }

  /** A proper prefix that is also a suffix. */
  predicate IsBorder(p: seq<byte>, b: nat) {
    0 < b < |p| && p[..b] == p[|p| - b..]
  }

  ghost predicate Unbordered(p: seq<byte>) {
    forall b :: !IsBorder(p, b)
  }

  /** Two overlapping matches make a border. */
  lemma OverlapIsBorder(s: seq<byte>, p: seq<byte>, j: nat, i: nat)
    requires MatchesAt(s, p, j) && MatchesAt(s, p, i) && j < i < j + |p|
    ensures IsBorder(p, j + |p| - i)
  {
    var b := j + |p| - i;
    forall k | 0 <= k < b ensures p[..b][k] == p[|p| - b..][k] {
      assert p[k] == s[i..i + |p|][k] == s[i + k];
      assert p[i - j + k] == s[j..j + |p|][i - j + k];
    }
  }

  /** Without a border nothing is skipped. */
  lemma {:induction false} FindIterComplete(s: seq<byte>, p: seq<byte>, from: nat, i: nat)
    requires p != [] && Unbordered(p) && from <= i && MatchesAt(s, p, i)
    ensures i in FindIter(s, p, from)
    decreases |s| - from
  {
    hide MatchesAt, IsBorder;
    var j := NextMatch(s, p, from).value;
    if j < i < j + |p| {
      OverlapIsBorder(s, p, j, i);
      assert false;
    } else if j + |p| <= i {
      FindIterComplete(s, p, j + |p|, i);
    }
  }

  /** With a border, a match that starts inside a reported one is skipped. */
  lemma BorderedMisses(p: seq<byte>, b: nat)
    requires IsBorder(p, b)
    ensures var s := p + p[b..];
            MatchesAt(s, p, |p| - b) && |p| - b !in FindIter(s, p, 0)
  {
    hide MatchesAt, IsBorder, FindIter;
    BorderedMatches(p, b);
    SkipsInside(p + p[b..], p, 0, |p| - b);
  }

  lemma SkipsInside(s: seq<byte>, p: seq<byte>, from: nat, i: nat)
    requires MatchesAt(s, p, from) && from < i < from + |p|
    ensures i !in FindIter(s, p, from)
  {
    hide MatchesAt;
    assert NextMatch(s, p, from) == Some(from);
  }

  lemma BorderedMatches(p: seq<byte>, b: nat)
    requires IsBorder(p, b)
    ensures 0 < b < |p| && MatchesAt(p + p[b..], p, 0) && MatchesAt(p + p[b..], p, |p| - b)
  {
    var s, d := p + p[b..], |p| - b;
    assert s[0..|p|] == p;
    forall k | 0 <= k < |p| ensures s[d..d + |p|][k] == p[k] {
      if k < b { assert p[..b][k] == p[d..][k]; }
    }
  }

  /** The iterator reports every match in every text exactly for patterns without a border. */
  lemma FindIterCompleteIff(p: seq<byte>)
    requires p != []
    ensures Unbordered(p) <==> forall s, i {:trigger MatchesAt(s, p, i)} :: MatchesAt(s, p, i) ==> i in FindIter(s, p, 0)
  {
    hide MatchesAt, FindIter;
    if Unbordered(p) {
      forall s: seq<byte>, i: nat {:trigger MatchesAt(s, p, i)} | MatchesAt(s, p, i) ensures i in FindIter(s, p, 0) {
        FindIterComplete(s, p, 0, i);
      }
    } else {
      var b :| IsBorder(p, b);
      BorderedMisses(p, b);
    }
  }

  /** A text whose first byte does not come back has no border. */
  lemma FirstByteUnique(p: seq<byte>)
    requires p != [] && forall i :: 0 < i < |p| ==> p[i] != p[0]
    ensures Unbordered(p)
  {
    forall b | 0 < b < |p| ensures !IsBorder(p, b) {
      assert p[..b][0] == p[0] && p[|p| - b..][0] == p[|p| - b];
    }
  }

  // ----- windows -----

  /** Part of what was read is what reading that part gives. */
  lemma ReadPart(m: PhysicalMemory, base: nat, w: seq<byte>, i: nat, j: nat)
    requires m.ReadRaw(base, |w|) == Some(w) && i <= j <= |w|
    ensures m.ReadRaw(base + i, j - i) == Some(w[i..j])
  {
    var r := m.ReadRaw(base + i, j - i);
    forall x | base + i <= x < base + j ensures m.byteAt(x) == Some(w[i..j][x - base - i]) {
      assert m.byteAt(x) == Some(w[x - base]);
    }
    assert r.Some?;
    forall k | 0 <= k < j - i ensures r.value[k] == w[i..j][k] {
      assert m.byteAt(base + i + k) == Some(r.value[k]);
    }
    assert r.value == w[i..j];
  }

  /** A match inside a window is the pattern in memory, and the other way round. */
  lemma WindowMatches(m: PhysicalMemory, base: nat, w: seq<byte>, p: seq<byte>, i: nat)
    requires m.ReadRaw(base, |w|) == Some(w) && base + |w| <= m.Total()
    ensures MatchesAt(w, p, i) <==> i + |p| <= |w| && m.Holds(p, base + i)
  {
    if i + |p| <= |w| {
      forall x | base + i <= x < base + i + |p| ensures m.byteAt(x) == Some(w[i..i + |p|][x - base - i]) {
        assert m.byteAt(x) == Some(w[x - base]);
      }
      if m.Holds(p, base + i) {
        forall k | 0 <= k < |p| ensures w[i..i + |p|][k] == p[k] {
          assert m.byteAt(base + i + k) == Some(p[k]);
        }
        assert w[i..i + |p|] == p;
      }
    }
  }

  lemma FillAgrees(m: PhysicalMemory, a: nat, buf: seq<byte>)
    ensures m.Agrees(a, m.Fill(a, buf))
  {
    var w := m.Fill(a, buf);
    forall x | a <= x < a + |w| && m.byteAt(x).Some? ensures m.byteAt(x) == Some(w[x - a]) {
      assert w[x - a] == m.byteAt(a + (x - a)).GetOr(buf[x - a]);
    }
  }

  /** In readable memory, what may be a pattern is one. */
  lemma ReadableMayHold(m: PhysicalMemory, p: seq<byte>, a: nat)
    requires m.Readable()
    ensures m.MayHold(p, a) <==> m.Holds(p, a)
  {
    if m.MayHold(p, a) {
      forall x | a <= x < a + |p| ensures m.byteAt(x) == Some(p[x - a]) {
        assert m.byteAt(x).Some?;
      }
    }
  }

  /** The pattern in memory is a match in any window that agrees with memory, and a match may be the pattern in memory. */
  lemma AgreeingMatches(m: PhysicalMemory, base: nat, w: seq<byte>, p: seq<byte>, i: nat)
    requires m.Agrees(base, w) && base + |w| <= m.Total()
    ensures i + |p| <= |w| && m.Holds(p, base + i) ==> MatchesAt(w, p, i)
    ensures MatchesAt(w, p, i) ==> i + |p| <= |w| && m.MayHold(p, base + i)
  {
    if i + |p| <= |w| {
      if m.Holds(p, base + i) {
        forall k | 0 <= k < |p| ensures w[i..i + |p|][k] == p[k] {
          assert m.byteAt(base + i + k) == Some(p[k]);
          assert m.byteAt(base + i + k) == Some(w[i + k]);
        }
        assert w[i..i + |p|] == p;
      }
      if MatchesAt(w, p, i) {
        forall x | base + i <= x < base + i + |p| && m.byteAt(x).Some? ensures m.byteAt(x) == Some(p[x - base - i]) {
          assert w[x - base] == w[i..i + |p|][x - base - i];
        }
      }
    }
  }

  /** Everything a scan has looked at below `limit`, in the order it looked: each place once, none that memory speaks
    * against, and, for a pattern that cannot overlap itself, every place where memory holds it. */
  ghost predicate Visits(m: PhysicalMemory, p: seq<byte>, visited: seq<nat>, limit: nat) {
    && (forall j, k :: 0 <= j < k < |visited| ==> visited[j] < visited[k])
    && (forall k :: 0 <= k < |visited| ==> visited[k] < limit && m.MayHold(p, visited[k]))
    && (Unbordered(p) ==> forall a: nat :: a < limit && m.Holds(p, a) ==> a in visited)
  }

  function Shift(hits: seq<nat>, base: nat): (r: seq<nat>)
    ensures |r| == |hits| && forall k :: 0 <= k < |r| ==> r[k] == base + hits[k]
  {
    seq(|hits|, k requires 0 <= k < |hits| => base + hits[k])
  }

  /** What the iterator finds in a window may be in memory; without a border, it is all that fits the window. */
  lemma WindowHits(m: PhysicalMemory, p: seq<byte>, base: nat, w: seq<byte>, a: nat)
    requires p != [] && base + |w| <= m.Total() && m.Agrees(base, w)
    ensures a in Shift(FindIter(w, p, 0), base) ==> base <= a <= base + |w| - |p| && m.MayHold(p, a)
    ensures Unbordered(p) && base <= a <= base + |w| - |p| && m.Holds(p, a) ==> a in Shift(FindIter(w, p, 0), base)
  {
    hide MatchesAt, FindIter, Unbordered, PhysicalMemory.Holds, PhysicalMemory.MayHold, PhysicalMemory.Agrees;
    var hits := FindIter(w, p, 0);
    var found := Shift(hits, base);
    if a >= base {
      AgreeingMatches(m, base, w, p, a - base);
      if a in found {
        var k :| 0 <= k < |found| && found[k] == a;
        assert hits[k] == a - base;
      }
      if Unbordered(p) && a <= base + |w| - |p| && m.Holds(p, a) {
        FindIterComplete(w, p, 0, a - base);
        var k :| 0 <= k < |hits| && hits[k] == a - base;
        assert found[k] == a;
      }
    }
  }

  /** One window extends what has been visited to everything that starts in it and fits. */
  lemma WindowVisits(m: PhysicalMemory, p: seq<byte>, visited: seq<nat>, base: nat, w: seq<byte>)
    requires p != [] && |p| <= |w| && base + |w| <= m.Total() && m.Agrees(base, w)
    requires Visits(m, p, visited, base)
    ensures Visits(m, p, visited + Shift(FindIter(w, p, 0), base), base + |w| - |p| + 1)
  {
    hide FindIter, Unbordered, Shift, PhysicalMemory.Holds, PhysicalMemory.MayHold, PhysicalMemory.Agrees;
    var found := Shift(FindIter(w, p, 0), base);
    var all := visited + found;
    forall k | 0 <= k < |found| ensures base <= found[k] <= base + |w| - |p| && m.MayHold(p, found[k]) {
      WindowHits(m, p, base, w, found[k]);
    }
    if Unbordered(p) {
      forall a: nat | a < base + |w| - |p| + 1 && m.Holds(p, a) ensures a in all {
        WindowHits(m, p, base, w, a);
      }
    }
  }

  /** Once less than a pattern is left, everything has been visited. */
  lemma NothingLeft(m: PhysicalMemory, p: seq<byte>, visited: seq<nat>, limit: nat)
    requires Visits(m, p, visited, limit) && p != [] && m.Total() < limit + |p|
    ensures Visits(m, p, visited, m.Total())
    ensures Unbordered(p) ==> forall a: nat :: m.Holds(p, a) ==> a in visited
  {
    hide Unbordered, PhysicalMemory.Agrees;
  }
}
