/** The signature search for the kernel's entry code: which addresses its windows examine (kernel/x64.rs). */
module KernelSearch {
  import opened Wrappers
  import opened Memory
  import opened Scan
  import opened Signature

  const BUF: nat := 0x20_0000
  const PAGE: nat := 0x1000

  function Len(sig: Signature): nat {
    |sig.bytes|
  }

  /** The longest signature's length; one when there is none. */
  function MaxLen(sigs: seq<Signature>): (n: nat)
    ensures forall k :: 0 <= k < |sigs| ==> Len(sigs[k]) <= n
    ensures if sigs == [] then n == 1 else exists k :: 0 <= k < |sigs| && Len(sigs[k]) == n
  {
    if sigs == [] then 1
    else if |sigs| == 1 then Len(sigs[0])
    else
      var rest := MaxLen(sigs[..|sigs| - 1]);
      Max(rest, Len(sigs[|sigs| - 1]))
  }

  /** The memory at an address matches a signature; bytes that cannot be read count as zero. */
  predicate MatchesIn(m: PhysicalMemory, sig: Signature, a: nat) {
    Equals(sig, m.Fill(a, Zeros(Len(sig))))
  }

  /** For a signature made of tokens, that is nibble by nibble. */
  lemma MatchesInMeaning(m: PhysicalMemory, sig: Signature, tokens: seq<string>, a: nat)
    requires Describes(sig, tokens) && forall i :: 0 <= i < |tokens| ==> IsPattern(Unstarred(tokens[i]))
    ensures MatchesIn(m, sig, a) <==> forall i :: 0 <= i < |tokens| ==> NibblesMatch(Unstarred(tokens[i]), m.byteAt(a + i).GetOr(0))
  {
    hide IsPattern, NibblesMatch, Unstarred, PhysicalMemory.Fill;
    var w := m.Fill(a, Zeros(Len(sig)));
    EqualsMeaning(sig, tokens, w);
    assert forall i :: 0 <= i < |tokens| ==> w[i] == m.byteAt(a + i).GetOr(0);
  }

  /** The window over cleared memory, filled as far as memory can be read. */
  predicate IsWindow(m: PhysicalMemory, a: nat, w: seq<byte>) {
    w == m.Fill(a, Zeros(|w|))
  }

  /** Every match of any signature that ends at or before `reach` is turned down. */
  ghost predicate RejectedUpTo(m: PhysicalMemory, sigs: seq<Signature>, accepts: (nat, nat) -> bool, reach: nat) {
    forall a: nat, k: nat {:trigger MatchesIn(m, sigs[k], a)} ::
      k < |sigs| && a + Len(sigs[k]) <= reach && MatchesIn(m, sigs[k], a) ==> !accepts(a, k)
  }

  predicate WindowMatch(sig: Signature, w: seq<byte>, off: nat) {
    off + Len(sig) <= |w| && Equals(sig, w[off..off + Len(sig)])
  }

  ghost predicate WindowRejects(sig: Signature, w: seq<byte>, addr: nat, k: nat, accepts: (nat, nat) -> bool, limit: nat) {
    forall off: nat {:trigger WindowMatch(sig, w, off)} :: off < limit && WindowMatch(sig, w, off) ==> !accepts(addr + off, k)
  }

  /** The accepted match of the first signature that has one, at its lowest address in the window. */
  method FirstAccepted(sigs: seq<Signature>, w: seq<byte>, addr: nat, accepts: (nat, nat) -> bool)
    returns (r: Option<(nat, nat)>)
    ensures r.None? ==> forall k: nat {:trigger sigs[k]} :: k < |sigs| ==> WindowRejects(sigs[k], w, addr, k, accepts, |w| + 1)
    ensures r.Some? ==>
              var (a, k) := r.value;
              && addr <= a && k < |sigs| && WindowMatch(sigs[k], w, a - addr) && accepts(a, k)
              && WindowRejects(sigs[k], w, addr, k, accepts, a - addr)
              && forall j: nat {:trigger sigs[j]} :: j < k ==> WindowRejects(sigs[j], w, addr, j, accepts, |w| + 1)
  {
    hide Equals;
    for k := 0 to |sigs|
      invariant forall j: nat {:trigger sigs[j]} :: j < k ==> WindowRejects(sigs[j], w, addr, j, accepts, |w| + 1)
    {
      var sig := sigs[k];
      for off := 0 to |w| + 1
        invariant WindowRejects(sig, w, addr, k, accepts, off)
      {
        if off + Len(sig) > |w| { continue; }
        if Equals(sig, w[off..off + Len(sig)]) && accepts(addr + off, k) {
          return Some((addr + off, k));
        }
      }
    }
    return None;
  }

  /** No match of this signature at a lower address is accepted. */
  ghost predicate LowestAccepted(m: PhysicalMemory, sig: Signature, k: nat, a: nat, accepts: (nat, nat) -> bool) {
    forall b: nat {:trigger MatchesIn(m, sig, b)} :: b < a && MatchesIn(m, sig, b) ==> !accepts(b, k)
  }

  /** Below the match in the window, and below the window, everything of its signature has been turned down. */
  lemma NoLowerMatch(m: PhysicalMemory, sigs: seq<Signature>, accepts: (nat, nat) -> bool, reach: nat, addr: nat, w: seq<byte>,
                     total: nat, a: nat, k: nat)
    requires k < |sigs| && RejectedUpTo(m, sigs, accepts, reach) && IsWindow(m, addr, w)
    requires reach == if addr == 0 then 0 else Min(total, addr + MaxLen(sigs) - 1)
    requires addr <= a && addr + |w| <= total + 1 && WindowMatch(sigs[k], w, a - addr)
    requires WindowRejects(sigs[k], w, addr, k, accepts, a - addr)
    ensures LowestAccepted(m, sigs[k], k, a, accepts)
  {
    hide MatchesIn, MaxLen, IsWindow;
    WindowMatchFits(sigs[k], w, a - addr);
    forall b: nat {:trigger MatchesIn(m, sigs[k], b)} | b < a && MatchesIn(m, sigs[k], b) ensures !accepts(b, k) {
      if b >= addr {
        WindowMatchMeaning(m, sigs[k], w, addr, b);
        assert WindowMatch(sigs[k], w, b - addr);
        assert b == addr + (b - addr);
      } else {
        assert Len(sigs[k]) <= MaxLen(sigs);
      }
    }
  }

  lemma WindowMatchFits(sig: Signature, w: seq<byte>, off: nat)
    requires WindowMatch(sig, w, off)
    ensures off + Len(sig) <= |w|
  {
  }

  /** The search ends at the lowest accepted match of some signature, or after every match has been turned down; with less
    * memory than the longest signature it looks at nothing, even if a shorter signature would match. */
  method FindKernelMatch(m: PhysicalMemory, sigs: seq<Signature>, accepts: (nat, nat) -> bool)
    returns (r: Result<Option<(nat, nat)>>)
    requires forall k :: 0 <= k < |sigs| ==> Len(sigs[k]) > 0
    requires MaxLen(sigs) <= BUF - PAGE + 1
    ensures r.Err? ==> !m.NeverFails()
    ensures r.Ok? && r.value.Some? ==>
              var (a, k) := r.value.value;
              k < |sigs| && MatchesIn(m, sigs[k], a) && accepts(a, k) && LowestAccepted(m, sigs[k], k, a, accepts)
    ensures r == Ok(None) && m.Total() >= MaxLen(sigs) ==> RejectedUpTo(m, sigs, accepts, m.Total())
    ensures m.Total() < MaxLen(sigs) && m.maxAddress < U64_MAX ==> r == Ok(None)
  {
    hide MaxLen, MatchesIn, WindowRejects, LowestAccepted, RejectedUpTo, PhysicalMemory.Fill, Zeros;
    MaxLenPositive(sigs);
    var maxSigLen := MaxLen(sigs);
    var scanStep := Max(SaturatingSub(BUF, SaturatingSub(maxSigLen, 1)), PAGE);
    var total := m.Total();
    var addr := 0;
    NothingRejected(m, sigs, accepts);
    ghost var reach := 0;
    while addr < total
      invariant reach == if addr == 0 then 0 else Min(total, addr + maxSigLen - 1)
      invariant RejectedUpTo(m, sigs, accepts, reach)
    {
      var remaining := SaturatingAdd(m.maxAddress - addr, 1);
      var readLen := Min(BUF, remaining);
      if readLen < maxSigLen { break; }
      ClearLength(readLen);
      var buf := m.ReadInto(addr, Zeros(readLen));
      if buf.Err? { return Err; }
      var found := FirstAccepted(sigs, buf.value, addr, accepts);
      if found.Some? {
        WindowMatchMeaning(m, sigs[found.value.1], buf.value, addr, found.value.0);
        NoLowerMatch(m, sigs, accepts, reach, addr, buf.value, total, found.value.0, found.value.1);
        return Ok(found);
      }
      WindowExtends(m, sigs, accepts, reach, addr, buf.value, total);
      reach := Min(total, addr + readLen);
      addr := addr + scanStep;
    }
    return Ok(None);
  }

  lemma MaxLenPositive(sigs: seq<Signature>)
    requires forall k :: 0 <= k < |sigs| ==> Len(sigs[k]) > 0
    ensures MaxLen(sigs) > 0
  {
  }

  lemma NothingRejected(m: PhysicalMemory, sigs: seq<Signature>, accepts: (nat, nat) -> bool)
    requires forall k :: 0 <= k < |sigs| ==> Len(sigs[k]) > 0
    ensures RejectedUpTo(m, sigs, accepts, 0)
  {
  }

  lemma ClearLength(n: nat)
    ensures |Zeros(n)| == n
  {
  }

  /** A match in a window is a match in memory. */
  lemma WindowMatchMeaning(m: PhysicalMemory, sig: Signature, w: seq<byte>, addr: nat, a: nat)
    requires IsWindow(m, addr, w) && addr <= a
    ensures a + Len(sig) <= addr + |w| ==> (MatchesIn(m, sig, a) <==> WindowMatch(sig, w, a - addr))
    ensures WindowMatch(sig, w, a - addr) ==> MatchesIn(m, sig, a)
  {
    hide Equals;
    if a + Len(sig) <= addr + |w| {
      var off := a - addr;
      var part := m.Fill(a, Zeros(Len(sig)));
      forall k | 0 <= k < Len(sig) ensures w[off..off + Len(sig)][k] == part[k] {
        assert w[off + k] == m.byteAt(addr + (off + k)).GetOr(0);
      }
      assert w[off..off + Len(sig)] == part;
    }
  }

  lemma MatchInWindow(m: PhysicalMemory, sig: Signature, w: seq<byte>, addr: nat, k: nat, accepts: (nat, nat) -> bool, a: nat)
    requires IsWindow(m, addr, w) && WindowRejects(sig, w, addr, k, accepts, |w| + 1)
    requires addr <= a && a + Len(sig) <= addr + |w| && MatchesIn(m, sig, a)
    ensures !accepts(a, k)
  {
    hide MatchesIn, WindowMatch, IsWindow;
    WindowMatchMeaning(m, sig, w, addr, a);
    assert WindowMatch(sig, w, a - addr);
    assert a == addr + (a - addr);
  }

  /** A window without an accepted match extends the stretch in which everything is turned down to its own end. */
  lemma WindowExtends(m: PhysicalMemory, sigs: seq<Signature>, accepts: (nat, nat) -> bool, reach: nat, addr: nat,
                      w: seq<byte>, total: nat)
    requires RejectedUpTo(m, sigs, accepts, reach) && IsWindow(m, addr, w)
    requires reach == if addr == 0 then 0 else Min(total, addr + MaxLen(sigs) - 1)
    requires forall k: nat {:trigger sigs[k]} :: k < |sigs| ==> WindowRejects(sigs[k], w, addr, k, accepts, |w| + 1)
    ensures RejectedUpTo(m, sigs, accepts, Min(total, addr + |w|))
  {
    hide MatchesIn, WindowRejects, MaxLen, Len, IsWindow;
    forall a: nat, k: nat {:trigger MatchesIn(m, sigs[k], a)}
      | k < |sigs| && a + Len(sigs[k]) <= Min(total, addr + |w|) && MatchesIn(m, sigs[k], a)
      ensures !accepts(a, k)
    {
      if a >= addr {
        MatchInWindow(m, sigs[k], w, addr, k, accepts, a);
      } else {
        assert Len(sigs[k]) <= MaxLen(sigs);
      }
    }
  }

  /** The memory that holds exactly these bytes. */
  function Image(w: seq<byte>): PhysicalMemory
    requires 0 < |w| <= U64_MAX
  {
    PhysicalMemory(|w| - 1, (i: nat) => if i < |w| then Some(w[i]) else None, (_, _) => false)
  }

  /** Why memory must hold the longest signature: one that holds just a match of a shorter one is not looked at. */
  lemma ShortMemoryIsMissed(sig: Signature, longer: Signature, w: seq<byte>)
    requires Equals(sig, w) && 0 < |w| <= U64_MAX && Len(longer) > |w|
    ensures MatchesIn(Image(w), sig, 0) && Image(w).Total() < MaxLen([sig, longer])
  {
    assert Image(w).Fill(0, Zeros(|w|)) == w;
    assert [sig, longer][1] == longer;
  }
}
