/** The scans that look for a kernel without a hint, and how they relate (kernel.rs). */
module BootstrapScans {
  import opened Wrappers
  import opened Memory
  import opened Scan
  import opened Bootstrap

  function BannerPrefix(p: Profile): seq<byte> {
    var banner := TrimTrailingNuls(p.banner);
    banner[..Min(|banner|, BANNER_SCAN_PREFIX_LEN)]
  }

  /** What a banner at a physical address leads to: the text lies a fixed distance below it and must be aligned. */
  function BannerAttempt(w: Machine, p: Profile, physBanner: nat): Result<KernelInfo> {
    var delta := CheckedSymbolDelta(p.text, p.linuxBanner);
    if delta.None? || physBanner > U64_MAX || physBanner < delta.value || (physBanner - delta.value) % MB2 != 0 then Err
    else Attempt(w, p, physBanner - delta.value)
  }

  /** What a task name at a physical address leads to: its record starts a fixed distance below it. */
  function TaskAttempt(w: Machine, p: Profile, physComm: nat): Result<KernelInfo> {
    if physComm < p.task.comm then Err
    else
      var c := ValidateInitTaskCandidate(w.mem, p, physComm - p.task.comm);
      if c.Err? then Err else Resolve(w, p, c.value, 0)
  }

  /** No occurrence below a limit leads to a kernel, as far as the pattern lets the iterator report all of them. */
  ghost predicate BannersFail(w: Machine, p: Profile, limit: nat) {
    Unbordered(BannerPrefix(p)) ==>
      forall a: nat :: a < limit && w.mem.Holds(BannerPrefix(p), a) ==> BannerAttempt(w, p, a).Err?
  }

  ghost predicate TasksFail(w: Machine, p: Profile, limit: nat) {
    forall a: nat :: a < limit && w.mem.Holds(SwapperComm(), a) ==> TaskAttempt(w, p, a).Err?
  }

  ghost predicate BannersTriedFail(w: Machine, p: Profile, tried: seq<nat>) {
    forall a :: a in tried ==> BannerAttempt(w, p, a).Err?
  }

  ghost predicate TasksTriedFail(w: Machine, p: Profile, tried: seq<nat>) {
    forall a :: a in tried ==> TaskAttempt(w, p, a).Err?
  }

  /** Visiting in order, everything below a visited address has been visited before it. */
  lemma VisitedBefore(m: PhysicalMemory, p: seq<byte>, visited: seq<nat>, limit: nat, i: nat, a: nat)
    requires Visits(m, p, visited, limit) && Unbordered(p) && i < |visited| && a < visited[i] && m.Holds(p, a)
    ensures a in visited[..i]
  {
    hide PhysicalMemory.Holds, Unbordered;
    var k :| 0 <= k < |visited| && visited[k] == a;
    assert k < i;
    assert visited[..i][k] == a;
  }

  /** The matches of one window, tried in order. */
  method TryBanners(w: Machine, p: Profile, delta: u64, found: seq<nat>) returns (r: Result<KernelInfo>)
    requires CheckedSymbolDelta(p.text, p.linuxBanner) == Some(delta)
    requires forall k :: 0 <= k < |found| ==> found[k] <= U64_MAX
    ensures r.Ok? ==> exists at :: 0 <= at < |found| && r == BannerAttempt(w, p, found[at]) && BannersTriedFail(w, p, found[..at])
    ensures r.Err? ==> BannersTriedFail(w, p, found)
  {
    hide Attempt;
    for i := 0 to |found|
      invariant BannersTriedFail(w, p, found[..i])
    {
      var physBanner := found[i];
      if physBanner < delta { continue; }
      if (physBanner - delta) % MB2 != 0 { continue; }
      r := DiscoverKernelWithHint(w, p, physBanner - delta);
      if r.Ok? { return; }
    }
    assert found[..|found|] == found;
    r := Err;
  }

  /** What has been visited up to one place. */
  lemma VisitsUpTo(m: PhysicalMemory, p: seq<byte>, visited: seq<nat>, limit: nat, i: nat)
    requires Visits(m, p, visited, limit) && i < |visited|
    ensures Visits(m, p, visited[..i + 1], visited[i] + 1) && m.MayHold(p, visited[i]) && visited[i] + |p| <= m.Total()
  {
    hide PhysicalMemory.Holds, PhysicalMemory.Agrees, Unbordered;
    if Unbordered(p) {
      forall a: nat | a < visited[i] + 1 && m.Holds(p, a) ensures a in visited[..i + 1] {
        if a < visited[i] {
          VisitedBefore(m, p, visited, limit, i, a);
        } else {
          assert visited[..i + 1][i] == a;
        }
      }
    }
  }

  /** The scan stopped at the last place it visited, after all before it had failed. */
  ghost predicate StopsAtBanner(w: Machine, p: Profile, r: Result<KernelInfo>, visited: seq<nat>) {
    && visited != [] && BannersTriedFail(w, p, visited[..|visited| - 1])
    && var last := visited[|visited| - 1];
    && r == BannerAttempt(w, p, last) && last < w.mem.Total() && Visits(w.mem, BannerPrefix(p), visited, last + 1)
  }

  lemma StopsInWindow(w: Machine, p: Profile, r: Result<KernelInfo>, visited: seq<nat>, found: seq<nat>, limit: nat, at: nat)
    requires Visits(w.mem, BannerPrefix(p), visited + found, limit) && at < |found| && BannerPrefix(p) != []
    requires BannersTriedFail(w, p, visited) && BannersTriedFail(w, p, found[..at]) && r == BannerAttempt(w, p, found[at])
    ensures StopsAtBanner(w, p, r, visited + found[..at + 1])
  {
    hide BannerAttempt, BannerPrefix, Visits, PhysicalMemory.MayHold;
    var all, n := visited + found, |visited| + at;
    VisitsUpTo(w.mem, BannerPrefix(p), all, limit, n);
    assert all[..n + 1] == visited + found[..at + 1] && all[n] == found[at];
    assert all[..n + 1][..n] == visited + found[..at];
  }

  /** Where a scan stops, no banner before has led to a kernel. */
  lemma StopsAtFirst(w: Machine, p: Profile, r: Result<KernelInfo>, visited: seq<nat>)
    requires StopsAtBanner(w, p, r, visited)
    ensures BannersFail(w, p, visited[|visited| - 1])
  {
    hide BannerAttempt, BannerPrefix, Unbordered, PhysicalMemory.MayHold, PhysicalMemory.Holds;
    var n := |visited| - 1;
    if Unbordered(BannerPrefix(p)) {
      forall a: nat | a < visited[n] && w.mem.Holds(BannerPrefix(p), a) ensures BannerAttempt(w, p, a).Err? {
        assert a in visited[..n] + [visited[n]] by { assert visited == visited[..n] + [visited[n]]; }
      }
    }
  }

  lemma AllFail(w: Machine, p: Profile, visited: seq<nat>, limit: nat)
    requires Visits(w.mem, BannerPrefix(p), visited, limit)
    requires BannerPrefix(p) != [] && w.mem.Total() < limit + |BannerPrefix(p)|
    requires BannersTriedFail(w, p, visited)
    ensures BannersFail(w, p, w.mem.Total()) && Visits(w.mem, BannerPrefix(p), visited, w.mem.Total())
  {
    hide BannerAttempt, BannerPrefix, Visits, Unbordered, PhysicalMemory.Holds;
    NothingLeft(w.mem, BannerPrefix(p), visited, limit);
  }

  /** The banners are visited in order, each once, until one leads to a kernel; unless a read fails as a whole, a scan
    * that finds nothing has visited all of them. */
  method DiscoverKernelFromBannerScan(w: Machine, p: Profile) returns (r: Result<KernelInfo>, ghost visited: seq<nat>)
    ensures r.Ok? ==> StopsAtBanner(w, p, r, visited) && BannersFail(w, p, visited[|visited| - 1])
    ensures r.Err? ==> BannersTriedFail(w, p, visited)
    ensures r.Err? && w.mem.NeverFails() && BannerPrefix(p) != [] ==> BannersFail(w, p, w.mem.Total())
    ensures r.Err? && w.mem.NeverFails() && BannerPrefix(p) != [] && CheckedSymbolDelta(p.text, p.linuxBanner).Some? ==>
              Visits(w.mem, BannerPrefix(p), visited, w.mem.Total())
    ensures r.Ok? ==> exists a: nat :: a < w.mem.Total() && r == BannerAttempt(w, p, a)
  {
    hide BannerAttempt, BannersFail, Visits, FindIter, Shift, PhysicalMemory.Fill, PhysicalMemory.Agrees, BannerPrefix;
    PrefixFits(p);
    visited := [];
    var prefix := BannerPrefix(p);
    if prefix == [] { return Err, []; }
    var delta := CheckedSymbolDelta(p.text, p.linuxBanner);
    if delta.None? {
      NoDelta(w, p);
      return Err, [];
    }
    var base, total, buf := 0, w.mem.Total(), Zeros(KERNEL_SCAN_CHUNK_SIZE + |prefix|);
    NothingVisited(w.mem, prefix);
    while base < total
      invariant Visits(w.mem, prefix, visited, base)
      invariant BannersTriedFail(w, p, visited)
      invariant |buf| == KERNEL_SCAN_CHUNK_SIZE + |prefix|
      decreases total - base
    {
      var remaining := total - base;
      var readLen := Min(KERNEL_SCAN_CHUNK_SIZE, remaining);
      if readLen < |prefix| { break; }
      var filled := w.mem.ReadInto(base, buf[..readLen]);
      if filled.Err? { return Err, visited; }
      FillAgrees(w.mem, base, buf[..readLen]);
      buf := filled.value + buf[readLen..];
      assert buf[..readLen] == filled.value;
      var found := Shift(FindIter(buf[..readLen], prefix, 0), base);
      ghost var limit := base + readLen - |prefix| + 1;
      WindowVisits(w.mem, prefix, visited, base, buf[..readLen]);
      FoundFit(w.mem, prefix, visited, found, limit);
      r := TryBanners(w, p, delta.value, found);
      if r.Ok? {
        ghost var at :| 0 <= at < |found| && r == BannerAttempt(w, p, found[at]) && BannersTriedFail(w, p, found[..at]);
        StopsInWindow(w, p, r, visited, found, limit, at);
        visited := visited + found[..at + 1];
        StopsAtFirst(w, p, r, visited);
        return;
      }
      visited := visited + found;
      base := SaturatingSub(SaturatingAdd(base, readLen), |prefix| - 1);
      if readLen == remaining { break; }
    }
    AllFail(w, p, visited, base);
    r := Err;
  }

  lemma FoundFit(m: PhysicalMemory, p: seq<byte>, visited: seq<nat>, found: seq<nat>, limit: nat)
    requires Visits(m, p, visited + found, limit)
    ensures forall k :: 0 <= k < |found| ==> found[k] <= U64_MAX
  {
    hide PhysicalMemory.Total;
    forall k | 0 <= k < |found| ensures found[k] <= U64_MAX {
      assert (visited + found)[|visited| + k] == found[k];
      VisitedHolds(m, p, visited + found, limit, |visited| + k);
    }
  }

  lemma NoDelta(w: Machine, p: Profile)
    requires CheckedSymbolDelta(p.text, p.linuxBanner).None?
    ensures BannersFail(w, p, w.mem.Total())
  {
    hide Attempt;
  }

  lemma PrefixFits(p: Profile)
    ensures |BannerPrefix(p)| <= BANNER_SCAN_PREFIX_LEN
  {
  }

  /** The first 96 bytes of the banner without the NULs at its end, or all of it. */
  lemma BannerPrefixMeaning(p: Profile) returns (n: nat)
    ensures IsTrimmed(p.banner, n) && BannerPrefix(p) == p.banner[..if n < 96 then n else 96]
  {
    TrimMeaning(p.banner);
    n := |TrimTrailingNuls(p.banner)|;
  }

  /** The letters of the idle name, and the NUL after it. */
  lemma TaskNameText()
    ensures |SwapperComm()| == 10 && SwapperComm()[9] == 0
    ensures forall i :: 0 <= i < 9 ==> SwapperComm()[i] == "swapper/0"[i] as int
  {
    SwapperText();
  }

  /** A banner leads to the kernel at the aligned text address that lies as far below it as the profile says. */
  lemma BannerAttemptMeaning(w: Machine, p: Profile, a: nat, k: KernelInfo)
    ensures BannerAttempt(w, p, a) == Ok(k) <==>
            exists t: u64 :: IsTextOfBanner(p, a, t) && Attempt(w, p, t) == Ok(k)
  {
    hide Attempt;
    if BannerAttempt(w, p, a) == Ok(k) {
      assert IsTextOfBanner(p, a, a - (p.linuxBanner - p.text));
    }
  }

  ghost predicate IsTextOfBanner(p: Profile, a: nat, t: u64) {
    t % 0x20_0000 == 0 && p.text <= p.linuxBanner && a == t + (p.linuxBanner - p.text) && a <= 0xFFFF_FFFF_FFFF_FFFF
  }

  /** A task name leads to the kernel at the aligned text address that lies as far below its record as the profile says. */
  lemma TaskAttemptMeaning(w: Machine, p: Profile, a: nat, k: KernelInfo)
    requires a <= U64_MAX
    ensures TaskAttempt(w, p, a) == Ok(k) <==>
            exists t: u64 :: IsTextOfTask(p, a, t) && Attempt(w, p, t) == Ok(k)
  {
    hide Attempt, TaskAttempt;
    if TaskAttempt(w, p, a) == Ok(k) {
      var t := TextOfTask(w, p, a);
    }
    if t: u64 :| IsTextOfTask(p, a, t) && Attempt(w, p, t) == Ok(k) {
      TaskOfText(w, p, a, t);
    }
  }

  ghost predicate IsTextOfTask(p: Profile, a: nat, t: u64) {
    t % 0x20_0000 == 0 && p.text <= p.initTask && a == t + (p.initTask - p.text) + p.task.comm
  }

  lemma TaskOfText(w: Machine, p: Profile, a: nat, t: u64)
    requires IsTextOfTask(p, a, t) && a <= U64_MAX && Attempt(w, p, t).Ok?
    ensures TaskAttempt(w, p, a) == Attempt(w, p, t)
  {
    hide ValidateInitTaskCandidate, Resolve, IsIdleTask, IsAlignedSlide;
    var physTask := a - p.task.comm;
    var c := ValidateInitTaskCandidate(w.mem, p, physTask).value;
    CandidateMeaning(w.mem, p, physTask, c);
    NullHintIsAligned(w, p, c, t);
  }

  lemma NothingVisited(m: PhysicalMemory, p: seq<byte>)
    ensures Visits(m, p, [], 0)
  {
  }

  lemma VisitedHolds(m: PhysicalMemory, p: seq<byte>, visited: seq<nat>, limit: nat, i: nat)
    requires Visits(m, p, visited, limit) && i < |visited|
    ensures m.MayHold(p, visited[i]) && visited[i] < limit && visited[i] + |p| <= m.Total()
  {
  }

  /** The idle name starts with a byte that does not come back, so its occurrences never overlap. */
  lemma TaskNameUnbordered()
    ensures Unbordered(SwapperComm()) && |SwapperComm()| == 10
  {
    FirstByteUnique(SwapperComm());
  }

  method TryTasks(w: Machine, p: Profile, found: seq<nat>) returns (r: Result<KernelInfo>)
    ensures r.Ok? ==> exists at :: 0 <= at < |found| && r == TaskAttempt(w, p, found[at]) && TasksTriedFail(w, p, found[..at])
    ensures r.Err? ==> TasksTriedFail(w, p, found)
  {
    hide ValidateInitTaskCandidate, Resolve;
    for i := 0 to |found|
      invariant TasksTriedFail(w, p, found[..i])
    {
      var physComm := found[i];
      if physComm < p.task.comm { continue; }
      var c := ValidateInitTaskCandidate(w.mem, p, physComm - p.task.comm);
      if c.Err? { continue; }
      r := ResolveKernelFromCandidate(w, p, c.value, 0);
      if r.Ok? { return; }
    }
    assert found[..|found|] == found;
    r := Err;
  }

  lemma NoTasksTried(w: Machine, p: Profile)
    ensures TasksTriedFail(w, p, [])
  {
  }

  lemma MoreTasksTried(w: Machine, p: Profile, a: seq<nat>, b: seq<nat>)
    requires TasksTriedFail(w, p, a) && TasksTriedFail(w, p, b)
    ensures TasksTriedFail(w, p, a + b)
  {
    hide TaskAttempt;
  }

  ghost predicate StopsAtTask(w: Machine, p: Profile, r: Result<KernelInfo>, visited: seq<nat>) {
    && visited != [] && TasksTriedFail(w, p, visited[..|visited| - 1])
    && var last := visited[|visited| - 1];
    && r == TaskAttempt(w, p, last) && last < w.mem.Total() && Visits(w.mem, SwapperComm(), visited, last + 1)
  }

  lemma TaskStopsInWindow(w: Machine, p: Profile, r: Result<KernelInfo>, visited: seq<nat>, found: seq<nat>, limit: nat, at: nat)
    requires Visits(w.mem, SwapperComm(), visited + found, limit) && at < |found|
    requires TasksTriedFail(w, p, visited) && TasksTriedFail(w, p, found[..at]) && r == TaskAttempt(w, p, found[at])
    ensures StopsAtTask(w, p, r, visited + found[..at + 1]) && TasksFail(w, p, found[at])
  {
    hide SwapperComm, TaskAttempt, Visits, Unbordered, PhysicalMemory.MayHold, PhysicalMemory.Holds;
    TaskNameUnbordered();
    var all, n := visited + found, |visited| + at;
    VisitsUpTo(w.mem, SwapperComm(), all, limit, n);
    assert all[..n + 1] == visited + found[..at + 1] && all[n] == found[at];
    assert all[..n + 1][..n] == all[..n] == visited + found[..at];
    forall a: nat | a < found[at] && w.mem.Holds(SwapperComm(), a) ensures TaskAttempt(w, p, a).Err? {
      VisitedBefore(w.mem, SwapperComm(), all, limit, n, a);
    }
  }

  lemma AllTasksFail(w: Machine, p: Profile, visited: seq<nat>, limit: nat)
    requires Visits(w.mem, SwapperComm(), visited, limit) && w.mem.Total() < limit + |SwapperComm()|
    requires TasksTriedFail(w, p, visited)
    ensures TasksFail(w, p, w.mem.Total()) && Visits(w.mem, SwapperComm(), visited, w.mem.Total())
  {
    hide SwapperComm, TaskAttempt, Visits, Unbordered, PhysicalMemory.Holds;
    TaskNameUnbordered();
    NothingLeft(w.mem, SwapperComm(), visited, limit);
  }

  /** The task names are visited in order, each once, until one leads to a kernel; unless a read fails as a whole, a scan
    * that finds nothing has visited all of them. */
  method DiscoverKernelFromTaskScan(w: Machine, p: Profile) returns (r: Result<KernelInfo>, ghost visited: seq<nat>)
    ensures r.Ok? ==> StopsAtTask(w, p, r, visited) && TasksFail(w, p, visited[|visited| - 1])
    ensures r.Err? ==> TasksTriedFail(w, p, visited)
    ensures r.Err? && w.mem.NeverFails() ==>
              TasksFail(w, p, w.mem.Total()) && Visits(w.mem, SwapperComm(), visited, w.mem.Total())
    ensures r.Ok? ==> exists a: nat :: a < w.mem.Total() && r == TaskAttempt(w, p, a)
  {
    hide SwapperComm, TaskAttempt, TasksFail, TasksTriedFail, Visits, FindIter, Shift, PhysicalMemory.Fill, PhysicalMemory.Agrees;
    NoTasksTried(w, p);
    TaskNameUnbordered();
    visited := [];
    var base, total, buf := 0, w.mem.Total(), Zeros(KERNEL_SCAN_CHUNK_SIZE + |SwapperComm()|);
    NothingVisited(w.mem, SwapperComm());
    while base < total
      invariant Visits(w.mem, SwapperComm(), visited, base)
      invariant TasksTriedFail(w, p, visited)
      invariant |buf| == KERNEL_SCAN_CHUNK_SIZE + |SwapperComm()|
      decreases total - base
    {
      var remaining := total - base;
      var readLen := Min(KERNEL_SCAN_CHUNK_SIZE, remaining);
      if readLen < |SwapperComm()| { break; }
      var filled := w.mem.ReadInto(base, buf[..readLen]);
      if filled.Err? { return Err, visited; }
      FillAgrees(w.mem, base, buf[..readLen]);
      buf := filled.value + buf[readLen..];
      assert buf[..readLen] == filled.value;
      var found := Shift(FindIter(buf[..readLen], SwapperComm(), 0), base);
      ghost var limit := base + readLen - |SwapperComm()| + 1;
      WindowVisits(w.mem, SwapperComm(), visited, base, buf[..readLen]);
      r := TryTasks(w, p, found);
      if r.Ok? {
        ghost var at :| 0 <= at < |found| && r == TaskAttempt(w, p, found[at]) && TasksTriedFail(w, p, found[..at]);
        TaskStopsInWindow(w, p, r, visited, found, limit, at);
        visited := visited + found[..at + 1];
        return;
      }
      MoreTasksTried(w, p, visited, found);
      visited := visited + found;
      base := SaturatingSub(SaturatingAdd(base, readLen), |SwapperComm()| - 1);
      if readLen == remaining { break; }
    }
    AllTasksFail(w, p, visited, base);
    r := Err;
  }

  // ----- how the scans relate -----

  /** A task name that leads to a kernel leads to the same one as the aligned text address that goes with it. */
  lemma TaskAttemptIsAligned(w: Machine, p: Profile, a: nat)
    requires a <= U64_MAX
    ensures TaskAttempt(w, p, a).Ok? ==> exists t: u64 :: t <= a && t % 0x20_0000 == 0 && Attempt(w, p, t) == TaskAttempt(w, p, a)
  {
    hide Attempt, TaskAttempt;
    if TaskAttempt(w, p, a).Ok? {
      var t := TextOfTask(w, p, a);
    }
  }

  lemma TextOfTask(w: Machine, p: Profile, a: nat) returns (t: u64)
    requires TaskAttempt(w, p, a).Ok? && a <= U64_MAX
    ensures t <= a && t % MB2 == 0 && Attempt(w, p, t) == TaskAttempt(w, p, a) && IsTextOfTask(p, a, t)
  {
    hide ValidateInitTaskCandidate, Resolve, IsIdleTask, IsAlignedSlide;
    var physTask := a - p.task.comm;
    var c := ValidateInitTaskCandidate(w.mem, p, physTask).value;
    CandidateMeaning(w.mem, p, physTask, c);
    NullHintText(w, p, c);
    t := physTask - (p.initTask - p.text);
    NullHintIsAligned(w, p, c, t);
    assert Attempt(w, p, t) == TaskAttempt(w, p, a);
  }

  /** Whatever a banner or a task name leads to, the candidate scan has tried: its text address is aligned and in memory. */
  lemma FallbacksAreRedundant(w: Machine, p: Profile, a: nat)
    requires FailsBelow(w, p, w.mem.Total()) && a < w.mem.Total()
    ensures BannerAttempt(w, p, a).Err? && TaskAttempt(w, p, a).Err?
  {
    hide Attempt, TaskAttempt;
    if TaskAttempt(w, p, a).Ok? {
      TaskAttemptIsAligned(w, p, a);
    }
  }

  lemma NullHintText(w: Machine, p: Profile, c: TaskCandidate)
    requires Resolve(w, p, c, 0).Ok?
    ensures p.text <= p.initTask && p.initTask - p.text <= c.physTask <= U64_MAX
    ensures (c.physTask - (p.initTask - p.text)) % MB2 == 0
  {
  }

  /** The profile's whole sequence of strategies decides like the candidate scan alone, and finds a kernel exactly when
    * some aligned address in memory is one. */
  method DiscoverKernelFromProfile(w: Machine, p: Profile) returns (r: Result<KernelInfo>)
    ensures FirstAligned(w, p, r)
    ensures r.Ok? ==> IsKernel(w, p, r.value)
  {
    hide Attempt, BannerAttempt, TaskAttempt, IsKernel, FailsBelow, BannersFail, TasksFail;
    r := DiscoverKernelFromCandidateScan(w, p);
    if r.Ok? {
      AttemptIff(w, p, r.value.physText);
      return;
    }
    forall a: nat | a < w.mem.Total() ensures BannerAttempt(w, p, a).Err? && TaskAttempt(w, p, a).Err? {
      FallbacksAreRedundant(w, p, a);
    }
    ghost var visited;
    r, visited := DiscoverKernelFromBannerScan(w, p);
    if r.Ok? { return; }
    r, visited := DiscoverKernelFromTaskScan(w, p);
  }

  /** Neither a hint nor any aligned address in memory leads to a kernel that fits the profile. */
  ghost predicate NothingFits(w: Machine, p: Profile, hint: Option<u64>, cached: Option<u64>) {
    && (hint.Some? ==> Attempt(w, p, hint.value).Err?) && (cached.Some? ==> Attempt(w, p, cached.value).Err?)
    && FailsBelow(w, p, w.mem.Total())
  }

  /** The explicit hint first, then the cached one, then the profile's strategies, then signature scans.  A kernel that
    * does not come from a signature scan fits the profile, and its text address is aligned unless an unaligned hint led
    * to it; and signature scans only decide when nothing fits the profile. */
  method DiscoverKernel(w: Machine, p: Profile, hint: Option<u64>, cached: Option<u64>, generic: bool,
                        scan: Option<u64> -> Result<KernelInfo>)
    returns (r: Result<KernelInfo>)
    ensures NothingFits(w, p, hint, cached) && hint.Some? && scan(hint).Ok? ==> r == scan(hint)
    ensures NothingFits(w, p, hint, cached) && (hint.Some? ==> scan(hint).Err?) && cached.Some? && scan(cached).Ok? ==>
              r == scan(cached)
    ensures NothingFits(w, p, hint, cached) && (hint.Some? ==> scan(hint).Err?) && (cached.Some? ==> scan(cached).Err?) ==>
              r == if generic then scan(None) else Err
    ensures !NothingFits(w, p, hint, cached) ==>
              && r.Ok? && IsKernel(w, p, r.value)
              && (r.value.physText % 0x20_0000 == 0 || hint == Some(r.value.physText) || cached == Some(r.value.physText))
    ensures hint.Some? && Attempt(w, p, hint.value).Ok? ==> r == Attempt(w, p, hint.value)
    ensures (hint.Some? ==> Attempt(w, p, hint.value).Err?) && cached.Some? && Attempt(w, p, cached.value).Ok?
            ==> r == Attempt(w, p, cached.value)
    ensures (hint.Some? ==> Attempt(w, p, hint.value).Err?) && (cached.Some? ==> Attempt(w, p, cached.value).Err?) ==>
              FailsBelow(w, p, w.mem.Total()) || FirstAligned(w, p, r)
  {
    hide Attempt, IsKernel, FailsBelow;
    if hint.Some? {
      r := DiscoverKernelWithHint(w, p, hint.value);
      if r.Ok? {
        AttemptIff(w, p, hint.value);
        return;
      }
    }
    if cached.Some? && cached != hint {
      r := DiscoverKernelWithHint(w, p, cached.value);
      if r.Ok? {
        AttemptIff(w, p, cached.value);
        return;
      }
    }
    r := DiscoverKernelFromProfile(w, p);
    if r.Ok? {
      SucceedsBelow(w, p, r.value.physText);
      return;
    }
    if hint.Some? {
      r := scan(hint);
      if r.Ok? { return; }
    }
    if cached.Some? && cached != hint {
      r := scan(cached);
      if r.Ok? { return; }
    }
    return if generic then scan(None) else Err;
  }

  lemma SucceedsBelow(w: Machine, p: Profile, physText: u64)
    requires Attempt(w, p, physText).Ok? && physText < w.mem.Total() && physText % MB2 == 0
    ensures !FailsBelow(w, p, w.mem.Total())
  {
    hide Attempt;
  }
}
