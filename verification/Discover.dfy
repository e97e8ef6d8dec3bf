/** Finding kernel versions by their banner, without a profile (discover.rs). */
module Discover {
  import opened Wrappers
  import opened Memory
  import opened Scan
  import opened Sorting

  /** The text `Linux version `. */
  const BANNER_PREFIX: seq<byte> := [0x4c, 0x69, 0x6e, 0x75, 0x78, 0x20, 0x76, 0x65, 0x72, 0x73, 0x69, 0x6f, 0x6e, 0x20]
  const PREFIX_LEN: nat := 14
  const SCAN_CHUNK: nat := 0x400_0000
  const MAX_BANNER_LEN: nat := 512
  const STEP: nat := SCAN_CHUNK - PREFIX_LEN + 1

  datatype KernelVersionInfo = KernelVersionInfo(banner: seq<byte>, version: seq<byte>, physAddress: nat)

  predicate EndsBanner(b: byte) {
    b == 0 || b == 0x0a || b == 0x0d
  }

  predicate IsSpace(b: byte) {
    0x09 <= b <= 0x0d || b == 0x20
  }

  function UpTo(s: seq<byte>, stop: byte -> bool): seq<byte> {
    if s == [] || stop(s[0]) then [] else [s[0]] + UpTo(s[1..], stop)
  }

  /** The first word of a text: empty when there is none. */
  function FirstWord(s: seq<byte>): seq<byte> {
    if s != [] && IsSpace(s[0]) then FirstWord(s[1..]) else UpTo(s, IsSpace)
  }

  /** The longest beginning without a stop byte. */
  lemma {:induction false} UpToMeaning(s: seq<byte>, stop: byte -> bool)
    ensures var r := UpTo(s, stop);
            r <= s && (forall b :: b in r ==> !stop(b)) && (|r| < |s| ==> stop(s[|r|]))
  {
    if s != [] && !stop(s[0]) { UpToMeaning(s[1..], stop); }
  }

  /** The first word of `s`, empty if there is none. */
  ghost predicate IsWordOf(s: seq<byte>, word: seq<byte>) {
    exists i, j :: 0 <= i <= j <= |s| && IsFirstWord(s, i, j) && word == s[i..j]
  }

  /** White space, then the word, then white space or the end. */
  lemma {:induction false} FirstWordMeaning(s: seq<byte>)
    ensures IsWordOf(s, FirstWord(s))
  {
    hide IsWordOf, IsSpace;
    if s != [] && IsSpace(s[0]) {
      FirstWordMeaning(s[1..]);
      WordAfterBlank(s, FirstWord(s[1..]));
    } else {
      UpToMeaning(s, IsSpace);
      WordAtStart(s, UpTo(s, IsSpace));
    }
  }

  lemma WordAfterBlank(s: seq<byte>, word: seq<byte>)
    requires s != [] && IsSpace(s[0]) && IsWordOf(s[1..], word)
    ensures IsWordOf(s, word)
  {
    hide IsBlank, IsSpace;
    BlankIsSpace(s[0]);
    var i, j :| 0 <= i <= j <= |s[1..]| && IsFirstWord(s[1..], i, j) && word == s[1..][i..j];
    assert s[1..][i..j] == s[i + 1..j + 1];
    WordShifted(s, i, j);
  }

  lemma WordShifted(s: seq<byte>, i: nat, j: nat)
    requires s != [] && IsBlank(s[0]) && i <= j <= |s| - 1 && IsFirstWord(s[1..], i, j)
    ensures IsFirstWord(s, i + 1, j + 1)
  {
    hide IsBlank;
    assert forall k :: 0 < k < |s| ==> s[k] == s[1..][k - 1];
  }

  lemma WordAtStart(s: seq<byte>, word: seq<byte>)
    requires word <= s && (forall b :: b in word ==> !IsSpace(b)) && (|word| < |s| ==> IsSpace(s[|word|]))
    requires s != [] ==> !IsSpace(s[0])
    ensures IsWordOf(s, word)
  {
    hide IsBlank, IsSpace;
    forall b ensures IsBlank(b) <==> IsSpace(b) { BlankIsSpace(b); }
    assert s[0..|word|] == word;
    forall k | 0 <= k < |word| ensures !IsBlank(s[k]) { assert word[k] in word && word[k] == s[k]; }
    assert IsFirstWord(s, 0, |word|);
  }

  predicate IsFirstWord(s: seq<byte>, i: nat, j: nat)
    requires i <= j <= |s|
  {
    && (forall k :: 0 <= k < i ==> IsBlank(s[k]))
    && (forall k :: i <= k < j ==> !IsBlank(s[k]))
    && (j < |s| ==> IsBlank(s[j])) && (i == j ==> i == |s|)
  }

  /** Tab, line feed, vertical tab, form feed, carriage return or space. */
  predicate IsBlank(b: byte) {
    b in {9, 10, 11, 12, 13, 32}
  }

  lemma BlankIsSpace(b: byte)
    ensures IsBlank(b) <==> IsSpace(b)
  {
  }

  // ----- what a whole-memory reader would see -----

  /** The bytes that may belong to a banner whose prefix is at `a`. */
  function ContentAt(m: PhysicalMemory, a: nat): seq<byte> {
    var start := a + PREFIX_LEN;
    m.ReadRaw(start, Min(MAX_BANNER_LEN, SaturatingSub(m.Total(), start))).GetOr([])
  }

  function SuffixAt(m: PhysicalMemory, a: nat): seq<byte> {
    UpTo(ContentAt(m, a), EndsBanner)
  }

  function InfoAt(m: PhysicalMemory, a: nat): KernelVersionInfo {
    KernelVersionInfo(BANNER_PREFIX + SuffixAt(m, a), FirstWord(SuffixAt(m, a)), a)
  }

  /** The chunk that starts at `base` and the bytes after it that its banners may need. */
  function ChunkAt(m: PhysicalMemory, base: nat): nat {
    Min(SCAN_CHUNK, SaturatingSub(m.Total(), base))
  }

  function WindowAt(m: PhysicalMemory, base: nat): nat {
    ChunkAt(m, base) + Min(MAX_BANNER_LEN, SaturatingSub(m.Total(), base + ChunkAt(m, base)))
  }

  /** A banner prefix in memory whose window can be read. */
  ghost predicate Visible(m: PhysicalMemory, a: nat) {
    && m.Holds(BANNER_PREFIX, a)
    && m.ReadAll(a - a % STEP, WindowAt(m, a - a % STEP)).Some?
  }

  /** The report on everything below a limit: one entry for each version, describing its first visible banner. */
  ghost predicate Reports(m: PhysicalMemory, results: seq<KernelVersionInfo>, limit: nat) {
    && (forall k :: 0 <= k < |results| ==> IsFirst(m, results[k], limit))
    && (forall j, k :: 0 <= j < k < |results| ==> results[j].physAddress < results[k].physAddress)
    && (forall a: nat {:trigger InfoAt(m, a)} :: a < limit && Visible(m, a) && InfoAt(m, a).version != [] ==>
          Reported(results, InfoAt(m, a).version))
  }

  predicate Reported(results: seq<KernelVersionInfo>, version: seq<byte>) {
    exists k :: 0 <= k < |results| && results[k].version == version
  }

  ghost predicate IsFirst(m: PhysicalMemory, info: KernelVersionInfo, limit: nat) {
    && info.physAddress < limit && Visible(m, info.physAddress) && info == InfoAt(m, info.physAddress) && info.version != []
    && forall a: nat {:trigger InfoAt(m, a)} :: a < info.physAddress && Visible(m, a) ==> InfoAt(m, a).version != info.version
  }

  // ----- the report, in terms of the bytes in memory -----

  /** Memory holds a banner here: the text `Linux version `, then at most 512 bytes up to a NUL, line feed or carriage
    * return, or to the end of memory; its version is the first word after the prefix. */
  ghost predicate IsBannerAt(m: PhysicalMemory, x: KernelVersionInfo) {
    var a, n := x.physAddress, |x.banner|;
    && 14 <= n <= 14 + 512 && a + n <= m.Total()
    && (forall i :: 0 <= i < n ==> m.byteAt(a + i) == Some(x.banner[i]))
    && (forall i :: 0 <= i < 14 ==> x.banner[i] == "Linux version "[i] as int)
    && (forall i :: 14 <= i < n ==> x.banner[i] !in {0, 10, 13})
    && (n == 14 + 512 || a + n == m.Total() || m.byteAt(a + n) in {Some(0), Some(10), Some(13)})
    && IsWordOf(x.banner[14..], x.version)
  }

  /** One entry for each version that a visible banner has, for its first one, in the order of memory. */
  ghost predicate ReportsBanners(m: PhysicalMemory, results: seq<KernelVersionInfo>) {
    && (forall k :: 0 <= k < |results| ==>
          IsBannerAt(m, results[k]) && Visible(m, results[k].physAddress) && results[k].version != [])
    && (forall j, k :: 0 <= j < k < |results| ==>
          results[j].physAddress < results[k].physAddress && results[j].version != results[k].version)
    && forall x :: IsBannerAt(m, x) && Visible(m, x.physAddress) && x.version != [] ==>
         exists k :: 0 <= k < |results| && results[k].version == x.version && results[k].physAddress <= x.physAddress
  }

  lemma PrefixText()
    ensures |BANNER_PREFIX| == 14 && forall i :: 0 <= i < 14 ==> BANNER_PREFIX[i] == "Linux version "[i] as int
  {
  }

  /** All that may belong to a visible banner can be read. */
  lemma VisibleContent(m: PhysicalMemory, a: nat)
    requires Visible(m, a)
    ensures a + 14 <= m.Total() && |ContentAt(m, a)| == Min(512, SaturatingSub(m.Total(), a + 14))
    ensures BytesIn(m, a + 14, ContentAt(m, a))
  {
    hide PhysicalMemory.ReadRaw, PhysicalMemory.Total, WindowAt, ContentAt, BytesIn;
    var base := a - a % STEP;
    PrefixText();
    HoldsFits(m, BANNER_PREFIX, a);
    ContentInWindow(m, base, m.ReadAll(base, WindowAt(m, base)).value, a);
  }

  lemma ContentInWindow(m: PhysicalMemory, base: nat, w: seq<byte>, a: nat)
    requires base <= a < base + STEP && a + 14 <= m.Total()
    requires |w| == WindowAt(m, base) && m.ReadRaw(base, |w|) == Some(w)
    ensures |ContentAt(m, a)| == Min(512, SaturatingSub(m.Total(), a + 14)) && BytesIn(m, a + 14, ContentAt(m, a))
  {
    hide PhysicalMemory.ReadRaw, PhysicalMemory.Total, WindowAt, BytesIn;
    WindowReaches(m, base, a);
    var start, n := a + 14, Min(512, SaturatingSub(m.Total(), a + 14));
    ReadPart(m, base, w, start - base, start - base + n);
    ReadRawMeaning(m, start, w[start - base..start - base + n]);
  }

  /** The window that a banner's prefix starts in reaches as far as the banner may. */
  lemma WindowReaches(m: PhysicalMemory, base: nat, a: nat)
    requires base <= a < base + STEP && a + 14 <= m.Total()
    ensures a + 14 + Min(512, SaturatingSub(m.Total(), a + 14)) <= base + WindowAt(m, base)
  {
    hide PhysicalMemory.Total;
  }

  /** What is reported for a visible banner is what memory holds there, and nothing else is. */
  lemma InfoIsBanner(m: PhysicalMemory, a: nat)
    requires Visible(m, a)
    ensures IsBannerAt(m, InfoAt(m, a)) && InfoAt(m, a).physAddress == a
  {
    hide ContentAt, PhysicalMemory.ReadRaw, PhysicalMemory.Total, FirstWord, UpTo, Visible, IsWordOf;
    PrefixText();
    VisibleHolds(m, a);
    VisibleContent(m, a);
    var c, s := ContentAt(m, a), SuffixAt(m, a);
    UpToMeaning(c, EndsBanner);
    FirstWordMeaning(s);
    var x := InfoAt(m, a);
    assert x.banner[14..] == s;
    forall i | 0 <= i < |x.banner| ensures m.byteAt(a + i) == Some(x.banner[i]) {
      if i >= 14 { assert m.byteAt(a + 14 + (i - 14)) == Some(c[i - 14]) && s[i - 14] == c[i - 14]; }
    }
    forall i | 14 <= i < |x.banner| ensures x.banner[i] !in {0, 10, 13} { assert x.banner[i] in s; }
    if |s| < |c| { assert m.byteAt(a + 14 + |s|) == Some(c[|s|]); }
  }

  lemma VisibleHolds(m: PhysicalMemory, a: nat)
    requires Visible(m, a)
    ensures forall i :: 0 <= i < 14 ==> m.byteAt(a + i) == Some(BANNER_PREFIX[i])
  {
    PrefixText();
    forall i | 0 <= i < 14 ensures m.byteAt(a + i) == Some(BANNER_PREFIX[i]) {
      assert m.byteAt(a + i) == Some(BANNER_PREFIX[a + i - a]);
    }
  }

  /** A banner does not go on where another at the same address ends. */
  lemma NoLonger(m: PhysicalMemory, x: KernelVersionInfo, y: KernelVersionInfo)
    requires IsBannerAt(m, x) && IsBannerAt(m, y) && x.physAddress == y.physAddress
    ensures |y.banner| <= |x.banner|
  {
    hide IsBannerAt;
    BannerByte(m, x, |x.banner|);
    BannerByte(m, y, |x.banner|);
  }

  /** A byte after the prefix belongs to the banner exactly up to where it stops. */
  lemma BannerByte(m: PhysicalMemory, x: KernelVersionInfo, i: nat)
    requires IsBannerAt(m, x)
    ensures 14 <= |x.banner| <= 526 && x.physAddress + |x.banner| <= m.Total()
    ensures 14 <= i < |x.banner| ==> m.byteAt(x.physAddress + i).Some? && m.byteAt(x.physAddress + i).value !in {0, 10, 13}
    ensures i == |x.banner| ==>
              i == 526 || x.physAddress + i == m.Total() || m.byteAt(x.physAddress + i) in {Some(0), Some(10), Some(13)}
  {
    hide IsWordOf;
    if 14 <= i < |x.banner| { assert m.byteAt(x.physAddress + i) == Some(x.banner[i]); }
  }

  lemma WordUnique(s: seq<byte>, v: seq<byte>, u: seq<byte>)
    requires IsWordOf(s, v) && IsWordOf(s, u)
    ensures v == u
  {
    hide IsBlank, IsFirstWord;
    var i, j :| 0 <= i <= j <= |s| && IsFirstWord(s, i, j) && v == s[i..j];
    var k, l :| 0 <= k <= l <= |s| && IsFirstWord(s, k, l) && u == s[k..l];
    WordAt(s, i, j, i);
    WordAt(s, k, l, i);
    WordAt(s, i, j, k);
    WordAt(s, k, l, k);
    WordAt(s, i, j, j);
    WordAt(s, k, l, j);
    WordAt(s, i, j, l);
    WordAt(s, k, l, l);
  }

  lemma WordAt(s: seq<byte>, i: nat, j: nat, x: nat)
    requires i <= j <= |s| && IsFirstWord(s, i, j)
    ensures x < |s| ==> (x < i ==> IsBlank(s[x])) && (i <= x < j ==> !IsBlank(s[x])) && (x == j ==> IsBlank(s[x]))
    ensures i == j ==> i == |s|
  {
  }

  /** Memory holds one banner at most at an address. */
  lemma BannerUnique(m: PhysicalMemory, x: KernelVersionInfo, y: KernelVersionInfo)
    requires IsBannerAt(m, x) && IsBannerAt(m, y) && x.physAddress == y.physAddress
    ensures x == y
  {
    hide IsWordOf;
    NoLonger(m, x, y);
    NoLonger(m, y, x);
    forall i | 0 <= i < |x.banner| ensures x.banner[i] == y.banner[i] {
      assert m.byteAt(x.physAddress + i) == Some(x.banner[i]) && m.byteAt(x.physAddress + i) == Some(y.banner[i]);
    }
    assert x.banner == y.banner;
    WordUnique(x.banner[14..], x.version, y.version);
  }

  /** The report says what memory holds. */
  lemma ReportsMeaning(m: PhysicalMemory, results: seq<KernelVersionInfo>)
    requires Reports(m, results, m.Total())
    ensures ReportsBanners(m, results)
  {
    hide Reports, IsFirst, InfoAt, Visible, IsBannerAt, PhysicalMemory.Total;
    forall k | 0 <= k < |results|
      ensures IsBannerAt(m, results[k]) && Visible(m, results[k].physAddress) && results[k].version != []
    {
      EntryIsBanner(m, results, m.Total(), k);
    }
    forall j, k | 0 <= j < k < |results|
      ensures results[j].physAddress < results[k].physAddress && results[j].version != results[k].version
    {
      EntriesDiffer(m, results, m.Total(), j, k);
    }
    forall x | IsBannerAt(m, x) && Visible(m, x.physAddress) && x.version != []
      ensures exists k :: 0 <= k < |results| && results[k].version == x.version && results[k].physAddress <= x.physAddress
    {
      BannerFits(m, x);
      InfoIsBanner(m, x.physAddress);
      BannerUnique(m, x, InfoAt(m, x.physAddress));
      BannerIsReported(m, results, m.Total(), x);
    }
  }

  lemma EntryIsBanner(m: PhysicalMemory, results: seq<KernelVersionInfo>, limit: nat, k: nat)
    requires Reports(m, results, limit) && k < |results|
    ensures IsFirst(m, results[k], limit) && IsBannerAt(m, results[k])
    ensures Visible(m, results[k].physAddress) && results[k].version != []
  {
    hide InfoAt, Visible, IsBannerAt, Reported;
    assert IsFirst(m, results[k], limit);
    InfoIsBanner(m, results[k].physAddress);
  }

  lemma EntriesDiffer(m: PhysicalMemory, results: seq<KernelVersionInfo>, limit: nat, j: nat, k: nat)
    requires Reports(m, results, limit) && j < k < |results|
    ensures results[j].physAddress < results[k].physAddress && results[j].version != results[k].version
  {
    hide InfoAt, Visible, Reported;
    assert IsFirst(m, results[j], limit) && IsFirst(m, results[k], limit);
    assert InfoAt(m, results[j].physAddress) == results[j];
  }

  lemma BannerIsReported(m: PhysicalMemory, results: seq<KernelVersionInfo>, limit: nat, x: KernelVersionInfo)
    requires Reports(m, results, limit) && x.physAddress < limit && Visible(m, x.physAddress)
    requires InfoAt(m, x.physAddress) == x && x.version != []
    ensures exists k :: 0 <= k < |results| && results[k].version == x.version && results[k].physAddress <= x.physAddress
  {
    hide InfoAt, Visible;
    assert Reported(results, x.version);
    var k :| 0 <= k < |results| && results[k].version == x.version;
    assert IsFirst(m, results[k], limit);
  }

  lemma BannerFits(m: PhysicalMemory, x: KernelVersionInfo)
    requires IsBannerAt(m, x)
    ensures x.physAddress < m.Total()
  {
  }

  // ----- the scan -----

  function Versions(results: seq<KernelVersionInfo>): (r: seq<seq<byte>>)
    ensures |r| == |results| && forall k :: 0 <= k < |r| ==> r[k] == results[k].version
  {
    seq(|results|, k requires 0 <= k < |results| => results[k].version)
  }

  /** What one match in a window says. */
  function MatchInfo(base: nat, w: seq<byte>, off: nat): KernelVersionInfo
    requires off + PREFIX_LEN <= |w|
  {
    var start := off + PREFIX_LEN;
    var suffix := UpTo(w[start..Min(start + MAX_BANNER_LEN, |w|)], EndsBanner);
    KernelVersionInfo(BANNER_PREFIX + suffix, FirstWord(suffix), base + off)
  }

  /** The matches of one window, in order. */
  method ReportMatches(m: PhysicalMemory, base: nat, w: seq<byte>, chunk: nat, seenBefore: seq<seq<byte>>,
                       before: seq<KernelVersionInfo>)
    returns (seen: seq<seq<byte>>, results: seq<KernelVersionInfo>)
    requires IsWindow(m, base, w) && chunk == ChunkAt(m, base) && Reports(m, before, base) && seenBefore == Versions(before)
    ensures Reports(m, results, Limit(base, Offs(m, base, w), |Offs(m, base, w)|)) && seen == Versions(results)
  {
    hide Reports, FindIter, PhysicalMemory.ReadRaw, MatchInfo, InfoAt, Visible, ChunkAt;
    seen, results := seenBefore, before;
    var offs := FindIter(w[..chunk], BANNER_PREFIX, 0);
    for i := 0 to |offs|
      invariant Reports(m, results, Limit(base, offs, i)) && seen == Versions(results)
    {
      var off := offs[i];
      NextMatchReports(m, results, base, w, i);
      MatchPlace(m, base + off);
      var info := MatchInfo(base, w, off);
      if info.version == [] || info.version in seen {
        OldReport(m, results, base + off);
        continue;
      }
      AddReport(m, results, base + off);
      seen := seen + [info.version];
      results := results + [info];
    }
  }

  lemma MatchPlace(m: PhysicalMemory, a: nat)
    ensures InfoAt(m, a).physAddress == a
  {
  }

  /** One entry for each version that a visible banner has, in the order of their first banners. */
  method DiscoverKernelVersions(m: PhysicalMemory) returns (results: seq<KernelVersionInfo>)
    ensures Reports(m, results, m.Total()) && ReportsBanners(m, results)
  {
    hide Reports, ReportsBanners, PhysicalMemory.ReadRaw, Offs;
    var total := m.Total();
    var base := 0;
    var seen: seq<seq<byte>> := [];
    results := [];
    ghost var limit := 0;
    NothingReported(m);
    while base < total
      invariant limit == base <= total && Reports(m, results, limit) && seen == Versions(results)
      invariant base % STEP == 0 || total < base + PREFIX_LEN
      decreases total - base
    {
      var remaining := total - base;
      var chunk := Min(SCAN_CHUNK, remaining);
      var tail := Min(MAX_BANNER_LEN, remaining - chunk);
      var window := chunk + tail;
      if window < PREFIX_LEN { break; }
      var buf := m.ReadAll(base, window);
      if buf.None? {
        UnreadableChunk(m, results, base);
        base := SaturatingSub(SaturatingAdd(base, chunk), PREFIX_LEN - 1);
        limit := base;
        continue;
      }
      var w := buf.value;
      seen, results := ReportMatches(m, base, w, chunk, seen, results);
      LastMatchReports(m, results, base, w);
      limit := base + chunk - PREFIX_LEN + 1;
      if chunk == remaining { break; }
      base := SaturatingSub(SaturatingAdd(base, chunk), PREFIX_LEN - 1);
    }
    ReportsAll(m, results, limit);
    ReportsMeaning(m, results);
  }

  lemma NothingReported(m: PhysicalMemory)
    ensures Reports(m, [], 0)
  {
  }

  /** A stretch without visible banners changes nothing. */
  lemma SkipReports(m: PhysicalMemory, results: seq<KernelVersionInfo>, limit: nat, next: nat)
    requires Reports(m, results, limit) && limit <= next
    requires forall a: nat {:trigger Visible(m, a)} :: limit <= a < next ==> !Visible(m, a)
    ensures Reports(m, results, next)
  {
    hide InfoAt, Reported, Visible;
  }

  /** A visible banner whose version has not been reported is added. */
  lemma AddReport(m: PhysicalMemory, results: seq<KernelVersionInfo>, a: nat)
    requires Reports(m, results, a) && Visible(m, a) && InfoAt(m, a).physAddress == a
    requires InfoAt(m, a).version != [] && !Reported(results, InfoAt(m, a).version)
    ensures Reports(m, results + [InfoAt(m, a)], a + 1)
  {
    hide InfoAt, Visible;
    var info := InfoAt(m, a);
    var all := results + [info];
    assert all[|results|] == info;
    forall v | Reported(results, v) ensures Reported(all, v) {
      var k :| 0 <= k < |results| && results[k].version == v;
      assert all[k].version == v;
    }
  }

  /** A banner without a version, or with a version that has been reported, changes nothing. */
  lemma OldReport(m: PhysicalMemory, results: seq<KernelVersionInfo>, a: nat)
    requires Reports(m, results, a)
    requires InfoAt(m, a).version == [] || Reported(results, InfoAt(m, a).version)
    ensures Reports(m, results, a + 1)
  {
    hide InfoAt, Visible, Reported;
  }

  /** How far the report reaches once the first `i` matches of a window are done. */
  function Limit(base: nat, offs: seq<nat>, i: nat): nat
    requires i <= |offs|
  {
    if i == 0 then base else base + offs[i - 1] + 1
  }

  /** The window at `base` has been read. */
  ghost predicate IsWindow(m: PhysicalMemory, base: nat, w: seq<byte>) {
    base % STEP == 0 && base + PREFIX_LEN <= m.Total() && |w| == WindowAt(m, base) && m.ReadAll(base, |w|) == Some(w)
  }

  function Offs(m: PhysicalMemory, base: nat, w: seq<byte>): seq<nat>
    requires |w| == WindowAt(m, base)
  {
    FindIter(w[..ChunkAt(m, base)], BANNER_PREFIX, 0)
  }

  lemma PrefixUnbordered()
    ensures Unbordered(BANNER_PREFIX) && |BANNER_PREFIX| == PREFIX_LEN
  {
    FirstByteUnique(BANNER_PREFIX);
  }

  lemma OwnWindow(base: nat, a: nat)
    requires base % STEP == 0 && base <= a < base + STEP
    ensures a - a % STEP == base
  {
  }

  /** The visible banners of a chunk are the matches in it. */
  lemma VisibleIsMatch(m: PhysicalMemory, base: nat, w: seq<byte>, a: nat)
    requires IsWindow(m, base, w) && base <= a < base + STEP
    ensures Visible(m, a) <==> a - base in Offs(m, base, w)
  {
    hide FindIter, MatchesAt, PhysicalMemory.Holds, PhysicalMemory.ReadRaw, Unbordered;
    PrefixUnbordered();
    OwnWindow(base, a);
    var chunk := ChunkAt(m, base);
    var c := w[..chunk];
    ReadPart(m, base, w, 0, chunk);
    WindowMatches(m, base, c, BANNER_PREFIX, a - base);
    HoldsFits(m, BANNER_PREFIX, a);
    if MatchesAt(c, BANNER_PREFIX, a - base) {
      FindIterComplete(c, BANNER_PREFIX, 0, a - base);
    }
  }

  lemma HoldsFits(m: PhysicalMemory, p: seq<byte>, a: nat)
    ensures m.Holds(p, a) ==> a + |p| <= m.Total()
  {
  }

  /** What a match says is what the whole memory says at its address: a window reaches as far as any banner in it. */
  lemma MatchSaysAll(m: PhysicalMemory, base: nat, w: seq<byte>, off: nat)
    requires IsWindow(m, base, w) && off + PREFIX_LEN <= ChunkAt(m, base)
    ensures MatchInfo(base, w, off) == InfoAt(m, base + off)
  {
    hide PhysicalMemory.ReadRaw, UpTo, FirstWord;
    var start := off + PREFIX_LEN;
    var end := Min(start + MAX_BANNER_LEN, |w|);
    ReadPart(m, base, w, start, end);
  }

  lemma OffsFit(m: PhysicalMemory, base: nat, w: seq<byte>, i: nat)
    requires |w| == WindowAt(m, base) && i < |Offs(m, base, w)|
    ensures Offs(m, base, w)[i] + PREFIX_LEN <= ChunkAt(m, base)
  {
    PrefixUnbordered();
  }

  /** Between one match and the next there is nothing to report. */
  lemma NextMatchReports(m: PhysicalMemory, results: seq<KernelVersionInfo>, base: nat, w: seq<byte>, i: nat)
    requires IsWindow(m, base, w) && i < |Offs(m, base, w)| && Reports(m, results, Limit(base, Offs(m, base, w), i))
    ensures var off := Offs(m, base, w)[i];
            && Reports(m, results, base + off) && Visible(m, base + off)
            && off + PREFIX_LEN <= ChunkAt(m, base) && MatchInfo(base, w, off) == InfoAt(m, base + off)
  {
    hide Reports, Visible, InfoAt, MatchInfo, FindIter, WindowAt, ChunkAt, PhysicalMemory.ReadRaw;
    var offs := Offs(m, base, w);
    OffsFit(m, base, w, i);
    ChunkFits(m, base);
    assert offs[i] in offs;
    VisibleIsMatch(m, base, w, base + offs[i]);
    MatchSaysAll(m, base, w, offs[i]);
    forall a: nat {:trigger Visible(m, a)} | Limit(base, offs, i) <= a < base + offs[i] ensures !Visible(m, a) {
      VisibleIsMatch(m, base, w, a);
      NotBetween(offs, i, a - base, if i == 0 then 0 else offs[i - 1] + 1);
    }
    SkipReports(m, results, Limit(base, offs, i), base + offs[i]);
  }

  lemma ChunkFits(m: PhysicalMemory, base: nat)
    ensures ChunkAt(m, base) <= SCAN_CHUNK && (base <= m.Total() ==> base + ChunkAt(m, base) <= m.Total())
  {
  }

  /** No element of an increasing sequence lies strictly between two neighbours. */
  lemma NotBetween(s: seq<nat>, i: nat, x: nat, from: nat)
    requires i <= |s| && (forall j, k :: 0 <= j < k < |s| ==> s[j] < s[k])
    requires from == (if i == 0 then 0 else s[i - 1] + 1) && from <= x && (i < |s| ==> x < s[i])
    ensures x !in s
  {
  }

  /** After the last match nothing is left to report in the chunk. */
  lemma LastMatchReports(m: PhysicalMemory, results: seq<KernelVersionInfo>, base: nat, w: seq<byte>)
    requires IsWindow(m, base, w) && Reports(m, results, Limit(base, Offs(m, base, w), |Offs(m, base, w)|))
    requires PREFIX_LEN <= ChunkAt(m, base)
    ensures Reports(m, results, base + ChunkAt(m, base) - PREFIX_LEN + 1)
  {
    hide Reports, Visible, InfoAt, MatchInfo, FindIter, WindowAt, ChunkAt, PhysicalMemory.ReadRaw;
    var offs := Offs(m, base, w);
    var n := |offs|;
    ChunkFits(m, base);
    if n > 0 { OffsFit(m, base, w, n - 1); }
    var next := base + ChunkAt(m, base) - PREFIX_LEN + 1;
    forall a: nat {:trigger Visible(m, a)} | Limit(base, offs, n) <= a < next ensures !Visible(m, a) {
      VisibleIsMatch(m, base, w, a);
      NotBetween(offs, n, a - base, if n == 0 then 0 else offs[n - 1] + 1);
    }
    SkipReports(m, results, Limit(base, offs, n), next);
  }

  /** A window that cannot be read has no visible banners. */
  lemma UnreadableChunk(m: PhysicalMemory, results: seq<KernelVersionInfo>, base: nat)
    requires base % STEP == 0 && Reports(m, results, base) && PREFIX_LEN <= ChunkAt(m, base)
    requires m.ReadAll(base, WindowAt(m, base)).None?
    ensures Reports(m, results, base + ChunkAt(m, base) - PREFIX_LEN + 1)
  {
    hide Reports, InfoAt, PhysicalMemory.ReadRaw, PhysicalMemory.Holds;
    var next := base + ChunkAt(m, base) - PREFIX_LEN + 1;
    forall a: nat {:trigger Visible(m, a)} | base <= a < next ensures !Visible(m, a) {
      OwnWindow(base, a);
    }
    SkipReports(m, results, base, next);
  }

  /** Where less than a prefix is left there is nothing to report. */
  lemma ReportsAll(m: PhysicalMemory, results: seq<KernelVersionInfo>, limit: nat)
    requires Reports(m, results, limit) && limit <= m.Total() < limit + PREFIX_LEN
    ensures Reports(m, results, m.Total())
  {
    hide Reports, InfoAt, PhysicalMemory.ReadRaw, PhysicalMemory.Holds;
    PrefixUnbordered();
    forall a: nat {:trigger Visible(m, a)} | limit <= a < m.Total() ensures !Visible(m, a) {
      HoldsFits(m, BANNER_PREFIX, a);
    }
    SkipReports(m, results, limit, m.Total());
  }

  /** In readable memory every banner is visible. */
  lemma ReadableIsVisible(m: PhysicalMemory, a: nat)
    requires m.Readable() && m.NeverFails()
    ensures Visible(m, a) <==> m.Holds(BANNER_PREFIX, a)
  {
    hide PhysicalMemory.Total;
    var base := a - a % STEP;
    WindowFits(m, base);
    HoldsFits(m, BANNER_PREFIX, a);
    var r := m.ReadRaw(base, WindowAt(m, base));
  }

  lemma WindowFits(m: PhysicalMemory, base: nat)
    ensures base <= m.Total() ==> base + WindowAt(m, base) <= m.Total()
  {
  }

  /** Whatever one report says is in every report. */
  lemma ReportedByAll(m: PhysicalMemory, r: seq<KernelVersionInfo>, s: seq<KernelVersionInfo>, limit: nat, x: KernelVersionInfo)
    requires Reports(m, r, limit) && Reports(m, s, limit) && x in r
    ensures x in s
  {
    hide InfoAt, Visible;
    assert InfoAt(m, x.physAddress) == x;
    var j :| 0 <= j < |s| && s[j].version == x.version;
    assert InfoAt(m, s[j].physAddress) == s[j];
  }

  /** Memory determines the report. */
  lemma ReportsUnique(m: PhysicalMemory, r: seq<KernelVersionInfo>, s: seq<KernelVersionInfo>, limit: nat)
    requires Reports(m, r, limit) && Reports(m, s, limit)
    ensures r == s
  {
    hide IsFirst, InfoAt, Visible, Reported;
    forall x ensures x in r <==> x in s {
      if x in r { ReportedByAll(m, r, s, limit, x); }
      if x in s { ReportedByAll(m, s, r, limit, x); }
    }
    StrictlySortedUnique(r, s, (x: KernelVersionInfo, y: KernelVersionInfo) => x.physAddress <= y.physAddress);
  }
}
