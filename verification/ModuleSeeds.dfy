/** Clustering file-backed VMAs into modules (process.rs, `aggregate_module_seeds`). */
module ModuleSeeds {
  import opened Wrappers
  import opened Memory
  import opened Sorting

  const MAX_MODULE_MERGE_GAP: nat := 4 * 1024 * 1024

  datatype Seed = Seed(start: u64, end: u64, file: u64, path: string, name: string, hasElfHeader: bool) {
    function Size(): u64 {
      SaturatingSub(end, start)
    }
  }

  datatype Module = Module(address: u64, base: u64, size: u64, file: u64, path: string, name: string)

  /** What identifies a module in memory. */
  datatype Extent = Extent(file: u64, base: u64, size: u64) {
    function End(): u64 {
      SaturatingAdd(base, size)
    }
  }

  function ExtentOf(m: Module): Extent {
    Extent(m.file, m.base, m.size)
  }

  predicate SeedLe(a: Seed, b: Seed) {
    KeyLe(KeyOf(a), KeyOf(b))
  }

  datatype Key = Key(file: u64, start: u64, end: u64)

  function KeyOf(s: Seed): Key {
    Key(s.file, s.start, s.end)
  }

  predicate KeyLe(a: Key, b: Key) {
    a.file < b.file || (a.file == b.file && (a.start < b.start || (a.start == b.start && a.end <= b.end)))
  }

  const BY_KEY := (a: Seed, b: Seed) => SeedLe(a, b)
  const BY_BASE := (a: Module, b: Module) => a.base <= b.base

  predicate Near(e: Extent, k: Key) {
    e.file == k.file && k.start <= SaturatingAdd(e.End(), MAX_MODULE_MERGE_GAP)
  }

  /** The last module near the seed, counted from one; 0 when there is none. */
  function LastNear(modules: seq<Module>, k: Key): (i: nat)
    ensures i <= |modules|
  {
    if modules == [] then 0
    else if Near(ExtentOf(modules[|modules| - 1]), k) then |modules|
    else LastNear(modules[..|modules| - 1], k)
  }

  function Grow(e: Extent, k: Key): Extent {
    var start := Min(e.base, k.start);
    e.(base := start, size := SaturatingSub(Max(e.End(), k.end), start))
  }

  function Merge(m: Module, s: Seed): Module {
    var e := Grow(ExtentOf(m), KeyOf(s));
    Module(e.base, e.base, e.size, m.file,
           if m.path == "" then s.path else m.path, if m.name == "" then s.name else m.name)
  }

  function AddSeed(modules: seq<Module>, s: Seed): seq<Module> {
    var i := LastNear(modules, KeyOf(s));
    if s.Size() == 0 then modules
    else if i > 0 then modules[i - 1 := Merge(modules[i - 1], s)]
    else if !s.hasElfHeader then modules
    else modules + [Module(s.start, s.start, s.Size(), s.file, s.path, s.name)]
  }

  function Cluster(seeds: seq<Seed>): seq<Module> {
    if seeds == [] then [] else AddSeed(Cluster(seeds[..|seeds| - 1]), seeds[|seeds| - 1])
  }

  function Aggregate(seeds: seq<Seed>): seq<Module> {
    Sort(Cluster(Sort(seeds, BY_KEY)), BY_BASE)
  }

  method FindLastNear(modules: seq<Module>, seed: Seed) returns (i: nat)
    ensures i == LastNear(modules, KeyOf(seed))
  {
    i := |modules|;
    assert modules[..i] == modules;
    while i > 0 && !Near(ExtentOf(modules[i - 1]), KeyOf(seed))
      invariant 0 <= i <= |modules|
      invariant LastNear(modules[..i], KeyOf(seed)) == LastNear(modules, KeyOf(seed))
    {
      assert modules[..i][..i - 1] == modules[..i - 1];
      i := i - 1;
    }
  }

  method AggregateModuleSeeds(seeds: seq<Seed>) returns (modules: seq<Module>)
    ensures modules == Aggregate(seeds)
  {
    var sorted := Sort(seeds, BY_KEY);
    modules := [];
    for n := 0 to |sorted|
      invariant modules == Cluster(sorted[..n])
    {
      var seed := sorted[n];
      assert sorted[..n + 1][..n] == sorted[..n];
      if seed.Size() == 0 { continue; }
      var i := FindLastNear(modules, seed);
      if i > 0 {
        modules := modules[i - 1 := Merge(modules[i - 1], seed)];
      } else if seed.hasElfHeader {
        modules := modules + [Module(seed.start, seed.start, seed.Size(), seed.file, seed.path, seed.name)];
      }
    }
    assert sorted[..|sorted|] == sorted;
    modules := Sort(modules, BY_BASE);
  }

  // ----- what the modules are -----

  ghost predicate Apart(a: Module, b: Module) {
    a.file == b.file ==> a.base + a.size + 0x40_0000 < b.base
  }

  ghost predicate StartsAtElf(m: Module, seeds: seq<Seed>) {
    exists s :: s in seeds && s.hasElfHeader && s.file == m.file && s.start == m.base
  }

  ghost predicate EndsAtSeed(m: Module, seeds: seq<Seed>) {
    exists s :: s in seeds && s.file == m.file && s.end == m.base + m.size
  }

  /** The base is the start of an ELF-headed seed of the module's file, and the end is the end of a seed of that file. */
  ghost predicate Rooted(m: Module, seeds: seq<Seed>) {
    && m.address == m.base && m.size > 0 && m.base + m.size <= U64_MAX
    && StartsAtElf(m, seeds) && EndsAtSeed(m, seeds)
  }

  lemma RootedMore(m: Module, seeds: seq<Seed>, more: seq<Seed>)
    requires Rooted(m, seeds) && forall s :: s in seeds ==> s in more
    ensures Rooted(m, more)
  {
  }

  predicate Holds(m: Module, s: Seed) {
    m.file == s.file && m.base <= s.start && s.end <= m.base + m.size
  }

  ghost predicate Held(s: Seed, modules: seq<Module>) {
    exists k :: 0 <= k < |modules| && Holds(modules[k], s)
  }

  ghost predicate AreModules(modules: seq<Module>, seeds: seq<Seed>) {
    && (forall i, j :: 0 <= i < j < |modules| ==> Apart(modules[i], modules[j]) && modules[i].file <= modules[j].file)
    && (forall i :: 0 <= i < |modules| ==> Rooted(modules[i], seeds))
    && (forall s :: s in seeds && s.hasElfHeader && s.Size() > 0 ==> Held(s, modules))
  }

  lemma {:induction false} ClusterMakesModules(seeds: seq<Seed>)
    requires Sorted(seeds, BY_KEY)
    ensures AreModules(Cluster(seeds), seeds)
  {
    hide AreModules, AddSeed;
    if seeds == [] {
      NoSeeds();
    } else {
      var front, s := seeds[..|seeds| - 1], seeds[|seeds| - 1];
      assert seeds == front + [s];
      ClusterMakesModules(front);
      forall t | t in front ensures KeyLe(KeyOf(t), KeyOf(s)) {
        var i :| 0 <= i < |front| && front[i] == t;
        assert BY_KEY(seeds[i], seeds[|seeds| - 1]);
      }
      AddSeedKeepsModules(Cluster(front), front, s);
    }
  }

  lemma NoSeeds()
    ensures AreModules([], [])
  {
  }

  /** Only the last module can be near the next seed: the others of its file end too far below it. */
  lemma OnlyLastIsNear(modules: seq<Module>, seeds: seq<Seed>, s: Seed)
    requires AreModules(modules, seeds) && forall t :: t in seeds ==> KeyLe(KeyOf(t), KeyOf(s))
    ensures LastNear(modules, KeyOf(s)) in {0, |modules|}
    ensures LastNear(modules, KeyOf(s)) > 0 ==> modules != [] && Near(ExtentOf(modules[|modules| - 1]), KeyOf(s))
    ensures forall i :: 0 <= i < |modules| && LastNear(modules, KeyOf(s)) == 0 ==> !Near(ExtentOf(modules[i]), KeyOf(s))
    ensures forall i :: 0 <= i < |modules| ==> modules[i].file < s.file || (modules[i].file == s.file && modules[i].base <= s.start)
  {
    hide Rooted, Near, LastNear, KeyLe, Apart, Held;
    var n := |modules| - 1;
    forall i | 0 <= i < |modules|
      ensures modules[i].file < s.file || (modules[i].file == s.file && modules[i].base <= s.start)
    {
      BaseBelow(modules[i], seeds, s);
    }
    forall i | 0 <= i < n ensures !Near(ExtentOf(modules[i]), KeyOf(s)) {
      FarBelow(modules[i], modules[n], seeds, s);
    }
    if modules != [] {
      NoneNear(modules[..n], KeyOf(s));
      LastOrNone(modules, KeyOf(s));
    } else {
      NoneNear(modules, KeyOf(s));
    }
  }

  /** A module starts no later than a seed that comes after all of its own. */
  lemma BaseBelow(m: Module, seeds: seq<Seed>, s: Seed)
    requires Rooted(m, seeds) && forall t :: t in seeds ==> KeyLe(KeyOf(t), KeyOf(s))
    ensures m.file < s.file || (m.file == s.file && m.base <= s.start)
  {
    hide EndsAtSeed;
    var t :| t in seeds && t.hasElfHeader && t.file == m.file && t.start == m.base;
    assert KeyLe(KeyOf(t), KeyOf(s));
  }

  lemma FarBelow(m: Module, later: Module, seeds: seq<Seed>, s: Seed)
    requires Rooted(m, seeds) && Rooted(later, seeds) && Apart(m, later) && m.file <= later.file
    requires later.file < s.file || (later.file == s.file && later.base <= s.start)
    ensures !Near(ExtentOf(m), KeyOf(s))
  {
    hide StartsAtElf, EndsAtSeed;
  }

  lemma LastOrNone(modules: seq<Module>, k: Key)
    requires modules != [] && LastNear(modules[..|modules| - 1], k) == 0
    ensures LastNear(modules, k) == if Near(ExtentOf(modules[|modules| - 1]), k) then |modules| else 0
  {
  }

  lemma {:induction false} NoneNear(modules: seq<Module>, k: Key)
    requires forall i :: 0 <= i < |modules| ==> !Near(ExtentOf(modules[i]), k)
    ensures LastNear(modules, k) == 0
  {
    if modules != [] {
      NoneNear(modules[..|modules| - 1], k);
    }
  }

  lemma AddSeedKeepsModules(modules: seq<Module>, front: seq<Seed>, s: Seed)
    requires AreModules(modules, front) && forall t :: t in front ==> KeyLe(KeyOf(t), KeyOf(s))
    ensures AreModules(AddSeed(modules, s), front + [s])
  {
    hide Near, Merge, LastNear, Apart, Holds, Held;
    OnlyLastIsNear(modules, front, s);
    var next := AddSeed(modules, s);
    var seeds := front + [s];
    forall m | Rooted(m, front) ensures Rooted(m, seeds) { RootedMore(m, front, seeds); }
    if s.Size() == 0 {
    } else if LastNear(modules, KeyOf(s)) > 0 {
      MergeLast(modules, front, s);
    } else if s.hasElfHeader {
      AppendNew(modules, front, s);
    }
  }

  /** A merged module ends where it did or where the seed does. */
  lemma MergeRooted(last: Module, front: seq<Seed>, s: Seed)
    requires Rooted(last, front) && s.Size() > 0 && last.base <= s.start && last.file == s.file
    ensures var m := Merge(last, s);
            && Rooted(m, front + [s]) && m.file == last.file
            && m.base == last.base && m.base + m.size == Max(last.base + last.size, s.end)
  {
    var seeds := front + [s];
    RootedMore(last, front, seeds);
    assert s in seeds;
  }

  lemma MergeLast(modules: seq<Module>, front: seq<Seed>, s: Seed)
    requires AreModules(modules, front) && modules != [] && s.Size() > 0
    requires Near(ExtentOf(modules[|modules| - 1]), KeyOf(s))
    requires modules[|modules| - 1].file < s.file || modules[|modules| - 1].base <= s.start
    ensures AreModules(modules[|modules| - 1 := Merge(modules[|modules| - 1], s)], front + [s])
  {
    hide Rooted, Merge, Apart;
    var n := |modules| - 1;
    var m := Merge(modules[n], s);
    var next, seeds := modules[n := m], front + [s];
    assert Rooted(modules[n], front);
    MergeRooted(modules[n], front, s);
    forall i | 0 <= i < |next| ensures Rooted(next[i], seeds) {
      assert Rooted(modules[i], front);
      if i < n { RootedMore(modules[i], front, seeds); }
    }
    forall t | t in seeds && t.hasElfHeader && t.Size() > 0 ensures Held(t, next) {
      if t in front {
        assert Held(t, modules);
        var k :| 0 <= k < |modules| && Holds(modules[k], t);
        assert Holds(next[k], t);
      } else {
        assert Holds(next[n], t);
      }
    }
    forall i, j | 0 <= i < j < |next| ensures Apart(next[i], next[j]) && next[i].file <= next[j].file {
      assert Apart(modules[i], modules[j]) && modules[i].file <= modules[j].file;
      if j == n { ApartBase(modules[i], modules[n], m); }
    }
  }

  lemma ApartBase(a: Module, b: Module, c: Module)
    requires Apart(a, b) && b.file == c.file && b.base == c.base
    ensures Apart(a, c)
  {
  }

  lemma AppendNew(modules: seq<Module>, front: seq<Seed>, s: Seed)
    requires AreModules(modules, front) && s.Size() > 0 && s.hasElfHeader
    requires forall i :: 0 <= i < |modules| ==> modules[i].file <= s.file && !Near(ExtentOf(modules[i]), KeyOf(s))
    ensures AreModules(modules + [Module(s.start, s.start, s.Size(), s.file, s.path, s.name)], front + [s])
  {
    var m := Module(s.start, s.start, s.Size(), s.file, s.path, s.name);
    var next, seeds := modules + [m], front + [s];
    assert s in seeds && Rooted(m, seeds);
    forall i | 0 <= i < |next| ensures Rooted(next[i], seeds) {
      if i < |modules| {
        assert Rooted(modules[i], front);
        RootedMore(modules[i], front, seeds);
      }
    }
    forall t | t in seeds && t.hasElfHeader && t.Size() > 0 ensures Held(t, next) {
      if t in front {
        assert Held(t, modules);
        var k :| 0 <= k < |modules| && Holds(modules[k], t);
        assert Holds(next[k], t);
      } else {
        assert Holds(next[|modules|], t);
      }
    }
    forall i, j | 0 <= i < j < |next| ensures Apart(next[i], next[j]) && next[i].file <= next[j].file {
      if j < |modules| {
        assert Apart(modules[i], modules[j]);
      } else {
        assert Rooted(modules[i], front);
      }
    }
  }

  // ----- what the modules are made of -----

  predicate IsPartOf(m: Module, s: Seed) {
    s.start < s.end && Holds(m, s)
  }

  /** A seed of the module's file that starts above its base, or opens an image at it, lies in the module or more than
    * 4 MiB above it. */
  ghost predicate Absorbs(m: Module, seeds: seq<Seed>) {
    forall s :: s in seeds && s.file == m.file && s.start < s.end && (m.base < s.start || (m.base == s.start && s.hasElfHeader)) ==>
      Holds(m, s) || m.base + m.size + 0x40_0000 < s.start
  }

  /** The text is that of one of the module's parts, and no part above the base that comes before it has one; it is empty
    * only if no part that is an image or lies above the base has one. */
  ghost predicate TakenFirst(value: string, m: Module, seeds: seq<Seed>, text: Seed -> string) {
    && (value != "" ==> exists s :: IsFirst(s, value, m, seeds, text))
    && (value == "" ==>
          forall t :: t in seeds && IsPartOf(m, t) && (t.hasElfHeader || m.base < t.start) ==> text(t) == "")
  }

  ghost predicate IsFirst(s: Seed, value: string, m: Module, seeds: seq<Seed>, text: Seed -> string) {
    && s in seeds && IsPartOf(m, s) && text(s) == value
    && forall t :: t in seeds && IsPartOf(m, t) && m.base < t.start && text(t) != "" ==>
         s.start < t.start || (s.start == t.start && s.end <= t.end)
  }

  const PATH := (s: Seed) => s.path
  const NAME := (s: Seed) => s.name

  ghost predicate PartsKnown(m: Module, seeds: seq<Seed>) {
    Absorbs(m, seeds) && TakenFirst(m.path, m, seeds, PATH) && TakenFirst(m.name, m, seeds, NAME)
  }

  lemma TakenWithout(value: string, m: Module, front: seq<Seed>, s: Seed, text: Seed -> string)
    requires TakenFirst(value, m, front, text) && !IsPartOf(m, s)
    ensures TakenFirst(value, m, front + [s], text)
  {
    hide IsPartOf;
    if value != "" {
      var first :| IsFirst(first, value, m, front, text);
      assert IsFirst(first, value, m, front + [s], text);
    }
  }

  /** A seed far from a module changes nothing for it. */
  lemma PartsStay(m: Module, front: seq<Seed>, s: Seed)
    requires PartsKnown(m, front) && m.base + m.size <= U64_MAX
    requires s.Size() == 0 || !Near(ExtentOf(m), KeyOf(s))
    ensures PartsKnown(m, front + [s])
  {
    hide TakenFirst;
    assert !IsPartOf(m, s);
    TakenWithout(m.path, m, front, s, PATH);
    TakenWithout(m.name, m, front, s, NAME);
  }

  lemma TakenMerged(m: Module, front: seq<Seed>, s: Seed, value: string, text: Seed -> string, next: Module)
    requires Absorbs(m, front) && TakenFirst(value, m, front, text) && m.base + m.size <= U64_MAX
    requires forall t :: t in front ==> KeyLe(KeyOf(t), KeyOf(s))
    requires Near(ExtentOf(m), KeyOf(s)) && s.Size() > 0 && m.base <= s.start
    requires next.file == m.file && next.base == m.base && next.size == Max(m.base + m.size, s.end) - m.base
    ensures TakenFirst(if value == "" then text(s) else value, next, front + [s], text)
  {
    var now := if value == "" then text(s) else value;
    var all := front + [s];
    forall t | t in front && IsPartOf(next, t) && (t.hasElfHeader || m.base < t.start) ensures IsPartOf(m, t) {
      assert KeyLe(KeyOf(t), KeyOf(s));
    }
    if value != "" {
      var first :| IsFirst(first, value, m, front, text);
      assert KeyLe(KeyOf(first), KeyOf(s));
      assert IsFirst(first, value, next, all, text);
    } else if now != "" {
      assert IsFirst(s, now, next, all, text);
    }
  }

  /** The seed that is merged into a module is one more part of it. */
  lemma PartsMerged(m: Module, front: seq<Seed>, s: Seed)
    requires PartsKnown(m, front) && m.base + m.size <= U64_MAX
    requires forall t :: t in front ==> KeyLe(KeyOf(t), KeyOf(s))
    requires Near(ExtentOf(m), KeyOf(s)) && s.Size() > 0 && m.base <= s.start
    ensures PartsKnown(Merge(m, s), front + [s])
  {
    hide TakenFirst;
    var next := Merge(m, s);
    TakenMerged(m, front, s, m.path, PATH, next);
    TakenMerged(m, front, s, m.name, NAME, next);
    forall t | t in front && t.file == next.file && t.start < t.end && (next.base < t.start || (next.base == t.start && t.hasElfHeader))
      ensures Holds(next, t) || next.base + next.size + 0x40_0000 < t.start
    {
      assert KeyLe(KeyOf(t), KeyOf(s));
    }
  }

  lemma TakenOpened(m: Module, front: seq<Seed>, s: Seed, text: Seed -> string)
    requires forall t :: t in front && t.file == s.file ==> t.start <= s.start
    requires forall t :: t in front && t.file == s.file && t.start == s.start && t.start < t.end ==> !t.hasElfHeader
    requires m.file == s.file && m.base == s.start && m.base + m.size == s.end && s.start < s.end
    ensures TakenFirst(text(s), m, front + [s], text)
  {
    if text(s) != "" { assert IsFirst(s, text(s), m, front + [s], text); }
  }

  /** A module that is opened has the seed as its only part. */
  lemma PartsOpened(modules: seq<Module>, front: seq<Seed>, s: Seed)
    requires AreModules(modules, front) && s.Size() > 0 && s.hasElfHeader
    requires forall t :: t in front ==> KeyLe(KeyOf(t), KeyOf(s))
    requires forall i :: 0 <= i < |modules| ==> !Near(ExtentOf(modules[i]), KeyOf(s))
    ensures PartsKnown(Module(s.start, s.start, s.Size(), s.file, s.path, s.name), front + [s])
  {
    hide TakenFirst, Rooted;
    var m := Module(s.start, s.start, s.Size(), s.file, s.path, s.name);
    forall t | t in front && t.file == s.file ensures t.start <= s.start {
      assert KeyLe(KeyOf(t), KeyOf(s));
    }
    forall t | t in front && t.file == s.file && t.start == s.start && t.start < t.end ensures !t.hasElfHeader {
      if t.hasElfHeader {
        assert Held(t, modules);
        var k :| 0 <= k < |modules| && Holds(modules[k], t);
        HolderIsNear(modules[k], front, t, s);
      }
    }
    TakenOpened(m, front, s, PATH);
    TakenOpened(m, front, s, NAME);
  }

  lemma HolderIsNear(m: Module, seeds: seq<Seed>, t: Seed, s: Seed)
    requires Rooted(m, seeds) && Holds(m, t) && t.file == s.file && t.start == s.start < t.end
    ensures Near(ExtentOf(m), KeyOf(s))
  {
    hide StartsAtElf, EndsAtSeed;
  }

  ghost predicate AllPartsKnown(modules: seq<Module>, seeds: seq<Seed>) {
    forall i :: 0 <= i < |modules| ==> PartsKnown(modules[i], seeds)
  }

  lemma AddSeedKnowsParts(modules: seq<Module>, front: seq<Seed>, s: Seed)
    requires AreModules(modules, front) && AllPartsKnown(modules, front)
    requires forall t :: t in front ==> KeyLe(KeyOf(t), KeyOf(s))
    ensures AllPartsKnown(AddSeed(modules, s), front + [s])
  {
    hide Near, Merge, LastNear, Apart, PartsKnown, KeyLe, StartsAtElf, EndsAtSeed, Held;
    OnlyLastIsNear(modules, front, s);
    var n := |modules| - 1;
    var next := AddSeed(modules, s);
    forall i | 0 <= i < |modules| && (s.Size() == 0 || !Near(ExtentOf(modules[i]), KeyOf(s)))
      ensures PartsKnown(modules[i], front + [s])
    {
      assert Rooted(modules[i], front);
      PartsStay(modules[i], front, s);
    }
    if s.Size() > 0 && LastNear(modules, KeyOf(s)) > 0 {
      assert Rooted(modules[n], front);
      LastAlone(modules, front, s);
      MergeLastParts(modules[n], front, s);
    } else if s.Size() > 0 && s.hasElfHeader {
      PartsOpened(modules, front, s);
    }
  }

  lemma MergeLastParts(m: Module, front: seq<Seed>, s: Seed)
    requires PartsKnown(m, front) && Rooted(m, front) && s.Size() > 0 && Near(ExtentOf(m), KeyOf(s))
    requires m.file < s.file || m.base <= s.start
    requires forall t :: t in front ==> KeyLe(KeyOf(t), KeyOf(s))
    ensures PartsKnown(Merge(m, s), front + [s])
  {
    hide PartsKnown, Merge, KeyLe;
    PartsMerged(m, front, s);
  }

  /** All modules but the last are far from the next seed. */
  lemma LastAlone(modules: seq<Module>, front: seq<Seed>, s: Seed)
    requires AreModules(modules, front) && modules != [] && forall t :: t in front ==> KeyLe(KeyOf(t), KeyOf(s))
    ensures forall i :: 0 <= i < |modules| - 1 ==> !Near(ExtentOf(modules[i]), KeyOf(s))
  {
    hide Rooted, Near, KeyLe, Apart, Held;
    var n := |modules| - 1;
    BaseBelow(modules[n], front, s);
    forall i | 0 <= i < n ensures !Near(ExtentOf(modules[i]), KeyOf(s)) {
      FarBelow(modules[i], modules[n], front, s);
    }
  }

  lemma {:induction false} ClusterKnowsParts(seeds: seq<Seed>)
    requires Sorted(seeds, BY_KEY)
    ensures AllPartsKnown(Cluster(seeds), seeds)
  {
    hide AreModules, AddSeed, PartsKnown;
    if seeds != [] {
      var front, s := seeds[..|seeds| - 1], seeds[|seeds| - 1];
      assert seeds == front + [s];
      ClusterKnowsParts(front);
      ClusterMakesModules(front);
      forall t | t in front ensures KeyLe(KeyOf(t), KeyOf(s)) {
        var i :| 0 <= i < |front| && front[i] == t;
        assert BY_KEY(seeds[i], seeds[|seeds| - 1]);
      }
      AddSeedKnowsParts(Cluster(front), front, s);
    }
  }

  lemma BasesAreTotal()
    ensures TotalPreorder(BY_BASE) && TotalPreorder(BY_KEY)
  {
  }

  lemma TakenSame(value: string, m: Module, a: seq<Seed>, b: seq<Seed>, text: Seed -> string)
    requires TakenFirst(value, m, a, text) && forall s :: s in a <==> s in b
    ensures TakenFirst(value, m, b, text)
  {
    if value != "" {
      var s :| IsFirst(s, value, m, a, text);
      assert IsFirst(s, value, m, b, text);
    }
  }

  lemma PartsSame(m: Module, a: seq<Seed>, b: seq<Seed>)
    requires PartsKnown(m, a) && forall s :: s in a <==> s in b
    ensures PartsKnown(m, b)
  {
    hide TakenFirst;
    TakenSame(m.path, m, a, b, PATH);
    TakenSame(m.name, m, a, b, NAME);
  }

  /** What each module is made of: every seed of its file above its base lies in it or far above it, and its path and its
    * name are the first that its parts have. */
  lemma AggregateKnowsParts(seeds: seq<Seed>)
    ensures forall m :: m in Aggregate(seeds) ==>
              Absorbs(m, seeds) && TakenFirst(m.path, m, seeds, PATH) && TakenFirst(m.name, m, seeds, NAME)
  {
    hide PartsKnown, Cluster;
    BasesAreTotal();
    var sorted := Sort(seeds, BY_KEY);
    SortSorts(seeds, BY_KEY);
    SameMembers(sorted, seeds);
    ClusterKnowsParts(sorted);
    SortSorts(Cluster(sorted), BY_BASE);
    SameMembers(Aggregate(seeds), Cluster(sorted));
    forall m | m in Aggregate(seeds)
      ensures Absorbs(m, seeds) && TakenFirst(m.path, m, seeds, PATH) && TakenFirst(m.name, m, seeds, NAME)
    {
      assert m in Cluster(sorted);
      PartsSame(m, sorted, seeds);
      KnownParts(m, seeds);
    }
  }

  lemma KnownParts(m: Module, seeds: seq<Seed>)
    requires PartsKnown(m, seeds)
    ensures Absorbs(m, seeds) && TakenFirst(m.path, m, seeds, PATH) && TakenFirst(m.name, m, seeds, NAME)
  {
  }

  /** The result is sorted by base; modules of one file lie more than 4 MiB apart; every base is the start of an
    * ELF-headed seed of that file and every end the end of one of its seeds; every non-empty ELF-headed seed lies in
    * exactly one module of its file. */
  lemma AggregateMakesModules(seeds: seq<Seed>)
    ensures var r := Aggregate(seeds);
            && (forall i, j :: 0 <= i < j < |r| ==> r[i].base <= r[j].base && Apart(r[i], r[j]))
            && (forall i :: 0 <= i < |r| ==> Rooted(r[i], seeds))
            && (forall s :: s in seeds && s.hasElfHeader && s.start < s.end ==>
                  Held(s, r) && forall i, j :: 0 <= i < |r| && 0 <= j < |r| && Holds(r[i], s) && Holds(r[j], s) ==> i == j)
  {
    BasesAreTotal();
    var sorted := Sort(seeds, BY_KEY);
    SortSorts(seeds, BY_KEY);
    SameMembers(sorted, seeds);
    ClusterMakesModules(sorted);
    SortedModules(Cluster(sorted), sorted);
    var r := Aggregate(seeds);
    forall i, j | 0 <= i < j < |r| ensures r[i].base <= r[j].base { assert BY_BASE(r[i], r[j]); }
    forall i | 0 <= i < |r| ensures Rooted(r[i], seeds) {
      assert Rooted(r[i], sorted);
      RootedMore(r[i], sorted, seeds);
    }
  }

  /** Sorting by base keeps what the clustering established. */
  lemma SortedModules(modules: seq<Module>, seeds: seq<Seed>)
    requires AreModules(modules, seeds)
    ensures var r := Sort(modules, BY_BASE);
            && Sorted(r, BY_BASE)
            && (forall i, j :: 0 <= i < j < |r| ==> Apart(r[i], r[j]))
            && (forall i :: 0 <= i < |r| ==> Rooted(r[i], seeds))
            && (forall s :: s in seeds && s.hasElfHeader && s.Size() > 0 ==>
                  Held(s, r) && forall i, j :: 0 <= i < |r| && 0 <= j < |r| && Holds(r[i], s) && Holds(r[j], s) ==> i == j)
  {
    hide StartsAtElf, EndsAtSeed;
    BasesAreTotal();
    SortSorts(modules, BY_BASE);
    var r := Sort(modules, BY_BASE);
    SameMembers(r, modules);
    forall i | 0 <= i < |r| ensures Rooted(r[i], seeds) {
      assert r[i] in modules;
    }
    forall i, j | 0 <= i < j < |r| ensures Apart(r[i], r[j]) {
      DistinctApart(modules, seeds, r, i, j);
    }
    forall s | s in seeds && s.hasElfHeader && s.Size() > 0
      ensures Held(s, r) && forall i, j :: 0 <= i < |r| && 0 <= j < |r| && Holds(r[i], s) && Holds(r[j], s) ==> i == j
    {
      assert Held(s, modules);
      var k :| 0 <= k < |modules| && Holds(modules[k], s);
      assert modules[k] in r;
      var q :| 0 <= q < |r| && r[q] == modules[k];
      assert Holds(r[q], s);
    }
  }

  lemma DistinctApart(modules: seq<Module>, seeds: seq<Seed>, r: seq<Module>, i: nat, j: nat)
    requires AreModules(modules, seeds) && multiset(r) == multiset(modules) && Sorted(r, BY_BASE)
    requires i < j < |r|
    ensures Apart(r[i], r[j])
  {
    assert BY_BASE(r[i], r[j]);
    SameMembers(r, modules);
    assert r[i] in modules && r[j] in modules;
    var a :| 0 <= a < |modules| && modules[a] == r[i];
    var b :| 0 <= b < |modules| && modules[b] == r[j];
    if a == b {
      Twice(r, i, j);
      Once(modules, seeds, a);
    } else {
      assert Rooted(modules[a], seeds) && Rooted(modules[b], seeds);
      assert a < b ==> Apart(modules[a], modules[b]);
      assert b < a ==> Apart(modules[b], modules[a]);
    }
  }

  lemma Twice<T>(s: seq<T>, i: nat, j: nat)
    requires i < j < |s| && s[i] == s[j]
    ensures multiset(s)[s[i]] >= 2
  {
    assert s == s[..j] + [s[j]] + s[j + 1..];
    assert s[i] in s[..j];
    assert multiset(s[..j])[s[i]] >= 1;
  }

  lemma ApartDiffer(a: Module, b: Module, seeds: seq<Seed>)
    requires Rooted(a, seeds) && Apart(a, b)
    ensures a != b
  {
  }

  lemma Once(modules: seq<Module>, seeds: seq<Seed>, a: nat)
    requires AreModules(modules, seeds) && a < |modules|
    ensures multiset(modules)[modules[a]] == 1
  {
    hide Rooted, Apart, Held;
    var m := modules[a];
    var front, back := modules[..a], modules[a + 1..];
    assert modules == front + [m] + back;
    forall k | 0 <= k < |front| ensures front[k] != m {
      ApartDiffer(modules[k], modules[a], seeds);
    }
    forall k | 0 <= k < |back| ensures back[k] != m {
      ApartDiffer(modules[a], modules[a + 1 + k], seeds);
    }
    CountOne(front, m, back);
  }

  lemma CountOne<T>(front: seq<T>, m: T, back: seq<T>)
    requires m !in front && m !in back
    ensures multiset(front + [m] + back)[m] == 1
  {
  }

  // ----- the order of the seeds does not matter -----

  function Extents(modules: seq<Module>): seq<Extent> {
    seq(|modules|, i requires 0 <= i < |modules| => ExtentOf(modules[i]))
  }

  function LastNearExtent(es: seq<Extent>, k: Key): (i: nat)
    ensures i <= |es|
  {
    if es == [] then 0 else if Near(es[|es| - 1], k) then |es| else LastNearExtent(es[..|es| - 1], k)
  }

  /** A seed key, and whether some seed with that key has an ELF header. */
  datatype Group = Group(key: Key, elf: bool)

  function AddGroup(es: seq<Extent>, g: Group): seq<Extent> {
    var i := LastNearExtent(es, g.key);
    var size := SaturatingSub(g.key.end, g.key.start);
    if size == 0 then es
    else if i > 0 then es[i - 1 := Grow(es[i - 1], g.key)]
    else if !g.elf then es
    else es + [Extent(g.key.file, g.key.start, size)]
  }

  function ClusterGroups(gs: seq<Group>): seq<Extent> {
    if gs == [] then [] else AddGroup(ClusterGroups(gs[..|gs| - 1]), gs[|gs| - 1])
  }

  /** Seeds with equal keys, taken together. */
  function Groups(seeds: seq<Seed>): seq<Group> {
    if seeds == [] then []
    else AddToGroups(Groups(seeds[..|seeds| - 1]), seeds[|seeds| - 1])
  }

  function AddToGroups(gs: seq<Group>, s: Seed): seq<Group> {
    if gs != [] && gs[|gs| - 1].key == KeyOf(s)
    then gs[..|gs| - 1] + [Group(KeyOf(s), gs[|gs| - 1].elf || s.hasElfHeader)]
    else gs + [Group(KeyOf(s), s.hasElfHeader)]
  }

  lemma {:induction false} LastNearOfExtents(modules: seq<Module>, k: Key)
    ensures LastNear(modules, k) == LastNearExtent(Extents(modules), k)
  {
    if modules != [] {
      LastNearOfExtents(modules[..|modules| - 1], k);
      assert Extents(modules)[..|modules| - 1] == Extents(modules[..|modules| - 1]);
    }
  }

  lemma AddSeedOnExtents(modules: seq<Module>, s: Seed)
    ensures Extents(AddSeed(modules, s)) == AddGroup(Extents(modules), Group(KeyOf(s), s.hasElfHeader))
  {
    LastNearOfExtents(modules, KeyOf(s));
  }

  /** Adding two seeds of one key has the effect of adding their group. */
  lemma AddTwice(es: seq<Extent>, k: Key, a: bool, b: bool)
    ensures AddGroup(AddGroup(es, Group(k, a)), Group(k, b)) == AddGroup(es, Group(k, a || b))
  {
    hide Near, Grow, LastNearExtent;
    if k.start < k.end {
      if LastNearExtent(es, k) > 0 {
        GrowTwice(es, k, a, b);
      } else if a {
        OpenTwice(es, k, a, b);
      }
    }
  }

  lemma GrowTwice(es: seq<Extent>, k: Key, a: bool, b: bool)
    requires k.start < k.end && LastNearExtent(es, k) > 0
    ensures AddGroup(AddGroup(es, Group(k, a)), Group(k, b)) == AddGroup(es, Group(k, a || b))
  {
    hide Near, Grow, LastNearExtent;
    var i := LastNearExtent(es, k);
    LastNearIs(es, k);
    NearGrown(es[i - 1], k);
    NearAt(es[i - 1 := Grow(es[i - 1], k)], k, i);
  }

  lemma OpenTwice(es: seq<Extent>, k: Key, a: bool, b: bool)
    requires k.start < k.end && LastNearExtent(es, k) == 0 && a
    ensures AddGroup(AddGroup(es, Group(k, a)), Group(k, b)) == AddGroup(es, Group(k, a || b))
  {
    hide Near, Grow, LastNearExtent;
    NearOpened(k);
    NearAt(es + [Extent(k.file, k.start, k.end - k.start)], k, |es| + 1);
  }

  /** Growing towards a key keeps the key near, and growing again changes nothing. */
  lemma NearGrown(e: Extent, k: Key)
    requires Near(e, k) && k.start < k.end
    ensures Near(Grow(e, k), k) && Grow(Grow(e, k), k) == Grow(e, k)
  {
  }

  lemma NearOpened(k: Key)
    requires k.start < k.end
    ensures var e := Extent(k.file, k.start, k.end - k.start);
            Near(e, k) && Grow(e, k) == e
  {
  }

  lemma {:induction false} LastNearIs(es: seq<Extent>, k: Key)
    ensures var i := LastNearExtent(es, k);
            (i > 0 ==> Near(es[i - 1], k)) && forall j :: i <= j < |es| ==> !Near(es[j], k)
  {
    if es != [] && !Near(es[|es| - 1], k) {
      LastNearIs(es[..|es| - 1], k);
      assert forall j :: 0 <= j < |es| - 1 ==> es[..|es| - 1][j] == es[j];
    }
  }

  lemma {:induction false} NearAt(es: seq<Extent>, k: Key, i: nat)
    requires 0 < i <= |es| && Near(es[i - 1], k) && forall j :: i <= j < |es| ==> !Near(es[j], k)
    ensures LastNearExtent(es, k) == i
  {
    if i < |es| {
      assert !Near(es[|es| - 1], k);
      assert forall j :: 0 <= j < |es| - 1 ==> es[..|es| - 1][j] == es[j];
      NearAt(es[..|es| - 1], k, i);
    }
  }

  lemma ClusterGroupsStep(gs: seq<Group>, g: Group)
    ensures ClusterGroups(gs + [g]) == AddGroup(ClusterGroups(gs), g)
  {
    hide AddGroup;
    assert (gs + [g])[..|gs|] == gs;
  }

  lemma NoGroups()
    ensures Extents(Cluster([])) == [] && ClusterGroups(Groups([])) == []
  {
  }

  lemma ClusterStep(front: seq<Seed>, s: Seed)
    ensures Cluster(front + [s]) == AddSeed(Cluster(front), s) && Groups(front + [s]) == AddToGroups(Groups(front), s)
  {
    hide AddSeed, AddToGroups;
    assert (front + [s])[..|front|] == front;
  }

  lemma {:induction false} ClusterIsClusterOfGroups(seeds: seq<Seed>)
    ensures Extents(Cluster(seeds)) == ClusterGroups(Groups(seeds))
  {
    hide AddGroup, AddSeed, Cluster, ClusterGroups, Groups, Extents;
    if seeds == [] {
      NoGroups();
    } else {
      var front, s := seeds[..|seeds| - 1], seeds[|seeds| - 1];
      assert seeds == front + [s];
      ClusterIsClusterOfGroups(front);
      ClusterStep(front, s);
      AddSeedOnExtents(Cluster(front), s);
      var gs := Groups(front);
      if gs != [] && gs[|gs| - 1].key == KeyOf(s) {
        var n, g := gs[..|gs| - 1], gs[|gs| - 1];
        assert gs == n + [g];
        ClusterGroupsStep(n, g);
        ClusterGroupsStep(n, Group(KeyOf(s), g.elf || s.hasElfHeader));
        AddTwice(ClusterGroups(n), KeyOf(s), g.elf, s.hasElfHeader);
      } else {
        ClusterGroupsStep(gs, Group(KeyOf(s), s.hasElfHeader));
      }
    }
  }

  predicate GroupLe(a: Group, b: Group) {
    KeyLe(a.key, b.key)
  }

  const BY_GROUP := (a: Group, b: Group) => GroupLe(a, b)

  predicate HasKey(seeds: seq<Seed>, k: Key) {
    exists s :: s in seeds && KeyOf(s) == k
  }

  predicate HasElf(seeds: seq<Seed>, k: Key) {
    exists s :: s in seeds && KeyOf(s) == k && s.hasElfHeader
  }

  ghost predicate GroupsMatch(gs: seq<Group>, seeds: seq<Seed>) {
    forall g :: g in gs <==> HasKey(seeds, g.key) && (g.elf <==> HasElf(seeds, g.key))
  }

  lemma HasAfter(front: seq<Seed>, s: Seed, k: Key)
    ensures HasKey(front + [s], k) <==> HasKey(front, k) || k == KeyOf(s)
    ensures HasElf(front + [s], k) <==> HasElf(front, k) || (k == KeyOf(s) && s.hasElfHeader)
    ensures HasElf(front, k) ==> HasKey(front, k)
  {
    assert s in front + [s];
    assert forall t :: t in front ==> t in front + [s];
  }

  /** The groups of a sorted list are strictly sorted, and are determined by which seeds there are. */
  lemma {:induction false} GroupsOfSorted(seeds: seq<Seed>)
    requires Sorted(seeds, BY_KEY)
    ensures StrictlySorted(Groups(seeds), BY_GROUP)
    ensures GroupsMatch(Groups(seeds), seeds)
    ensures seeds != [] <==> Groups(seeds) != []
    ensures seeds != [] ==> Groups(seeds)[|Groups(seeds)| - 1].key == KeyOf(seeds[|seeds| - 1])
  {
    if seeds != [] {
      hide HasKey, HasElf, KeyLe, GroupsMatch, StrictlySorted;
      var front, s := seeds[..|seeds| - 1], seeds[|seeds| - 1];
      assert seeds == front + [s];
      GroupsOfSorted(front);
      if front != [] { assert BY_KEY(seeds[|seeds| - 2], seeds[|seeds| - 1]); }
      AddToGroupsSorted(Groups(front), s);
      AddToGroupsMatches(front, Groups(front), s);
    }
  }

  lemma AddToGroupsSorted(gs: seq<Group>, s: Seed)
    requires StrictlySorted(gs, BY_GROUP) && (gs != [] ==> KeyLe(gs[|gs| - 1].key, KeyOf(s)))
    ensures StrictlySorted(AddToGroups(gs, s), BY_GROUP)
    ensures forall i :: 0 <= i < |gs| - 1 ==> gs[i].key != KeyOf(s)
  {
    forall i | 0 <= i < |gs| - 1 ensures BY_GROUP(gs[i], gs[|gs| - 1]) && !BY_GROUP(gs[|gs| - 1], gs[i]) {
    }
  }

  lemma AddToGroupsMembers(gs: seq<Group>, s: Seed, g: Group)
    requires forall i :: 0 <= i < |gs| - 1 ==> gs[i].key != KeyOf(s)
    ensures var next := AddToGroups(gs, s);
            g in next <==> g == next[|next| - 1] || (g in gs && g.key != KeyOf(s))
  {
    var next := AddToGroups(gs, s);
    if g in gs {
      var i :| 0 <= i < |gs| && gs[i] == g;
      assert g.key != KeyOf(s) ==> next[i] == g;
    }
    if g in next {
      var i :| 0 <= i < |next| && next[i] == g;
      assert i < |next| - 1 ==> gs[i] == g;
    }
  }

  lemma AddToGroupsMatches(front: seq<Seed>, gs: seq<Group>, s: Seed)
    requires StrictlySorted(gs, BY_GROUP) && GroupsMatch(gs, front)
    requires gs != [] ==> KeyLe(gs[|gs| - 1].key, KeyOf(s))
    ensures GroupsMatch(AddToGroups(gs, s), front + [s])
  {
    hide HasKey, HasElf, KeyLe, StrictlySorted;
    var k, next := KeyOf(s), AddToGroups(gs, s);
    AddToGroupsSorted(gs, s);
    HasAfter(front, s, k);
    var open := gs != [] && gs[|gs| - 1].key == k;
    if open {
      assert gs[|gs| - 1] in gs;
    } else {
      assert Group(k, HasElf(front, k)) !in gs;
    }
    assert next[|next| - 1] == Group(k, HasElf(front + [s], k));
    forall g ensures g in next <==> HasKey(front + [s], g.key) && (g.elf <==> HasElf(front + [s], g.key)) {
      AddToGroupsMembers(gs, s, g);
      HasAfter(front, s, g.key);
    }
  }

  lemma {:induction false} InsertOnExtents(m: Module, s: seq<Module>)
    ensures Extents(Insert(m, s, BY_BASE)) == Insert(ExtentOf(m), Extents(s), BY_EXTENT_BASE)
  {
    if s != [] && !BY_BASE(m, s[0]) {
      InsertOnExtents(m, s[1..]);
      assert Extents(s)[1..] == Extents(s[1..]);
    }
  }

  const BY_EXTENT_BASE := (a: Extent, b: Extent) => a.base <= b.base

  lemma {:induction false} SortOnExtents(s: seq<Module>)
    ensures Extents(Sort(s, BY_BASE)) == Sort(Extents(s), BY_EXTENT_BASE)
  {
    if s != [] {
      SortOnExtents(s[1..]);
      assert Extents(s)[1..] == Extents(s[1..]);
      InsertOnExtents(s[0], Sort(s[1..], BY_BASE));
    }
  }

  /** Any order of the seeds gives the same files, bases and sizes. */
  lemma AggregateIgnoresOrder(a: seq<Seed>, b: seq<Seed>)
    requires multiset(a) == multiset(b)
    ensures Extents(Aggregate(a)) == Extents(Aggregate(b))
  {
    BasesAreTotal();
    var x, y := Sort(a, BY_KEY), Sort(b, BY_KEY);
    SortSorts(a, BY_KEY);
    SortSorts(b, BY_KEY);
    SameMembers(x, y);
    GroupsOfSorted(x);
    GroupsOfSorted(y);
    forall k ensures (HasKey(x, k) <==> HasKey(y, k)) && (HasElf(x, k) <==> HasElf(y, k)) {
    }
    assert forall g :: g in Groups(x) <==> g in Groups(y);
    StrictlySortedUnique(Groups(x), Groups(y), BY_GROUP);
    ClusterIsClusterOfGroups(x);
    ClusterIsClusterOfGroups(y);
    SortOnExtents(Cluster(x));
    SortOnExtents(Cluster(y));
  }
}
