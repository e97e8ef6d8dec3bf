/** When the resolver's recursion ends: exactly when the references it follows do not lead back to the same record
  * without passing through a struct or union (vmlinux.rs, `raw_type_ref`). */
module BtfTermination {
  import opened Wrappers
  import opened Btf
  import opened BtfNames
  import opened BtfResolver
  import opened Defs

  /** Resolving a reference ends: some depth of recursion is enough. */
  ghost predicate Ends(btf: BtfFile, st: State, id: nat) {
    exists fuel: nat :: RefRun(btf, st, id, fuel).Ended?
  }

  /** A call of the resolver: a reference to resolve in the state it has reached. */
  datatype Call = Call(st: State, id: nat)

  // ----- the calls that one call makes -----

  /** A pointer, typedef or qualifier is followed at once. */
  predicate FollowsOne(btf: BtfFile, a: Call, b: Call) {
    && a.id != 0 && Exists(btf, a.id) && FollowsSizeOrType(TypeById(btf, a.id).value.kind)
    && b == Call(a.st, TypeById(btf, a.id).value.sizeOrType)
  }

  predicate IsArray(btf: BtfFile, id: nat) {
    id != 0 && Exists(btf, id) && TypeById(btf, id).value.kind == Array && TypeById(btf, id).value.data.ArrayData?
  }

  /** An array's index type is followed at once. */
  predicate FollowsIndex(btf: BtfFile, a: Call, b: Call) {
    IsArray(btf, a.id) && b == Call(a.st, TypeById(btf, a.id).value.data.indexType)
  }

  /** An array's element type is followed once its index type has been resolved; a missing index type ends the call. */
  ghost predicate FollowsElement(btf: BtfFile, a: Call, b: Call) {
    && IsArray(btf, a.id) && b.id == TypeById(btf, a.id).value.data.elemType
    && exists fuel, t :: RefRun(btf, a.st, TypeById(btf, a.id).value.data.indexType, fuel) == Ended(Ok(t), b.st)
  }

  ghost predicate FollowsPlain(btf: BtfFile, a: Call, b: Call) {
    FollowsOne(btf, a, b) || FollowsIndex(btf, a, b) || FollowsElement(btf, a, b)
  }

  predicate IsUser(btf: BtfFile, id: nat) {
    id != 0 && Exists(btf, id) && TypeById(btf, id).value.kind in {Struct, Union}
  }

  /** The state in which a struct or union that has no entry yet starts on its members. */
  function SeededFor(btf: BtfFile, st: State, id: nat): Option<State> {
    var Ended(name, named) := NameRun(btf, st, id);
    if name.Err? || name.value in named.userTypes || !IsComposite(btf, id) then None
    else Some(Seeded(named, name.value, id, SizeOf(btf, id)))
  }

  /** A struct or union without an entry is seeded, and each member is followed once those before it are resolved. */
  ghost predicate FollowsMember(btf: BtfFile, a: Call, b: Call) {
    && IsUser(btf, a.id) && SeededFor(btf, a.st, a.id).Some?
    && exists k: nat, fuel, fields :: IsMemberCall(btf, a, b, k, fuel, fields)
  }

  ghost predicate IsMemberCall(btf: BtfFile, a: Call, b: Call, k: nat, fuel: nat, fields: map<string, Field>)
    requires IsUser(btf, a.id) && SeededFor(btf, a.st, a.id).Some?
  {
    var ms := MembersOf(btf, a.id);
    && k < |ms| && b.id == ms[k].typeId
    && MembersRun(btf, SeededFor(btf, a.st, a.id).value, ms[..k], fuel) == Ended(Ok(fields), b.st)
  }

  // ----- loops -----

  ghost predicate IsCallPath(btf: BtfFile, path: seq<Call>) {
    path != [] && forall i {:trigger path[i]} :: 0 <= i < |path| - 1 ==>
      FollowsPlain(btf, path[i], path[i + 1]) || FollowsMember(btf, path[i], path[i + 1])
  }

  ghost predicate IsPlainPath(btf: BtfFile, path: seq<Call>) {
    path != [] && forall i {:trigger path[i]} :: 0 <= i < |path| - 1 ==> FollowsPlain(btf, path[i], path[i + 1])
  }

  /** The calls come back to a record through pointers, arrays, typedefs and qualifiers alone. */
  ghost predicate IsLoop(btf: BtfFile, path: seq<Call>) {
    IsPlainPath(btf, path) && |path| >= 2 && path[0].id == path[|path| - 1].id
  }

  /** A loop that the call leads to. */
  ghost predicate LeadsToLoop(btf: BtfFile, st: State, id: nat) {
    exists path, loop :: IsCallPath(btf, path) && path[0] == Call(st, id) && IsLoop(btf, loop) && loop[0] == path[|path| - 1]
  }

  // ----- a call that ends makes only calls that end -----

  lemma PlainCalleeEnds(btf: BtfFile, a: Call, b: Call, fuel: nat)
    requires FollowsPlain(btf, a, b) && RefRun(btf, a.st, a.id, fuel).Ended?
    ensures fuel > 0 && RefRun(btf, b.st, b.id, fuel - 1).Ended?
  {
    if FollowsElement(btf, a, b) {
      var index := TypeById(btf, a.id).value.data.indexType;
      var f, t :| RefRun(btf, a.st, index, f) == Ended(Ok(t), b.st);
      SameRun(btf, a.st, index, f, fuel - 1);
    }
  }

  /** Two depths that are both enough give the same. */
  lemma SameRun(btf: BtfFile, st: State, id: nat, f: nat, g: nat)
    requires RefRun(btf, st, id, f).Ended? && RefRun(btf, st, id, g).Ended?
    ensures RefRun(btf, st, id, f) == RefRun(btf, st, id, g)
  {
    hide RefRun;
    if f <= g { RefMore(btf, st, id, f, g); } else { RefMore(btf, st, id, g, f); }
  }

  lemma MemberCalleeEnds(btf: BtfFile, a: Call, b: Call, fuel: nat)
    requires FollowsMember(btf, a, b) && RefRun(btf, a.st, a.id, fuel).Ended?
    ensures Ends(btf, b.st, b.id)
  {
    hide MembersRun, NameRun, RefRun, UserRun;
    var s, ms := SeededFor(btf, a.st, a.id).value, MembersOf(btf, a.id);
    var k: nat, f, fields :| IsMemberCall(btf, a, b, k, f, fields);
    if fuel == 0 { NoFuel(btf, a.st, a.id); }
    RefSteps(btf, a.st, a.id, fuel);
    UserSteps(btf, a.st, a.id, fuel - 1);
    assert MembersRun(btf, s, ms, fuel - 1).Ended?;
    MemberEnds(btf, s, ms, k, fuel - 1, f, fields, b.st);
  }

  /** If the whole walk over the members ends, so does each member it comes to. */
  lemma MemberEnds(btf: BtfFile, st: State, ms: seq<Member>, k: nat, fuel: nat, f: nat, fields: map<string, Field>, at: State)
    requires k < |ms| && MembersRun(btf, st, ms, fuel).Ended? && MembersRun(btf, st, ms[..k], f) == Ended(Ok(fields), at)
    ensures Ends(btf, at, ms[k].typeId)
  {
    hide MembersRun, RefRun;
    MembersStop(btf, st, ms, k, fuel);
    MembersStop(btf, st, ms, k + 1, fuel);
    MembersStep(btf, st, ms, k, fuel);
    if f <= fuel {
      MembersMore(btf, st, ms[..k], f, fuel);
    } else {
      MembersMore(btf, st, ms[..k], fuel, f);
    }
    assert RefRun(btf, at, ms[k].typeId, fuel).Ended?;
  }

  lemma {:induction false} PathEnds(btf: BtfFile, path: seq<Call>, i: nat)
    requires IsCallPath(btf, path) && i < |path| && Ends(btf, path[0].st, path[0].id)
    ensures Ends(btf, path[i].st, path[i].id)
  {
    hide FollowsPlain, FollowsMember, RefRun;
    if i > 0 {
      PathEnds(btf, path, i - 1);
      var a, b := path[i - 1], path[i - 1 + 1];
      var fuel: nat :| RefRun(btf, a.st, a.id, fuel).Ended?;
      if FollowsPlain(btf, a, b) { PlainCalleeEnds(btf, a, b, fuel); } else { MemberCalleeEnds(btf, a, b, fuel); }
    }
  }

  // ----- a loop never ends -----

  lemma PlainGrows(btf: BtfFile, a: Call, b: Call)
    requires FollowsPlain(btf, a, b) && Owned(a.st)
    ensures Extends(a.st, b.st) && Owned(b.st)
  {
    hide RefRun, Extends, Owned;
    SameState(a.st);
    if FollowsElement(btf, a, b) {
      var index := TypeById(btf, a.id).value.data.indexType;
      var fuel, t :| RefRun(btf, a.st, index, fuel) == Ended(Ok(t), b.st);
      RefExtends(btf, a.st, index, fuel);
    }
  }

  lemma {:induction false} PathGrows(btf: BtfFile, path: seq<Call>, i: nat, j: nat)
    requires IsPlainPath(btf, path) && Owned(path[0].st) && i <= j < |path|
    ensures Extends(path[i].st, path[j].st) && Owned(path[j].st)
    decreases j
  {
    hide FollowsPlain, Extends, Owned;
    SameState(path[j].st);
    if i < j {
      PathGrows(btf, path, i, j - 1);
      PlainGrows(btf, path[j - 1], path[j - 1 + 1]);
      ExtendsTransitive(path[i].st, path[j - 1].st, path[j].st);
    } else if j > 0 {
      PathGrows(btf, path, j - 1, j - 1);
      PlainGrows(btf, path[j - 1], path[j - 1 + 1]);
    }
  }

  /** A step that has been taken is taken again in any later state, and changes nothing. */
  lemma FollowsAgain(btf: BtfFile, a: Call, b: Call, later: State)
    requires FollowsPlain(btf, a, b) && Owned(a.st) && Extends(b.st, later)
    ensures FollowsPlain(btf, Call(later, a.id), Call(later, b.id))
  {
    hide RefRun, Extends, Owned;
    if FollowsElement(btf, a, b) {
      var index := TypeById(btf, a.id).value.data.indexType;
      var fuel, t :| RefRun(btf, a.st, index, fuel) == Ended(Ok(t), b.st);
      RefAgain(btf, a.st, index, fuel, later);
      assert FollowsElement(btf, Call(later, a.id), Call(later, b.id));
    }
  }

  /** After one round nothing changes any more, and no depth is enough for another one. */
  lemma {:induction false} RoundExhausts(btf: BtfFile, loop: seq<Call>, k: nat, fuel: nat)
    requires IsLoop(btf, loop) && Owned(loop[0].st) && k < |loop| - 1
    ensures RefRun(btf, loop[|loop| - 1].st, loop[k].id, fuel).Exhausted?
    decreases fuel
  {
    hide RefRun, FollowsPlain, Extends, Owned;
    var end := loop[|loop| - 1].st;
    if RefRun(btf, end, loop[k].id, fuel).Ended? {
      PathGrows(btf, loop, 0, k);
      PathGrows(btf, loop, k + 1, |loop| - 1);
      FollowsAgain(btf, loop[k], loop[k + 1], end);
      PlainCalleeEnds(btf, Call(end, loop[k].id), Call(end, loop[k + 1].id), fuel);
      RoundExhausts(btf, loop, if k + 1 == |loop| - 1 then 0 else k + 1, fuel - 1);
    }
  }

  lemma LoopNeverEnds(btf: BtfFile, loop: seq<Call>)
    requires IsLoop(btf, loop) && Owned(loop[0].st)
    ensures !Ends(btf, loop[0].st, loop[0].id)
  {
    hide RefRun, FollowsPlain, Owned;
    var last := loop[|loop| - 1];
    forall fuel: nat ensures RefRun(btf, last.st, last.id, fuel).Exhausted? {
      RoundExhausts(btf, loop, 0, fuel);
    }
    if Ends(btf, loop[0].st, loop[0].id) { PathEnds(btf, loop, |loop| - 1); }
  }

  // ----- a call that does not end makes one that does not -----

  lemma {:induction false} MemberNeverEnds(btf: BtfFile, st: State, ms: seq<Member>)
    returns (k: nat, fuel: nat, fields: map<string, Field>, at: State)
    requires forall f: nat :: !MembersRun(btf, st, ms, f).Ended?
    ensures k < |ms| && MembersRun(btf, st, ms[..k], fuel) == Ended(Ok(fields), at) && !Ends(btf, at, ms[k].typeId)
    decreases |ms|
  {
    hide RefRun;
    assert !MembersRun(btf, st, ms, 0).Ended?;
    var n := |ms| - 1;
    if exists f: nat :: MembersRun(btf, st, ms[..n], f).Ended? {
      fuel :| MembersRun(btf, st, ms[..n], fuel).Ended?;
      var front := MembersRun(btf, st, ms[..n], fuel);
      assert !MembersRun(btf, st, ms, fuel).Ended?;
      k, fields, at := n, front.result.value, front.st;
      forall g: nat ensures !RefRun(btf, at, ms[n].typeId, g).Ended? {
        var both := if fuel <= g then g else fuel;
        MembersMore(btf, st, ms[..n], fuel, both);
        assert !MembersRun(btf, st, ms, both).Ended?;
        if RefRun(btf, at, ms[n].typeId, g).Ended? { RefMore(btf, at, ms[n].typeId, g, both); }
      }
    } else {
      k, fuel, fields, at := MemberNeverEnds(btf, st, ms[..n]);
      assert ms[..n][..k] == ms[..k];
    }
  }

  lemma UserCallee(btf: BtfFile, a: Call) returns (b: Call)
    requires IsUser(btf, a.id) && !Ends(btf, a.st, a.id)
    ensures FollowsMember(btf, a, b) && !Ends(btf, b.st, b.id)
  {
    hide MembersRun, NameRun;
    UserNeverEnds(btf, a);
    var s, ms := SeededFor(btf, a.st, a.id).value, MembersOf(btf, a.id);
    var k, fuel, fields, at := MemberNeverEnds(btf, s, ms);
    b := Call(at, ms[k].typeId);
    assert IsMemberCall(btf, a, b, k, fuel, fields);
  }

  lemma UserNeverEnds(btf: BtfFile, a: Call)
    requires IsUser(btf, a.id) && !Ends(btf, a.st, a.id)
    ensures SeededFor(btf, a.st, a.id).Some?
    ensures forall f: nat :: !MembersRun(btf, SeededFor(btf, a.st, a.id).value, MembersOf(btf, a.id), f).Ended?
  {
    hide MembersRun, NameRun;
    assert !RefRun(btf, a.st, a.id, 0 + 1).Ended?;
    UserSteps(btf, a.st, a.id, 0);
    forall f: nat
      ensures SeededFor(btf, a.st, a.id).Some?
      ensures !MembersRun(btf, SeededFor(btf, a.st, a.id).value, MembersOf(btf, a.id), f).Ended?
    {
      assert !RefRun(btf, a.st, a.id, f + 1).Ended?;
      UserSteps(btf, a.st, a.id, f);
    }
  }

  lemma OneCallee(btf: BtfFile, a: Call) returns (b: Call)
    requires a.id != 0 && Exists(btf, a.id) && FollowsSizeOrType(TypeById(btf, a.id).value.kind) && !Ends(btf, a.st, a.id)
    ensures FollowsOne(btf, a, b) && !Ends(btf, b.st, b.id)
  {
    b := Call(a.st, TypeById(btf, a.id).value.sizeOrType);
    forall f: nat ensures !RefRun(btf, b.st, b.id, f).Ended? {
      assert !RefRun(btf, a.st, a.id, f + 1).Ended?;
    }
  }

  lemma ArrayCallee(btf: BtfFile, a: Call) returns (b: Call)
    requires IsArray(btf, a.id) && !Ends(btf, a.st, a.id)
    ensures FollowsPlain(btf, a, b) && !Ends(btf, b.st, b.id)
  {
    var data := TypeById(btf, a.id).value.data;
    b := Call(a.st, data.indexType);
    if Ends(btf, b.st, b.id) {
      var fuel: nat :| RefRun(btf, b.st, b.id, fuel).Ended?;
      var index := RefRun(btf, b.st, b.id, fuel);
      assert !RefRun(btf, a.st, a.id, fuel + 1).Ended?;
      b := Call(index.st, data.elemType);
      assert RefRun(btf, a.st, data.indexType, fuel) == Ended(Ok(index.result.value), b.st);
      assert FollowsElement(btf, a, b);
      forall g: nat ensures !RefRun(btf, b.st, b.id, g).Ended? {
        ElementNeverEnds(btf, a, b, fuel, g);
      }
    }
  }

  lemma ElementNeverEnds(btf: BtfFile, a: Call, b: Call, fuel: nat, g: nat)
    requires IsArray(btf, a.id) && !Ends(btf, a.st, a.id)
    requires var index := RefRun(btf, a.st, TypeById(btf, a.id).value.data.indexType, fuel);
             index.Ended? && index.result.Ok? && b == Call(index.st, TypeById(btf, a.id).value.data.elemType)
    ensures !RefRun(btf, b.st, b.id, g).Ended?
  {
    var both := if fuel <= g then g else fuel;
    RefMore(btf, a.st, TypeById(btf, a.id).value.data.indexType, fuel, both);
    assert !RefRun(btf, a.st, a.id, both + 1).Ended?;
    if RefRun(btf, b.st, b.id, g).Ended? { RefMore(btf, b.st, b.id, g, both); }
  }

  lemma Callee(btf: BtfFile, a: Call) returns (b: Call)
    requires !Ends(btf, a.st, a.id)
    ensures a.id != 0 && Exists(btf, a.id) && !Ends(btf, b.st, b.id)
    ensures FollowsPlain(btf, a, b) || FollowsMember(btf, a, b)
  {
    NeverEndsCalls(btf, a);
    if IsUser(btf, a.id) {
      b := UserCallee(btf, a);
    } else if IsArray(btf, a.id) {
      b := ArrayCallee(btf, a);
    } else {
      b := OneCallee(btf, a);
    }
  }

  lemma NeverEndsCalls(btf: BtfFile, a: Call)
    requires !Ends(btf, a.st, a.id)
    ensures a.id != 0 && Exists(btf, a.id)
    ensures IsUser(btf, a.id) || IsArray(btf, a.id) || FollowsSizeOrType(TypeById(btf, a.id).value.kind)
  {
    hide UserRun, EnumRun;
    assert !RefRun(btf, a.st, a.id, 0 + 1).Ended?;
  }

  // ----- without a loop every call ends -----

  /** The structs and unions that have no entry yet. */
  ghost function Unseeded(btf: BtfFile, st: State): set<nat> {
    set id | 1 <= id <= |btf.types| && IsComposite(btf, id) && !(id in st.names.of && st.names.of[id] in st.userTypes)
  }

  lemma {:induction false} SubsetSize<T>(a: set<T>, b: set<T>)
    requires a <= b
    ensures |a| <= |b|
    ensures a < b ==> |a| < |b|
    decreases a
  {
    if a != {} {
      var x :| x in a;
      SubsetSize(a - {x}, b - {x});
    }
  }

  lemma UnseededShrinks(btf: BtfFile, a: State, b: State)
    requires Extends(a, b)
    ensures Unseeded(btf, b) <= Unseeded(btf, a) && |Unseeded(btf, b)| <= |Unseeded(btf, a)|
  {
    SubsetSize(Unseeded(btf, b), Unseeded(btf, a));
  }

  /** Going into a struct or union leaves one fewer without an entry. */
  lemma MemberSeeds(btf: BtfFile, a: Call, b: Call)
    requires FollowsMember(btf, a, b) && Owned(a.st)
    ensures |Unseeded(btf, b.st)| < |Unseeded(btf, a.st)| && Owned(b.st)
  {
    hide MembersRun, Extends;
    var s, ms := SeededFor(btf, a.st, a.id).value, MembersOf(btf, a.id);
    var k: nat, fuel, fields :| IsMemberCall(btf, a, b, k, fuel, fields);
    MembersExtend(btf, s, ms[..k], fuel);
    UnseededShrinks(btf, s, b.st);
    SeedingCounts(btf, a);
  }

  lemma SeedingCounts(btf: BtfFile, a: Call)
    requires IsUser(btf, a.id) && SeededFor(btf, a.st, a.id).Some? && Owned(a.st)
    ensures Owned(SeededFor(btf, a.st, a.id).value)
    ensures |Unseeded(btf, SeededFor(btf, a.st, a.id).value)| < |Unseeded(btf, a.st)|
  {
    hide NameOne;
    var s := SeededFor(btf, a.st, a.id).value;
    NameExtends(btf, a.st, a.id);
    var Ended(name, named) := NameRun(btf, a.st, a.id);
    SeedExtends(named, name.value, a.id, SizeOf(btf, a.id));
    ExtendsTransitive(a.st, named, s);
    UnseededShrinks(btf, a.st, s);
    assert a.id in Unseeded(btf, a.st) by {
      if a.id in a.st.names.of { assert named.names.of[a.id] == a.st.names.of[a.id]; }
    }
    assert a.id !in Unseeded(btf, s);
    SubsetSize(Unseeded(btf, s), Unseeded(btf, a.st));
  }

  lemma {:induction false} RepeatExists(s: seq<nat>, n: nat) returns (i: nat, j: nat)
    requires |s| > n && forall k :: 0 <= k < |s| ==> 1 <= s[k] <= n
    ensures i < j < |s| && s[i] == s[j]
    decreases n
  {
    assert 1 <= s[0] <= n;
    var m: nat :| m < |s| && (n in s ==> s[m] == n);
    var rest := s[..m] + s[m + 1..];
    assert forall k :: 0 <= k < |rest| ==> rest[k] == s[if k < m then k else k + 1];
    if k :| 0 <= k < |rest| && rest[k] == n {
      assert n in s;
      i, j := if k < m then k else m, if k < m then m else k + 1;
    } else {
      var a, b := RepeatExists(rest, n - 1);
      i, j := if a < m then a else a + 1, if b < m then b else b + 1;
    }
  }

  lemma PlainIsCallPath(btf: BtfFile, path: seq<Call>)
    requires IsPlainPath(btf, path)
    ensures IsCallPath(btf, path)
  {
    hide FollowsPlain, FollowsMember;
  }

  lemma PathPart(btf: BtfFile, path: seq<Call>, i: nat, j: nat)
    requires IsPlainPath(btf, path) && i <= j < |path|
    ensures IsPlainPath(btf, path[i..j + 1])
  {
    hide FollowsPlain;
    var part := path[i..j + 1];
    forall k {:trigger part[k]} | 0 <= k < |part| - 1 ensures FollowsPlain(btf, part[k], part[k + 1]) {
      assert part[k] == path[i + k] && part[k + 1] == path[i + k + 1];
    }
  }

  lemma LongPathLoops(btf: BtfFile, path: seq<Call>)
    requires IsPlainPath(btf, path) && |path| > |btf.types|
    requires forall k :: 0 <= k < |path| ==> 1 <= path[k].id <= |btf.types|
    ensures LeadsToLoop(btf, path[0].st, path[0].id)
  {
    hide IsPlainPath, IsCallPath;
    var ids := seq(|path|, k requires 0 <= k < |path| => path[k].id);
    var i, j := RepeatExists(ids, |btf.types|);
    PathPart(btf, path, 0, i);
    PathPart(btf, path, i, j);
    PlainIsCallPath(btf, path[0..i + 1]);
    var lead, loop := path[0..i + 1], path[i..j + 1];
    assert lead[0] == path[0] && loop[0] == lead[|lead| - 1];
    assert loop[0].id == ids[i] && loop[|loop| - 1].id == ids[j];
  }

  /** A path of calls that do not end, none through a struct or union: it can be continued until it loops, or until it
    * goes into a struct or union, of which there are fewer each time. */
  lemma {:induction false} NeverEndingLoops(btf: BtfFile, path: seq<Call>)
    requires IsPlainPath(btf, path) && Owned(path[0].st)
    requires forall k :: 0 <= k < |path| ==> !Ends(btf, path[k].st, path[k].id)
    ensures LeadsToLoop(btf, path[0].st, path[0].id)
    decreases |Unseeded(btf, path[|path| - 1].st)|, if |path| > |btf.types| then 0 else |btf.types| + 1 - |path|
  {
    hide Ends, FollowsPlain, FollowsMember, Unseeded, Extends, Owned;
    if |path| > |btf.types| {
      forall k | 0 <= k < |path| ensures 1 <= path[k].id <= |btf.types| {
        var _ := Callee(btf, path[k]);
      }
      LongPathLoops(btf, path);
    } else {
      var last := path[|path| - 1];
      PathGrows(btf, path, 0, |path| - 1);
      var next := Callee(btf, last);
      if FollowsPlain(btf, last, next) {
        PlainGrows(btf, last, next);
        UnseededShrinks(btf, last.st, next.st);
        NeverEndingLoops(btf, path + [next]);
      } else {
        MemberSeeds(btf, last, next);
        NeverEndingLoops(btf, [next]);
        assert LeadsToLoop(btf, next.st, next.id);
        var more, loop :| IsCallPath(btf, more) && more[0] == Call(next.st, next.id) && IsLoop(btf, loop) && loop[0] == more[|more| - 1];
        PlainIsCallPath(btf, path);
        PathConcat(btf, path, more);
        assert (path + more)[|path + more| - 1] == more[|more| - 1];
      }
    }
  }

  lemma PathConcat(btf: BtfFile, a: seq<Call>, b: seq<Call>)
    requires IsCallPath(btf, a) && IsCallPath(btf, b)
    requires FollowsPlain(btf, a[|a| - 1], b[0]) || FollowsMember(btf, a[|a| - 1], b[0])
    ensures IsCallPath(btf, a + b)
  {
    hide FollowsPlain, FollowsMember;
    var all := a + b;
    forall i {:trigger all[i]} | 0 <= i < |all| - 1
      ensures FollowsPlain(btf, all[i], all[i + 1]) || FollowsMember(btf, all[i], all[i + 1])
    {
      if i < |a| - 1 {
        assert all[i] == a[i] && all[i + 1] == a[i + 1];
      } else if i >= |a| {
        assert all[i] == b[i - |a|] && all[i + 1] == b[i - |a| + 1];
      }
    }
  }

  /** Resolving a reference ends exactly when it does not lead to a loop. */
  lemma EndsIffNoLoop(btf: BtfFile, st: State, id: nat)
    requires Owned(st)
    ensures Ends(btf, st, id) <==> !LeadsToLoop(btf, st, id)
  {
    hide Ends, FollowsPlain, FollowsMember, Owned;
    if !Ends(btf, st, id) {
      NeverEndingLoops(btf, [Call(st, id)]);
    }
    if LeadsToLoop(btf, st, id) {
      var path, loop :| IsCallPath(btf, path) && path[0] == Call(st, id) && IsLoop(btf, loop) && loop[0] == path[|path| - 1];
      CallPathGrows(btf, path, |path| - 1);
      LoopNeverEnds(btf, loop);
      if Ends(btf, st, id) { PathEnds(btf, path, |path| - 1); }
    }
  }

  lemma {:induction false} CallPathGrows(btf: BtfFile, path: seq<Call>, i: nat)
    requires IsCallPath(btf, path) && Owned(path[0].st) && i < |path|
    ensures Owned(path[i].st)
  {
    hide FollowsPlain, FollowsMember, Owned;
    if i > 0 {
      CallPathGrows(btf, path, i - 1);
      if FollowsPlain(btf, path[i - 1], path[i - 1 + 1]) {
        PlainGrows(btf, path[i - 1], path[i]);
      } else {
        MemberSeeds(btf, path[i - 1], path[i]);
      }
    }
  }

  // ----- cycles in the file -----

  /** The ids a record refers to directly, without passing through a struct or union. */
  function PlainEdges(ty: BtfType): seq<nat> {
    if ty.kind in {Ptr, Typedef, Volatile, Const, Restrict, TypeTag, DeclTag} then [ty.sizeOrType]
    else if ty.kind == Array && ty.data.ArrayData? then [ty.data.indexType, ty.data.elemType]
    else []
  }

  ghost predicate IsPlainCycle(btf: BtfFile, ids: seq<nat>) {
    && |ids| >= 2 && ids[0] == ids[|ids| - 1]
    && forall i {:trigger ids[i]} :: 0 <= i < |ids| - 1 ==> Exists(btf, ids[i]) && ids[i + 1] in PlainEdges(TypeById(btf, ids[i]).value)
  }

  /** If every cycle of the type graph passes through a struct or union, every call ends. */
  lemma NoPlainCycleEnds(btf: BtfFile, st: State, id: nat)
    requires Owned(st) && forall ids :: !IsPlainCycle(btf, ids)
    ensures Ends(btf, st, id)
  {
    hide Ends, IsPlainCycle, IsCallPath, Owned;
    EndsIffNoLoop(btf, st, id);
    if LeadsToLoop(btf, st, id) {
      var loop :| IsLoop(btf, loop);
      LoopIsCycle(btf, loop);
    }
  }

  lemma LoopIsCycle(btf: BtfFile, loop: seq<Call>)
    requires IsLoop(btf, loop)
    ensures exists ids :: IsPlainCycle(btf, ids)
  {
    hide RefRun;
    var ids := seq(|loop|, k requires 0 <= k < |loop| => loop[k].id);
    forall i {:trigger ids[i]} | 0 <= i < |ids| - 1
      ensures Exists(btf, ids[i]) && ids[i + 1] in PlainEdges(TypeById(btf, ids[i]).value)
    {
      assert FollowsPlain(btf, loop[i], loop[i + 1]);
    }
    assert IsPlainCycle(btf, ids);
  }

  lemma UserEndsAnyway(btf: BtfFile, st: State, id: nat) returns (fuel: nat)
    requires Owned(st) && forall ids :: !IsPlainCycle(btf, ids)
    ensures UserRun(btf, st, id, fuel).Ended?
  {
    hide MembersRun, NameRun, Ends, IsPlainCycle, Owned;
    fuel := 0;
    UserSteps(btf, st, id, 0);
    if !UserRun(btf, st, id, 0).Ended? {
      var Ended(name, named) := NameRun(btf, st, id);
      var s, ms := Seeded(named, name.value, id, SizeOf(btf, id)), MembersOf(btf, id);
      SeededOwned(btf, st, id);
      fuel := MembersEndAnyway(btf, s, ms);
      UserSteps(btf, st, id, fuel);
    }
  }

  lemma SeededOwned(btf: BtfFile, st: State, id: nat)
    requires Owned(st)
    ensures var Ended(name, named) := NameRun(btf, st, id);
            name.Ok? ==> forall size: nat :: Owned(Seeded(named, name.value, id, size))
  {
  }

  lemma MembersEndAnyway(btf: BtfFile, st: State, ms: seq<Member>) returns (fuel: nat)
    requires Owned(st) && forall ids :: !IsPlainCycle(btf, ids)
    ensures MembersRun(btf, st, ms, fuel).Ended?
  {
    hide MembersRun, Ends, IsPlainCycle, Owned;
    fuel := 0;
    if forall f: nat :: !MembersRun(btf, st, ms, f).Ended? {
      var k, f, fields, at := MemberNeverEnds(btf, st, ms);
      MembersExtend(btf, st, ms[..k], f);
      NoPlainCycleEnds(btf, at, ms[k].typeId);
    } else {
      fuel :| MembersRun(btf, st, ms, fuel).Ended?;
    }
  }

  lemma {:induction false} StructsEndAnyway(btf: BtfFile, st: State, names: seq<string>, required: bool) returns (fuel: nat)
    requires Owned(st) && forall ids :: !IsPlainCycle(btf, ids)
    ensures var run := StructsRun(btf, st, names, required, fuel);
            run.Ended? && Owned(run.st)
    decreases |names|
  {
    hide UserRun, IsPlainCycle, Owned, FindNamed;
    fuel := 0;
    if names != [] {
      var front := names[..|names| - 1];
      var f := StructsEndAnyway(btf, st, front, required);
      var run, id := StructsRun(btf, st, front, required, f), FindNamed(btf, Struct, names[|names| - 1]);
      fuel := f;
      if run.result.Ok? && id.Ok? {
        var g := UserEndsAnyway(btf, run.st, id.value);
        fuel := if f <= g then g else f;
        StructsMore(btf, st, front, required, f, fuel);
        UserMore(btf, run.st, id.value, g, fuel);
        UserExtends(btf, run.st, id.value, fuel);
      }
    }
  }

  /** Loading a profile ends when every cycle of the type graph passes through a struct or union. */
  lemma LoadEnds(btf: BtfFile, required: seq<string>, optional: seq<string>, enumName: string) returns (fuel: nat)
    requires forall ids :: !IsPlainCycle(btf, ids)
    ensures LoadRun(btf, required, optional, enumName, fuel).Ended?
  {
    hide StructsRun, IsPlainCycle, EnumRun, FindNamed;
    var f := StructsEndAnyway(btf, EMPTY, required, true);
    var a := StructsRun(btf, EMPTY, required, true, f);
    var g := StructsEndAnyway(btf, a.st, optional, false);
    fuel := if f <= g then g else f;
    StructsMore(btf, EMPTY, required, true, f, fuel);
    StructsMore(btf, a.st, optional, false, g, fuel);
  }

  /** A typedef of itself is never resolved, whatever the depth. */
  lemma {:induction false} SelfTypedefNeverEnds(st: State, fuel: nat)
    ensures RefRun(BtfFile([BtfType(Typedef, "t", 1, NoData)], map[]), st, 1, fuel).Exhausted?
  {
    if fuel > 0 { SelfTypedefNeverEnds(st, fuel - 1); }
  }

  /** A cycle in the file is not enough: an array of itself ends with an error when its index type is missing. */
  lemma MissingIndexEnds(st: State)
    ensures var btf := BtfFile([BtfType(Array, "", 0, ArrayData(1, 99, 4))], map[]);
            IsPlainCycle(btf, [1, 1]) && Ends(btf, st, 1) && RefRun(btf, st, 1, 2) == Ended(Err, st)
  {
    var btf := BtfFile([BtfType(Array, "", 0, ArrayData(1, 99, 4))], map[]);
    assert TypeById(btf, 1) == Ok(BtfType(Array, "", 0, ArrayData(1, 99, 4)));
    assert RefRun(btf, st, 99, 1) == Ended(Err, st);
    assert RefRun(btf, st, 1, 2) == Ended(Err, st);
  }
}
