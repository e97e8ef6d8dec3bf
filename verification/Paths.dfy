/** Path reconstruction from dentries and mounts (util.rs). */
module Paths {
  import opened Wrappers
  import opened Memory

  /** How many dentries are climbed within one mount, and how many mounts are crossed. */
  datatype Limits = Limits(dentryDepth: nat, mountDepth: nat)

  const LIMITS := Limits(256, 64)

  datatype PathOffsets = PathOffsets(
    dName: nat, dParent: nat, qstrName: nat,
    mntRoot: nat, mountMnt: nat, mountParent: nat, mountPoint: nat,
    pathMnt: nat, pathDentry: nat)

  datatype Root = Root(mnt: nat, dentry: nat)

  // ----- the climb, as a function of memory -----

  function Required(word: Option<u64>): Result<u64> {
    if word.Some? then Ok(word.value) else Err
  }

  function Name(m: Memory, o: PathOffsets, dentry: nat): Result<string> {
    var namePtr :- Required(m.u64At(dentry + o.dName + o.qstrName));
    if namePtr == 0 then Ok("")
    else if m.text(namePtr).Some? then Ok(m.text(namePtr).value)
    else Err
  }

  predicate IsComponent(name: string) {
    name != "" && name != "/"
  }

  function Record(components: seq<string>, name: string): seq<string> {
    if IsComponent(name) then components + [name] else components
  }

  /** The climb used when there is no mount: the topmost dentry's own name is not recorded. */
  function ClimbDentries(m: Memory, o: PathOffsets, current: nat, steps: nat, components: seq<string>)
    : Result<seq<string>>
    decreases steps
  {
    if steps == 0 then Ok(components)
    else
      var name :- Name(m, o, current);
      var parent :- Required(m.u64At(current + o.dParent));
      if parent == current || parent == 0 then Ok(components)
      else ClimbDentries(m, o, parent, steps - 1, Record(components, name))
  }

  /** Where a climb inside one mount ends: at a dentry to continue from, or for good. */
  datatype Climb = At(current: nat, components: seq<string>) | Done(components: seq<string>)

  function ClimbToRoot(m: Memory, o: PathOffsets, current: nat, mountRoot: nat, steps: nat, components: seq<string>)
    : Result<Climb>
    decreases steps
  {
    if steps == 0 || current == mountRoot || current == 0 then Ok(At(current, components))
    else
      var name :- Name(m, o, current);
      var parent :- Required(m.u64At(current + o.dParent));
      if parent == current || parent == 0 then Ok(Done(Record(components, name)))
      else ClimbToRoot(m, o, parent, mountRoot, steps - 1, Record(components, name))
  }

  function MountRoot(m: Memory, o: PathOffsets, mnt: nat, root: Option<Root>): Result<u64>
    requires root.Some? ==> root.value.dentry <= U64_MAX
  {
    if root.Some? && root.value.mnt == mnt then Ok(root.value.dentry) else Required(m.u64At(mnt + o.mntRoot))
  }

  /** The mount point a mount hangs from: None at the top of the mount tree. */
  function ParentMount(m: Memory, o: PathOffsets, mnt: nat): Result<Option<(nat, nat)>> {
    if mnt < o.mountMnt then Err
    else
      var mount := mnt - o.mountMnt;
      var parentMount :- Required(m.u64At(mount + o.mountParent));
      if parentMount == 0 || parentMount == mount then Ok(None)
      else
        var mountPoint :- Required(m.u64At(mount + o.mountPoint));
        Ok(Some((mountPoint, parentMount + o.mountMnt)))
  }

  function ClimbMounts(m: Memory, o: PathOffsets, l: Limits, current: nat, mnt: nat, root: Option<Root>, steps: nat,
                       components: seq<string>): Result<seq<string>>
    requires root.Some? ==> root.value.dentry <= U64_MAX
    decreases steps
  {
    if steps == 0 then Ok(components)
    else
      var mountRoot :- MountRoot(m, o, mnt, root);
      var climb :- ClimbToRoot(m, o, current, mountRoot, l.dentryDepth, components);
      if climb.Done? || root == Some(Root(mnt, climb.current)) then Ok(climb.components)
      else
        var parent :- ParentMount(m, o, mnt);
        if parent.None? then Ok(climb.components)
        else ClimbMounts(m, o, l, parent.value.0, parent.value.1, root, steps - 1, climb.components)
  }

  function Components(m: Memory, o: PathOffsets, l: Limits, mnt: nat, dentry: nat, root: Option<Root>): Result<seq<string>>
    requires root.Some? ==> root.value.dentry <= U64_MAX
  {
    if dentry == 0 then Err
    else if mnt == 0 then ClimbDentries(m, o, dentry, l.dentryDepth, [])
    else ClimbMounts(m, o, l, dentry, mnt, root, l.mountDepth, [])
  }

  function Reverse<T>(s: seq<T>): seq<T> {
    if s == [] then [] else Reverse(s[1..]) + [s[0]]
  }

  function JoinWithSlash(parts: seq<string>): string {
    if parts == [] then "" else if |parts| == 1 then parts[0] else parts[0] + "/" + JoinWithSlash(parts[1..])
  }

  function Render(components: seq<string>): string {
    "/" + JoinWithSlash(components)
  }

  function ReadRoot(m: Memory, o: PathOffsets, root: Option<nat>): (r: Result<Option<Root>>)
    ensures r.Ok? && r.value.Some? ==> r.value.value.dentry <= U64_MAX
  {
    if root.None? || root.value == 0 then Ok(None)
    else
      var rootMnt :- Required(m.u64At(root.value + o.pathMnt));
      var rootDentry :- Required(m.u64At(root.value + o.pathDentry));
      Ok(Some(Root(rootMnt, rootDentry)))
  }

  function ReadPath(m: Memory, o: PathOffsets, path: nat, root: Option<nat>): Result<string> {
    ReadPathWithin(m, o, LIMITS, path, root)
  }

  function ReadPathWithin(m: Memory, o: PathOffsets, l: Limits, path: nat, root: Option<nat>): Result<string> {
    if path == 0 then Err
    else
      var mnt :- Required(m.u64At(path + o.pathMnt));
      var dentry :- Required(m.u64At(path + o.pathDentry));
      var root :- ReadRoot(m, o, root);
      var components :- Components(m, o, l, mnt, dentry, root);
      Ok(Render(Reverse(components)))
  }

  // ----- the loops -----

  method ReadPathComponents(m: Memory, o: PathOffsets, l: Limits, mnt0: nat, dentry: nat, root: Option<Root>)
    returns (r: Result<seq<string>>)
    requires root.Some? ==> root.value.dentry <= U64_MAX
    ensures r == Components(m, o, l, mnt0, dentry, root)
  {
    if dentry == 0 { return Err; }
    var mnt: nat, current: nat, components: seq<string> := mnt0, dentry, [];
    if mnt == 0 {
      r := ReadWithoutMount(m, o, l, dentry);
      return;
    }

    for level := 0 to l.mountDepth
      invariant ClimbMounts(m, o, l, current, mnt, root, l.mountDepth - level, components)
             == ClimbMounts(m, o, l, dentry, mnt0, root, l.mountDepth, [])
    {
      var mountRoot :- MountRoot(m, o, mnt, root);
      var climb :- ReadWithinMount(m, o, l, current, mountRoot, components);
      components := climb.components;
      if climb.Done? || root == Some(Root(mnt, climb.current)) { return Ok(components); }
      var parent :- ParentMount(m, o, mnt);
      if parent.None? { return Ok(components); }
      current, mnt := parent.value.0, parent.value.1;
    }
    return Ok(components);
  }

  method ReadWithoutMount(m: Memory, o: PathOffsets, l: Limits, dentry: nat) returns (r: Result<seq<string>>)
    ensures r == ClimbDentries(m, o, dentry, l.dentryDepth, [])
  {
    var current: nat, components: seq<string> := dentry, [];
    for i := 0 to l.dentryDepth
      invariant ClimbDentries(m, o, current, l.dentryDepth - i, components)
             == ClimbDentries(m, o, dentry, l.dentryDepth, [])
    {
      var name :- Name(m, o, current);
      var parent :- Required(m.u64At(current + o.dParent));
      if parent == current || parent == 0 { return Ok(components); }
      components := Record(components, name);
      current := parent;
    }
    return Ok(components);
  }

  method ReadWithinMount(m: Memory, o: PathOffsets, l: Limits, dentry: nat, mountRoot: nat, found: seq<string>)
    returns (r: Result<Climb>)
    ensures r == ClimbToRoot(m, o, dentry, mountRoot, l.dentryDepth, found)
  {
    var current: nat, components := dentry, found;
    for i := 0 to l.dentryDepth
      invariant ClimbToRoot(m, o, current, mountRoot, l.dentryDepth - i, components)
             == ClimbToRoot(m, o, dentry, mountRoot, l.dentryDepth, found)
    {
      if current == mountRoot || current == 0 { break; }
      var name :- Name(m, o, current);
      components := Record(components, name);
      var parent :- Required(m.u64At(current + o.dParent));
      if parent == current || parent == 0 { return Ok(Done(components)); }
      current := parent;
    }
    return Ok(At(current, components));
  }

  // ----- well-formed forests -----

  /** Memory holds this name for the dentry; a null name pointer stands for an empty name. */
  ghost predicate IsNamed(m: Memory, o: PathOffsets, dentry: nat, name: string) {
    var p := m.u64At(dentry + o.dName + o.qstrName);
    p.Some? && if p.value == 0 then name == "" else m.text(p.value) == Some(name)
  }

  /** `names` lead from `current` up to `end` by parent links; none of the dentries climbed is `top`. */
  ghost predicate ClimbsTo(m: Memory, o: PathOffsets, current: nat, top: nat, names: seq<string>, end: nat)
    decreases |names|
  {
    if names == [] then current == end
    else
      && current != top && current != 0 && IsNamed(m, o, current, names[0])
      && var parent := m.u64At(current + o.dParent);
      && parent.Some? && parent.value != current && parent.value != 0
      && ClimbsTo(m, o, parent.value, top, names[1..], end)
  }

  /** `names` lead from `current` up to a dentry without a parent, and do not meet `top` on the way. */
  ghost predicate DetachedChain(m: Memory, o: PathOffsets, current: nat, top: nat, names: seq<string>)
    decreases |names|
  {
    && names != [] && current != top && current != 0 && IsNamed(m, o, current, names[0])
    && var parent := m.u64At(current + o.dParent);
    && parent.Some?
    && if |names| == 1 then parent.value == current || parent.value == 0
       else
         && parent.value != current && parent.value != 0
         && DetachedChain(m, o, parent.value, top, names[1..])
  }

  /** The dentry at which a mount begins: the process root's own, or the one the mount names. */
  ghost predicate IsMountRoot(m: Memory, o: PathOffsets, mnt: nat, root: Option<Root>, top: nat) {
    if root.Some? && root.value.mnt == mnt then top == root.value.dentry
    else m.u64At(mnt + o.mntRoot).Some? && top == m.u64At(mnt + o.mntRoot).value as nat
  }

  /** The mount's parent is null or the mount itself. */
  ghost predicate IsTopMount(m: Memory, o: PathOffsets, mnt: nat) {
    && mnt >= o.mountMnt
    && var parent := m.u64At(mnt - o.mountMnt + o.mountParent);
    parent.Some? && (parent.value == 0 || parent.value as nat == mnt - o.mountMnt)
  }

  /** The mount hangs from dentry `point` of another mount. */
  ghost predicate HangsFrom(m: Memory, o: PathOffsets, mnt: nat, point: nat, parentMnt: nat) {
    && mnt >= o.mountMnt
    && var parent, at := m.u64At(mnt - o.mountMnt + o.mountParent), m.u64At(mnt - o.mountMnt + o.mountPoint);
    && parent.Some? && parent.value != 0 && parent.value as nat != mnt - o.mountMnt
    && parentMnt == parent.value + o.mountMnt && at.Some? && at.value as nat == point
  }

  /** One list of names per mount crossed, innermost mount first; within a mount, file first.  A list ends at the root of
    * its mount, at a null mount point, or where the climb is cut off; the last list ends at the process root, in the
    * topmost mount, at a dentry without a parent, or where `mounts` have been crossed. */
  ghost predicate MountChain(m: Memory, o: PathOffsets, l: Limits, current: nat, mnt: nat, root: Option<Root>, mounts: nat,
                             segments: seq<seq<string>>)
    decreases |segments|, 2
  {
    if mounts == 0 then segments == []
    else segments != [] && exists top :: IsMountRoot(m, o, mnt, root, top)
                                         && MountChainTo(m, o, l, current, mnt, root, top, mounts, segments)
  }

  ghost predicate MountChainTo(m: Memory, o: PathOffsets, l: Limits, current: nat, mnt: nat, root: Option<Root>, top: nat,
                               mounts: nat, segments: seq<seq<string>>)
    requires segments != [] && mounts > 0
    decreases |segments|, 1
  {
    && |segments[0]| <= l.dentryDepth
    && (|| (|segments| == 1 && DetachedChain(m, o, current, top, segments[0]))
        || exists end :: EndsAt(m, o, l, current, top, segments[0], end)
                         && MountChainFrom(m, o, l, mnt, root, end, mounts, segments))
  }

  /** The climb inside one mount ends at its root, at a null dentry, or when it has gone up as far as it may. */
  ghost predicate EndsAt(m: Memory, o: PathOffsets, l: Limits, current: nat, top: nat, names: seq<string>, end: nat) {
    ClimbsTo(m, o, current, top, names, end) && (end == top || end == 0 || |names| == l.dentryDepth)
  }

  ghost predicate MountChainFrom(m: Memory, o: PathOffsets, l: Limits, mnt: nat, root: Option<Root>, end: nat, mounts: nat,
                                 segments: seq<seq<string>>)
    requires segments != [] && mounts > 0
    decreases |segments|, 0
  {
    || (|segments| == 1 && (root == Some(Root(mnt, end)) || IsTopMount(m, o, mnt)))
    || (root != Some(Root(mnt, end))
        && exists point, parentMnt :: HangsFrom(m, o, mnt, point, parentMnt)
                                      && MountChain(m, o, l, point, parentMnt, root, mounts - 1, segments[1..]))
  }

  /** The names that a path shows. */
  ghost function Shown(names: seq<string>): seq<string> {
    if names == [] then []
    else (if names[0] == "" || names[0] == "/" then [] else [names[0]]) + Shown(names[1..])
  }

  /** The shown names of all segments, from the file up. */
  ghost function Upward(segments: seq<seq<string>>): seq<string> {
    if segments == [] then [] else Shown(segments[0]) + Upward(segments[1..])
  }

  /** `names` are the shown names from the process root down to the file. */
  ghost predicate LeadDown(segments: seq<seq<string>>, names: seq<string>) {
    var up := Upward(segments);
    |names| == |up| && forall i :: 0 <= i < |names| ==> names[i] == up[|up| - 1 - i]
  }

  lemma ShownFirst(components: seq<string>, names: seq<string>)
    requires names != []
    ensures Record(components, names[0]) + Shown(names[1..]) == components + Shown(names)
  {
  }

  lemma NoneShown(components: seq<string>)
    ensures components + Shown([]) == components
  {
  }

  lemma {:induction false} ClimbToRootFollowsChain(m: Memory, o: PathOffsets, current: nat, top: nat, steps: nat,
                                components: seq<string>, names: seq<string>, end: nat)
    requires ClimbsTo(m, o, current, top, names, end) && |names| <= steps && (end == top || end == 0 || |names| == steps)
    ensures ClimbToRoot(m, o, current, top, steps, components) == Ok(At(end, components + Shown(names)))
    decreases |names|
  {
    hide Record, Shown;
    if names == [] {
      NoneShown(components);
    } else {
      var parent := m.u64At(current + o.dParent).value;
      ClimbToRootFollowsChain(m, o, parent, top, steps - 1, Record(components, names[0]), names[1..], end);
      ShownFirst(components, names);
    }
  }

  lemma {:induction false} ClimbToRootDetaches(m: Memory, o: PathOffsets, current: nat, top: nat, steps: nat,
                                components: seq<string>, names: seq<string>)
    requires DetachedChain(m, o, current, top, names) && |names| <= steps
    ensures ClimbToRoot(m, o, current, top, steps, components) == Ok(Done(components + Shown(names)))
    decreases |names|
  {
    hide Record, Shown;
    ShownFirst(components, names);
    if |names| == 1 {
      assert names[1..] == [];
      NoneShown(Record(components, names[0]));
    } else {
      var parent := m.u64At(current + o.dParent).value;
      ClimbToRootDetaches(m, o, parent, top, steps - 1, Record(components, names[0]), names[1..]);
    }
  }

  /** Whatever memory holds, a climb inside one mount that succeeds has followed a chain. */
  lemma {:induction false} ClimbToRootHasChain(m: Memory, o: PathOffsets, current: nat, top: nat, steps: nat,
                                components: seq<string>) returns (names: seq<string>)
    requires ClimbToRoot(m, o, current, top, steps, components).Ok?
    ensures |names| <= steps
    ensures match ClimbToRoot(m, o, current, top, steps, components).value
            case At(end, found) =>
              && ClimbsTo(m, o, current, top, names, end) && (end == top || end == 0 || |names| == steps)
              && found == components + Shown(names)
            case Done(found) => DetachedChain(m, o, current, top, names) && found == components + Shown(names)
    decreases steps
  {
    hide Record, Shown;
    NoneShown(components);
    names := [];
    if steps > 0 && current != top && current != 0 {
      var name, parent := Name(m, o, current).value, m.u64At(current + o.dParent).value;
      NoneShown(Record(components, name));
      if parent == current || parent == 0 {
        names := [name];
        assert names[1..] == [];
      } else {
        var rest := ClimbToRootHasChain(m, o, parent, top, steps - 1, Record(components, name));
        names := [name] + rest;
        assert names[1..] == rest;
      }
      ShownFirst(components, names);
    }
  }

  lemma {:induction false} ClimbMountsFollowsChain(m: Memory, o: PathOffsets, l: Limits, current: nat, mnt: nat, root: Option<Root>,
                                mounts: nat, components: seq<string>, segments: seq<seq<string>>)
    requires root.Some? ==> root.value.dentry <= U64_MAX
    requires MountChain(m, o, l, current, mnt, root, mounts, segments)
    ensures ClimbMounts(m, o, l, current, mnt, root, mounts, components) == Ok(components + Upward(segments))
    decreases mounts
  {
    hide ClimbToRoot, ClimbMounts, ClimbsTo, DetachedChain, Shown, HangsFrom, IsTopMount;
    if mounts == 0 {
      NoMoreMounts(m, o, l, current, mnt, root, components);
      return;
    }
    var top :| IsMountRoot(m, o, mnt, root, top) && MountChainTo(m, o, l, current, mnt, root, top, mounts, segments);
    var here := components + Shown(segments[0]);
    if |segments| == 1 { OneSegment(segments); }
    if |segments| == 1 && DetachedChain(m, o, current, top, segments[0]) {
      ClimbToRootDetaches(m, o, current, top, l.dentryDepth, components, segments[0]);
      MountDone(m, o, l, current, mnt, root, mounts, components, top, Done(here));
      return;
    }
    var end :| EndsAt(m, o, l, current, top, segments[0], end) && MountChainFrom(m, o, l, mnt, root, end, mounts, segments);
    ClimbToRootFollowsChain(m, o, current, top, l.dentryDepth, components, segments[0], end);
    if |segments| == 1 && (root == Some(Root(mnt, end)) || IsTopMount(m, o, mnt)) {
      MountDone(m, o, l, current, mnt, root, mounts, components, top, At(end, here));
    } else {
      var point, parentMnt :| HangsFrom(m, o, mnt, point, parentMnt)
                              && MountChain(m, o, l, point, parentMnt, root, mounts - 1, segments[1..]);
      MountCrossed(m, o, l, current, mnt, root, mounts, components, top, end, here, point, parentMnt);
      ClimbMountsFollowsChain(m, o, l, point, parentMnt, root, mounts - 1, here, segments[1..]);
      assert components + Upward(segments) == here + Upward(segments[1..]);
    }
  }

  lemma NoMoreMounts(m: Memory, o: PathOffsets, l: Limits, current: nat, mnt: nat, root: Option<Root>, components: seq<string>)
    requires root.Some? ==> root.value.dentry <= U64_MAX
    ensures ClimbMounts(m, o, l, current, mnt, root, 0, components) == Ok(components + Upward([]))
  {
    assert components + Upward([]) == components;
  }

  /** The climb ends in this mount. */
  lemma MountDone(m: Memory, o: PathOffsets, l: Limits, current: nat, mnt: nat, root: Option<Root>, mounts: nat,
                  components: seq<string>, top: nat, climb: Climb)
    requires mounts > 0 && (root.Some? ==> root.value.dentry <= U64_MAX) && IsMountRoot(m, o, mnt, root, top)
    requires ClimbToRoot(m, o, current, top, l.dentryDepth, components) == Ok(climb)
    requires climb.Done? || root == Some(Root(mnt, climb.current)) || IsTopMount(m, o, mnt)
    ensures ClimbMounts(m, o, l, current, mnt, root, mounts, components) == Ok(climb.components)
  {
    hide ClimbToRoot;
  }

  /** The climb goes on from the mount point. */
  lemma MountCrossed(m: Memory, o: PathOffsets, l: Limits, current: nat, mnt: nat, root: Option<Root>, mounts: nat,
                     components: seq<string>, top: nat, end: nat, here: seq<string>, point: nat, parentMnt: nat)
    requires mounts > 0 && (root.Some? ==> root.value.dentry <= U64_MAX) && IsMountRoot(m, o, mnt, root, top)
    requires ClimbToRoot(m, o, current, top, l.dentryDepth, components) == Ok(At(end, here))
    requires root != Some(Root(mnt, end)) && HangsFrom(m, o, mnt, point, parentMnt)
    ensures ClimbMounts(m, o, l, current, mnt, root, mounts, components)
         == ClimbMounts(m, o, l, point, parentMnt, root, mounts - 1, here)
  {
    hide ClimbToRoot;
  }

  /** Whatever memory holds, a climb through mounts that succeeds has followed a chain of them. */
  lemma {:induction false} ClimbMountsHasChain(m: Memory, o: PathOffsets, l: Limits, current: nat, mnt: nat, root: Option<Root>,
                                mounts: nat, components: seq<string>) returns (segments: seq<seq<string>>)
    requires root.Some? ==> root.value.dentry <= U64_MAX
    requires ClimbMounts(m, o, l, current, mnt, root, mounts, components).Ok?
    ensures MountChain(m, o, l, current, mnt, root, mounts, segments)
    decreases mounts
  {
    hide ClimbToRoot, ClimbsTo, DetachedChain;
    segments := [];
    if mounts > 0 {
      var top := MountRoot(m, o, mnt, root).value;
      var climb := ClimbToRoot(m, o, current, top, l.dentryDepth, components).value;
      var names := ClimbToRootHasChain(m, o, current, top, l.dentryDepth, components);
      assert IsMountRoot(m, o, mnt, root, top);
      segments := [names];
      if climb.At? && root != Some(Root(mnt, climb.current)) && ParentMount(m, o, mnt).value.Some? {
        var (point, parentMnt) := ParentMount(m, o, mnt).value.value;
        var rest := ClimbMountsHasChain(m, o, l, point, parentMnt, root, mounts - 1, climb.components);
        segments := [names] + rest;
        assert segments[1..] == rest && HangsFrom(m, o, mnt, point, parentMnt);
      }
      if climb.At? { assert EndsAt(m, o, l, current, top, segments[0], climb.current); }
      assert MountChainTo(m, o, l, current, mnt, root, top, mounts, segments);
    }
  }

  /** Without a mount the climb ends at a dentry without a parent, whose name is left out, or when it is cut off. */
  ghost predicate EndsUnmounted(m: Memory, o: PathOffsets, current: nat, steps: nat, names: seq<string>, end: nat) {
    && ClimbsTo(m, o, current, 0, names, end) && |names| <= steps
    && (|names| == steps || (HasNoParent(m, o, end) && exists name :: IsNamed(m, o, end, name)))
  }

  lemma {:induction false} ClimbDentriesFollowsChain(m: Memory, o: PathOffsets, current: nat, steps: nat,
                                  components: seq<string>, names: seq<string>, end: nat)
    requires EndsUnmounted(m, o, current, steps, names, end)
    ensures ClimbDentries(m, o, current, steps, components) == Ok(components + Shown(names))
    decreases |names|
  {
    hide Record, Shown;
    if names == [] {
      NoneShown(components);
    } else {
      var parent := m.u64At(current + o.dParent).value;
      ClimbDentriesFollowsChain(m, o, parent, steps - 1, Record(components, names[0]), names[1..], end);
      ShownFirst(components, names);
    }
  }

  /** Whatever memory holds, a climb without a mount that succeeds has followed a chain. */
  lemma {:induction false} ClimbDentriesHasChain(m: Memory, o: PathOffsets, current: nat, steps: nat, components: seq<string>)
    returns (names: seq<string>, end: nat)
    requires current != 0 && ClimbDentries(m, o, current, steps, components).Ok?
    ensures EndsUnmounted(m, o, current, steps, names, end)
    decreases steps
  {
    hide Record;
    names, end := [], current;
    if steps > 0 {
      var name, parent := Name(m, o, current).value, m.u64At(current + o.dParent).value;
      assert IsNamed(m, o, current, name);
      if parent != current && parent != 0 {
        var rest;
        rest, end := ClimbDentriesHasChain(m, o, parent, steps - 1, Record(components, name));
        names := [name] + rest;
        assert names[1..] == rest;
      }
    }
  }

  /** The dentry's parent is null or itself. */
  ghost predicate HasNoParent(m: Memory, o: PathOffsets, dentry: nat) {
    var parent := m.u64At(dentry + o.dParent);
    parent.Some? && (parent.value == 0 || parent.value as nat == dentry)
  }

  /** The process root in memory, if there is one. */
  ghost predicate IsRoot(m: Memory, o: PathOffsets, root: Option<nat>, at: Option<Root>) {
    if root.None? || root.value == 0 then at.None?
    else
      && at.Some? && at.value.mnt <= U64_MAX && at.value.dentry <= U64_MAX
      && m.u64At(root.value + o.pathMnt) == Some(at.value.mnt) && m.u64At(root.value + o.pathDentry) == Some(at.value.dentry)
  }

  /** `path` points at a file whose names are `segments`, as far up as they lead. */
  ghost predicate NamesFile(m: Memory, o: PathOffsets, l: Limits, path: nat, root: Option<nat>, segments: seq<seq<string>>) {
    exists mnt: u64, dentry: u64, at: Option<Root> :: NamesFileWith(m, o, l, path, root, segments, mnt, dentry, at)
  }

  ghost predicate NamesFileWith(m: Memory, o: PathOffsets, l: Limits, path: nat, root: Option<nat>, segments: seq<seq<string>>,
                                mnt: u64, dentry: u64, at: Option<Root>)
  {
    && m.u64At(path + o.pathMnt) == Some(mnt) && m.u64At(path + o.pathDentry) == Some(dentry) && path != 0 && dentry != 0
    && IsRoot(m, o, root, at)
    && if mnt == 0 then |segments| == 1 && exists end :: EndsUnmounted(m, o, dentry, l.dentryDepth, segments[0], end)
       else MountChain(m, o, l, dentry, mnt, at, l.mountDepth, segments)
  }

  lemma ReadPathWithinReconstructs(m: Memory, o: PathOffsets, l: Limits, path: nat, root: Option<nat>,
                                   segments: seq<seq<string>>)
    requires NamesFile(m, o, l, path, root, segments)
    ensures ReadPathWithin(m, o, l, path, root) == Ok(Render(Reverse(Upward(segments))))
  {
    hide ClimbMounts, ClimbDentries, Upward, Shown, MountChain, EndsUnmounted, Reverse;
    var mnt: u64, dentry: u64, at: Option<Root> :| NamesFileWith(m, o, l, path, root, segments, mnt, dentry, at);
    assert ReadRoot(m, o, root) == Ok(at);
    assert [] + Upward(segments) == Upward(segments);
    if mnt == 0 {
      var end :| EndsUnmounted(m, o, dentry, l.dentryDepth, segments[0], end);
      ClimbDentriesFollowsChain(m, o, dentry, l.dentryDepth, [], segments[0], end);
      OneSegment(segments);
      assert [] + Shown(segments[0]) == Shown(segments[0]);
    } else {
      ClimbMountsFollowsChain(m, o, l, dentry, mnt, at, l.mountDepth, [], segments);
    }
  }

  lemma ReadPathWithinHasNames(m: Memory, o: PathOffsets, l: Limits, path: nat, root: Option<nat>)
    returns (segments: seq<seq<string>>)
    requires ReadPathWithin(m, o, l, path, root).Ok?
    ensures NamesFile(m, o, l, path, root, segments)
  {
    hide ClimbMounts, ClimbDentries, MountChain, EndsUnmounted;
    var mnt, dentry, at := m.u64At(path + o.pathMnt).value, m.u64At(path + o.pathDentry).value, ReadRoot(m, o, root).value;
    if mnt == 0 {
      var names, end := ClimbDentriesHasChain(m, o, dentry, l.dentryDepth, []);
      segments := [names];
      assert EndsUnmounted(m, o, dentry, l.dentryDepth, segments[0], end);
    } else {
      segments := ClimbMountsHasChain(m, o, l, dentry, mnt, at, l.mountDepth, []);
    }
    assert IsRoot(m, o, root, at);
    assert NamesFileWith(m, o, l, path, root, segments, mnt, dentry, at);
  }

  lemma OneSegment(segments: seq<seq<string>>)
    requires |segments| == 1
    ensures Upward(segments) == Shown(segments[0])
  {
    assert segments[1..] == [];
    assert Upward(segments) == Shown(segments[0]) + Upward([]);
  }

  /** Reading backwards. */
  lemma {:induction false} ReverseAt<T>(s: seq<T>, i: nat)
    requires i < |s|
    ensures |Reverse(s)| == |s| && Reverse(s)[i] == s[|s| - 1 - i]
  {
    if |s| > 1 { ReverseAt(s[1..], if i < |s| - 1 then i else 0); }
  }

  lemma ReverseIs<T>(s: seq<T>, r: seq<T>)
    requires |r| == |s| && forall i :: 0 <= i < |r| ==> r[i] == s[|s| - 1 - i]
    ensures Reverse(s) == r
  {
    hide Reverse;
    if s == [] {
      NothingReversed<T>();
    } else {
      ReverseAt(s, 0);
      forall i | 0 <= i < |r| ensures Reverse(s)[i] == r[i] { ReverseAt(s, i); }
    }
  }

  lemma NothingReversed<T>()
    ensures Reverse<T>([]) == []
  {
  }

  // ----- the text of a path -----

  /** Every name with a slash before it. */
  ghost function EachAfterSlash(names: seq<string>): string {
    if names == [] then "" else "/" + names[0] + EachAfterSlash(names[1..])
  }

  /** The pieces of a text between the places where a character occurs. */
  ghost function SplitAt(s: string, c: char): seq<string>
    ensures SplitAt(s, c) != []
  {
    if s == "" then [""]
    else if s[0] == c then [""] + SplitAt(s[1..], c)
    else [[s[0]] + SplitAt(s[1..], c)[0]] + SplitAt(s[1..], c)[1..]
  }

  lemma {:induction false} JoinedAfterSlash(names: seq<string>)
    requires names != []
    ensures "/" + JoinWithSlash(names) == EachAfterSlash(names)
  {
    if |names| == 1 {
      assert names[1..] == [];
      assert EachAfterSlash(names) == "/" + names[0] + EachAfterSlash([]);
    } else {
      JoinedAfterSlash(names[1..]);
      assert "/" + (names[0] + "/" + JoinWithSlash(names[1..])) == "/" + names[0] + ("/" + JoinWithSlash(names[1..]));
    }
  }

  lemma {:induction false} SplitName(name: string, rest: string)
    requires '/' !in name
    ensures SplitAt(name + rest, '/') == [name + SplitAt(rest, '/')[0]] + SplitAt(rest, '/')[1..]
  {
    if name == "" {
      assert name + rest == rest && "" + SplitAt(rest, '/')[0] == SplitAt(rest, '/')[0];
    } else {
      assert (name + rest)[1..] == name[1..] + rest;
      SplitName(name[1..], rest);
      assert [name[0]] + (name[1..] + SplitAt(rest, '/')[0]) == name + SplitAt(rest, '/')[0];
    }
  }

  /** Splitting what `EachAfterSlash` writes gives the names, after an empty piece for the leading slash. */
  lemma {:induction false} SplitInverts(names: seq<string>)
    requires forall n :: n in names ==> '/' !in n
    ensures SplitAt(EachAfterSlash(names), '/') == [""] + names
  {
    if names != [] {
      var rest := EachAfterSlash(names[1..]);
      SplitInverts(names[1..]);
      SplitName(names[0], rest);
      assert EachAfterSlash(names) == "/" + (names[0] + rest);
      assert ("/" + (names[0] + rest))[1..] == names[0] + rest;
      assert names[0] + "" == names[0] && [names[0]] + names[1..] == names;
    }
  }

  /** Wherever the names of a file lie in memory, its path is each of them after a slash, from the process root down to the
    * file; when no name holds a slash, splitting the path gives them back. */
  lemma ReadPathReconstructs(m: Memory, o: PathOffsets, path: nat, root: Option<nat>, segments: seq<seq<string>>,
                             names: seq<string>)
    requires NamesFile(m, o, Limits(256, 64), path, root, segments) && LeadDown(segments, names)
    ensures var r := ReadPath(m, o, path, root);
            && r == Ok(if names == [] then "/" else EachAfterSlash(names))
            && (names != [] && (forall n :: n in names ==> '/' !in n) ==> SplitAt(r.value, '/') == [""] + names)
  {
    hide ReadPathWithin, NamesFile, Upward, EachAfterSlash, JoinWithSlash, SplitAt;
    ReadPathWithinReconstructs(m, o, LIMITS, path, root, segments);
    ReverseIs(Upward(segments), names);
    if names == [] {
      NothingJoined();
    } else {
      JoinedAfterSlash(names);
      if forall n :: n in names ==> '/' !in n { SplitInverts(names); }
    }
  }

  lemma NothingJoined()
    ensures "/" + JoinWithSlash([]) == "/"
  {
  }

  /** A path is returned only for names that memory holds: everything else is an error. */
  lemma ReadPathHasNames(m: Memory, o: PathOffsets, path: nat, root: Option<nat>)
    ensures ReadPath(m, o, path, root).Ok? <==> exists segments :: NamesFile(m, o, Limits(256, 64), path, root, segments)
  {
    hide ReadPathWithin, NamesFile;
    if ReadPath(m, o, path, root).Ok? {
      var segments := ReadPathWithinHasNames(m, o, LIMITS, path, root);
    }
    if segments :| NamesFile(m, o, Limits(256, 64), path, root, segments) {
      ReadPathWithinReconstructs(m, o, LIMITS, path, root, segments);
    }
  }
}
