/** The recursive resolver that turns BTF records into normalized types (vmlinux.rs, `BtfResolver`).
  * Its recursion is first defined as a function of a fuel, the number of nested type references it may follow; the
  * methods run whenever some fuel is enough, and compute exactly what the function says. */
module BtfResolver {
  import opened Wrappers
  import opened Btf
  import opened BtfNames
  import opened Defs
  import opened Text

  /** `owner` is the record that seeded an entry. */
  datatype State = State(
    userTypes: map<string, UserType>,
    enums: map<string, map<string, int>>,
    names: Names,
    owner: map<string, nat>)

  const EMPTY := State(map[], map[], NO_NAMES, map[])

  predicate FollowsSizeOrType(kind: Kind) {
    kind in {Ptr, Typedef, Volatile, Const, Restrict, TypeTag, DeclTag}
  }

  predicate IsComposite(btf: BtfFile, id: nat) {
    Exists(btf, id) && TypeById(btf, id).value.data.CompositeData?
  }

  function MembersOf(btf: BtfFile, id: nat): seq<Member>
    requires IsComposite(btf, id)
  {
    TypeById(btf, id).value.data.members
  }

  function SizeOf(btf: BtfFile, id: nat): nat
    requires IsComposite(btf, id)
  {
    TypeById(btf, id).value.sizeOrType
  }

  // ----- a record's fields -----

  function FieldName(m: Member, index: nat): string {
    if m.name == "" then "__anon_field_" + Decimal(index) else m.name
  }

  function FieldOf(m: Member, ty: TypeRef): Field {
    Field(m.bitOffset / 8, m.name == "", if m.bitfieldSize.GetOr(0) != 0 then BitfieldRef(ty) else ty)
  }

  function Constants(values: seq<(string, int)>): map<string, int> {
    if values == [] then map[] else Constants(values[..|values| - 1])[values[|values| - 1].0 := values[|values| - 1].1]
  }

  /** References that need no other record. */
  function LeafRef(ty: BtfType): TypeRef {
    match ty.kind
    case Int => BaseRef(if ty.name == "" then "int" else ty.name)
    case Float => BaseRef(if ty.name == "" then "float" else ty.name)
    case Fwd => BaseRef(if ty.name == "" then "fwd" else ty.name)
    case Func => FunctionRef
    case FuncProto => FunctionRef
    case _ => UnknownRef
  }

  // ----- the recursion, as a function of memory state and fuel -----

  datatype Run<T> = Exhausted | Ended(result: Result<T>, st: State)

  function Then<A, B>(run: Run<A>, f: A -> B): Run<B> {
    match run
    case Exhausted => Exhausted
    case Ended(Ok(a), st) => Ended(Ok(f(a)), st)
    case Ended(Err, st) => Ended(Err, st)
  }

  function Seeded(st: State, name: string, id: nat, size: nat): State {
    st.(userTypes := st.userTypes[name := UserType(size, map[])], owner := st.owner[name := id])
  }

  function Filled(st: State, name: string, size: nat, fields: map<string, Field>): State {
    st.(userTypes := st.userTypes[name := UserType(size, fields)])
  }

  function NameRun(btf: BtfFile, st: State, id: nat): (r: Run<string>)
    ensures r.Ended?
  {
    var named := st.(names := NameOne(btf, st.names, id));
    Ended(if id in named.names.of then Ok(named.names.of[id]) else Err, named)
  }

  function EnumRun(btf: BtfFile, st: State, id: nat): (r: Run<string>)
    ensures r.Ended?
  {
    var Ended(name, named) := NameRun(btf, st, id);
    if name.Err? || name.value in named.enums then Ended(name, named)
    else if !Exists(btf, id) || !TypeById(btf, id).value.data.EnumData? then Ended(Err, named)
    else Ended(name, named.(enums := named.enums[name.value := Constants(TypeById(btf, id).value.data.values)]))
  }

  function UserRun(btf: BtfFile, st: State, id: nat, fuel: nat): Run<string>
    decreases fuel, 2, 0
  {
    var Ended(name, named) := NameRun(btf, st, id);
    if name.Err? || name.value in named.userTypes then Ended(name, named)
    else if !IsComposite(btf, id) then Ended(Err, named)
    else
      var size := SizeOf(btf, id);
      match MembersRun(btf, Seeded(named, name.value, id, size), MembersOf(btf, id), fuel)
      case Exhausted => Exhausted
      case Ended(Err, s) => Ended(Err, s)
      case Ended(Ok(fields), s) => Ended(name, Filled(s, name.value, size, fields))
  }

  function MembersRun(btf: BtfFile, st: State, ms: seq<Member>, fuel: nat): Run<map<string, Field>>
    decreases fuel, 1, |ms|
  {
    if ms == [] then Ended(Ok(map[]), st)
    else
      var n := |ms| - 1;
      var front := MembersRun(btf, st, ms[..n], fuel);
      if !front.Ended? || front.result.Err? then front
      else
        Then(RefRun(btf, front.st, ms[n].typeId, fuel),
             (t: TypeRef) => front.result.value[FieldName(ms[n], n) := FieldOf(ms[n], t)])
  }

  function RefRun(btf: BtfFile, st: State, id: nat, fuel: nat): Run<TypeRef>
    decreases fuel, 0, 0
  {
    if fuel == 0 then Exhausted
    else if id == 0 then Ended(Ok(VoidRef), st)
    else if !Exists(btf, id) then Ended(Err, st)
    else
      var ty := TypeById(btf, id).value;
      if ty.kind == Ptr then Then(RefRun(btf, st, ty.sizeOrType, fuel - 1), (t: TypeRef) => PointerRef(t))
      else if FollowsSizeOrType(ty.kind) then RefRun(btf, st, ty.sizeOrType, fuel - 1)
      else if ty.kind == Array then
        if !ty.data.ArrayData? then Ended(Err, st)
        else
          var index := RefRun(btf, st, ty.data.indexType, fuel - 1);
          if !index.Ended? || index.result.Err? then index
          else Then(RefRun(btf, index.st, ty.data.elemType, fuel - 1), (t: TypeRef) => ArrayRef(ty.data.nelems, t))
      else if ty.kind == Struct then Then(UserRun(btf, st, id, fuel - 1), (n: string) => StructRef(n))
      else if ty.kind == Union then Then(UserRun(btf, st, id, fuel - 1), (n: string) => UnionRef(n))
      else if ty.kind == Enum || ty.kind == Enum64 then Then(EnumRun(btf, st, id), (n: string) => EnumRef(n))
      else Ended(Ok(LeafRef(ty)), st)
  }

  /** One call, in terms of the calls it makes. */
  lemma RefSteps(btf: BtfFile, st: State, id: nat, fuel: nat)
    requires fuel > 0
    ensures id == 0 ==> RefRun(btf, st, id, fuel) == Ended(Ok(VoidRef), st)
    ensures id != 0 && !Exists(btf, id) ==> RefRun(btf, st, id, fuel) == Ended(Err, st)
    ensures id != 0 && Exists(btf, id) ==>
              var ty, run := TypeById(btf, id).value, RefRun(btf, st, id, fuel);
              if ty.kind == Ptr then run == Then(RefRun(btf, st, ty.sizeOrType, fuel - 1), (t: TypeRef) => PointerRef(t))
              else if FollowsSizeOrType(ty.kind) then run == RefRun(btf, st, ty.sizeOrType, fuel - 1)
              else if ty.kind == Array then run == ArrayRun(btf, st, ty, fuel - 1)
              else if ty.kind == Struct then run == Then(UserRun(btf, st, id, fuel - 1), (n: string) => StructRef(n))
              else if ty.kind == Union then run == Then(UserRun(btf, st, id, fuel - 1), (n: string) => UnionRef(n))
              else if ty.kind == Enum || ty.kind == Enum64 then run == Then(EnumRun(btf, st, id), (n: string) => EnumRef(n))
              else run == Ended(Ok(LeafRef(ty)), st)
  {
    hide UserRun, EnumRun, LeafRef;
  }

  lemma NoFuel(btf: BtfFile, st: State, id: nat)
    ensures RefRun(btf, st, id, 0).Exhausted?
  {
  }

  function ArrayRun(btf: BtfFile, st: State, ty: BtfType, fuel: nat): Run<TypeRef> {
    if !ty.data.ArrayData? then Ended(Err, st)
    else
      var index := RefRun(btf, st, ty.data.indexType, fuel);
      if !index.Ended? || index.result.Err? then index
      else Then(RefRun(btf, index.st, ty.data.elemType, fuel), (t: TypeRef) => ArrayRef(ty.data.nelems, t))
  }

  // ----- every run only adds -----

  ghost predicate Grown(a: map<nat, string>, b: map<nat, string>) {
    forall id :: id in a ==> id in b && b[id] == a[id]
  }

  /** What any run may do: choose names, add user types and enums, and never change what is already there. */
  ghost predicate Extends(a: State, b: State) {
    && Grown(a.names.of, b.names.of)
    && (forall n :: n in a.userTypes ==> n in b.userTypes && b.userTypes[n] == a.userTypes[n])
    && (forall n :: n in a.owner ==> n in b.owner && b.owner[n] == a.owner[n])
    && (forall n :: n in a.enums ==> n in b.enums && b.enums[n] == a.enums[n])
  }

  lemma ExtendsTransitive(a: State, b: State, c: State)
    requires Extends(a, b) && Extends(b, c)
    ensures Extends(a, c)
  {
  }

  lemma SameState(st: State)
    ensures Extends(st, st)
  {
  }

  lemma NameExtends(btf: BtfFile, st: State, id: nat)
    ensures Extends(st, NameRun(btf, st, id).st)
    ensures var Ended(name, named) := NameRun(btf, st, id);
            && named == st.(names := named.names)
            && (name.Ok? ==> id in named.names.of && named.names.of[id] == name.value)
            && (name.Err? ==> id !in named.names.of)
  {
  }

  lemma EnumExtends(btf: BtfFile, st: State, id: nat)
    ensures var r := EnumRun(btf, st, id);
            && Extends(st, r.st)
            && (r.result.Ok? ==> id in r.st.names.of && r.st.names.of[id] == r.result.value && r.result.value in r.st.enums)
  {
    NameExtends(btf, st, id);
  }

  /** Filling an entry that was not there before keeps extending. */
  lemma FillExtends(a: State, b: State, name: string, size: nat, fields: map<string, Field>)
    requires Extends(a, b) && name !in a.userTypes
    ensures Extends(a, Filled(b, name, size, fields))
  {
  }

  lemma SeedExtends(a: State, name: string, id: nat, size: nat)
    requires name !in a.userTypes && name !in a.owner
    ensures Extends(a, Seeded(a, name, id, size))
  {
  }

  /** Entries and owners come together. */
  predicate Owned(st: State) {
    st.owner.Keys == st.userTypes.Keys
  }

  lemma {:induction false} RefExtends(btf: BtfFile, st: State, id: nat, fuel: nat)
    requires Owned(st)
    ensures var r := RefRun(btf, st, id, fuel);
            r.Ended? ==> Extends(st, r.st) && Owned(r.st)
    decreases fuel, 0, 0
  {
    hide Extends, RefRun, UserRun, EnumRun, LeafRef, Owned;
    SameState(st);
    if fuel == 0 { NoFuel(btf, st, id); } else { RefSteps(btf, st, id, fuel); }
    if fuel > 0 && id != 0 && TypeById(btf, id).Ok? {
      var ty := TypeById(btf, id).value;
      if FollowsSizeOrType(ty.kind) {
        RefExtends(btf, st, ty.sizeOrType, fuel - 1);
      } else if ty.kind == Array && ty.data.ArrayData? {
        RefExtends(btf, st, ty.data.indexType, fuel - 1);
        var index := RefRun(btf, st, ty.data.indexType, fuel - 1);
        if index.Ended? && index.result.Ok? {
          RefExtends(btf, index.st, ty.data.elemType, fuel - 1);
          var elem := RefRun(btf, index.st, ty.data.elemType, fuel - 1);
          if elem.Ended? { ExtendsTransitive(st, index.st, elem.st); }
        }
      } else if ty.kind == Struct || ty.kind == Union {
        UserExtends(btf, st, id, fuel - 1);
      } else if ty.kind == Enum || ty.kind == Enum64 {
        EnumExtends(btf, st, id);
        EnumOwned(btf, st, id);
      }
    }
  }

  lemma EnumOwned(btf: BtfFile, st: State, id: nat)
    requires Owned(st)
    ensures Owned(EnumRun(btf, st, id).st)
  {
  }

  /** A run that succeeds leaves the record named and its entry in place. */
  lemma {:induction false} UserExtends(btf: BtfFile, st: State, id: nat, fuel: nat)
    requires Owned(st)
    ensures var r := UserRun(btf, st, id, fuel);
            r.Ended? ==>
              && Extends(st, r.st) && Owned(r.st)
              && (r.result.Ok? ==> id in r.st.names.of && r.st.names.of[id] == r.result.value && r.result.value in r.st.userTypes)
    decreases fuel, 2, 0
  {
    hide Extends, MembersRun, NameRun;
    NameExtends(btf, st, id);
    var Ended(name, named) := NameRun(btf, st, id);
    if name.Ok? && name.value !in named.userTypes && IsComposite(btf, id) {
      var size := SizeOf(btf, id);
      var seeded := Seeded(named, name.value, id, size);
      SeedExtends(named, name.value, id, size);
      ExtendsTransitive(st, named, seeded);
      MembersExtend(btf, seeded, MembersOf(btf, id), fuel);
      var r := MembersRun(btf, seeded, MembersOf(btf, id), fuel);
      if r.Ended? {
        ExtendsTransitive(st, seeded, r.st);
        ExtendsName(seeded, r.st, id);
        ExtendsEntry(seeded, r.st, name.value);
        if r.result.Ok? { FillExtends(st, r.st, name.value, size, r.result.value); }
      }
    }
  }

  lemma ExtendsName(a: State, b: State, id: nat)
    requires Extends(a, b) && id in a.names.of
    ensures id in b.names.of && b.names.of[id] == a.names.of[id]
  {
  }

  lemma ExtendsEntry(a: State, b: State, name: string)
    requires Extends(a, b) && name in a.userTypes
    ensures name in b.userTypes && b.userTypes[name] == a.userTypes[name]
    ensures name in a.owner ==> name in b.owner && b.owner[name] == a.owner[name]
  {
  }

  lemma {:induction false} MembersExtend(btf: BtfFile, st: State, ms: seq<Member>, fuel: nat)
    requires Owned(st)
    ensures var r := MembersRun(btf, st, ms, fuel);
            r.Ended? ==> Extends(st, r.st) && Owned(r.st)
    decreases fuel, 1, |ms|
  {
    hide Extends, RefRun;
    SameState(st);
    if ms != [] {
      var n := |ms| - 1;
      MembersExtend(btf, st, ms[..n], fuel);
      var front := MembersRun(btf, st, ms[..n], fuel);
      if front.Ended? && front.result.Ok? {
        RefExtends(btf, front.st, ms[n].typeId, fuel);
        var last := RefRun(btf, front.st, ms[n].typeId, fuel);
        if last.Ended? { ExtendsTransitive(st, front.st, last.st); }
      }
    }
  }

  // ----- more fuel changes nothing -----

  lemma {:induction false} RefMore(btf: BtfFile, st: State, id: nat, fuel: nat, more: nat)
    requires fuel <= more && RefRun(btf, st, id, fuel).Ended?
    ensures RefRun(btf, st, id, more) == RefRun(btf, st, id, fuel)
    decreases fuel, 0, 0
  {
    hide RefRun, UserRun, EnumRun, LeafRef;
    if fuel == 0 { NoFuel(btf, st, id); }
    RefSteps(btf, st, id, fuel);
    RefSteps(btf, st, id, more);
    if id != 0 && Exists(btf, id) {
      var ty := TypeById(btf, id).value;
      if FollowsSizeOrType(ty.kind) {
        RefMore(btf, st, ty.sizeOrType, fuel - 1, more - 1);
      } else if ty.kind == Array && ty.data.ArrayData? {
        RefMore(btf, st, ty.data.indexType, fuel - 1, more - 1);
        var index := RefRun(btf, st, ty.data.indexType, fuel - 1);
        if index.result.Ok? {
          RefMore(btf, index.st, ty.data.elemType, fuel - 1, more - 1);
        }
      } else if ty.kind == Struct || ty.kind == Union {
        UserMore(btf, st, id, fuel - 1, more - 1);
      }
    }
  }

  lemma {:induction false} UserMore(btf: BtfFile, st: State, id: nat, fuel: nat, more: nat)
    requires fuel <= more && UserRun(btf, st, id, fuel).Ended?
    ensures UserRun(btf, st, id, more) == UserRun(btf, st, id, fuel)
    decreases fuel, 2, 0
  {
    hide MembersRun, NameOne;
    var Ended(name, named) := NameRun(btf, st, id);
    if name.Ok? && name.value !in named.userTypes && IsComposite(btf, id) {
      MembersMore(btf, Seeded(named, name.value, id, SizeOf(btf, id)), MembersOf(btf, id), fuel, more);
    }
  }

  lemma {:induction false} MembersMore(btf: BtfFile, st: State, ms: seq<Member>, fuel: nat, more: nat)
    requires fuel <= more && MembersRun(btf, st, ms, fuel).Ended?
    ensures MembersRun(btf, st, ms, more) == MembersRun(btf, st, ms, fuel)
    decreases fuel, 1, |ms|
  {
    hide RefRun;
    if ms != [] {
      var n := |ms| - 1;
      MembersMore(btf, st, ms[..n], fuel, more);
      var front := MembersRun(btf, st, ms[..n], fuel);
      if front.result.Ok? { RefMore(btf, front.st, ms[n].typeId, fuel, more); }
    }
  }

  /** Members after one that fails or does not end are not looked at. */
  lemma {:induction false} MembersStop(btf: BtfFile, st: State, ms: seq<Member>, k: nat, fuel: nat)
    requires k <= |ms|
    ensures var run := MembersRun(btf, st, ms[..k], fuel);
            !run.Ended? || run.result.Err? ==> MembersRun(btf, st, ms, fuel) == run
  {
    hide RefRun;
    if k == |ms| {
      assert ms[..k] == ms;
    } else {
      assert ms[..|ms| - 1][..k] == ms[..k];
      MembersStop(btf, st, ms[..|ms| - 1], k, fuel);
    }
  }

  /** One more member. */
  lemma MembersStep(btf: BtfFile, st: State, ms: seq<Member>, k: nat, fuel: nat)
    requires k < |ms|
    ensures var front, next := MembersRun(btf, st, ms[..k], fuel), MembersRun(btf, st, ms[..k + 1], fuel);
            front.Ended? && front.result.Ok? ==>
              next == Then(RefRun(btf, front.st, ms[k].typeId, fuel),
                           (t: TypeRef) => front.result.value[FieldName(ms[k], k) := FieldOf(ms[k], t)])
  {
    hide RefRun;
    assert ms[..k + 1][..k] == ms[..k];
  }

  // ----- a second run repeats the first -----

  /** Once a reference has been resolved, resolving it again in any later state gives the same and changes nothing. */
  lemma {:induction false} RefAgain(btf: BtfFile, st: State, id: nat, fuel: nat, later: State)
    requires Owned(st)
    requires var r := RefRun(btf, st, id, fuel);
             r.Ended? && r.result.Ok? && Extends(r.st, later)
    ensures RefRun(btf, later, id, fuel) == Ended(RefRun(btf, st, id, fuel).result, later)
    decreases fuel
  {
    hide RefRun, UserRun, EnumRun, LeafRef, Extends, Owned;
    var r := RefRun(btf, st, id, fuel);
    if fuel == 0 { NoFuel(btf, st, id); }
    RefSteps(btf, st, id, fuel);
    RefSteps(btf, later, id, fuel);
    if id != 0 {
      var ty := TypeById(btf, id).value;
      if FollowsSizeOrType(ty.kind) {
        RefAgain(btf, st, ty.sizeOrType, fuel - 1, later);
      } else if ty.kind == Array {
        var index := RefRun(btf, st, ty.data.indexType, fuel - 1);
        RefExtends(btf, st, ty.data.indexType, fuel - 1);
        RefExtends(btf, index.st, ty.data.elemType, fuel - 1);
        ExtendsTransitive(index.st, r.st, later);
        RefAgain(btf, st, ty.data.indexType, fuel - 1, later);
        RefAgain(btf, index.st, ty.data.elemType, fuel - 1, later);
      } else if ty.kind == Struct || ty.kind == Union {
        UserAgain(btf, st, id, fuel - 1, later);
      } else if ty.kind == Enum || ty.kind == Enum64 {
        EnumAgain(btf, st, id, later);
      }
    }
  }

  lemma UserAgain(btf: BtfFile, st: State, id: nat, fuel: nat, later: State)
    requires Owned(st)
    requires var r := UserRun(btf, st, id, fuel);
             r.Ended? && r.result.Ok? && Extends(r.st, later)
    ensures UserRun(btf, later, id, fuel) == Ended(UserRun(btf, st, id, fuel).result, later)
  {
    hide MembersRun;
    UserExtends(btf, st, id, fuel);
    StillNamed(btf, later, id);
  }

  lemma EnumAgain(btf: BtfFile, st: State, id: nat, later: State)
    requires var r := EnumRun(btf, st, id);
             r.result.Ok? && Extends(r.st, later)
    ensures EnumRun(btf, later, id) == Ended(EnumRun(btf, st, id).result, later)
  {
    EnumExtends(btf, st, id);
    StillNamed(btf, later, id);
  }

  lemma StillNamed(btf: BtfFile, st: State, id: nat)
    requires id in st.names.of
    ensures NameRun(btf, st, id) == Ended(Ok(st.names.of[id]), st)
  {
  }

  // ----- what a type id denotes, given the names chosen so far -----

  /** The reference behind an id, looking through at most `fuel` records; None if that is not enough to tell. */
  function Denoted(btf: BtfFile, of: map<nat, string>, id: nat, fuel: nat): Option<TypeRef>
    decreases fuel
  {
    if fuel == 0 then None
    else if id == 0 then Some(VoidRef)
    else if !Exists(btf, id) then None
    else
      var ty := TypeById(btf, id).value;
      if ty.kind == Ptr then
        var sub := Denoted(btf, of, ty.sizeOrType, fuel - 1);
        if sub.None? then None else Some(PointerRef(sub.value))
      else if ty.kind in {Typedef, Volatile, Const, Restrict, TypeTag, DeclTag} then Denoted(btf, of, ty.sizeOrType, fuel - 1)
      else if ty.kind == Array then
        if !ty.data.ArrayData? then None
        else
          var elem := Denoted(btf, of, ty.data.elemType, fuel - 1);
          if elem.None? then None else Some(ArrayRef(ty.data.nelems, elem.value))
      else if ty.kind == Struct then (if id in of then Some(StructRef(of[id])) else None)
      else if ty.kind == Union then (if id in of then Some(UnionRef(of[id])) else None)
      else if ty.kind in {Enum, Enum64} then (if id in of then Some(EnumRef(of[id])) else None)
      else if ty.kind == Int then Some(BaseRef(if ty.name == "" then "int" else ty.name))
      else if ty.kind == Float then Some(BaseRef(if ty.name == "" then "float" else ty.name))
      else if ty.kind == Fwd then Some(BaseRef(if ty.name == "" then "fwd" else ty.name))
      else if ty.kind in {Func, FuncProto} then Some(FunctionRef)
      else Some(UnknownRef)
  }

  /** What an id denotes does not change as more names are chosen, nor with more fuel. */
  lemma {:induction false} DenotedStays(btf: BtfFile, a: map<nat, string>, b: map<nat, string>, id: nat, fuel: nat, more: nat)
    requires Grown(a, b) && fuel <= more && Denoted(btf, a, id, fuel).Some?
    ensures Denoted(btf, b, id, more) == Denoted(btf, a, id, fuel)
    decreases fuel
  {
    if id != 0 && Exists(btf, id) {
      var ty := TypeById(btf, id).value;
      if FollowsSizeOrType(ty.kind) {
        DenotedStays(btf, a, b, ty.sizeOrType, fuel - 1, more - 1);
      } else if ty.kind == Array {
        DenotedStays(btf, a, b, ty.data.elemType, fuel - 1, more - 1);
      }
    }
  }

  lemma DenotedSteps(btf: BtfFile, of: map<nat, string>, id: nat, fuel: nat)
    requires fuel > 0
    ensures id == 0 ==> Denoted(btf, of, id, fuel) == Some(VoidRef)
    ensures id != 0 && Exists(btf, id) ==>
              var ty, d := TypeById(btf, id).value, Denoted(btf, of, id, fuel);
              if ty.kind == Ptr then
                var sub := Denoted(btf, of, ty.sizeOrType, fuel - 1); sub.Some? ==> d == Some(PointerRef(sub.value))
              else if FollowsSizeOrType(ty.kind) then d == Denoted(btf, of, ty.sizeOrType, fuel - 1)
              else if ty.kind == Array then
                ty.data.ArrayData? ==>
                  var elem := Denoted(btf, of, ty.data.elemType, fuel - 1);
                  elem.Some? ==> d == Some(ArrayRef(ty.data.nelems, elem.value))
              else if ty.kind == Struct then id in of ==> d == Some(StructRef(of[id]))
              else if ty.kind == Union then id in of ==> d == Some(UnionRef(of[id]))
              else if ty.kind == Enum || ty.kind == Enum64 then id in of ==> d == Some(EnumRef(of[id]))
              else d == Some(LeafRef(ty))
  {
  }

  /** Every struct or union name inside a type is a known user type, and every enum name a known enum. */
  predicate Closed(t: TypeRef, users: set<string>, enums: set<string>) {
    match t
    case StructRef(name) => name in users
    case UnionRef(name) => name in users
    case EnumRef(name) => name in enums
    case PointerRef(sub) => Closed(sub, users, enums)
    case ArrayRef(_, sub) => Closed(sub, users, enums)
    case BitfieldRef(sub) => Closed(sub, users, enums)
    case _ => true
  }

  lemma ClosedSteps(t: TypeRef, users: set<string>, enums: set<string>)
    ensures match t
            case StructRef(name) => Closed(t, users, enums) == (name in users)
            case UnionRef(name) => Closed(t, users, enums) == (name in users)
            case EnumRef(name) => Closed(t, users, enums) == (name in enums)
            case PointerRef(sub) => Closed(t, users, enums) == Closed(sub, users, enums)
            case ArrayRef(_, sub) => Closed(t, users, enums) == Closed(sub, users, enums)
            case BitfieldRef(sub) => Closed(t, users, enums) == Closed(sub, users, enums)
            case _ => Closed(t, users, enums)
  {
  }

  lemma {:induction false} ClosedStays(t: TypeRef, users: set<string>, enums: set<string>, moreUsers: set<string>,
                                       moreEnums: set<string>)
    requires Closed(t, users, enums) && users <= moreUsers && enums <= moreEnums
    ensures Closed(t, moreUsers, moreEnums)
    decreases t
  {
    match t {
      case PointerRef(sub) => ClosedStays(sub, users, enums, moreUsers, moreEnums);
      case ArrayRef(_, sub) => ClosedStays(sub, users, enums, moreUsers, moreEnums);
      case BitfieldRef(sub) => ClosedStays(sub, users, enums, moreUsers, moreEnums);
      case _ =>
    }
  }

  /** The fields of some members: byte offsets, types as denoted; None when a member's type is not resolved. */
  function FieldsOf(btf: BtfFile, of: map<nat, string>, ms: seq<Member>, fuel: nat): Option<map<string, Field>> {
    if ms == [] then Some(map[])
    else
      var n := |ms| - 1;
      var front, ty := FieldsOf(btf, of, ms[..n], fuel), Denoted(btf, of, ms[n].typeId, fuel);
      if front.None? || ty.None? then None
      else Some(front.value[FieldName(ms[n], n) := FieldOf(ms[n], ty.value)])
  }

  lemma {:induction false} FieldsStay(btf: BtfFile, a: map<nat, string>, b: map<nat, string>, ms: seq<Member>, fuel: nat)
    requires Grown(a, b) && FieldsOf(btf, a, ms, fuel).Some?
    ensures FieldsOf(btf, b, ms, fuel) == FieldsOf(btf, a, ms, fuel)
  {
    if ms != [] {
      hide Denoted;
      FieldsStay(btf, a, b, ms[..|ms| - 1], fuel);
      DenotedStays(btf, a, b, ms[|ms| - 1].typeId, fuel, fuel);
    }
  }

  ghost predicate FieldsClosed(fields: map<string, Field>, users: set<string>, enums: set<string>) {
    forall f :: f in fields ==> Closed(fields[f].ty, users, enums)
  }

  lemma FieldsClosedStay(fields: map<string, Field>, users: set<string>, enums: set<string>, moreUsers: set<string>,
                         moreEnums: set<string>)
    requires FieldsClosed(fields, users, enums) && users <= moreUsers && enums <= moreEnums
    ensures FieldsClosed(fields, moreUsers, moreEnums)
  {
    forall f | f in fields ensures Closed(fields[f].ty, moreUsers, moreEnums) {
      ClosedStays(fields[f].ty, users, enums, moreUsers, moreEnums);
    }
  }

  /** The type behind an id, however many records it takes to tell. */
  ghost predicate Denotes(btf: BtfFile, of: map<nat, string>, id: nat, t: TypeRef) {
    exists fuel: nat :: Denoted(btf, of, id, fuel) == Some(t)
  }

  /** The key of member number `i`. */
  ghost function KeyAt(m: Member, i: nat): string {
    if m.name == "" then "__anon_field_" + Decimal(i) else m.name
  }

  /** The byte that the member's first bit lies in, whether it has no name, and its type; a bitfield if it has a size in bits. */
  ghost predicate IsFieldOf(btf: BtfFile, of: map<nat, string>, m: Member, f: Field) {
    && 8 * f.offset <= m.bitOffset < 8 * f.offset + 8 && (f.anonymous <==> m.name == "")
    && exists t :: Denotes(btf, of, m.typeId, t)
                   && f.ty == if m.bitfieldSize.Some? && m.bitfieldSize.value != 0 then BitfieldRef(t) else t
  }

  /** The fields are those of the members; of members with the same key, the last one's. */
  ghost predicate FieldsAre(btf: BtfFile, of: map<nat, string>, ms: seq<Member>, fields: map<string, Field>) {
    && (forall i :: 0 <= i < |ms| ==> KeyAt(ms[i], i) in fields)
    && forall key :: key in fields ==> exists i :: IsLastWithKey(ms, i, key) && IsFieldOf(btf, of, ms[i], fields[key])
  }

  ghost predicate IsLastWithKey(ms: seq<Member>, i: int, key: string) {
    0 <= i < |ms| && KeyAt(ms[i], i) == key && forall j :: i < j < |ms| ==> KeyAt(ms[j], j) != key
  }

  lemma FieldIsFieldOf(btf: BtfFile, of: map<nat, string>, m: Member, t: TypeRef, fuel: nat)
    requires Denoted(btf, of, m.typeId, fuel) == Some(t)
    ensures IsFieldOf(btf, of, m, FieldOf(m, t))
  {
    hide Denoted;
    assert Denotes(btf, of, m.typeId, t);
  }

  lemma KeyIsFieldName(m: Member, i: nat)
    ensures KeyAt(m, i) == FieldName(m, i)
  {
  }

  /** One more member. */
  lemma FieldsAreMore(btf: BtfFile, of: map<nat, string>, ms: seq<Member>, front: map<string, Field>, f: Field)
    requires ms != [] && FieldsAre(btf, of, ms[..|ms| - 1], front) && IsFieldOf(btf, of, ms[|ms| - 1], f)
    ensures FieldsAre(btf, of, ms, front[KeyAt(ms[|ms| - 1], |ms| - 1) := f])
  {
    hide IsFieldOf, KeyAt;
    var n := |ms| - 1;
    var last := KeyAt(ms[n], n);
    var fields := front[last := f];
    forall i | 0 <= i < |ms| ensures KeyAt(ms[i], i) in fields {
      assert i < n ==> ms[..n][i] == ms[i];
    }
    forall key | key in fields ensures exists i :: IsLastWithKey(ms, i, key) && IsFieldOf(btf, of, ms[i], fields[key]) {
      if key == last {
        assert IsLastWithKey(ms, n, key);
      } else {
        var i :| IsLastWithKey(ms[..n], i, key) && IsFieldOf(btf, of, ms[..n][i], front[key]);
        StillLast(ms, i, key);
      }
    }
  }

  lemma StillLast(ms: seq<Member>, i: int, key: string)
    requires ms != [] && IsLastWithKey(ms[..|ms| - 1], i, key) && KeyAt(ms[|ms| - 1], |ms| - 1) != key
    ensures IsLastWithKey(ms, i, key)
  {
    hide KeyAt;
  }

  lemma {:induction false} FieldsOfAre(btf: BtfFile, of: map<nat, string>, ms: seq<Member>, fuel: nat, fields: map<string, Field>)
    requires FieldsOf(btf, of, ms, fuel) == Some(fields)
    ensures FieldsAre(btf, of, ms, fields)
  {
    if ms != [] {
      hide Denoted, FieldName, FieldOf, KeyAt, IsFieldOf, FieldsAre;
      var n := |ms| - 1;
      var front, t := FieldsOf(btf, of, ms[..n], fuel).value, Denoted(btf, of, ms[n].typeId, fuel).value;
      FieldsOfAre(btf, of, ms[..n], fuel, front);
      KeyIsFieldName(ms[n], n);
      FieldIsFieldOf(btf, of, ms[n], t, fuel);
      FieldsAreMore(btf, of, ms, front, FieldOf(ms[n], t));
    }
  }

  lemma FieldsAreStay(btf: BtfFile, a: map<nat, string>, b: map<nat, string>, ms: seq<Member>, fields: map<string, Field>)
    requires FieldsAre(btf, a, ms, fields) && Grown(a, b)
    ensures FieldsAre(btf, b, ms, fields)
  {
    hide IsFieldOf, KeyAt, Grown;
    forall key | key in fields ensures exists i :: IsLastWithKey(ms, i, key) && IsFieldOf(btf, b, ms[i], fields[key]) {
      var i :| IsLastWithKey(ms, i, key) && IsFieldOf(btf, a, ms[i], fields[key]);
      FieldStays(btf, a, b, ms[i], fields[key]);
    }
  }

  lemma FieldStays(btf: BtfFile, a: map<nat, string>, b: map<nat, string>, m: Member, f: Field)
    requires IsFieldOf(btf, a, m, f) && Grown(a, b)
    ensures IsFieldOf(btf, b, m, f)
  {
    hide Denoted, Grown;
    var t :| Denotes(btf, a, m.typeId, t) && f.ty == if m.bitfieldSize.Some? && m.bitfieldSize.value != 0 then BitfieldRef(t) else t;
    var fuel: nat :| Denoted(btf, a, m.typeId, fuel) == Some(t);
    DenotedStays(btf, a, b, m.typeId, fuel, fuel);
    assert Denotes(btf, b, m.typeId, t);
  }

  /** An id denotes one type only. */
  lemma DenotesOne(btf: BtfFile, of: map<nat, string>, id: nat, t: TypeRef, u: TypeRef)
    requires Denotes(btf, of, id, t) && Denotes(btf, of, id, u)
    ensures t == u
  {
    hide Denoted;
    var f: nat :| Denoted(btf, of, id, f) == Some(t);
    var g: nat :| Denoted(btf, of, id, g) == Some(u);
    if f <= g { DenotedStays(btf, of, of, id, f, g); } else { DenotedStays(btf, of, of, id, g, f); }
  }

  /** The file and the names chosen determine the fields of some members. */
  lemma FieldsUnique(btf: BtfFile, of: map<nat, string>, ms: seq<Member>, a: map<string, Field>, b: map<string, Field>)
    requires FieldsAre(btf, of, ms, a) && FieldsAre(btf, of, ms, b)
    ensures a == b
  {
    hide IsFieldOf, KeyAt;
    forall key ensures key in a <==> key in b {
      if key in a { var i :| IsLastWithKey(ms, i, key) && IsFieldOf(btf, of, ms[i], a[key]); }
      if key in b { var i :| IsLastWithKey(ms, i, key) && IsFieldOf(btf, of, ms[i], b[key]); }
    }
    forall key | key in a ensures a[key] == b[key] {
      var i :| IsLastWithKey(ms, i, key) && IsFieldOf(btf, of, ms[i], a[key]);
      var j :| IsLastWithKey(ms, j, key) && IsFieldOf(btf, of, ms[j], b[key]);
      assert i == j;
      FieldUnique(btf, of, ms[i], a[key], b[key]);
    }
  }

  lemma FieldUnique(btf: BtfFile, of: map<nat, string>, m: Member, f: Field, g: Field)
    requires IsFieldOf(btf, of, m, f) && IsFieldOf(btf, of, m, g)
    ensures f == g
  {
    hide Denotes;
    forall t, u | Denotes(btf, of, m.typeId, t) && Denotes(btf, of, m.typeId, u) ensures t == u {
      DenotesOne(btf, of, m.typeId, t, u);
    }
  }

  /** The entry is the record of `id`: its size, and its members at their byte offsets with their types. */
  ghost predicate HoldsRecord(btf: BtfFile, of: map<nat, string>, entry: UserType, id: nat) {
    && 1 <= id <= |btf.types|
    && var ty := btf.types[id - 1];
    ty.data.CompositeData? && entry.size == ty.sizeOrType && FieldsAre(btf, of, ty.data.members, entry.fields)
  }

  lemma HoldsRecordStays(btf: BtfFile, a: map<nat, string>, b: map<nat, string>, entry: UserType, id: nat)
    requires HoldsRecord(btf, a, entry, id) && Grown(a, b)
    ensures HoldsRecord(btf, b, entry, id)
  {
    hide FieldsAre, Grown;
    FieldsAreStay(btf, a, b, btf.types[id - 1].data.members, entry.fields);
  }

  lemma FilledHolds(btf: BtfFile, of: map<nat, string>, id: nat, fuel: nat, fields: map<string, Field>)
    requires IsComposite(btf, id) && FieldsOf(btf, of, MembersOf(btf, id), fuel) == Some(fields)
    ensures HoldsRecord(btf, of, UserType(SizeOf(btf, id), fields), id)
  {
    hide FieldsOf, FieldsAre;
    FieldsOfAre(btf, of, MembersOf(btf, id), fuel, fields);
  }

  // ----- the invariant -----

  /** `open` names the seeded types whose members are being walked; every other entry is complete and closed. */
  ghost predicate Inv(btf: BtfFile, st: State, open: set<string>) {
    && NamesKnown(btf, st.names) && Owned(st) && open <= st.userTypes.Keys
    && (forall n :: n in st.owner ==> st.owner[n] in st.names.of && st.names.of[st.owner[n]] == n)
    && (forall n :: n in st.userTypes && n !in open ==> IsComplete(btf, st, n))
    && (forall n :: n in st.enums ==> EnumKnown(btf, st.names.of, n, st.enums[n]))
  }

  ghost predicate IsComplete(btf: BtfFile, st: State, n: string)
    requires n in st.userTypes && Owned(st)
  {
    && HoldsRecord(btf, st.names.of, st.userTypes[n], st.owner[n])
    && FieldsClosed(st.userTypes[n].fields, st.userTypes.Keys, st.enums.Keys)
  }

  /** The constants are those of an enum record that goes by this name. */
  ghost predicate EnumKnown(btf: BtfFile, of: map<nat, string>, n: string, constants: map<string, int>) {
    exists id :: id in of && of[id] == n && IsEnumRecord(btf, id, constants)
  }

  /** The record is an enum with these constants; of enumerators with the same name, the last one's value. */
  ghost predicate IsEnumRecord(btf: BtfFile, id: nat, constants: map<string, int>) {
    && 1 <= id <= |btf.types| && btf.types[id - 1].data.EnumData?
    && ConstantsAre(btf.types[id - 1].data.values, constants)
  }

  ghost predicate ConstantsAre(values: seq<(string, int)>, constants: map<string, int>) {
    && (forall i :: 0 <= i < |values| ==> values[i].0 in constants)
    && forall name :: name in constants ==>
         exists i :: 0 <= i < |values| && values[i] == (name, constants[name]) && forall j :: i < j < |values| ==> values[j].0 != name
  }

  lemma {:induction false} ConstantsMeaning(values: seq<(string, int)>)
    ensures ConstantsAre(values, Constants(values))
  {
    if values != [] {
      var front, last := values[..|values| - 1], values[|values| - 1];
      ConstantsMeaning(front);
      var all := Constants(values);
      forall i | 0 <= i < |values| ensures values[i].0 in all {
        assert i < |front| ==> front[i].0 in Constants(front);
      }
      forall name | name in all
        ensures exists i :: 0 <= i < |values| && values[i] == (name, all[name]) && forall j :: i < j < |values| ==> values[j].0 != name
      {
        if name == last.0 {
          assert values[|front|] == (name, all[name]);
        } else {
          var i :| 0 <= i < |front| && front[i] == (name, Constants(front)[name])
                   && forall j :: i < j < |front| ==> front[j].0 != name;
          assert values[i] == (name, all[name]);
        }
      }
    }
  }

  lemma EnumKnownStays(btf: BtfFile, a: map<nat, string>, b: map<nat, string>, n: string, constants: map<string, int>)
    requires EnumKnown(btf, a, n, constants) && Grown(a, b)
    ensures EnumKnown(btf, b, n, constants)
  {
  }

  lemma EmptyInv(btf: BtfFile)
    ensures Inv(btf, EMPTY, {})
  {
  }

  lemma NameKeeps(btf: BtfFile, st: State, id: nat, open: set<string>)
    requires Inv(btf, st, open)
    ensures Inv(btf, NameRun(btf, st, id).st, open)
  {
    hide NamesKnown, NameOne, HoldsRecord, EnumKnown, FieldsClosed;
    NameExtends(btf, st, id);
    NameOneKeepsNames(btf, st.names, id);
    var named := NameRun(btf, st, id).st;
    forall n | n in named.userTypes && n !in open ensures IsComplete(btf, named, n) {
      HoldsRecordStays(btf, st.names.of, named.names.of, st.userTypes[n], st.owner[n]);
    }
    forall n | n in named.enums ensures EnumKnown(btf, named.names.of, n, named.enums[n]) {
      EnumKnownStays(btf, st.names.of, named.names.of, n, st.enums[n]);
    }
  }

  lemma EnumKeeps(btf: BtfFile, st: State, id: nat, open: set<string>)
    requires Inv(btf, st, open)
    ensures Inv(btf, EnumRun(btf, st, id).st, open)
  {
    hide NamesKnown, NameRun, HoldsRecord, FieldsClosed, Constants, ConstantsAre;
    NameKeeps(btf, st, id, open);
    NameExtends(btf, st, id);
    if Exists(btf, id) && TypeById(btf, id).value.data.EnumData? { ConstantsMeaning(TypeById(btf, id).value.data.values); }
    var named, r := NameRun(btf, st, id).st, EnumRun(btf, st, id).st;
    forall n | n in r.userTypes && n !in open ensures IsComplete(btf, r, n) {
      assert IsComplete(btf, named, n);
      FieldsClosedStay(named.userTypes[n].fields, named.userTypes.Keys, named.enums.Keys, r.userTypes.Keys, r.enums.Keys);
    }
  }

  /** Seeding an entry leaves it open. */
  lemma InvAfterSeed(btf: BtfFile, st: State, name: string, id: nat, size: nat, open: set<string>)
    requires Inv(btf, st, open) && name !in st.userTypes && id in st.names.of && st.names.of[id] == name
    ensures Inv(btf, Seeded(st, name, id, size), open + {name})
  {
    hide NamesKnown, HoldsRecord, FieldsClosed, EnumKnown;
    var next := Seeded(st, name, id, size);
    forall n | n in next.userTypes && n !in open + {name} ensures IsComplete(btf, next, n) {
      assert IsComplete(btf, st, n);
      FieldsClosedStay(st.userTypes[n].fields, st.userTypes.Keys, st.enums.Keys, next.userTypes.Keys, st.enums.Keys);
    }
  }

  /** Filling an open entry with its record's fields completes it. */
  lemma InvAfterFill(btf: BtfFile, st: State, name: string, size: nat, fields: map<string, Field>, open: set<string>)
    requires Inv(btf, st, open + {name}) && name !in open && name in st.userTypes
    requires HoldsRecord(btf, st.names.of, UserType(size, fields), st.owner[name])
    requires FieldsClosed(fields, st.userTypes.Keys, st.enums.Keys)
    ensures Inv(btf, Filled(st, name, size, fields), open)
  {
    hide NamesKnown, HoldsRecord, FieldsClosed, EnumKnown;
    var next := Filled(st, name, size, fields);
    assert next.userTypes.Keys == st.userTypes.Keys;
    forall n | n in next.userTypes && n !in open ensures IsComplete(btf, next, n) {
      assert n != name ==> IsComplete(btf, st, n);
    }
  }

  /** A reference that is resolved denotes what its id does, and names only known types; nothing is left open by it. */
  lemma {:induction false} RefKeeps(btf: BtfFile, st: State, id: nat, fuel: nat, open: set<string>)
    requires Inv(btf, st, open)
    ensures var r := RefRun(btf, st, id, fuel);
            r.Ended? && r.result.Ok? ==>
              && Inv(btf, r.st, open) && Denoted(btf, r.st.names.of, id, fuel) == Some(r.result.value)
              && Closed(r.result.value, r.st.userTypes.Keys, r.st.enums.Keys)
    decreases fuel, 0, 0
  {
    hide Inv, Extends, RefRun, UserRun, EnumRun, LeafRef, Denoted, Closed;
    var r := RefRun(btf, st, id, fuel);
    if fuel == 0 { NoFuel(btf, st, id); } else { RefSteps(btf, st, id, fuel); }
    if r.Ended? && r.result.Ok? {
      DenotedSteps(btf, r.st.names.of, id, fuel);
      ClosedSteps(r.result.value, r.st.userTypes.Keys, r.st.enums.Keys);
    }
    if r.Ended? && r.result.Ok? && id != 0 {
      InvOwned(btf, st, open);
      var ty := TypeById(btf, id).value;
      if FollowsSizeOrType(ty.kind) {
        RefKeeps(btf, st, ty.sizeOrType, fuel - 1, open);
      } else if ty.kind == Array {
        RefKeeps(btf, st, ty.data.indexType, fuel - 1, open);
        RefKeeps(btf, RefRun(btf, st, ty.data.indexType, fuel - 1).st, ty.data.elemType, fuel - 1, open);
      } else if ty.kind == Struct || ty.kind == Union {
        UserKeeps(btf, st, id, fuel - 1, open);
        UserExtends(btf, st, id, fuel - 1);
      } else if ty.kind == Enum || ty.kind == Enum64 {
        EnumKeeps(btf, st, id, open);
        EnumExtends(btf, st, id);
      } else {
        LeafIsClosed(ty, st.userTypes.Keys, st.enums.Keys);
      }
    }
  }

  lemma LeafIsClosed(ty: BtfType, users: set<string>, enums: set<string>)
    ensures Closed(LeafRef(ty), users, enums)
  {
  }

  lemma InvOwned(btf: BtfFile, st: State, open: set<string>)
    requires Inv(btf, st, open)
    ensures Owned(st) && open <= st.userTypes.Keys
  {
  }

  lemma {:induction false} UserKeeps(btf: BtfFile, st: State, id: nat, fuel: nat, open: set<string>)
    requires Inv(btf, st, open)
    ensures var r := UserRun(btf, st, id, fuel);
            r.Ended? && r.result.Ok? ==> Inv(btf, r.st, open)
    decreases fuel, 2, 0
  {
    hide Inv, MembersRun, NameOne, FieldsOf, Extends, FieldsClosed;
    NameKeeps(btf, st, id, open);
    NameExtends(btf, st, id);
    var Ended(name, named) := NameRun(btf, st, id);
    InvOwned(btf, named, open);
    if name.Ok? && name.value !in named.userTypes && IsComposite(btf, id) {
      var size, ms := SizeOf(btf, id), MembersOf(btf, id);
      var seeded := Seeded(named, name.value, id, size);
      InvAfterSeed(btf, named, name.value, id, size, open);
      MembersKeep(btf, seeded, ms, fuel, open + {name.value});
      MembersExtend(btf, seeded, ms, fuel);
      var r := MembersRun(btf, seeded, ms, fuel);
      if r.Ended? && r.result.Ok? {
        ExtendsEntry(seeded, r.st, name.value);
        FilledHolds(btf, r.st.names.of, id, fuel, r.result.value);
        InvAfterFill(btf, r.st, name.value, size, r.result.value, open);
      }
    }
  }

  lemma {:induction false} MembersKeep(btf: BtfFile, st: State, ms: seq<Member>, fuel: nat, open: set<string>)
    requires Inv(btf, st, open)
    ensures var r := MembersRun(btf, st, ms, fuel);
            r.Ended? && r.result.Ok? ==>
              && Inv(btf, r.st, open) && FieldsOf(btf, r.st.names.of, ms, fuel) == Some(r.result.value)
              && FieldsClosed(r.result.value, r.st.userTypes.Keys, r.st.enums.Keys)
    decreases fuel, 1, |ms|
  {
    hide Inv, RefRun, Extends, Denoted, FieldOf, FieldName;
    if ms != [] {
      var n := |ms| - 1;
      MembersKeep(btf, st, ms[..n], fuel, open);
      var front := MembersRun(btf, st, ms[..n], fuel);
      if front.Ended? && front.result.Ok? {
        InvOwned(btf, front.st, open);
        RefKeeps(btf, front.st, ms[n].typeId, fuel, open);
        RefExtends(btf, front.st, ms[n].typeId, fuel);
        var last := RefRun(btf, front.st, ms[n].typeId, fuel);
        if last.Ended? && last.result.Ok? {
          ExtendsParts(front.st, last.st);
          FieldsStay(btf, front.st.names.of, last.st.names.of, ms[..n], fuel);
          FieldsClosedStay(front.result.value, front.st.userTypes.Keys, front.st.enums.Keys, last.st.userTypes.Keys,
            last.st.enums.Keys);
          FieldClosed(ms[n], last.result.value, last.st.userTypes.Keys, last.st.enums.Keys);
        }
      }
    }
  }

  lemma ExtendsParts(a: State, b: State)
    requires Extends(a, b)
    ensures Grown(a.names.of, b.names.of) && a.userTypes.Keys <= b.userTypes.Keys && a.enums.Keys <= b.enums.Keys
  {
  }

  lemma FieldClosed(m: Member, ty: TypeRef, users: set<string>, enums: set<string>)
    requires Closed(ty, users, enums)
    ensures Closed(FieldOf(m, ty).ty, users, enums)
  {
  }

  // ----- the resolver -----

  class Resolver {
    const btf: BtfFile
    var userTypes: map<string, UserType>
    var enums: map<string, map<string, int>>
    var typeNames: map<nat, string>
    var usedNames: set<string>
    ghost var owner: map<string, nat>

    ghost function Snap(): State
      reads this
    {
      State(userTypes, enums, Names(typeNames, usedNames), owner)
    }

    constructor (btf: BtfFile)
      ensures this.btf == btf && Snap() == EMPTY && Inv(btf, Snap(), {})
    {
      this.btf := btf;
      userTypes, enums, typeNames, usedNames, owner := map[], map[], map[], {}, map[];
      new;
      EmptyInv(btf);
    }

    method EnsureTypeName(id: nat) returns (r: Result<string>)
      modifies this
      ensures Ended(r, Snap()) == NameRun(btf, old(Snap()), id)
      ensures Extends(old(Snap()), Snap())
    {
      NameExtends(btf, Snap(), id);
      if id in typeNames { return Ok(typeNames[id]); }
      var ty := TypeById(btf, id);
      if ty.Err? { return Err; }
      var name := Candidate(btf, id);
      if name in usedNames { name := Suffixed(btf, id); }
      usedNames := usedNames + {name};
      typeNames := typeNames[id := name];
      return Ok(name);
    }

    method EnsureEnum(id: nat) returns (r: Result<string>)
      modifies this
      ensures Ended(r, Snap()) == EnumRun(btf, old(Snap()), id)
      ensures Extends(old(Snap()), Snap())
    {
      hide NameRun;
      EnumExtends(btf, Snap(), id);
      var name := EnsureTypeName(id);
      if name.Err? || name.value in enums { return name; }
      var ty := TypeById(btf, id);
      if ty.Err? || !ty.value.data.EnumData? { return Err; }
      enums := enums[name.value := Constants(ty.value.data.values)];
      return name;
    }

    /** The entry is seeded before its members are walked, so a record that leads back to itself finds it there. */
    method EnsureUserType(id: nat, ghost fuel: nat) returns (r: Result<string>)
      requires UserRun(btf, Snap(), id, fuel).Ended?
      modifies this
      ensures Ended(r, Snap()) == UserRun(btf, old(Snap()), id, fuel)
      ensures Owned(old(Snap())) ==> Extends(old(Snap()), Snap())
      ensures r.Ok? && Inv(btf, old(Snap()), {}) ==> Inv(btf, Snap(), {})
      decreases fuel, 2
    {
      hide NameRun, UserRun, RefRun, MembersRun, Inv, Extends, Owned, FieldName, FieldOf;
      if Owned(Snap()) { UserExtends(btf, Snap(), id, fuel); }
      if Inv(btf, Snap(), {}) { UserKeeps(btf, Snap(), id, fuel, {}); }
      UserSteps(btf, Snap(), id, fuel);
      var name := EnsureTypeName(id);
      if name.Err? || name.value in userTypes { return name; }
      var ty := TypeById(btf, id);
      if ty.Err? || !ty.value.data.CompositeData? { return Err; }
      var members, size := ty.value.data.members, ty.value.sizeOrType;
      userTypes := userTypes[name.value := UserType(size, map[])];
      owner := owner[name.value := id];
      var fields := WalkMembers(members, fuel);
      if fields.Err? { return Err; }
      userTypes := userTypes[name.value := UserType(size, fields.value)];
      return name;
    }

    /** The loop over the members of a seeded type. */
    method WalkMembers(members: seq<Member>, ghost fuel: nat) returns (r: Result<map<string, Field>>)
      requires MembersRun(btf, Snap(), members, fuel).Ended?
      modifies this
      ensures Ended(r, Snap()) == MembersRun(btf, old(Snap()), members, fuel)
      decreases fuel, 1
    {
      hide MembersRun, RefRun, FieldName, FieldOf;
      ghost var seeded := Snap();
      var fields: map<string, Field> := map[];
      NoMembers(btf, seeded, members, fuel);
      for idx := 0 to |members|
        invariant MembersRun(btf, seeded, members[..idx], fuel) == Ended(Ok(fields), Snap())
      {
        MembersStop(btf, seeded, members, idx + 1, fuel);
        MembersStep(btf, seeded, members, idx, fuel);
        var t := RawTypeRef(members[idx].typeId, fuel);
        if t.Err? { return Err; }
        fields := fields[FieldName(members[idx], idx) := FieldOf(members[idx], t.value)];
      }
      assert members[..|members|] == members;
      return Ok(fields);
    }

    method RawTypeRef(id: nat, ghost fuel: nat) returns (r: Result<TypeRef>)
      requires RefRun(btf, Snap(), id, fuel).Ended?
      modifies this
      ensures Ended(r, Snap()) == RefRun(btf, old(Snap()), id, fuel)
      decreases fuel, 0
    {
      hide RefRun, UserRun, EnumRun;
      if fuel == 0 { NoFuel(btf, Snap(), id); }
      RefSteps(btf, Snap(), id, fuel);
      if id == 0 { return Ok(VoidRef); }
      var ty :- TypeById(btf, id);
      if ty.kind == Ptr {
        var sub :- RawTypeRef(ty.sizeOrType, fuel - 1);
        return Ok(PointerRef(sub));
      } else if ty.kind == Array {
        if !ty.data.ArrayData? { return Err; }
        var _ :- RawTypeRef(ty.data.indexType, fuel - 1);
        var elem :- RawTypeRef(ty.data.elemType, fuel - 1);
        return Ok(ArrayRef(ty.data.nelems, elem));
      } else if ty.kind == Struct {
        var name :- EnsureUserType(id, fuel - 1);
        return Ok(StructRef(name));
      } else if ty.kind == Union {
        var name :- EnsureUserType(id, fuel - 1);
        return Ok(UnionRef(name));
      } else if ty.kind == Enum || ty.kind == Enum64 {
        var name :- EnsureEnum(id);
        return Ok(EnumRef(name));
      } else if FollowsSizeOrType(ty.kind) {
        r := RawTypeRef(ty.sizeOrType, fuel - 1);
      } else {
        return Ok(LeafRef(ty));
      }
    }
  }

  /** One call, in terms of the walk over the members. */
  lemma UserSteps(btf: BtfFile, st: State, id: nat, fuel: nat)
    ensures var Ended(name, named), run := NameRun(btf, st, id), UserRun(btf, st, id, fuel);
            if name.Err? || name.value in named.userTypes then run == Ended(name, named)
            else if !IsComposite(btf, id) then run == Ended(Err, named)
            else
              var size := SizeOf(btf, id);
              var fields := MembersRun(btf, Seeded(named, name.value, id, size), MembersOf(btf, id), fuel);
              && (run.Ended? <==> fields.Ended?)
              && (fields.Ended? && fields.result.Err? ==> run == Ended(Err, fields.st))
              && (fields.Ended? && fields.result.Ok? ==> run == Ended(name, Filled(fields.st, name.value, size, fields.result.value)))
  {
    hide MembersRun, NameOne;
  }

  lemma NoMembers(btf: BtfFile, st: State, ms: seq<Member>, fuel: nat)
    ensures MembersRun(btf, st, ms[..0], fuel) == Ended(Ok(map[]), st)
  {
    assert ms[..0] == [];
  }

  // ----- a whole run -----

  datatype Profile = Profile(userTypes: map<string, UserType>, enums: map<string, map<string, int>>)

  /** Resolving structs by name, in order; a missing one is an error only if it is required. */
  function StructsRun(btf: BtfFile, st: State, names: seq<string>, required: bool, fuel: nat): Run<()> {
    if names == [] then Ended(Ok(()), st)
    else
      var front, id := StructsRun(btf, st, names[..|names| - 1], required, fuel), FindNamed(btf, Struct, names[|names| - 1]);
      if !front.Ended? || front.result.Err? then front
      else if id.Err? then Ended(if required then Err else Ok(()), front.st)
      else Then(UserRun(btf, front.st, id.value, fuel), (n: string) => ())
  }

  function LoadRun(btf: BtfFile, required: seq<string>, optional: seq<string>, enumName: string, fuel: nat): Run<Profile> {
    var a := StructsRun(btf, EMPTY, required, true, fuel);
    if !a.Ended? then Exhausted
    else if a.result.Err? then Ended(Err, a.st)
    else
      var b := StructsRun(btf, a.st, optional, false, fuel);
      if !b.Ended? then Exhausted
      else if b.result.Err? then Ended(Err, b.st)
      else
        var id := FindNamed(btf, Enum, enumName);
        if id.Err? then Ended(Err, b.st)
        else
          var c := EnumRun(btf, b.st, id.value);
          Ended(if c.result.Ok? then Ok(Profile(c.st.userTypes, c.st.enums)) else Err, c.st)
  }

  lemma {:induction false} StructsStop(btf: BtfFile, st: State, names: seq<string>, required: bool, k: nat, fuel: nat)
    requires k <= |names|
    ensures var run := StructsRun(btf, st, names[..k], required, fuel);
            !run.Ended? || run.result.Err? ==> StructsRun(btf, st, names, required, fuel) == run
  {
    hide UserRun;
    if k == |names| {
      assert names[..k] == names;
    } else {
      assert names[..|names| - 1][..k] == names[..k];
      StructsStop(btf, st, names[..|names| - 1], required, k, fuel);
    }
  }

  lemma {:induction false} StructsMore(btf: BtfFile, st: State, names: seq<string>, required: bool, fuel: nat, more: nat)
    requires fuel <= more && StructsRun(btf, st, names, required, fuel).Ended?
    ensures StructsRun(btf, st, names, required, more) == StructsRun(btf, st, names, required, fuel)
  {
    hide UserRun;
    if names != [] {
      StructsMore(btf, st, names[..|names| - 1], required, fuel, more);
      var front, id := StructsRun(btf, st, names[..|names| - 1], required, fuel), FindNamed(btf, Struct, names[|names| - 1]);
      if front.result.Ok? && id.Ok? { UserMore(btf, front.st, id.value, fuel, more); }
    }
  }

  ghost predicate StructKnown(btf: BtfFile, st: State, name: string) {
    var id := FindNamed(btf, Struct, name);
    id.Ok? && id.value in st.names.of && st.names.of[id.value] in st.userTypes
  }

  lemma StructsStay(btf: BtfFile, a: State, b: State, name: string)
    requires StructKnown(btf, a, name) && Extends(a, b)
    ensures StructKnown(btf, b, name)
  {
  }

  lemma {:induction false} StructsKeep(btf: BtfFile, st: State, names: seq<string>, required: bool, fuel: nat)
    requires Inv(btf, st, {})
    ensures var r := StructsRun(btf, st, names, required, fuel);
            r.Ended? && r.result.Ok? ==>
              && Inv(btf, r.st, {}) && Extends(st, r.st)
              && forall n :: n in names && (required || FindNamed(btf, Struct, n).Ok?) ==> StructKnown(btf, r.st, n)
  {
    hide UserRun, Inv, Extends, StructKnown, FindNamed;
    SameState(st);
    if names != [] {
      var n := names[|names| - 1];
      var front := StructsRun(btf, st, names[..|names| - 1], required, fuel);
      StructsKeep(btf, st, names[..|names| - 1], required, fuel);
      if front.Ended? && front.result.Ok? && FindNamed(btf, Struct, n).Ok? {
        var id := FindNamed(btf, Struct, n).value;
        var r := UserRun(btf, front.st, id, fuel);
        InvOwned(btf, front.st, {});
        UserKeeps(btf, front.st, id, fuel, {});
        UserExtends(btf, front.st, id, fuel);
        if r.Ended? && r.result.Ok? {
          ExtendsTransitive(st, front.st, r.st);
          IsStructKnown(btf, r.st, n);
          forall m | m in names[..|names| - 1] && (required || FindNamed(btf, Struct, m).Ok?) ensures StructKnown(btf, r.st, m) {
            StructsStay(btf, front.st, r.st, m);
          }
        }
      }
    }
  }

  lemma IsStructKnown(btf: BtfFile, st: State, name: string)
    requires FindNamed(btf, Struct, name).Ok? && FindNamed(btf, Struct, name).value in st.names.of
    requires st.names.of[FindNamed(btf, Struct, name).value] in st.userTypes
    ensures StructKnown(btf, st, name)
  {
  }

  /** In a file with an exact name index, the struct is stored under its own name and holds the record that a lookup of
    * that name finds, unless another record goes by the name. */
  ghost predicate IsStoredAs(btf: BtfFile, st: State, name: string) {
    && StructKnown(btf, st, name)
    && var id := FindNamed(btf, Struct, name).value;
    IsIndexOf(btf.named, btf.types) && name != "" && (forall j :: j in st.names.of && st.names.of[j] == name ==> j == id) ==>
      name in st.userTypes && HoldsRecord(btf, st.names.of, st.userTypes[name], id)
  }

  /** What a run leaves in the profile: the types and enums of a state with nothing open, which has all the required
    * structs, the optional ones that exist, and the enum. */
  ghost predicate IsProfileOf(btf: BtfFile, p: Profile, required: seq<string>, optional: seq<string>, enumName: string, st: State) {
    && Inv(btf, st, {}) && p == Profile(st.userTypes, st.enums)
    && (forall n :: n in required ==> IsStoredAs(btf, st, n))
    && (forall n :: n in optional && FindNamed(btf, Struct, n).Ok? ==> IsStoredAs(btf, st, n))
    && FindNamed(btf, Enum, enumName).Ok? && FindNamed(btf, Enum, enumName).value in st.names.of
    && st.names.of[FindNamed(btf, Enum, enumName).value] in st.enums
  }

  /** Every struct, union or enum that a field names is in the profile. */
  ghost predicate IsClosedProfile(p: Profile) {
    forall n, f :: n in p.userTypes && f in p.userTypes[n].fields ==>
      NamesOnly(p.userTypes[n].fields[f].ty, p.userTypes.Keys, p.enums.Keys)
  }

  /** Whatever struct, union or enum the type comes to through pointers, arrays and bitfields is known. */
  ghost predicate NamesOnly(t: TypeRef, users: set<string>, enums: set<string>) {
    && (forall n :: Peels(t, StructRef(n)) || Peels(t, UnionRef(n)) ==> n in users)
    && (forall n :: Peels(t, EnumRef(n)) ==> n in enums)
  }

  lemma {:induction false} ClosedMeaning(t: TypeRef, users: set<string>, enums: set<string>)
    ensures Closed(t, users, enums) <==> NamesOnly(t, users, enums)
    decreases t
  {
    hide Peels;
    match t {
      case PointerRef(sub) => ClosedMeaning(sub, users, enums); NamesOnlyOf(t, sub, users, enums);
      case ArrayRef(_, sub) => ClosedMeaning(sub, users, enums); NamesOnlyOf(t, sub, users, enums);
      case BitfieldRef(sub) => ClosedMeaning(sub, users, enums); NamesOnlyOf(t, sub, users, enums);
      case _ =>
        forall n ensures Peels(t, StructRef(n)) <==> t == StructRef(n) { PeelsNothing(t, StructRef(n)); }
        forall n ensures Peels(t, UnionRef(n)) <==> t == UnionRef(n) { PeelsNothing(t, UnionRef(n)); }
        forall n ensures Peels(t, EnumRef(n)) <==> t == EnumRef(n) { PeelsNothing(t, EnumRef(n)); }
    }
  }

  lemma NamesOnlyOf(t: TypeRef, sub: TypeRef, users: set<string>, enums: set<string>)
    requires IsSubtype(t, sub)
    ensures NamesOnly(t, users, enums) <==> NamesOnly(sub, users, enums)
  {
    hide Peels;
    forall n ensures Peels(t, StructRef(n)) <==> Peels(sub, StructRef(n)) { PeelsOne(t, sub, StructRef(n)); }
    forall n ensures Peels(t, UnionRef(n)) <==> Peels(sub, UnionRef(n)) { PeelsOne(t, sub, UnionRef(n)); }
    forall n ensures Peels(t, EnumRef(n)) <==> Peels(sub, EnumRef(n)) { PeelsOne(t, sub, EnumRef(n)); }
  }

  /** Resolves the required structs, the optional ones that exist, and one enum, from an empty resolver. */
  method LoadProfile(btf: BtfFile, required: seq<string>, optional: seq<string>, enumName: string, ghost fuel: nat)
    returns (r: Result<Profile>)
    requires LoadRun(btf, required, optional, enumName, fuel).Ended?
    ensures r == LoadRun(btf, required, optional, enumName, fuel).result
    ensures IsWellTyped(btf) && IsIndexOf(btf.named, btf.types) ==> (r.Ok? <==> HasAll(btf, required, enumName))
    ensures r.Ok? ==> IsClosedProfile(r.value)
    ensures r.Ok? ==> exists st :: IsProfileOf(btf, r.value, required, optional, enumName, st)
  {
    hide EnumRun, Inv, Extends, IsWellTyped, IsIndexOf, HasAll;
    LoadIsProfile(btf, required, optional, enumName, fuel);
    if IsWellTyped(btf) && IsIndexOf(btf.named, btf.types) { LoadSucceeds(btf, required, optional, enumName, fuel); }
    var resolver := new Resolver(btf);
    var all := ResolveStructs(resolver, required, true, fuel);
    if all.Err? { return Err; }
    all := ResolveStructs(resolver, optional, false, fuel);
    if all.Err? { return Err; }
    var id := FindNamed(btf, Enum, enumName);
    if id.Err? { return Err; }
    var name := resolver.EnsureEnum(id.value);
    if name.Err? { return Err; }
    return Ok(Profile(resolver.userTypes, resolver.enums));
  }

  /** The loop over the names of one list. */
  method ResolveStructs(resolver: Resolver, names: seq<string>, required: bool, ghost fuel: nat) returns (r: Result<()>)
    requires StructsRun(resolver.btf, resolver.Snap(), names, required, fuel).Ended?
    modifies resolver
    ensures Ended(r, resolver.Snap()) == StructsRun(resolver.btf, old(resolver.Snap()), names, required, fuel)
  {
    hide UserRun;
    ghost var st := resolver.Snap();
    var btf := resolver.btf;
    assert names[..0] == [];
    for i := 0 to |names|
      invariant StructsRun(btf, st, names[..i], required, fuel) == Ended(Ok(()), resolver.Snap())
    {
      assert names[..i + 1][..i] == names[..i];
      StructsStop(btf, st, names, required, i + 1, fuel);
      var id := FindNamed(btf, Struct, names[i]);
      if id.Err? && required { return Err; }
      if id.Ok? {
        var name := resolver.EnsureUserType(id.value, fuel);
        if name.Err? { return Err; }
      }
    }
    assert names[..|names|] == names;
    return Ok(());
  }

  lemma LoadIsProfile(btf: BtfFile, required: seq<string>, optional: seq<string>, enumName: string, fuel: nat)
    ensures var run := LoadRun(btf, required, optional, enumName, fuel);
            run.Ended? && run.result.Ok? ==>
              IsClosedProfile(run.result.value) && IsProfileOf(btf, run.result.value, required, optional, enumName, run.st)
  {
    hide StructsRun, EnumRun, Inv, Extends, FindNamed, StructKnown, IsStoredAs, NamesOnly;
    var run := LoadRun(btf, required, optional, enumName, fuel);
    if run.Ended? && run.result.Ok? {
      EmptyInv(btf);
      StructsKeep(btf, EMPTY, required, true, fuel);
      var a := StructsRun(btf, EMPTY, required, true, fuel).st;
      StructsKeep(btf, a, optional, false, fuel);
      var b := StructsRun(btf, a, optional, false, fuel).st;
      var id := FindNamed(btf, Enum, enumName).value;
      EnumKeeps(btf, b, id, {});
      EnumExtends(btf, b, id);
      ExtendsTransitive(a, b, run.st);
      forall n | n in required ensures IsStoredAs(btf, run.st, n) {
        StructsStay(btf, a, run.st, n);
        StoredAs(btf, run.st, n);
      }
      forall n | n in optional && FindNamed(btf, Struct, n).Ok? ensures IsStoredAs(btf, run.st, n) {
        StructsStay(btf, b, run.st, n);
        StoredAs(btf, run.st, n);
      }
      FinishedRunIsClosed(btf, run.st);
    }
  }

  // ----- nothing fails in a file whose references exist -----

  /** The ids that a record refers to. */
  ghost predicate RefersTo(ty: BtfType, id: nat) {
    || (ty.kind in {Ptr, Typedef, Volatile, Const, Restrict, TypeTag, DeclTag} && id == ty.sizeOrType)
    || (ty.data.ArrayData? && id in {ty.data.indexType as nat, ty.data.elemType as nat})
    || (ty.data.CompositeData? && exists m :: m in ty.data.members && id == m.typeId)
  }

  /** Payloads fit the kinds, and every id that a record refers to is 0 or that of a record. */
  ghost predicate IsWellTyped(btf: BtfFile) {
    && (forall ty :: ty in btf.types ==> FitsKind(ty))
    && forall ty, id: nat :: ty in btf.types && RefersTo(ty, id) ==> id <= |btf.types|
  }

  lemma {:induction false} RefSucceeds(btf: BtfFile, st: State, id: nat, fuel: nat)
    requires IsWellTyped(btf) && id <= |btf.types|
    ensures RefRun(btf, st, id, fuel).Ended? ==> RefRun(btf, st, id, fuel).result.Ok?
    decreases fuel, 0, 0
  {
    hide RefRun, UserRun, EnumRun, LeafRef, IsWellTyped;
    if fuel == 0 { NoFuel(btf, st, id); } else { RefSteps(btf, st, id, fuel); }
    if fuel > 0 && id != 0 {
      var ty := TypeById(btf, id).value;
      RecordRefers(btf, id);
      if FollowsSizeOrType(ty.kind) {
        RefSucceeds(btf, st, ty.sizeOrType, fuel - 1);
      } else if ty.kind == Array {
        RefSucceeds(btf, st, ty.data.indexType, fuel - 1);
        var index := RefRun(btf, st, ty.data.indexType, fuel - 1);
        if index.Ended? { RefSucceeds(btf, index.st, ty.data.elemType, fuel - 1); }
      } else if ty.kind == Struct || ty.kind == Union {
        UserSucceeds(btf, st, id, fuel - 1);
      } else if ty.kind == Enum || ty.kind == Enum64 {
        EnumSucceeds(btf, st, id);
      }
    }
  }

  lemma RecordRefers(btf: BtfFile, id: nat)
    requires IsWellTyped(btf) && 1 <= id <= |btf.types|
    ensures var ty := TypeById(btf, id).value;
            && FitsKind(ty)
            && (FollowsSizeOrType(ty.kind) ==> ty.sizeOrType <= |btf.types|)
            && (ty.kind == Array ==> ty.data.indexType <= |btf.types| && ty.data.elemType <= |btf.types|)
            && (ty.data.CompositeData? ==> forall m :: m in ty.data.members ==> m.typeId <= |btf.types|)
  {
    var ty := btf.types[id - 1];
    assert ty in btf.types;
    assert FollowsSizeOrType(ty.kind) ==> RefersTo(ty, ty.sizeOrType);
    assert ty.data.ArrayData? ==> RefersTo(ty, ty.data.indexType) && RefersTo(ty, ty.data.elemType);
    if ty.data.CompositeData? {
      forall m | m in ty.data.members ensures m.typeId <= |btf.types| { assert RefersTo(ty, m.typeId); }
    }
  }

  lemma {:induction false} UserSucceeds(btf: BtfFile, st: State, id: nat, fuel: nat)
    requires IsWellTyped(btf) && 1 <= id <= |btf.types| && TypeById(btf, id).value.kind in {Struct, Union}
    ensures UserRun(btf, st, id, fuel).Ended? ==> UserRun(btf, st, id, fuel).result.Ok?
    decreases fuel, 2, 0
  {
    hide UserRun, MembersRun, IsWellTyped, NameOne;
    UserSteps(btf, st, id, fuel);
    RecordRefers(btf, id);
    NamedOnce(btf, st, id);
    var Ended(name, named) := NameRun(btf, st, id);
    if name.value !in named.userTypes {
      MembersSucceed(btf, Seeded(named, name.value, id, SizeOf(btf, id)), MembersOf(btf, id), fuel);
    }
  }

  /** A record can always be named. */
  lemma NamedOnce(btf: BtfFile, st: State, id: nat)
    requires 1 <= id <= |btf.types|
    ensures NameRun(btf, st, id).result.Ok?
  {
  }

  lemma {:induction false} MembersSucceed(btf: BtfFile, st: State, ms: seq<Member>, fuel: nat)
    requires IsWellTyped(btf) && forall m :: m in ms ==> m.typeId <= |btf.types|
    ensures MembersRun(btf, st, ms, fuel).Ended? ==> MembersRun(btf, st, ms, fuel).result.Ok?
    decreases fuel, 1, |ms|
  {
    hide RefRun, IsWellTyped;
    if ms != [] {
      var n := |ms| - 1;
      MembersSucceed(btf, st, ms[..n], fuel);
      var front := MembersRun(btf, st, ms[..n], fuel);
      assert ms[n] in ms;
      if front.Ended? { RefSucceeds(btf, front.st, ms[n].typeId, fuel); }
    }
  }

  lemma EnumSucceeds(btf: BtfFile, st: State, id: nat)
    requires IsWellTyped(btf) && 1 <= id <= |btf.types| && TypeById(btf, id).value.kind in {Enum, Enum64}
    ensures EnumRun(btf, st, id).result.Ok?
  {
    hide IsWellTyped, NameRun, Constants;
    RecordRefers(btf, id);
    NamedOnce(btf, st, id);
  }

  /** The file has every required struct, and the enum. */
  ghost predicate HasAll(btf: BtfFile, required: seq<string>, enumName: string) {
    (forall n :: n in required ==> HasRecord(btf, Struct, n)) && HasRecord(btf, Enum, enumName)
  }

  ghost predicate HasRecord(btf: BtfFile, kind: Kind, name: string) {
    name != "" && exists i :: 0 <= i < |btf.types| && IsCalled(btf.types[i], kind, name)
  }

  lemma FoundIffHas(btf: BtfFile, kind: Kind, name: string)
    requires IsIndexOf(btf.named, btf.types) && kind in {Struct, Enum}
    ensures FindNamed(btf, kind, name).Ok? <==> HasRecord(btf, kind, name)
    ensures FindNamed(btf, kind, name).Ok? ==>
              var id := FindNamed(btf, kind, name).value;
              1 <= id <= |btf.types| && TypeById(btf, id).value.kind == kind
  {
  }

  lemma {:induction false} StructsSucceed(btf: BtfFile, st: State, names: seq<string>, required: bool, fuel: nat)
    requires IsWellTyped(btf) && IsIndexOf(btf.named, btf.types)
    ensures var run := StructsRun(btf, st, names, required, fuel);
            run.Ended? ==> (run.result.Ok? <==> required ==> forall n :: n in names ==> HasRecord(btf, Struct, n))
  {
    hide UserRun, IsWellTyped, IsIndexOf, FindNamed, HasRecord;
    if names != [] {
      var front, last := names[..|names| - 1], names[|names| - 1];
      StructsSucceed(btf, st, front, required, fuel);
      FoundIffHas(btf, Struct, last);
      assert names == front + [last];
      var run, id := StructsRun(btf, st, front, required, fuel), FindNamed(btf, Struct, last);
      if run.Ended? && id.Ok? { UserSucceeds(btf, run.st, id.value, fuel); }
    }
  }

  /** In a file whose references exist, loading succeeds exactly when the required structs and the enum are there. */
  lemma LoadSucceeds(btf: BtfFile, required: seq<string>, optional: seq<string>, enumName: string, fuel: nat)
    requires IsWellTyped(btf) && IsIndexOf(btf.named, btf.types)
    ensures var run := LoadRun(btf, required, optional, enumName, fuel);
            run.Ended? ==> (run.result.Ok? <==> HasAll(btf, required, enumName))
  {
    hide StructsRun, EnumRun, IsWellTyped, IsIndexOf, FindNamed, HasRecord;
    StructsSucceed(btf, EMPTY, required, true, fuel);
    FoundIffHas(btf, Enum, enumName);
    var a := StructsRun(btf, EMPTY, required, true, fuel);
    if a.Ended? && a.result.Ok? {
      StructsSucceed(btf, a.st, optional, false, fuel);
      var b, id := StructsRun(btf, a.st, optional, false, fuel), FindNamed(btf, Enum, enumName);
      if b.Ended? && id.Ok? { EnumSucceeds(btf, b.st, id.value); }
    }
  }

  // ----- what a finished run holds -----

  /** A finished run leaves no seeded type unfilled: every entry holds the record that seeded it, and names only
    * known types. */
  lemma FinishedRunIsClosed(btf: BtfFile, st: State)
    requires Inv(btf, st, {})
    ensures forall n :: n in st.userTypes ==>
              && n in st.owner
              && HoldsRecord(btf, st.names.of, st.userTypes[n], st.owner[n])
              && forall f :: f in st.userTypes[n].fields ==>
                   NamesOnly(st.userTypes[n].fields[f].ty, st.userTypes.Keys, st.enums.Keys)
    ensures forall n :: n in st.enums ==> exists id :: id in st.names.of && st.names.of[id] == n && IsEnumRecord(btf, id, st.enums[n])
  {
    hide HoldsRecord, NamesKnown, NamesOnly, Closed, IsEnumRecord;
    forall n, f | n in st.userTypes && f in st.userTypes[n].fields
      ensures NamesOnly(st.userTypes[n].fields[f].ty, st.userTypes.Keys, st.enums.Keys)
    {
      assert IsComplete(btf, st, n);
      ClosedMeaning(st.userTypes[n].fields[f].ty, st.userTypes.Keys, st.enums.Keys);
    }
    forall n | n in st.userTypes ensures HoldsRecord(btf, st.names.of, st.userTypes[n], st.owner[n]) {
      assert IsComplete(btf, st, n);
    }
    forall n | n in st.enums ensures exists id :: id in st.names.of && st.names.of[id] == n && IsEnumRecord(btf, id, st.enums[n]) {
      assert EnumKnown(btf, st.names.of, n, st.enums[n]);
    }
  }

  /** No other record goes by this record's name. */
  ghost predicate IsSole(of: map<nat, string>, id: nat) {
    id in of && forall j :: j in of && of[j] == of[id] ==> j == id
  }

  /** The entry under a name that only one record goes by is that record's own. */
  lemma SoleRecord(btf: BtfFile, st: State, id: nat)
    requires Inv(btf, st, {}) && IsSole(st.names.of, id) && st.names.of[id] in st.userTypes
    ensures HoldsRecord(btf, st.names.of, st.userTypes[st.names.of[id]], id)
  {
    hide HoldsRecord, NamesKnown;
    var n := st.names.of[id];
    assert n in st.owner && IsComplete(btf, st, n);
  }

  /** Without a clash of names every entry is its own record. */
  lemma OwnRecord(btf: BtfFile, st: State, id: nat)
    requires Inv(btf, st, {}) && NoClash(btf) && id in st.names.of && st.names.of[id] in st.userTypes
    ensures HoldsRecord(btf, st.names.of, st.userTypes[st.names.of[id]], id)
  {
    hide HoldsRecord, NamesKnown, NoClash;
    InvNames(btf, st, {});
    if !IsSole(st.names.of, id) { SharedHasClash(btf, st.names); }
    SoleRecord(btf, st, id);
  }

  lemma InvNames(btf: BtfFile, st: State, open: set<string>)
    requires Inv(btf, st, open)
    ensures NamesKnown(btf, st.names)
  {
  }

  lemma StoredAs(btf: BtfFile, st: State, name: string)
    requires Inv(btf, st, {}) && StructKnown(btf, st, name)
    ensures IsStoredAs(btf, st, name)
  {
    hide Inv, HoldsRecord, IsIndexOf, FindNamed;
    if IsIndexOf(btf.named, btf.types) && name != ""
       && forall j :: j in st.names.of && st.names.of[j] == name ==> j == FindNamed(btf, Struct, name).value {
      StoredUnderOwnName(btf, st, name);
    }
  }

  /** A struct is stored under its own name when no other record goes by that name. */
  lemma StoredUnderOwnName(btf: BtfFile, st: State, name: string)
    requires Inv(btf, st, {}) && StructKnown(btf, st, name) && IsIndexOf(btf.named, btf.types) && name != ""
    requires forall j :: j in st.names.of && st.names.of[j] == name ==> j == FindNamed(btf, Struct, name).value
    ensures name in st.userTypes && HoldsRecord(btf, st.names.of, st.userTypes[name], FindNamed(btf, Struct, name).value)
  {
    hide HoldsRecord, Inv, NamesKnown, IsIndexOf, FindNamed;
    var id := FindNamed(btf, Struct, name).value;
    InvNames(btf, st, {});
    FoundIsCalled(btf, name);
    NotSuffixed(btf, st.names, id);
    SoleRecord(btf, st, id);
  }

  lemma FoundIsCalled(btf: BtfFile, name: string)
    requires IsIndexOf(btf.named, btf.types) && FindNamed(btf, Struct, name).Ok? && name != ""
    ensures var id := FindNamed(btf, Struct, name).value; Exists(btf, id) && Candidate(btf, id) == name
  {
    assert IsCalled(btf.types[FindNamed(btf, Struct, name).value - 1], Struct, name);
  }

  lemma NotSuffixed(btf: BtfFile, n: Names, id: nat)
    requires NamesKnown(btf, n) && id in n.of && forall j :: j in n.of && n.of[j] == Candidate(btf, id) ==> j == id
    ensures n.of[id] == Candidate(btf, id)
  {
    hide Candidate, Suffixed, Exists;
    assert n.of[id] == Suffixed(btf, id) ==> TakenFrom(btf, n, id);
  }

  /** The clash shows: with records called `a_3`, `a` and `a`, resolved in this order, the third is given the name of the
    * first, and the entry under its name is not its own. */
  method ClashExample() returns (btf: BtfFile, names: map<nat, string>, userTypes: map<string, UserType>)
    ensures !NoClash(btf)
    ensures 3 in names && names[3] in userTypes && !HoldsRecord(btf, names, userTypes[names[3]], 3)
  {
    hide UserRun, NoClash, Candidate, Suffixed, HoldsRecord, Inv, Extends;
    btf := BtfFile([Hollow("a_3", 8), Hollow("a", 16), Hollow("a", 24)], map[]);
    var r := new Resolver(btf);
    ClashNames(btf);
    ClashRun1(btf);
    ClashRun2(btf);
    ClashRun3(btf);
    ClashEntry(btf);
    var _ := r.EnsureUserType(1, 0);
    var _ := r.EnsureUserType(2, 0);
    var _ := r.EnsureUserType(3, 0);
    assert r.Snap() == AfterThird();
    names, userTypes := r.typeNames, r.userTypes;
  }

  function AfterFirst(): State {
    State(map["a_3" := UserType(8, map[])], map[], Names(map[1 := "a_3"], {"a_3"}), map["a_3" := 1])
  }

  function AfterSecond(): State {
    State(map["a_3" := UserType(8, map[]), "a" := UserType(16, map[])], map[],
          Names(map[1 := "a_3", 2 := "a"], {"a_3", "a"}), map["a_3" := 1, "a" := 2])
  }

  function AfterThird(): State {
    AfterSecond().(names := Names(map[1 := "a_3", 2 := "a", 3 := "a_3"], {"a_3", "a"}))
  }

  ghost predicate IsClashFile(btf: BtfFile) {
    btf.types == [Hollow("a_3", 8), Hollow("a", 16), Hollow("a", 24)]
  }

  lemma ClashEntry(btf: BtfFile)
    requires IsClashFile(btf)
    ensures !HoldsRecord(btf, AfterThird().names.of, AfterThird().userTypes["a_3"], 3)
  {
    assert SizeOf(btf, 3) == 24;
  }

  lemma ClashRun1(btf: BtfFile)
    requires IsClashFile(btf)
    ensures UserRun(btf, EMPTY, 1, 0) == Ended(Ok("a_3"), AfterFirst())
  {
    hide UserRun, Candidate, Suffixed;
    ClashNames(btf);
    HollowRun(btf, EMPTY, 1);
  }

  lemma ClashRun2(btf: BtfFile)
    requires IsClashFile(btf)
    ensures UserRun(btf, AfterFirst(), 2, 0) == Ended(Ok("a"), AfterSecond())
  {
    hide UserRun, Candidate, Suffixed;
    ClashNames(btf);
    HollowRun(btf, AfterFirst(), 2);
    assert "a" != "a_3" by { assert |"a"| == 1; }
  }

  lemma ClashRun3(btf: BtfFile)
    requires IsClashFile(btf)
    ensures UserRun(btf, AfterSecond(), 3, 0) == Ended(Ok("a_3"), AfterThird())
  {
    hide UserRun, Candidate, Suffixed;
    ClashNames(btf);
    HollowRun(btf, AfterSecond(), 3);
    assert {"a_3", "a"} + {"a_3"} == {"a_3", "a"};
  }

  /** A struct without members. */
  function Hollow(name: string, size: nat): BtfType
    requires size < 0x1_0000_0000
  {
    BtfType(Struct, name, size, CompositeData([]))
  }

  lemma ClashNames(btf: BtfFile)
    requires IsClashFile(btf)
    ensures Exists(btf, 1) && Exists(btf, 2) && Exists(btf, 3)
    ensures Candidate(btf, 1) == "a_3" && Candidate(btf, 2) == "a" == Candidate(btf, 3) && Suffixed(btf, 3) == "a_3"
    ensures !NoClash(btf)
  {
    assert Decimal(3) == "3";
    assert Clash(btf, 1, 3, 2);
  }

  lemma HollowRun(btf: BtfFile, st: State, id: nat)
    requires IsComposite(btf, id) && MembersOf(btf, id) == []
    ensures var Ended(name, named), run := NameRun(btf, st, id), UserRun(btf, st, id, 0);
            name.Ok? && if name.value in named.userTypes then run == Ended(name, named)
                        else run == Ended(name, Filled(Seeded(named, name.value, id, SizeOf(btf, id)), name.value, SizeOf(btf, id), map[]))
  {
  }
}
