/** Normalized type records and the lookup of fields through anonymous members (defs.rs). */
module Defs {
  import opened Wrappers

  datatype TypeRef =
    | BaseRef(name: string)
    | StructRef(name: string)
    | UnionRef(name: string)
    | PointerRef(subtype: TypeRef)
    | ArrayRef(count: nat, subtype: TypeRef)
    | EnumRef(name: string)
    | BitfieldRef(ty: TypeRef)
    | FunctionRef
    | VoidRef
    | UnknownRef

  function NamedUserType(t: TypeRef): Option<string> {
    match t
    case StructRef(name) => Some(name)
    case UnionRef(name) => Some(name)
    case PointerRef(subtype) => NamedUserType(subtype)
    case ArrayRef(_, subtype) => NamedUserType(subtype)
    case BitfieldRef(ty) => NamedUserType(ty)
    case _ => None
  }

  /** `inner` is what a pointer, array or bitfield type refers to. */
  predicate IsSubtype(t: TypeRef, inner: TypeRef) {
    || (t.PointerRef? && inner == t.subtype) || (t.ArrayRef? && inner == t.subtype) || (t.BitfieldRef? && inner == t.ty)
  }

  /** Each type is what the one before it refers to. */
  ghost predicate IsPeeling(chain: seq<TypeRef>) {
    chain != [] && forall i {:trigger chain[i]} :: 0 <= i < |chain| - 1 ==> IsSubtype(chain[i], chain[i + 1])
  }

  /** Looking through pointers, arrays and bitfields, `t` comes to `inner`. */
  ghost predicate Peels(t: TypeRef, inner: TypeRef) {
    exists chain :: IsPeeling(chain) && chain[0] == t && chain[|chain| - 1] == inner
  }

  lemma PeelsOne(t: TypeRef, sub: TypeRef, inner: TypeRef)
    requires IsSubtype(t, sub)
    ensures Peels(t, inner) <==> inner == t || Peels(sub, inner)
  {
    hide IsSubtype;
    if Peels(sub, inner) {
      var chain :| IsPeeling(chain) && chain[0] == sub && chain[|chain| - 1] == inner;
      PeelMore(t, chain);
      assert ([t] + chain)[0] == t;
    }
    if inner == t { PeelNone(t); }
    if Peels(t, inner) && inner != t {
      var chain :| IsPeeling(chain) && chain[0] == t && chain[|chain| - 1] == inner;
      PeelLess(chain);
      OnlySubtype(t, sub, chain[1]);
      assert chain[1..][0] == sub;
    }
  }

  lemma PeelMore(t: TypeRef, chain: seq<TypeRef>)
    requires IsPeeling(chain) && IsSubtype(t, chain[0])
    ensures IsPeeling([t] + chain) && ([t] + chain)[|chain|] == chain[|chain| - 1]
  {
    hide IsSubtype;
    var all := [t] + chain;
    assert forall i :: 0 < i < |all| ==> all[i] == chain[i - 1];
  }

  lemma PeelNone(t: TypeRef)
    ensures IsPeeling([t]) && [t][0] == t
  {
  }

  lemma PeelLess(chain: seq<TypeRef>)
    requires IsPeeling(chain) && |chain| > 1
    ensures IsSubtype(chain[0], chain[1]) && IsPeeling(chain[1..]) && chain[1..][|chain| - 2] == chain[|chain| - 1]
  {
    hide IsSubtype;
    var rest := chain[1..];
    assert forall i {:trigger rest[i]} :: 0 <= i < |rest| - 1 ==> rest[i] == chain[i + 1] && rest[i + 1] == chain[i + 2];
  }

  lemma OnlySubtype(t: TypeRef, a: TypeRef, b: TypeRef)
    requires IsSubtype(t, a) && IsSubtype(t, b)
    ensures a == b
  {
  }

  lemma PeelingFirst(chain: seq<TypeRef>)
    requires IsPeeling(chain)
    ensures |chain| > 1 ==> IsSubtype(chain[0], chain[1])
  {
  }

  lemma PeelsNothing(t: TypeRef, inner: TypeRef)
    requires !t.PointerRef? && !t.ArrayRef? && !t.BitfieldRef?
    ensures Peels(t, inner) <==> inner == t
  {
    if Peels(t, inner) {
      var chain :| IsPeeling(chain) && chain[0] == t && chain[|chain| - 1] == inner;
      PeelingFirst(chain);
    }
    assert IsPeeling([t]) && [t][0] == t;
  }

  /** A type has a user type's name exactly when it comes to that struct or union through pointers, arrays and bitfields. */
  lemma {:induction false} NamedUserTypeMeaning(t: TypeRef, name: string)
    ensures NamedUserType(t) == Some(name) <==> Peels(t, StructRef(name)) || Peels(t, UnionRef(name))
    decreases t
  {
    hide Peels;
    match t {
      case PointerRef(sub) => PeelsBoth(t, sub, name); NamedUserTypeMeaning(sub, name);
      case ArrayRef(_, sub) => PeelsBoth(t, sub, name); NamedUserTypeMeaning(sub, name);
      case BitfieldRef(sub) => PeelsBoth(t, sub, name); NamedUserTypeMeaning(sub, name);
      case _ =>
        PeelsNothing(t, StructRef(name));
        PeelsNothing(t, UnionRef(name));
    }
  }

  lemma PeelsBoth(t: TypeRef, sub: TypeRef, name: string)
    requires IsSubtype(t, sub)
    ensures Peels(t, StructRef(name)) <==> Peels(sub, StructRef(name))
    ensures Peels(t, UnionRef(name)) <==> Peels(sub, UnionRef(name))
  {
    hide Peels;
    PeelsOne(t, sub, StructRef(name));
    PeelsOne(t, sub, UnionRef(name));
  }

  datatype Field = Field(offset: nat, anonymous: bool, ty: TypeRef)

  datatype UserType = UserType(size: nat, fields: map<string, Field>)

  type TypeTable = map<string, UserType>

  datatype Resolved = Resolved(offset: nat, ty: TypeRef)

  const MAX_DEPTH: nat := 32

  /** The order in which a hash map happens to yield the fields of each type. */
  type Order = string -> seq<string>

  ghost predicate IsOrder(types: TypeTable, order: Order) {
    forall t, f :: t in types ==> (f in order(t) <==> f in types[t].fields)
  }

  function Remaining(depth: nat): nat {
    if depth > MAX_DEPTH then 0 else MAX_DEPTH + 1 - depth
  }

  function ResolveFieldInner(types: TypeTable, order: Order, typeName: string, field: string, base: nat, depth: nat)
    : Option<Resolved>
    decreases Remaining(depth), 0, typeName
  {
    if depth > MAX_DEPTH || typeName !in types then None
    else
      var fields := types[typeName].fields;
      if field in fields then Some(Resolved(base + fields[field].offset, fields[field].ty))
      else ResolveInMembers(types, order, fields, order(typeName), field, base, depth + 1)
  }

  /** The search through the anonymous members, in the order given. */
  function ResolveInMembers(types: TypeTable, order: Order, fields: map<string, Field>, names: seq<string>,
                            field: string, base: nat, depth: nat): Option<Resolved>
    decreases Remaining(depth), 1, |names|
  {
    if names == [] then None
    else
      var rest := ResolveInMembers(types, order, fields, names[1..], field, base, depth);
      if IsNested(fields, names[0]) then
        var nested := ResolveFieldInner(types, order, NestedType(fields, names[0]), field,
                                        base + fields[names[0]].offset, depth);
        if nested.Some? then nested else rest
      else rest
  }

  predicate IsNested(fields: map<string, Field>, name: string) {
    name in fields && fields[name].anonymous && NamedUserType(fields[name].ty).Some?
  }

  function NestedType(fields: map<string, Field>, name: string): string
    requires IsNested(fields, name)
  {
    NamedUserType(fields[name].ty).value
  }

  /** The struct or union that a type comes to through pointers, arrays and bitfields. */
  ghost predicate IsUserTypeOf(t: TypeRef, name: string) {
    Peels(t, StructRef(name)) || Peels(t, UnionRef(name))
  }

  /** A chain of anonymous members leads from a type to a field of the given type, with the offsets on the way added up. */
  ghost predicate Leads(types: TypeTable, typeName: string, chain: seq<string>, field: string, offset: nat, ty: TypeRef)
    decreases |chain|
  {
    && typeName in types
    && var fields := types[typeName].fields;
    if chain == [] then field in fields && fields[field].offset == offset && fields[field].ty == ty
    else
      && chain[0] in fields && fields[chain[0]].anonymous && fields[chain[0]].offset <= offset
      && exists inner :: IsUserTypeOf(fields[chain[0]].ty, inner)
                         && Leads(types, inner, chain[1..], field, offset - fields[chain[0]].offset, ty)
  }

  /** The chain that a lookup follows, computed. */
  function Follow(types: TypeTable, typeName: string, chain: seq<string>, field: string): Option<Resolved>
    decreases |chain|
  {
    if typeName !in types then None
    else
      var fields := types[typeName].fields;
      if chain == [] then
        if field in fields then Some(Resolved(fields[field].offset, fields[field].ty)) else None
      else if !IsNested(fields, chain[0]) then None
      else
        var inner := Follow(types, NestedType(fields, chain[0]), chain[1..], field);
        if inner.None? then None else Some(Resolved(fields[chain[0]].offset + inner.value.offset, inner.value.ty))
  }

  lemma {:induction false} FollowLeads(types: TypeTable, typeName: string, chain: seq<string>, field: string, r: Resolved)
    ensures Follow(types, typeName, chain, field) == Some(r) <==> Leads(types, typeName, chain, field, r.offset, r.ty)
    decreases |chain|
  {
    hide IsUserTypeOf, NamedUserType;
    if typeName in types && chain != [] && chain[0] in types[typeName].fields {
      var f := types[typeName].fields[chain[0]];
      forall name ensures NamedUserType(f.ty) == Some(name) <==> IsUserTypeOf(f.ty, name) { UserTypeIs(f.ty, name); }
      if f.offset <= r.offset {
        forall name { FollowLeads(types, name, chain[1..], field, Resolved(r.offset - f.offset, r.ty)); }
      }
    }
  }

  lemma UserTypeIs(t: TypeRef, name: string)
    ensures NamedUserType(t) == Some(name) <==> IsUserTypeOf(t, name)
  {
    NamedUserTypeMeaning(t, name);
  }

  ghost predicate Reaches(types: TypeTable, typeName: string, chain: seq<string>, field: string, r: Resolved) {
    Follow(types, typeName, chain, field) == Some(r)
  }

  /** A result comes from a chain, with the offsets along that chain added up. */
  lemma {:induction false} ResolvedAlongChain(types: TypeTable, order: Order, typeName: string, field: string, base: nat, depth: nat)
    returns (chain: seq<string>)
    requires IsOrder(types, order) && depth <= MAX_DEPTH
    requires ResolveFieldInner(types, order, typeName, field, base, depth).Some?
    ensures |chain| <= MAX_DEPTH - depth
    ensures var r := ResolveFieldInner(types, order, typeName, field, base, depth).value;
            r.offset >= base && Reaches(types, typeName, chain, field, Resolved(r.offset - base, r.ty))
    decreases Remaining(depth), 0
  {
    var fields := types[typeName].fields;
    if field in fields {
      chain := [];
    } else {
      var name, rest := MemberAlongChain(types, order, fields, order(typeName), field, base, depth + 1);
      chain := [name] + rest;
      assert chain[1..] == rest;
    }
  }

  lemma {:induction false} MemberAlongChain(types: TypeTable, order: Order, fields: map<string, Field>, names: seq<string>,
                                            field: string, base: nat, depth: nat)
    returns (name: string, chain: seq<string>)
    requires IsOrder(types, order)
    requires ResolveInMembers(types, order, fields, names, field, base, depth).Some?
    ensures depth <= MAX_DEPTH && |chain| <= MAX_DEPTH - depth && IsNested(fields, name)
    ensures var r := ResolveInMembers(types, order, fields, names, field, base, depth).value;
            var start := base + fields[name].offset;
            r.offset >= start && Reaches(types, NestedType(fields, name), chain, field, Resolved(r.offset - start, r.ty))
    decreases Remaining(depth), 1, |names|
  {
    if IsNested(fields, names[0])
       && ResolveFieldInner(types, order, NestedType(fields, names[0]), field, base + fields[names[0]].offset, depth).Some? {
      name := names[0];
      chain := ResolvedAlongChain(types, order, NestedType(fields, name), field, base + fields[name].offset, depth);
    } else {
      name, chain := MemberAlongChain(types, order, fields, names[1..], field, base, depth);
    }
  }

  /** Any chain that is short enough makes the lookup succeed. */
  lemma {:induction false} ChainResolves(types: TypeTable, order: Order, typeName: string, field: string, base: nat, depth: nat,
                                         chain: seq<string>)
    requires IsOrder(types, order) && depth <= MAX_DEPTH && |chain| <= MAX_DEPTH - depth
    requires Follow(types, typeName, chain, field).Some?
    ensures ResolveFieldInner(types, order, typeName, field, base, depth).Some?
    decreases Remaining(depth), 0
  {
    var fields := types[typeName].fields;
    if field !in fields {
      assert chain[0] in order(typeName);
      MemberResolves(types, order, fields, order(typeName), field, base, depth + 1, chain);
    }
  }

  lemma {:induction false} MemberResolves(types: TypeTable, order: Order, fields: map<string, Field>, names: seq<string>,
                                          field: string, base: nat, depth: nat, chain: seq<string>)
    requires IsOrder(types, order) && depth <= MAX_DEPTH && 0 < |chain| <= MAX_DEPTH - depth + 1
    requires chain[0] in names && IsNested(fields, chain[0])
    requires Follow(types, NestedType(fields, chain[0]), chain[1..], field).Some?
    ensures ResolveInMembers(types, order, fields, names, field, base, depth).Some?
    decreases Remaining(depth), 1, |names|
  {
    if names[0] == chain[0] {
      ChainResolves(types, order, NestedType(fields, chain[0]), field, base + fields[chain[0]].offset, depth, chain[1..]);
    } else {
      MemberResolves(types, order, fields, names[1..], field, base, depth, chain);
    }
  }

  /** A chain of at most 32 anonymous members leads to the field. */
  ghost predicate IsReachable(types: TypeTable, typeName: string, field: string, offset: nat, ty: TypeRef) {
    exists chain :: |chain| <= 32 && Leads(types, typeName, chain, field, offset, ty)
  }

  /** A field is found exactly when a chain of at most 32 anonymous members leads to it, at an offset that is the
    * base plus the sum along such a chain; a type's own field hides nested ones.  This holds of every table, cyclic ones
    * included. */
  lemma FieldFoundIffReachable(types: TypeTable, order: Order, typeName: string, field: string, base: nat)
    requires IsOrder(types, order)
    ensures ResolveFieldInner(types, order, typeName, field, base, 0).Some?
       <==> exists offset, ty :: IsReachable(types, typeName, field, offset, ty)
    ensures ResolveFieldInner(types, order, typeName, field, base, 0).Some? ==>
              var found := ResolveFieldInner(types, order, typeName, field, base, 0).value;
              found.offset >= base && IsReachable(types, typeName, field, found.offset - base, found.ty)
    ensures typeName in types && field in types[typeName].fields ==>
              var own := types[typeName].fields[field];
              ResolveFieldInner(types, order, typeName, field, base, 0) == Some(Resolved(base + own.offset, own.ty))
  {
    hide Leads, Follow;
    var run := ResolveFieldInner(types, order, typeName, field, base, 0);
    if run.Some? {
      var chain := ResolvedAlongChain(types, order, typeName, field, base, 0);
      FollowLeads(types, typeName, chain, field, Resolved(run.value.offset - base, run.value.ty));
      assert IsReachable(types, typeName, field, run.value.offset - base, run.value.ty);
    }
    if offset, ty :| IsReachable(types, typeName, field, offset, ty) {
      var chain :| |chain| <= 32 && Leads(types, typeName, chain, field, offset, ty);
      FollowLeads(types, typeName, chain, field, Resolved(offset, ty));
      ChainResolves(types, order, typeName, field, base, 0, chain);
    }
  }

  /** When all the chains that reach the field agree, the order in which the maps are iterated does not matter. */
  lemma OrderDoesNotMatter(types: TypeTable, a: Order, b: Order, typeName: string, field: string, base: nat)
    requires IsOrder(types, a) && IsOrder(types, b)
    requires forall x, t, y, u :: IsReachable(types, typeName, field, x, t) && IsReachable(types, typeName, field, y, u)
               ==> x == y && t == u
    ensures ResolveFieldInner(types, a, typeName, field, base, 0) == ResolveFieldInner(types, b, typeName, field, base, 0)
  {
    hide IsReachable;
    FieldFoundIffReachable(types, a, typeName, field, base);
    FieldFoundIffReachable(types, b, typeName, field, base);
  }
}
