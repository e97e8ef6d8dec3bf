/** The BTF section parser (vmlinux.rs, `BtfFile`).
  * The record layouts are those of the BPF Type Format document of the Linux kernel, sections 2.1 and 2.2. */
module Btf {
  import opened Wrappers
  import opened Memory

  datatype Kind =
    | Int | Ptr | Array | Struct | Union | Enum | Fwd | Typedef | Volatile | Const | Restrict | Func | FuncProto
    | Var | DataSec | Float | DeclTag | TypeTag | Enum64 | Unknown(raw: nat)

  function KindFromRaw(raw: nat): Kind {
    match raw
    case 1 => Int
    case 2 => Ptr
    case 3 => Array
    case 4 => Struct
    case 5 => Union
    case 6 => Enum
    case 7 => Fwd
    case 8 => Typedef
    case 9 => Volatile
    case 10 => Const
    case 11 => Restrict
    case 12 => Func
    case 13 => FuncProto
    case 14 => Var
    case 15 => DataSec
    case 16 => Float
    case 17 => DeclTag
    case 18 => TypeTag
    case 19 => Enum64
    case _ => Unknown(raw)
  }

  datatype Member = Member(name: string, typeId: u32, bitOffset: u32, bitfieldSize: Option<byte>)

  datatype Payload =
    | NoData
    | IntData
    | ArrayData(elemType: u32, indexType: u32, nelems: u32)
    | CompositeData(members: seq<Member>)
    | EnumData(values: seq<(string, int)>)

  datatype BtfType = BtfType(kind: Kind, name: string, sizeOrType: u32, data: Payload)

  type Index = map<(Kind, string), nat>

  datatype BtfFile = BtfFile(types: seq<BtfType>, named: Index)

  // ----- reading bytes -----

  function Slice(data: seq<byte>, offset: nat, len: nat): Result<seq<byte>> {
    if offset + len <= |data| then Ok(data[offset..offset + len]) else Err
  }

  function ReadU16(data: seq<byte>, offset: nat): Result<nat> {
    if offset + 2 <= |data| then Ok((data[offset] as int) + 0x100 * (data[offset + 1] as int)) else Err
  }

  function ReadU32(data: seq<byte>, offset: nat): Result<u32> {
    if offset + 4 <= |data|
    then Ok(FromBytes(data[offset], data[offset + 1], data[offset + 2], data[offset + 3]))
    else Err
  }

  function FromBytes(a: byte, b: byte, c: byte, d: byte): u32 {
    (a as int) + 0x100 * b + 0x1_0000 * c + 0x100_0000 * d
  }

  function Signed32(n: u32): int {
    if n < 0x8000_0000 then n else n - 0x1_0000_0000
  }

  function Signed64(lo: u32, hi: u32): int {
    Signed32(hi) * 0x1_0000_0000 + lo
  }

  /** The bytes up to the first NUL, or to the end of the section. */
  function UpToNul(bytes: seq<byte>): string {
    if bytes == [] || bytes[0] == 0 then "" else [bytes[0] as char] + UpToNul(bytes[1..])
  }

  /** `s` is the text of some bytes, ended by a NUL or by their end. */
  ghost predicate IsUpToNul(bytes: seq<byte>, s: string) {
    && |s| <= |bytes| && (forall i :: 0 <= i < |s| ==> s[i] as int == bytes[i] && bytes[i] != 0)
    && (|s| < |bytes| ==> bytes[|s|] == 0)
  }

  lemma {:induction false} UpToNulMeaning(bytes: seq<byte>, s: string)
    ensures UpToNul(bytes) == s <==> IsUpToNul(bytes, s)
  {
    if bytes != [] && bytes[0] != 0 && s != "" {
      UpToNulMeaning(bytes[1..], s[1..]);
      assert s == [s[0]] + s[1..] && bytes == [bytes[0]] + bytes[1..];
      assert IsUpToNul(bytes, s) <==> s[0] as int == bytes[0] && IsUpToNul(bytes[1..], s[1..]) by { FirstOfText(bytes, s); }
    }
  }

  lemma FirstOfText(bytes: seq<byte>, s: string)
    requires bytes != [] && bytes[0] != 0 && s != ""
    ensures IsUpToNul(bytes, s) <==> s[0] as int == bytes[0] && IsUpToNul(bytes[1..], s[1..])
  {
    if s[0] as int == bytes[0] && IsUpToNul(bytes[1..], s[1..]) {
      forall i | 0 <= i < |s| ensures s[i] as int == bytes[i] && bytes[i] != 0 {
        assert i > 0 ==> s[i] == s[1..][i - 1] && bytes[i] == bytes[1..][i - 1];
      }
    }
  }

  /** A string that starts within the section, or at its end, is read up to the NUL or to the end. */
  lemma CStringMeaning(strs: seq<byte>, offset: nat, s: string)
    ensures ReadCString(strs, offset) == Ok(s) <==> offset <= |strs| && IsUpToNul(strs[offset..], s)
  {
    hide UpToNul, IsUpToNul;
    if offset <= |strs| { UpToNulMeaning(strs[offset..], s); }
  }

  function ReadCString(strs: seq<byte>, offset: nat): Result<string> {
    if offset <= |strs| then Ok(UpToNul(strs[offset..])) else Err
  }

  function ReadName(strs: seq<byte>, offset: u32): Result<string> {
    if offset == 0 then Ok("") else ReadCString(strs, offset)
  }

  // ----- one record -----

  function MemberAt(d: seq<byte>, strs: seq<byte>, base: nat, kflag: bool): Result<Member> {
    var nameOff :- ReadU32(d, base);
    var typeId :- ReadU32(d, base + 4);
    var raw :- ReadU32(d, base + 8);
    var name :- ReadName(strs, nameOff);
    Ok(if kflag then Member(name, typeId, raw % 0x100_0000, Some(raw / 0x100_0000)) else Member(name, typeId, raw, None))
  }

  function MembersAt(d: seq<byte>, strs: seq<byte>, base: nat, kflag: bool, count: nat): Result<seq<Member>> {
    if count == 0 then Ok([])
    else
      var front :- MembersAt(d, strs, base, kflag, count - 1);
      var last :- MemberAt(d, strs, base + 12 * (count - 1), kflag);
      Ok(front + [last])
  }

  function EnumValueAt(d: seq<byte>, strs: seq<byte>, base: nat): Result<(string, int)> {
    var nameOff :- ReadU32(d, base);
    var value :- ReadU32(d, base + 4);
    var name :- ReadCString(strs, nameOff);
    Ok((name, Signed32(value)))
  }

  function EnumValuesAt(d: seq<byte>, strs: seq<byte>, base: nat, count: nat): Result<seq<(string, int)>> {
    if count == 0 then Ok([])
    else
      var front :- EnumValuesAt(d, strs, base, count - 1);
      var last :- EnumValueAt(d, strs, base + 8 * (count - 1));
      Ok(front + [last])
  }

  function Enum64ValueAt(d: seq<byte>, strs: seq<byte>, base: nat): Result<(string, int)> {
    var nameOff :- ReadU32(d, base);
    var lo :- ReadU32(d, base + 4);
    var hi :- ReadU32(d, base + 8);
    var name :- ReadCString(strs, nameOff);
    Ok((name, Signed64(lo, hi)))
  }

  function Enum64ValuesAt(d: seq<byte>, strs: seq<byte>, base: nat, count: nat): Result<seq<(string, int)>> {
    if count == 0 then Ok([])
    else
      var front :- Enum64ValuesAt(d, strs, base, count - 1);
      var last :- Enum64ValueAt(d, strs, base + 12 * (count - 1));
      Ok(front + [last])
  }

  /** The bytes that follow the twelve-byte head of a record. */
  function TailSize(kind: Kind, vlen: nat): nat {
    match kind
    case Int => 4
    case Array => 12
    case Struct => vlen * 12
    case Union => vlen * 12
    case Enum => vlen * 8
    case Enum64 => vlen * 12
    case FuncProto => vlen * 8
    case Var => 4
    case DataSec => vlen * 12
    case DeclTag => 4
    case _ => 0
  }

  function PayloadAt(d: seq<byte>, strs: seq<byte>, offset: nat, kind: Kind, vlen: nat, kflag: bool): Result<Payload> {
    match kind
    case Int => (var _ :- ReadU32(d, offset); Ok(IntData))
    case Array => (
      var elemType :- ReadU32(d, offset);
      var indexType :- ReadU32(d, offset + 4);
      var nelems :- ReadU32(d, offset + 8);
      Ok(ArrayData(elemType, indexType, nelems)))
    case Struct => (var members :- MembersAt(d, strs, offset, kflag, vlen); Ok(CompositeData(members)))
    case Union => (var members :- MembersAt(d, strs, offset, kflag, vlen); Ok(CompositeData(members)))
    case Enum => (var values :- EnumValuesAt(d, strs, offset, vlen); Ok(EnumData(values)))
    case Enum64 => (var values :- Enum64ValuesAt(d, strs, offset, vlen); Ok(EnumData(values)))
    case _ => Ok(NoData)
  }

  function InfoKind(info: u32): Kind {
    KindFromRaw(info / 0x100_0000 % 0x20)
  }

  function InfoVlen(info: u32): nat {
    info % 0x1_0000
  }

  function InfoKflag(info: u32): bool {
    info / 0x8000_0000 != 0
  }

  datatype Parsed = Parsed(ty: BtfType, next: nat)

  function RecordAt(d: seq<byte>, strs: seq<byte>, base: nat): (r: Result<Parsed>)
    ensures r.Ok? ==> r.value.next > base
  {
    var nameOff :- ReadU32(d, base);
    var info :- ReadU32(d, base + 4);
    var sizeOrType :- ReadU32(d, base + 8);
    var kind := InfoKind(info);
    var vlen, kflag := InfoVlen(info), InfoKflag(info);
    var name :- ReadName(strs, nameOff);
    var data :- PayloadAt(d, strs, base + 12, kind, vlen, kflag);
    Ok(Parsed(BtfType(kind, name, sizeOrType, data), base + 12 + TailSize(kind, vlen)))
  }

  predicate IsNamedKind(kind: Kind) {
    kind in {Struct, Union, Enum, Enum64}
  }

  function AddNamed(named: Index, ty: BtfType, id: nat): Index {
    if IsNamedKind(ty.kind) && ty.name != "" && (ty.kind, ty.name) !in named then named[(ty.kind, ty.name) := id] else named
  }

  function Records(d: seq<byte>, strs: seq<byte>, offset: nat, types: seq<BtfType>, named: Index): Result<BtfFile>
    decreases |d| - offset
  {
    if offset >= |d| then Ok(BtfFile(types, named))
    else
      var r :- RecordAt(d, strs, offset);
      Records(d, strs, r.next, types + [r.ty], AddNamed(named, r.ty, |types| + 1))
  }

  datatype Sections = Sections(types: seq<byte>, strs: seq<byte>)

  function ReadSections(data: seq<byte>): Result<Sections> {
    if |data| < 24 then Err
    else
      var magic :- ReadU16(data, 0);
      if magic != 0xeb9f || data[2] != 1 then Err
      else
        var headerLen :- ReadU32(data, 4);
        var typeOff :- ReadU32(data, 8);
        var typeLen :- ReadU32(data, 12);
        var strOff :- ReadU32(data, 16);
        var strLen :- ReadU32(data, 20);
        var types :- Slice(data, headerLen + typeOff, typeLen);
        var strs :- Slice(data, headerLen + strOff, strLen);
        Ok(Sections(types, strs))
  }

  function ParseBtf(data: seq<byte>): Result<BtfFile> {
    var s :- ReadSections(data);
    Records(s.types, s.strs, 0, [], map[])
  }

  // ----- the loops -----

  method ParseMembers(d: seq<byte>, strs: seq<byte>, offset: nat, kflag: bool, vlen: nat) returns (r: Result<seq<Member>>)
    ensures r == MembersAt(d, strs, offset, kflag, vlen)
  {
    var members: seq<Member> := [];
    for idx := 0 to vlen
      invariant MembersAt(d, strs, offset, kflag, idx) == Ok(members)
    {
      var m := MemberAt(d, strs, offset + 12 * idx, kflag);
      if m.Err? { MembersFail(d, strs, offset, kflag, idx + 1, vlen); return Err; }
      members := members + [m.value];
    }
    return Ok(members);
  }

  lemma {:induction false} MembersFail(d: seq<byte>, strs: seq<byte>, offset: nat, kflag: bool, k: nat, n: nat)
    requires k <= n && MembersAt(d, strs, offset, kflag, k).Err?
    ensures MembersAt(d, strs, offset, kflag, n).Err?
  {
    if k < n { MembersFail(d, strs, offset, kflag, k, n - 1); }
  }

  method ParseEnumValues(d: seq<byte>, strs: seq<byte>, offset: nat, vlen: nat) returns (r: Result<seq<(string, int)>>)
    ensures r == EnumValuesAt(d, strs, offset, vlen)
  {
    var values: seq<(string, int)> := [];
    for idx := 0 to vlen
      invariant EnumValuesAt(d, strs, offset, idx) == Ok(values)
    {
      var v := EnumValueAt(d, strs, offset + 8 * idx);
      if v.Err? { EnumValuesFail(d, strs, offset, idx + 1, vlen); return Err; }
      values := values + [v.value];
    }
    return Ok(values);
  }

  lemma {:induction false} EnumValuesFail(d: seq<byte>, strs: seq<byte>, offset: nat, k: nat, n: nat)
    requires k <= n && EnumValuesAt(d, strs, offset, k).Err?
    ensures EnumValuesAt(d, strs, offset, n).Err?
  {
    if k < n { EnumValuesFail(d, strs, offset, k, n - 1); }
  }

  method ParseEnum64Values(d: seq<byte>, strs: seq<byte>, offset: nat, vlen: nat) returns (r: Result<seq<(string, int)>>)
    ensures r == Enum64ValuesAt(d, strs, offset, vlen)
  {
    var values: seq<(string, int)> := [];
    for idx := 0 to vlen
      invariant Enum64ValuesAt(d, strs, offset, idx) == Ok(values)
    {
      var v := Enum64ValueAt(d, strs, offset + 12 * idx);
      if v.Err? { Enum64ValuesFail(d, strs, offset, idx + 1, vlen); return Err; }
      values := values + [v.value];
    }
    return Ok(values);
  }

  lemma {:induction false} Enum64ValuesFail(d: seq<byte>, strs: seq<byte>, offset: nat, k: nat, n: nat)
    requires k <= n && Enum64ValuesAt(d, strs, offset, k).Err?
    ensures Enum64ValuesAt(d, strs, offset, n).Err?
  {
    if k < n { Enum64ValuesFail(d, strs, offset, k, n - 1); }
  }

  method ParseRecord(d: seq<byte>, strs: seq<byte>, base: nat) returns (r: Result<Parsed>)
    ensures r == RecordAt(d, strs, base)
  {
    hide PayloadAt, ReadName, ReadU32, InfoKind, InfoVlen, InfoKflag, TailSize;
    var nameOff :- ReadU32(d, base);
    var info :- ReadU32(d, base + 4);
    var sizeOrType :- ReadU32(d, base + 8);
    var kind := InfoKind(info);
    var vlen, kflag := InfoVlen(info), InfoKflag(info);
    var name :- ReadName(strs, nameOff);
    var data :- ParsePayload(d, strs, base + 12, kind, vlen, kflag);
    return Ok(Parsed(BtfType(kind, name, sizeOrType, data), base + 12 + TailSize(kind, vlen)));
  }

  method Parse(data: seq<byte>) returns (r: Result<BtfFile>)
    ensures r == ParseBtf(data)
  {
    hide ReadSections, RecordAt, AddNamed;
    var sections :- ReadSections(data);
    var Sections(d, strs) := sections;
    var types: seq<BtfType>, named: Index := [], map[];
    var offset: nat := 0;
    while offset < |d|
      invariant Records(d, strs, offset, types, named) == Records(d, strs, 0, [], map[])
      decreases |d| - offset
    {
      var next :- ParseRecord(d, strs, offset);
      offset := next.next;
      named := AddNamed(named, next.ty, |types| + 1);
      types := types + [next.ty];
    }
    return Ok(BtfFile(types, named));
  }

  method ParsePayload(d: seq<byte>, strs: seq<byte>, offset: nat, kind: Kind, vlen: nat, kflag: bool)
    returns (r: Result<Payload>)
    ensures r == PayloadAt(d, strs, offset, kind, vlen, kflag)
  {
    if kind == Struct || kind == Union {
      var members :- ParseMembers(d, strs, offset, kflag, vlen);
      return Ok(CompositeData(members));
    } else if kind == Enum {
      var values :- ParseEnumValues(d, strs, offset, vlen);
      return Ok(EnumData(values));
    } else if kind == Enum64 {
      var values :- ParseEnum64Values(d, strs, offset, vlen);
      return Ok(EnumData(values));
    }
    return PayloadAt(d, strs, offset, kind, vlen, kflag);
  }

  // ----- looking types up -----

  /** `named` answers exactly what a linear search for the least 1-based id would. */
  ghost predicate IsIndexOf(named: Index, types: seq<BtfType>) {
    forall kind, name ::
      && ((kind, name) in named <==>
            && kind in {Struct, Union, Enum, Enum64} && name != ""
            && exists i :: 0 <= i < |types| && IsCalled(types[i], kind, name))
      && ((kind, name) in named ==>
            var id := named[(kind, name)];
            && 1 <= id <= |types| && IsCalled(types[id - 1], kind, name)
            && forall i :: 0 <= i < id - 1 ==> !IsCalled(types[i], kind, name))
  }

  predicate IsCalled(ty: BtfType, kind: Kind, name: string) {
    ty.kind == kind && ty.name == name
  }

  lemma AddNamedKeepsIndex(named: Index, types: seq<BtfType>, ty: BtfType)
    requires IsIndexOf(named, types)
    ensures IsIndexOf(AddNamed(named, ty, |types| + 1), types + [ty])
  {
    var all, next := types + [ty], AddNamed(named, ty, |types| + 1);
    forall kind, name
      ensures ((kind, name) in next <==> IsNamedKind(kind) && name != "" && exists i :: 0 <= i < |all| && IsCalled(all[i], kind, name))
           && ((kind, name) in next ==>
                 var id := next[(kind, name)];
                 && 1 <= id <= |all| && IsCalled(all[id - 1], kind, name)
                 && forall i :: 0 <= i < id - 1 ==> !IsCalled(all[i], kind, name))
    {
      assert all[|types|] == ty;
      assert forall i :: 0 <= i < |types| ==> all[i] == types[i];
      if (kind, name) in next && (kind, name) !in named {
        assert kind == ty.kind && name == ty.name;
      }
    }
  }

  /** Whatever the bytes are, a successful parse indexes its own types. */
  lemma {:induction false} RecordsIndexed(d: seq<byte>, strs: seq<byte>, offset: nat, types: seq<BtfType>, named: Index)
    requires IsIndexOf(named, types)
    ensures var r := Records(d, strs, offset, types, named);
            r.Ok? ==> IsIndexOf(r.value.named, r.value.types)
    decreases |d| - offset
  {
    if offset < |d| && RecordAt(d, strs, offset).Ok? {
      var r := RecordAt(d, strs, offset).value;
      AddNamedKeepsIndex(named, types, r.ty);
      RecordsIndexed(d, strs, r.next, types + [r.ty], AddNamed(named, r.ty, |types| + 1));
    }
  }

  function FindNamed(file: BtfFile, kind: Kind, name: string): Result<nat> {
    if (kind, name) in file.named then Ok(file.named[(kind, name)]) else Err
  }

  function TypeById(file: BtfFile, id: nat): Result<BtfType> {
    if id == 0 || id > |file.types| then Err else Ok(file.types[id - 1])
  }

  /** On any parsed section, a name lookup gives the least id of that kind and name, and fails only if there is none. */
  lemma FindNamedIsLinearSearch(data: seq<byte>, kind: Kind, name: string)
    ensures ParseBtf(data).Ok? && kind in {Struct, Union, Enum, Enum64} && name != "" ==>
              SearchesLinearly(ParseBtf(data).value, kind, name)
  {
    hide ReadSections, Records;
    if ParseBtf(data).Ok? && IsNamedKind(kind) && name != "" {
      var s := ReadSections(data).value;
      EmptyIndex();
      RecordsIndexed(s.types, s.strs, 0, [], map[]);
      IndexSearches(ParseBtf(data).value, kind, name);
    }
  }

  lemma EmptyIndex()
    ensures IsIndexOf(map[], [])
  {
  }

  /** The least id of that kind and name, or no record is called so. */
  ghost predicate SearchesLinearly(file: BtfFile, kind: Kind, name: string) {
    match FindNamed(file, kind, name)
    case Ok(id) =>
      && 1 <= id <= |file.types| && IsCalled(file.types[id - 1], kind, name)
      && forall j :: 0 <= j < |file.types| && IsCalled(file.types[j], kind, name) ==> id <= j + 1
    case Err => forall j :: 0 <= j < |file.types| ==> !IsCalled(file.types[j], kind, name)
  }

  lemma IndexSearches(file: BtfFile, kind: Kind, name: string)
    requires IsIndexOf(file.named, file.types) && IsNamedKind(kind) && name != ""
    ensures SearchesLinearly(file, kind, name)
  {
    forall j | 0 <= j < |file.types| && IsCalled(file.types[j], kind, name)
      ensures (kind, name) in file.named && file.named[(kind, name)] <= j + 1
    {
    }
  }

  /** Ids count from one. */
  lemma TypeByIdMeaning(file: BtfFile, id: nat, ty: BtfType)
    ensures TypeById(file, id) == Ok(ty) <==> 1 <= id <= |file.types| && file.types[id - 1] == ty
  {
  }

  /** Payloads go with kinds. */
  predicate FitsKind(ty: BtfType) {
    && (ty.kind == Array ==> ty.data.ArrayData?)
    && (ty.kind in {Struct, Union} <==> ty.data.CompositeData?)
    && (ty.kind in {Enum, Enum64} <==> ty.data.EnumData?)
  }

  /** Whatever the bytes are, a parsed record has the payload of its kind. */
  lemma {:induction false} RecordsFit(d: seq<byte>, strs: seq<byte>, offset: nat, types: seq<BtfType>, named: Index)
    requires forall ty :: ty in types ==> FitsKind(ty)
    ensures var r := Records(d, strs, offset, types, named);
            r.Ok? ==> forall ty :: ty in r.value.types ==> FitsKind(ty)
    decreases |d| - offset
  {
    hide FitsKind, RecordAt, AddNamed;
    if offset < |d| && RecordAt(d, strs, offset).Ok? {
      var r := RecordAt(d, strs, offset).value;
      RecordFits(d, strs, offset);
      RecordsFit(d, strs, r.next, types + [r.ty], AddNamed(named, r.ty, |types| + 1));
    }
  }

  lemma RecordFits(d: seq<byte>, strs: seq<byte>, base: nat)
    ensures RecordAt(d, strs, base).Ok? ==> FitsKind(RecordAt(d, strs, base).value.ty)
  {
    hide ReadU32, ReadName, MembersAt, EnumValuesAt, Enum64ValuesAt, InfoKind;
  }

  lemma ParsedFits(data: seq<byte>)
    ensures ParseBtf(data).Ok? ==> forall ty :: ty in ParseBtf(data).value.types ==> FitsKind(ty)
  {
    hide ReadSections, Records, FitsKind;
    if ParseBtf(data).Ok? {
      var s := ReadSections(data).value;
      RecordsFit(s.types, s.strs, 0, [], map[]);
    }
  }
}
