/** Writing a BTF section, record by record as the format lays it out, and the parser reading it back. */
module BtfEncoding {
  import opened Wrappers
  import opened Memory
  import opened Btf

  /** What a record says beyond its name and its size or type. */
  datatype Body =
    | IntBody(encoding: u32)
    | PlainBody(kind: Kind, vlen: nat, kflag: bool)
    | ArrayBody(elemType: u32, indexType: u32, nelems: u32)
    | CompositeBody(isUnion: bool, kflag: bool, members: seq<Member>)
    | EnumBody(kflag: bool, values: seq<(string, int)>)
    | Enum64Body(kflag: bool, values: seq<(string, int)>)
    | FuncProtoBody(params: seq<(u32, u32)>)
    | VarBody(linkage: u32)
    | DataSecBody(entries: seq<(u32, u32, u32)>)
    | DeclTagBody(component: u32)

  datatype Record = Record(name: string, sizeOrType: u32, body: Body)

  /** The offset at which the string section holds a name. */
  type Place = string -> u32

  const MAX_VLEN: nat := 0xFFFF

  predicate PlainKind(kind: Kind) {
    kind in {Ptr, Fwd, Typedef, Volatile, Const, Restrict, Func, Float, TypeTag}
  }

  predicate WellFormedMember(kflag: bool, m: Member) {
    if kflag then m.bitOffset < 0x100_0000 && m.bitfieldSize.Some? else m.bitfieldSize.None?
  }

  /** Every value the format can express: kflag or not, an enumerator is a signed or an unsigned word. */
  predicate WellFormed(b: Body) {
    match b
    case PlainBody(kind, vlen, _) => PlainKind(kind) && vlen <= MAX_VLEN
    case CompositeBody(_, kflag, members) =>
      |members| <= MAX_VLEN && forall m :: m in members ==> WellFormedMember(kflag, m)
    case EnumBody(_, values) =>
      |values| <= MAX_VLEN && forall v :: v in values ==> Fits32(v)
    case Enum64Body(_, values) =>
      |values| <= MAX_VLEN && forall v :: v in values ==> Fits64(v)
    case FuncProtoBody(params) => |params| <= MAX_VLEN
    case DataSecBody(entries) => |entries| <= MAX_VLEN
    case _ => true
  }

  function KindOf(b: Body): Kind {
    match b
    case IntBody(_) => Int
    case PlainBody(kind, _, _) => kind
    case ArrayBody(_, _, _) => Array
    case CompositeBody(isUnion, _, _) => if isUnion then Union else Struct
    case EnumBody(_, _) => Enum
    case Enum64Body(_, _) => Enum64
    case FuncProtoBody(_) => FuncProto
    case VarBody(_) => Var
    case DataSecBody(_) => DataSec
    case DeclTagBody(_) => DeclTag
  }

  function RawKind(kind: Kind): nat {
    match kind
    case Int => 1
    case Ptr => 2
    case Array => 3
    case Struct => 4
    case Union => 5
    case Enum => 6
    case Fwd => 7
    case Typedef => 8
    case Volatile => 9
    case Const => 10
    case Restrict => 11
    case Func => 12
    case FuncProto => 13
    case Var => 14
    case DataSec => 15
    case Float => 16
    case DeclTag => 17
    case TypeTag => 18
    case Enum64 => 19
    case Unknown(_) => 0
  }

  function Vlen(b: Body): nat {
    match b
    case PlainBody(_, vlen, _) => vlen
    case CompositeBody(_, _, members) => |members|
    case EnumBody(_, values) => |values|
    case Enum64Body(_, values) => |values|
    case FuncProtoBody(params) => |params|
    case DataSecBody(entries) => |entries|
    case _ => 0
  }

  predicate Kflag(b: Body) {
    match b
    case PlainBody(_, _, kflag) => kflag
    case CompositeBody(_, kflag, _) => kflag
    case EnumBody(kflag, _) => kflag
    case Enum64Body(kflag, _) => kflag
    case _ => false
  }

  // ----- the encoder -----

  function Word32(v: int): u32
    requires -0x8000_0000 <= v < 0x1_0000_0000
  {
    if v < 0 then v + 0x1_0000_0000 else v
  }

  function Word64(v: int): nat
    requires -0x8000_0000_0000_0000 <= v < 0x1_0000_0000_0000_0000
  {
    if v < 0 then v + 0x1_0000_0000_0000_0000 else v
  }

  function EncodeMember(place: Place, kflag: bool, m: Member): seq<byte>
    requires WellFormedMember(kflag, m)
  {
    Bytes32(place(m.name)) + Bytes32(m.typeId)
    + Bytes32(if kflag then m.bitOffset + 0x100_0000 * (m.bitfieldSize.value as int) else m.bitOffset)
  }

  function EncodeMembers(place: Place, kflag: bool, ms: seq<Member>): seq<byte>
    requires forall m :: m in ms ==> WellFormedMember(kflag, m)
  {
    if ms == [] then [] else EncodeMembers(place, kflag, ms[..|ms| - 1]) + EncodeMember(place, kflag, ms[|ms| - 1])
  }

  predicate Fits32(v: (string, int)) {
    -0x8000_0000 <= v.1 < 0x1_0000_0000
  }

  predicate Fits64(v: (string, int)) {
    -0x8000_0000_0000_0000 <= v.1 < 0x1_0000_0000_0000_0000
  }

  function EncodeValue(place: Place, v: (string, int)): seq<byte>
    requires Fits32(v)
  {
    Bytes32(place(v.0)) + Bytes32(Word32(v.1))
  }

  function EncodeValues(place: Place, vs: seq<(string, int)>): seq<byte>
    requires forall v :: v in vs ==> Fits32(v)
  {
    if vs == [] then [] else EncodeValues(place, vs[..|vs| - 1]) + EncodeValue(place, vs[|vs| - 1])
  }

  function EncodeValue64(place: Place, v: (string, int)): seq<byte>
    requires Fits64(v)
  {
    Bytes32(place(v.0)) + Bytes32(Word64(v.1) % 0x1_0000_0000) + Bytes32(Word64(v.1) / 0x1_0000_0000)
  }

  function EncodeValues64(place: Place, vs: seq<(string, int)>): seq<byte>
    requires forall v :: v in vs ==> Fits64(v)
  {
    if vs == [] then [] else EncodeValues64(place, vs[..|vs| - 1]) + EncodeValue64(place, vs[|vs| - 1])
  }

  function EncodePairs(ps: seq<(u32, u32)>): seq<byte> {
    if ps == [] then [] else EncodePairs(ps[..|ps| - 1]) + Bytes32(ps[|ps| - 1].0) + Bytes32(ps[|ps| - 1].1)
  }

  function EncodeTriples(ts: seq<(u32, u32, u32)>): seq<byte> {
    if ts == [] then []
    else EncodeTriples(ts[..|ts| - 1]) + Bytes32(ts[|ts| - 1].0) + Bytes32(ts[|ts| - 1].1) + Bytes32(ts[|ts| - 1].2)
  }

  function EncodeBody(place: Place, b: Body): seq<byte>
    requires WellFormed(b)
  {
    match b
    case IntBody(encoding) => Bytes32(encoding)
    case PlainBody(_, _, _) => []
    case ArrayBody(e, i, n) => Bytes32(e) + Bytes32(i) + Bytes32(n)
    case CompositeBody(_, kflag, members) => EncodeMembers(place, kflag, members)
    case EnumBody(_, values) => EncodeValues(place, values)
    case Enum64Body(_, values) => EncodeValues64(place, values)
    case FuncProtoBody(params) => EncodePairs(params)
    case VarBody(linkage) => Bytes32(linkage)
    case DataSecBody(entries) => EncodeTriples(entries)
    case DeclTagBody(component) => Bytes32(component)
  }

  function Info(b: Body): u32
    requires WellFormed(b)
  {
    Vlen(b) + 0x100_0000 * RawKind(KindOf(b)) + if Kflag(b) then 0x8000_0000 else 0
  }

  function EncodeRecord(place: Place, r: Record): seq<byte>
    requires WellFormed(r.body)
  {
    Bytes32(place(r.name)) + Bytes32(Info(r.body)) + Bytes32(r.sizeOrType) + EncodeBody(place, r.body)
  }

  function EncodeRecords(place: Place, rs: seq<Record>): seq<byte>
    requires forall r :: r in rs ==> WellFormed(r.body)
  {
    if rs == [] then [] else EncodeRecord(place, rs[0]) + EncodeRecords(place, rs[1..])
  }

  /** The header, the type section and the string section. */
  function EncodeFile(place: Place, strs: seq<byte>, rs: seq<Record>): seq<byte>
    requires forall r :: r in rs ==> WellFormed(r.body)
    requires |EncodeRecords(place, rs)| < 0x1_0000_0000 && |strs| < 0x1_0000_0000
  {
    var types := EncodeRecords(place, rs);
    Header(|types|, |strs|) + types + strs
  }

  /** Magic, version and flags; the header length; then offset and length of the types and of the strings. */
  function Header(typesLen: u32, strsLen: u32): seq<byte> {
    [0x9f, 0xeb, 1, 0] + (Bytes32(24) + Bytes32(0) + Bytes32(typesLen)) + (Bytes32(typesLen) + Bytes32(strsLen))
  }

  // ----- what the parser keeps of a record -----

  function Wrapped32(v: int): int {
    if v < 0x8000_0000 then v else v - 0x1_0000_0000
  }

  function Wrapped64(v: int): int {
    if v < 0x8000_0000_0000_0000 then v else v - 0x1_0000_0000_0000_0000
  }

  /** Enumerators come back as signed words: unchanged unless they are unsigned and have the top bit set. */
  function WrapValues(vs: seq<(string, int)>, wrap: int -> int): seq<(string, int)> {
    seq(|vs|, i requires 0 <= i < |vs| => (vs[i].0, wrap(vs[i].1)))
  }

  function KeptBody(b: Body): Payload {
    match b
    case IntBody(_) => IntData
    case ArrayBody(e, i, n) => ArrayData(e, i, n)
    case CompositeBody(_, _, members) => CompositeData(members)
    case EnumBody(_, values) => EnumData(WrapValues(values, Wrapped32))
    case Enum64Body(_, values) => EnumData(WrapValues(values, Wrapped64))
    case _ => NoData
  }

  function Kept(r: Record): BtfType {
    BtfType(KindOf(r.body), r.name, r.sizeOrType, KeptBody(r.body))
  }

  function KeptAll(rs: seq<Record>): seq<BtfType> {
    seq(|rs|, i requires 0 <= i < |rs| => Kept(rs[i]))
  }

  /** The string section holds `name` at its place; offset 0 is the empty name. */
  ghost predicate Placed(strs: seq<byte>, place: Place, name: string) {
    ReadCString(strs, place(name)) == Ok(name) && (place(name) == 0 ==> name == "")
  }

  ghost predicate NamesPlaced(strs: seq<byte>, place: Place, r: Record) {
    && Placed(strs, place, r.name)
    && match r.body
       case CompositeBody(_, _, members) => forall m :: m in members ==> Placed(strs, place, m.name)
       case EnumBody(_, values) => forall v :: v in values ==> Placed(strs, place, v.0)
       case Enum64Body(_, values) => forall v :: v in values ==> Placed(strs, place, v.0)
       case _ => true
  }

  // ----- reading back -----

  /** The bytes of `d` from `base` on begin with `bytes`. */
  predicate Holds(d: seq<byte>, base: nat, bytes: seq<byte>) {
    base + |bytes| <= |d| && d[base..base + |bytes|] == bytes
  }

  lemma HoldsBoth(d: seq<byte>, base: nat, a: seq<byte>, b: seq<byte>)
    requires Holds(d, base, a + b)
    ensures Holds(d, base, a) && Holds(d, base + |a|, b)
  {
    var all := d[base..base + |a + b|];
    assert all[..|a|] == a && all[|a|..] == b;
  }

  lemma ReadsBack(d: seq<byte>, base: nat, n: u32)
    requires Holds(d, base, Bytes32(n))
    ensures ReadU32(d, base) == Ok(n)
  {
    hide FromBytes;
    BytesValue(n);
    var bytes := d[base..base + 4];
    assert bytes == Bytes32(n);
    assert d[base] == bytes[0] && d[base + 1] == bytes[1] && d[base + 2] == bytes[2] && d[base + 3] == bytes[3];
  }

  lemma BytesValue(n: u32)
    ensures FromBytes(n % 0x100, n / 0x100 % 0x100, n / 0x1_0000 % 0x100, n / 0x100_0000) == n
  {
    var q, r := n / 0x100, n / 0x1_0000;
    assert n == 0x100 * q + n % 0x100;
    assert q == 0x100 * (q / 0x100) + q % 0x100 && q / 0x100 == r;
    assert r == 0x100 * (r / 0x100) + r % 0x100 && r / 0x100 == n / 0x100_0000;
  }

  lemma ReadsThree(d: seq<byte>, base: nat, x: u32, y: u32, z: u32)
    requires Holds(d, base, Bytes32(x) + Bytes32(y) + Bytes32(z))
    ensures ReadU32(d, base) == Ok(x) && ReadU32(d, base + 4) == Ok(y) && ReadU32(d, base + 8) == Ok(z)
  {
    hide Holds, ReadU32, Bytes32;
    LengthOfBytes(x); LengthOfBytes(y);
    HoldsBoth(d, base, Bytes32(x) + Bytes32(y), Bytes32(z));
    HoldsBoth(d, base, Bytes32(x), Bytes32(y));
    ReadsBack(d, base, x);
    ReadsBack(d, base + 4, y);
    ReadsBack(d, base + 8, z);
  }

  lemma LengthOfBytes(n: u32)
    ensures |Bytes32(n)| == 4
  {
  }

  lemma MemberReadsBack(d: seq<byte>, strs: seq<byte>, place: Place, base: nat, kflag: bool, m: Member)
    requires WellFormedMember(kflag, m) && Placed(strs, place, m.name)
    requires Holds(d, base, EncodeMember(place, kflag, m))
    ensures MemberAt(d, strs, base, kflag) == Ok(m) && |EncodeMember(place, kflag, m)| == 12
  {
    LengthOfBytes(place(m.name)); LengthOfBytes(m.typeId);
    hide Holds, ReadU32, Bytes32, ReadCString;
    var raw := if kflag then m.bitOffset + 0x100_0000 * (m.bitfieldSize.value as int) else m.bitOffset;
    LengthOfBytes(raw);
    ReadsThree(d, base, place(m.name), m.typeId, raw);
  }

  ghost predicate MembersEncodable(strs: seq<byte>, place: Place, kflag: bool, ms: seq<Member>) {
    forall m :: m in ms ==> WellFormedMember(kflag, m) && Placed(strs, place, m.name)
  }

  lemma MembersParts(strs: seq<byte>, place: Place, kflag: bool, ms: seq<Member>)
    requires MembersEncodable(strs, place, kflag, ms) && ms != []
    ensures var front, m := ms[..|ms| - 1], ms[|ms| - 1];
            && MembersEncodable(strs, place, kflag, front) && WellFormedMember(kflag, m) && Placed(strs, place, m.name)
            && EncodeMembers(place, kflag, ms) == EncodeMembers(place, kflag, front) + EncodeMember(place, kflag, m)
  {
    hide Placed, WellFormedMember, EncodeMember;
    assert ms[|ms| - 1] in ms && forall x :: x in ms[..|ms| - 1] ==> x in ms;
  }

  lemma {:induction false} MembersReadBack(d: seq<byte>, strs: seq<byte>, place: Place, base: nat, kflag: bool, ms: seq<Member>)
    requires MembersEncodable(strs, place, kflag, ms)
    requires Holds(d, base, EncodeMembers(place, kflag, ms))
    ensures |EncodeMembers(place, kflag, ms)| == 12 * |ms|
    ensures MembersAt(d, strs, base, kflag, |ms|) == Ok(ms)
  {
    hide Holds, MemberAt, EncodeMember, Placed, WellFormedMember, MembersAt, EncodeMembers;
    if ms != [] {
      var front, m := ms[..|ms| - 1], ms[|ms| - 1];
      MembersParts(strs, place, kflag, ms);
      HoldsBoth(d, base, EncodeMembers(place, kflag, front), EncodeMember(place, kflag, m));
      MembersReadBack(d, strs, place, base, kflag, front);
      MemberReadsBack(d, strs, place, base + 12 * |front|, kflag, m);
      OneMoreMember(d, strs, base, kflag, front, m);
      assert ms == front + [m];
    } else {
      NoMembers(d, strs, place, base, kflag);
    }
  }

  lemma NoMembers(d: seq<byte>, strs: seq<byte>, place: Place, base: nat, kflag: bool)
    ensures MembersAt(d, strs, base, kflag, 0) == Ok([]) && EncodeMembers(place, kflag, []) == []
  {
  }

  lemma OneMoreMember(d: seq<byte>, strs: seq<byte>, base: nat, kflag: bool, front: seq<Member>, m: Member)
    requires MembersAt(d, strs, base, kflag, |front|) == Ok(front)
    requires MemberAt(d, strs, base + 12 * |front|, kflag) == Ok(m)
    ensures MembersAt(d, strs, base, kflag, |front| + 1) == Ok(front + [m])
  {
  }

  lemma ValueReadsBack(d: seq<byte>, strs: seq<byte>, place: Place, base: nat, v: (string, int))
    requires Fits32(v) && Placed(strs, place, v.0) && Holds(d, base, EncodeValue(place, v))
    ensures EnumValueAt(d, strs, base) == Ok((v.0, Wrapped32(v.1))) && |EncodeValue(place, v)| == 8
  {
    hide Holds, ReadU32, Bytes32, ReadCString;
    LengthOfBytes(place(v.0)); LengthOfBytes(Word32(v.1));
    HoldsBoth(d, base, Bytes32(place(v.0)), Bytes32(Word32(v.1)));
    ReadsBack(d, base, place(v.0));
    ReadsBack(d, base + 4, Word32(v.1));
  }

  lemma {:induction false} ValuesReadBack(d: seq<byte>, strs: seq<byte>, place: Place, base: nat, vs: seq<(string, int)>)
    requires forall v :: v in vs ==> Fits32(v) && Placed(strs, place, v.0)
    requires Holds(d, base, EncodeValues(place, vs))
    ensures |EncodeValues(place, vs)| == 8 * |vs|
    ensures EnumValuesAt(d, strs, base, |vs|) == Ok(WrapValues(vs, Wrapped32))
  {
    if vs != [] {
      hide Holds, EnumValueAt, EncodeValue, Placed, Fits32, Wrapped32;
      var front, v := vs[..|vs| - 1], vs[|vs| - 1];
      assert vs == front + [v];
      HoldsBoth(d, base, EncodeValues(place, front), EncodeValue(place, v));
      ValuesReadBack(d, strs, place, base, front);
      ValueReadsBack(d, strs, place, base + 8 * |front|, v);
      assert WrapValues(vs, Wrapped32) == WrapValues(front, Wrapped32) + [(v.0, Wrapped32(v.1))];
    }
  }

  lemma Value64ReadsBack(d: seq<byte>, strs: seq<byte>, place: Place, base: nat, v: (string, int))
    requires Fits64(v) && Placed(strs, place, v.0) && Holds(d, base, EncodeValue64(place, v))
    ensures Enum64ValueAt(d, strs, base) == Ok((v.0, Wrapped64(v.1))) && |EncodeValue64(place, v)| == 12
  {
    hide Holds, ReadU32, Bytes32, ReadCString;
    var lo, hi := Word64(v.1) % 0x1_0000_0000, Word64(v.1) / 0x1_0000_0000;
    LengthOfBytes(place(v.0)); LengthOfBytes(lo); LengthOfBytes(hi);
    ReadsThree(d, base, place(v.0), lo, hi);
  }

  lemma {:induction false} Values64ReadBack(d: seq<byte>, strs: seq<byte>, place: Place, base: nat, vs: seq<(string, int)>)
    requires forall v :: v in vs ==> Fits64(v) && Placed(strs, place, v.0)
    requires Holds(d, base, EncodeValues64(place, vs))
    ensures |EncodeValues64(place, vs)| == 12 * |vs|
    ensures Enum64ValuesAt(d, strs, base, |vs|) == Ok(WrapValues(vs, Wrapped64))
  {
    if vs != [] {
      hide Holds, Enum64ValueAt, EncodeValue64, Placed, Fits64, Wrapped64;
      var front, v := vs[..|vs| - 1], vs[|vs| - 1];
      assert vs == front + [v];
      HoldsBoth(d, base, EncodeValues64(place, front), EncodeValue64(place, v));
      Values64ReadBack(d, strs, place, base, front);
      Value64ReadsBack(d, strs, place, base + 12 * |front|, v);
      assert WrapValues(vs, Wrapped64) == WrapValues(front, Wrapped64) + [(v.0, Wrapped64(v.1))];
    }
  }

  lemma {:induction false} LengthOfPairs(ps: seq<(u32, u32)>)
    ensures |EncodePairs(ps)| == 8 * |ps|
  {
    if ps != [] { LengthOfPairs(ps[..|ps| - 1]); }
  }

  lemma {:induction false} LengthOfTriples(ts: seq<(u32, u32, u32)>)
    ensures |EncodeTriples(ts)| == 12 * |ts|
  {
    if ts != [] { LengthOfTriples(ts[..|ts| - 1]); }
  }

  lemma BodyReadsBack(d: seq<byte>, strs: seq<byte>, place: Place, base: nat, r: Record)
    requires WellFormed(r.body) && NamesPlaced(strs, place, r)
    requires Holds(d, base, EncodeBody(place, r.body))
    ensures |EncodeBody(place, r.body)| == TailSize(KindOf(r.body), Vlen(r.body))
    ensures PayloadAt(d, strs, base, KindOf(r.body), Vlen(r.body), Kflag(r.body)) == Ok(KeptBody(r.body))
  {
    hide Holds, ReadU32, Bytes32, ReadCString;
    match r.body {
      case IntBody(n) => ReadsBack(d, base, n); LengthOfBytes(n);
      case PlainBody(_, _, _) =>
      case ArrayBody(e, i, n) => ReadsThree(d, base, e, i, n); LengthOfBytes(e); LengthOfBytes(i); LengthOfBytes(n);
      case CompositeBody(_, kflag, members) => MembersReadBack(d, strs, place, base, kflag, members);
      case EnumBody(_, values) => ValuesReadBack(d, strs, place, base, values);
      case Enum64Body(_, values) => Values64ReadBack(d, strs, place, base, values);
      case FuncProtoBody(params) => LengthOfPairs(params);
      case VarBody(n) => LengthOfBytes(n);
      case DataSecBody(entries) => LengthOfTriples(entries);
      case DeclTagBody(n) => LengthOfBytes(n);
    }
  }

  lemma InfoReadsBack(b: Body)
    requires WellFormed(b)
    ensures InfoKind(Info(b)) == KindOf(b) && InfoVlen(Info(b)) == Vlen(b) && InfoKflag(Info(b)) == Kflag(b)
  {
    var raw := RawKind(KindOf(b));
    assert 1 <= raw <= 19 && KindFromRaw(raw) == KindOf(b);
    InfoFields(Vlen(b), raw, if Kflag(b) then 1 else 0);
  }

  lemma InfoFields(vlen: nat, raw: nat, kflag: nat)
    requires vlen <= MAX_VLEN && raw < 0x20 && kflag <= 1
    ensures var info := vlen + 0x100_0000 * raw + 0x8000_0000 * kflag;
            && info % 0x1_0000 == vlen && info / 0x100_0000 % 0x20 == raw && info / 0x8000_0000 == kflag
  {
    var info := vlen + 0x100_0000 * raw + 0x8000_0000 * kflag;
    assert info == vlen + 0x1_0000 * (0x100 * raw + 0x8000 * kflag);
    assert info / 0x100_0000 == raw + 0x80 * kflag;
  }

  lemma RecordReadsBack(d: seq<byte>, strs: seq<byte>, place: Place, base: nat, r: Record)
    requires WellFormed(r.body) && NamesPlaced(strs, place, r)
    requires Holds(d, base, EncodeRecord(place, r))
    ensures RecordAt(d, strs, base) == Ok(Parsed(Kept(r), base + |EncodeRecord(place, r)|))
  {
    hide Holds, ReadU32, Bytes32, ReadCString, PayloadAt, EncodeBody, KeptBody, InfoKind, InfoVlen, InfoKflag, Info, TailSize,
      WellFormed;
    LengthOfBytes(place(r.name)); LengthOfBytes(Info(r.body)); LengthOfBytes(r.sizeOrType);
    HoldsBoth(d, base, Bytes32(place(r.name)) + Bytes32(Info(r.body)) + Bytes32(r.sizeOrType), EncodeBody(place, r.body));
    ReadsThree(d, base, place(r.name), Info(r.body), r.sizeOrType);
    InfoReadsBack(r.body);
    BodyReadsBack(d, strs, place, base + 12, r);
  }

  lemma {:induction false} RecordsReadBack(d: seq<byte>, strs: seq<byte>, place: Place, base: nat, rs: seq<Record>,
                                           types: seq<BtfType>, named: Index)
    requires Encodable(strs, place, rs)
    requires Holds(d, base, EncodeRecords(place, rs)) && base + |EncodeRecords(place, rs)| == |d|
    ensures var f := Records(d, strs, base, types, named);
            f.Ok? && f.value.types == types + KeptAll(rs)
    decreases |rs|
  {
    hide Holds, RecordAt, EncodeRecord, NamesPlaced, WellFormed, Kept, AddNamed, KeptAll, Records, EncodeRecords;
    if rs == [] {
      NoRecords(d, strs, place, base, types, named);
    } else {
      var r := rs[0];
      EncodableParts(strs, place, rs);
      HoldsBoth(d, base, EncodeRecord(place, r), EncodeRecords(place, rs[1..]));
      RecordReadsBack(d, strs, place, base, r);
      LengthOfRecord(place, r);
      RecordsReadBack(d, strs, place, base + |EncodeRecord(place, r)|, rs[1..], types + [Kept(r)],
                      AddNamed(named, Kept(r), |types| + 1));
      OneMoreRecord(d, strs, base, types, named, Parsed(Kept(r), base + |EncodeRecord(place, r)|));
      KeptFirst(rs, types);
    }
  }

  lemma NoRecords(d: seq<byte>, strs: seq<byte>, place: Place, base: nat, types: seq<BtfType>, named: Index)
    ensures EncodeRecords(place, []) == []
    ensures base == |d| ==> Records(d, strs, base, types, named) == Ok(BtfFile(types + KeptAll([]), named))
  {
    assert types + KeptAll([]) == types;
  }

  lemma OneMoreRecord(d: seq<byte>, strs: seq<byte>, base: nat, types: seq<BtfType>, named: Index, next: Parsed)
    requires base < |d| && RecordAt(d, strs, base) == Ok(next)
    ensures Records(d, strs, base, types, named)
         == Records(d, strs, next.next, types + [next.ty], AddNamed(named, next.ty, |types| + 1))
  {
    hide RecordAt, AddNamed;
  }

  lemma KeptFirst(rs: seq<Record>, types: seq<BtfType>)
    requires rs != []
    ensures types + [Kept(rs[0])] + KeptAll(rs[1..]) == types + KeptAll(rs)
  {
    hide Kept;
  }

  lemma EncodableParts(strs: seq<byte>, place: Place, rs: seq<Record>)
    requires Encodable(strs, place, rs) && rs != []
    ensures WellFormed(rs[0].body) && NamesPlaced(strs, place, rs[0]) && Encodable(strs, place, rs[1..])
    ensures EncodeRecords(place, rs) == EncodeRecord(place, rs[0]) + EncodeRecords(place, rs[1..])
  {
    hide WellFormed, NamesPlaced, EncodeRecord;
    assert rs[0] in rs && forall x :: x in rs[1..] ==> x in rs;
  }

  ghost predicate Encodable(strs: seq<byte>, place: Place, rs: seq<Record>) {
    forall r :: r in rs ==> WellFormed(r.body) && NamesPlaced(strs, place, r)
  }

  lemma LengthOfRecord(place: Place, r: Record)
    requires WellFormed(r.body)
    ensures |EncodeRecord(place, r)| >= 12
  {
  }

  lemma HeaderReadsBack(data: seq<byte>, typesLen: u32, strsLen: u32)
    requires Holds(data, 0, Header(typesLen, strsLen))
    ensures |Header(typesLen, strsLen)| == 24 <= |data|
    ensures data[0] == 0x9f && data[1] == 0xeb && data[2] == 1
    ensures ReadU32(data, 4) == Ok(24) && ReadU32(data, 8) == Ok(0) && ReadU32(data, 12) == Ok(typesLen)
    ensures ReadU32(data, 16) == Ok(typesLen) && ReadU32(data, 20) == Ok(strsLen)
  {
    var magic: seq<byte> := [0x9f, 0xeb, 1, 0];
    var a, b := Bytes32(24) + Bytes32(0) + Bytes32(typesLen), Bytes32(typesLen) + Bytes32(strsLen);
    var header := Header(typesLen, strsLen);
    assert data[0..|header|] == header && header[0] == 0x9f && header[1] == 0xeb && header[2] == 1;
    hide Holds, ReadU32, Bytes32;
    LengthOfBytes(24); LengthOfBytes(0); LengthOfBytes(typesLen); LengthOfBytes(strsLen);
    HoldsBoth(data, 0, magic + a, b);
    HoldsBoth(data, 0, magic, a);
    ReadsThree(data, 4, 24, 0, typesLen);
    HoldsBoth(data, 16, Bytes32(typesLen), Bytes32(strsLen));
    ReadsBack(data, 16, typesLen);
    ReadsBack(data, 20, strsLen);
  }

  lemma SectionsReadBack(types: seq<byte>, strs: seq<byte>, data: seq<byte>)
    requires |types| < 0x1_0000_0000 && |strs| < 0x1_0000_0000
    requires data == Header(|types|, |strs|) + types + strs
    ensures ReadSections(data) == Ok(Sections(types, strs))
  {
    hide Header, ReadU32;
    assert data == Header(|types|, |strs|) + (types + strs);
    HeaderReadsBack(data, |types|, |strs|);
    assert data[24..24 + |types|] == types;
    assert data[24 + |types|..24 + |types| + |strs|] == strs;
  }

  /** Parsing inverts encoding: the same records in the same order, with ids from 1, and an exact name index. */
  lemma ParseInvertsEncode(place: Place, strs: seq<byte>, rs: seq<Record>)
    requires Encodable(strs, place, rs)
    requires |EncodeRecords(place, rs)| < 0x1_0000_0000 && |strs| < 0x1_0000_0000
    ensures var f := ParseBtf(EncodeFile(place, strs, rs));
            && f.Ok?
            && f.value.types == KeptAll(rs)
            && (forall id :: 1 <= id <= |rs| ==> TypeById(f.value, id) == Ok(Kept(rs[id - 1])))
            && IsIndexOf(f.value.named, KeptAll(rs))
  {
    hide ReadSections, Records, EncodeRecords, NamesPlaced, WellFormed, IsIndexOf, Header, Kept;
    var d := EncodeRecords(place, rs);
    SectionsReadBack(d, strs, EncodeFile(place, strs, rs));
    assert d[0..0 + |d|] == d;
    RecordsReadBack(d, strs, place, 0, rs, [], map[]);
    EmptyIndex();
    RecordsIndexed(d, strs, 0, [], map[]);
    assert [] + KeptAll(rs) == KeptAll(rs);
  }

  // ----- any bytes -----

  /** Four bytes are a little-endian word. */
  lemma WordMeaning(d: seq<byte>, base: nat, n: u32)
    ensures ReadU32(d, base) == Ok(n) <==> Holds(d, base, Bytes32(n))
    ensures ReadU32(d, base).Err? <==> base + 4 > |d|
    ensures ReadU16(d, base).Err? <==> base + 2 > |d|
  {
    hide FromBytes;
    if ReadU32(d, base) == Ok(n) {
      BytesOfValue(d[base], d[base + 1], d[base + 2], d[base + 3]);
      assert d[base..base + 4] == [d[base], d[base + 1], d[base + 2], d[base + 3]];
    }
    if Holds(d, base, Bytes32(n)) { ReadsBack(d, base, n); }
  }

  lemma BytesOfValue(a: byte, b: byte, c: byte, e: byte)
    ensures Bytes32(FromBytes(a, b, c, e)) == [a, b, c, e]
  {
    var n := FromBytes(a, b, c, e);
    assert n / 0x100 == (b as int) + 0x100 * c + 0x1_0000 * e;
    assert n / 0x1_0000 == (c as int) + 0x100 * e;
  }

  /** The header says where the sections are, and they fit the data. */
  ghost predicate HasSections(data: seq<byte>, types: seq<byte>, strs: seq<byte>) {
    exists headerLen: u32, typeOff: u32, strOff: u32 :: HasSectionsAt(data, types, strs, headerLen, typeOff, strOff)
  }

  ghost predicate HasSectionsAt(data: seq<byte>, types: seq<byte>, strs: seq<byte>, headerLen: u32, typeOff: u32, strOff: u32) {
    && |types| < 0x1_0000_0000 && |strs| < 0x1_0000_0000
    && Holds(data, 0, [0x9f, 0xeb, 1]) && Holds(data, 4, Bytes32(headerLen))
    && Holds(data, 8, Bytes32(typeOff)) && Holds(data, 12, Bytes32(|types|))
    && Holds(data, 16, Bytes32(strOff)) && Holds(data, 20, Bytes32(|strs|))
    && Holds(data, headerLen + typeOff, types) && Holds(data, headerLen + strOff, strs)
  }

  lemma SliceMeaning(data: seq<byte>, offset: nat, len: nat, r: seq<byte>)
    ensures Slice(data, offset, len) == Ok(r) <==> |r| == len && Holds(data, offset, r)
  {
  }

  lemma MagicMeaning(data: seq<byte>)
    requires |data| >= 24
    ensures ReadU16(data, 0) == Ok(0xeb9f) && data[2] == 1 <==> Holds(data, 0, [0x9f, 0xeb, 1])
  {
    assert data[0..3] == [data[0], data[1], data[2]];
  }

  lemma SectionsFound(data: seq<byte>, types: seq<byte>, strs: seq<byte>)
    requires ReadSections(data) == Ok(Sections(types, strs))
    ensures HasSections(data, types, strs)
  {
    hide ReadU16, ReadU32, Bytes32, Holds, Slice;
    MagicMeaning(data);
    var h, to, tl := ReadU32(data, 4).value, ReadU32(data, 8).value, ReadU32(data, 12).value;
    var so, sl := ReadU32(data, 16).value, ReadU32(data, 20).value;
    WordMeaning(data, 4, h);
    WordMeaning(data, 8, to);
    WordMeaning(data, 12, tl);
    WordMeaning(data, 16, so);
    WordMeaning(data, 20, sl);
    SliceMeaning(data, (h as int) + to, tl, types);
    SliceMeaning(data, (h as int) + so, sl, strs);
    assert HasSectionsAt(data, types, strs, h, to, so);
  }

  lemma SectionsAreRead(data: seq<byte>, types: seq<byte>, strs: seq<byte>, h: u32, to: u32, so: u32)
    requires HasSectionsAt(data, types, strs, h, to, so)
    ensures ReadSections(data) == Ok(Sections(types, strs))
  {
    hide ReadU16, ReadU32, Bytes32, Slice;
    LengthOfBytes(|strs|);
    WordMeaning(data, 4, h);
    WordMeaning(data, 8, to);
    WordMeaning(data, 12, |types|);
    WordMeaning(data, 16, so);
    WordMeaning(data, 20, |strs|);
    MagicMeaning(data);
    SliceMeaning(data, h + to, |types|, types);
    SliceMeaning(data, h + so, |strs|, strs);
  }

  /** Whatever the bytes are, the sections are found exactly when the magic number and the version are right and the
    * header's offsets and lengths lie within the data. */
  lemma SectionsMeaning(data: seq<byte>, types: seq<byte>, strs: seq<byte>)
    ensures ReadSections(data) == Ok(Sections(types, strs)) <==> HasSections(data, types, strs)
  {
    hide ReadSections, HasSectionsAt;
    if ReadSections(data) == Ok(Sections(types, strs)) { SectionsFound(data, types, strs); }
    if h: u32, to: u32, so: u32 :| HasSectionsAt(data, types, strs, h, to, so) {
      SectionsAreRead(data, types, strs, h, to, so);
    }
  }

  /** Four bytes at `at` point past the strings. */
  ghost predicate IsBadName(d: seq<byte>, strs: seq<byte>, at: nat) {
    exists n: u32 :: Holds(d, at, Bytes32(n)) && n > |strs|
  }

  lemma BadNameMeaning(d: seq<byte>, strs: seq<byte>, at: nat)
    requires at + 4 <= |d|
    ensures IsBadName(d, strs, at) <==> ReadU32(d, at).Ok? && ReadU32(d, at).value > |strs|
  {
    hide ReadU32, Holds, Bytes32;
    var n := ReadU32(d, at);
    WordMeaning(d, at, 0);
    if n.Ok? { WordMeaning(d, at, n.value); }
    if k: u32 :| Holds(d, at, Bytes32(k)) && k > |strs| { WordMeaning(d, at, k); }
  }

  /** The bytes that a record of this kind must have after its head, and the size of one of its parts that carry a name. */
  function Needed(kind: Kind, vlen: nat): nat {
    match kind
    case Int => 4
    case Array => 12
    case Struct => 12 * vlen
    case Union => 12 * vlen
    case Enum => 8 * vlen
    case Enum64 => 12 * vlen
    case _ => 0
  }

  function NamedPart(kind: Kind): nat {
    match kind
    case Struct => 12
    case Union => 12
    case Enum => 8
    case Enum64 => 12
    case _ => 0
  }

  /** Some part of the record points past the strings for its name. */
  ghost predicate HasBadPart(d: seq<byte>, strs: seq<byte>, offset: nat, size: nat, count: nat) {
    exists k: nat :: k < count && IsBadName(d, strs, offset + size * k)
  }

  lemma {:induction false} MembersFailIff(d: seq<byte>, strs: seq<byte>, base: nat, kflag: bool, count: nat)
    requires base + 12 * count <= |d|
    ensures MembersAt(d, strs, base, kflag, count).Err? <==> HasBadPart(d, strs, base, 12, count)
  {
    hide IsBadName, ReadU32, ReadCString;
    if count > 0 {
      MembersFailIff(d, strs, base, kflag, count - 1);
      var at := base + 12 * (count - 1);
      MemberFailIff(d, strs, at, kflag);
    }
  }

  lemma MemberFailIff(d: seq<byte>, strs: seq<byte>, at: nat, kflag: bool)
    requires at + 12 <= |d|
    ensures MemberAt(d, strs, at, kflag).Err? <==> IsBadName(d, strs, at)
  {
    hide IsBadName, FromBytes;
    BadNameMeaning(d, strs, at);
  }

  lemma {:induction false} ValuesFailIff(d: seq<byte>, strs: seq<byte>, base: nat, count: nat)
    requires base + 8 * count <= |d|
    ensures EnumValuesAt(d, strs, base, count).Err? <==> HasBadPart(d, strs, base, 8, count)
  {
    hide IsBadName, ReadU32, ReadCString;
    if count > 0 {
      ValuesFailIff(d, strs, base, count - 1);
      ValueFailIff(d, strs, base + 8 * (count - 1));
    }
  }

  lemma ValueFailIff(d: seq<byte>, strs: seq<byte>, at: nat)
    requires at + 8 <= |d|
    ensures EnumValueAt(d, strs, at).Err? <==> IsBadName(d, strs, at)
  {
    hide IsBadName, FromBytes;
    BadNameMeaning(d, strs, at);
  }

  lemma {:induction false} Values64FailIff(d: seq<byte>, strs: seq<byte>, base: nat, count: nat)
    requires base + 12 * count <= |d|
    ensures Enum64ValuesAt(d, strs, base, count).Err? <==> HasBadPart(d, strs, base, 12, count)
  {
    hide IsBadName, ReadU32, ReadCString;
    if count > 0 {
      Values64FailIff(d, strs, base, count - 1);
      Value64FailIff(d, strs, base + 12 * (count - 1));
    }
  }

  lemma Value64FailIff(d: seq<byte>, strs: seq<byte>, at: nat)
    requires at + 12 <= |d|
    ensures Enum64ValueAt(d, strs, at).Err? <==> IsBadName(d, strs, at)
  {
    hide IsBadName, FromBytes;
    BadNameMeaning(d, strs, at);
  }

  lemma MembersCut(d: seq<byte>, strs: seq<byte>, base: nat, kflag: bool, count: nat)
    requires count > 0
    ensures base + 12 * count > |d| ==> MembersAt(d, strs, base, kflag, count).Err? && Enum64ValuesAt(d, strs, base, count).Err?
    ensures base + 8 * count > |d| ==> EnumValuesAt(d, strs, base, count).Err?
  {
    hide FromBytes, ReadCString;
  }

  /** A payload is an error exactly when it is cut off or one of its parts points past the strings for its name. */
  lemma PayloadFailIff(d: seq<byte>, strs: seq<byte>, offset: nat, kind: Kind, vlen: nat, kflag: bool)
    ensures PayloadAt(d, strs, offset, kind, vlen, kflag).Err? <==>
            || (Needed(kind, vlen) > 0 && offset + Needed(kind, vlen) > |d|)
            || (NamedPart(kind) > 0 && HasBadPart(d, strs, offset, NamedPart(kind), vlen))
  {
    hide ReadU32, MembersAt, EnumValuesAt, Enum64ValuesAt, HasBadPart;
    WordMeaning(d, offset, 0);
    WordMeaning(d, offset + 4, 0);
    WordMeaning(d, offset + 8, 0);
    if vlen > 0 { MembersCut(d, strs, offset, kflag, vlen); }
    if offset + 12 * vlen <= |d| {
      MembersFailIff(d, strs, offset, kflag, vlen);
      Values64FailIff(d, strs, offset, vlen);
    }
    if offset + 8 * vlen <= |d| { ValuesFailIff(d, strs, offset, vlen); }
    NoParts(d, strs, offset, kflag);
  }

  lemma NoParts(d: seq<byte>, strs: seq<byte>, offset: nat, kflag: bool)
    ensures MembersAt(d, strs, offset, kflag, 0).Ok? && EnumValuesAt(d, strs, offset, 0).Ok? && Enum64ValuesAt(d, strs, offset, 0).Ok?
    ensures !HasBadPart(d, strs, offset, 12, 0) && !HasBadPart(d, strs, offset, 8, 0)
  {
  }

  /** Whatever the bytes are, a record is an error exactly when it is cut off, or it or one of its parts points past the
    * strings for its name; a kind the format does not define has no payload. */
  lemma RecordFailsIff(d: seq<byte>, strs: seq<byte>, base: nat, nameOff: u32, info: u32, sizeOrType: u32)
    ensures base + 12 > |d| ==> RecordAt(d, strs, base).Err?
    ensures Holds(d, base, Bytes32(nameOff) + Bytes32(info) + Bytes32(sizeOrType)) ==>
              var r, raw, vlen := RecordAt(d, strs, base), info / 0x100_0000 % 0x20, info % 0x1_0000;
              var kind := KindFromRaw(raw);
              && (r.Err? <==>
                    || nameOff > |strs|
                    || (Needed(kind, vlen) > 0 && base + 12 + Needed(kind, vlen) > |d|)
                    || (NamedPart(kind) > 0 && HasBadPart(d, strs, base + 12, NamedPart(kind), vlen)))
              && (r.Ok? && (raw == 0 || raw > 19) ==>
                    r.value.ty.data == NoData && r.value.ty.kind == Unknown(raw) && r.value.next == base + 12)
  {
    hide ReadU32, Bytes32, PayloadAt, HasBadPart, Needed, NamedPart, Holds;
    WordMeaning(d, base, 0);
    WordMeaning(d, base + 4, 0);
    WordMeaning(d, base + 8, 0);
    if Holds(d, base, Bytes32(nameOff) + Bytes32(info) + Bytes32(sizeOrType)) {
      ReadsThree(d, base, nameOff, info, sizeOrType);
      var kind := KindFromRaw(info / 0x100_0000 % 0x20);
      PayloadFailIff(d, strs, base + 12, kind, info % 0x1_0000, info / 0x8000_0000 != 0);
      UnknownHasNothing(d, strs, base + 12, info / 0x100_0000 % 0x20, info % 0x1_0000, info / 0x8000_0000 != 0);
    }
  }

  lemma UnknownHasNothing(d: seq<byte>, strs: seq<byte>, offset: nat, raw: nat, vlen: nat, kflag: bool)
    ensures raw == 0 || raw > 19 ==>
              var kind := KindFromRaw(raw);
              kind == Unknown(raw) && PayloadAt(d, strs, offset, kind, vlen, kflag) == Ok(NoData) && TailSize(kind, vlen) == 0
  {
  }

  // ----- when what is parsed is what was said -----

  function SaidBody(b: Body): Payload {
    match b
    case EnumBody(_, values) => EnumData(values)
    case Enum64Body(_, values) => EnumData(values)
    case _ => KeptBody(b)
  }

  /** The record itself, with its enumerators as they were given. */
  function Said(r: Record): BtfType {
    BtfType(KindOf(r.body), r.name, r.sizeOrType, SaidBody(r.body))
  }

  /** No enumerator needs the top bit as an unsigned one. */
  predicate FitsSigned(b: Body) {
    match b
    case EnumBody(_, values) => forall v :: v in values ==> v.1 < 0x8000_0000
    case Enum64Body(_, values) => forall v :: v in values ==> v.1 < 0x8000_0000_0000_0000
    case _ => true
  }

  lemma WrapKeeps(vs: seq<(string, int)>, wrap: int -> int, limit: int)
    requires forall v: int {:trigger wrap(v)} :: wrap(v) == v <==> v < limit
    ensures WrapValues(vs, wrap) == vs <==> forall v :: v in vs ==> v.1 < limit
  {
    var wrapped := WrapValues(vs, wrap);
    if wrapped == vs {
      forall v | v in vs ensures v.1 < limit {
        var i :| 0 <= i < |vs| && vs[i] == v;
        assert wrapped[i] == (v.0, wrap(v.1));
      }
    }
    if forall v :: v in vs ==> v.1 < limit {
      forall i | 0 <= i < |vs| ensures wrapped[i] == vs[i] {
        assert vs[i] in vs;
      }
    }
  }

  lemma KeptIffSigned(r: Record)
    ensures Kept(r) == Said(r) <==> FitsSigned(r.body)
  {
    match r.body {
      case EnumBody(_, values) => WrapKeeps(values, Wrapped32, 0x8000_0000);
      case Enum64Body(_, values) => WrapKeeps(values, Wrapped64, 0x8000_0000_0000_0000);
      case _ =>
    }
  }

  /** A parsed record is the one that was encoded exactly when none of its enumerators is unsigned with the top bit set. */
  lemma EnumeratorsKept(place: Place, strs: seq<byte>, rs: seq<Record>, id: nat)
    requires Encodable(strs, place, rs) && 1 <= id <= |rs|
    requires |EncodeRecords(place, rs)| < 0x1_0000_0000 && |strs| < 0x1_0000_0000
    ensures var f := ParseBtf(EncodeFile(place, strs, rs));
            f.Ok? && (TypeById(f.value, id) == Ok(Said(rs[id - 1])) <==> FitsSigned(rs[id - 1].body))
  {
    hide ParseBtf, EncodeFile, EncodeRecords, Kept, Said, FitsSigned, NamesPlaced, WellFormed, IsIndexOf;
    ParseInvertsEncode(place, strs, rs);
    KeptIffSigned(rs[id - 1]);
  }

  /** One enumerator with all bits set comes back as minus one. */
  lemma NegativeEnumerator() returns (place: Place, strs: seq<byte>, r: Record)
    ensures r == Record("E", 4, EnumBody(false, [("ALL", 0xFFFF_FFFF)])) && Encodable(strs, place, [r])
    ensures |EncodeRecords(place, [r])| < 0x1_0000_0000 && |strs| < 0x1_0000_0000
    ensures var f := ParseBtf(EncodeFile(place, strs, [r]));
            f.Ok? && TypeById(f.value, 1) == Ok(BtfType(Enum, "E", 4, EnumData([("ALL", -1)])))
  {
    hide ParseBtf, EncodeFile, EncodeRecord, NamesPlaced, IsIndexOf;
    r := Record("E", 4, EnumBody(false, [("ALL", 0xFFFF_FFFF)]));
    var names := ["E", "ALL"];
    assert TableSize(names) == 7 by { assert names[..1] == ["E"] && ["E"][..0] == []; }
    strs, place := RecordsEncodable([r], names);
    OneRecord(place, r);
    ParseInvertsEncode(place, strs, [r]);
    assert WrapValues([("ALL", 0xFFFF_FFFF)], Wrapped32) == [("ALL", -1)];
  }

  lemma OneRecord(place: Place, r: Record)
    requires r == Record("E", 4, EnumBody(false, [("ALL", 0xFFFF_FFFF)]))
    ensures |EncodeRecords(place, [r])| < 0x1_0000_0000
  {
  }

  // ----- a string section for any names -----

  predicate Ascii(name: string) {
    forall i :: 0 <= i < |name| ==> 0 < name[i] as int < 128
  }

  function NameBytes(name: string): seq<byte>
    requires Ascii(name)
  {
    seq(|name|, i requires 0 <= i < |name| => name[i] as int)
  }

  lemma {:induction false} NameReadsBack(name: string, rest: seq<byte>)
    requires Ascii(name)
    ensures UpToNul(NameBytes(name) + [0] + rest) == name
  {
    var bytes := NameBytes(name) + [0] + rest;
    if name == "" {
      assert bytes == [0] + rest;
    } else {
      NameReadsBack(name[1..], rest);
      assert bytes[1..] == NameBytes(name[1..]) + [0] + rest;
    }
  }

  lemma {:induction false} NulEndsName(bytes: seq<byte>, rest: seq<byte>)
    requires bytes != [] && bytes[|bytes| - 1] == 0
    ensures UpToNul(bytes + rest) == UpToNul(bytes)
  {
    if bytes[0] != 0 {
      NulEndsName(bytes[1..], rest);
      assert (bytes + rest)[1..] == bytes[1..] + rest;
    }
  }

  function TableSize(names: seq<string>): nat {
    if names == [] then 1 else TableSize(names[..|names| - 1]) + |names[|names| - 1]| + 1
  }

  /** Any ASCII names that fit have a string section that holds them all. */
  lemma {:induction false} StringsExist(names: seq<string>) returns (strs: seq<byte>, offsets: map<string, u32>)
    requires TableSize(names) < 0x1_0000_0000 && forall n :: n in names ==> Ascii(n)
    ensures |strs| == TableSize(names) && strs[|strs| - 1] == 0
    ensures forall n :: n in offsets <==> n in names
    ensures forall n :: n in offsets ==> 0 < offsets[n] < |strs| && ReadCString(strs, offsets[n]) == Ok(n)
  {
    if names == [] {
      strs, offsets := [0], map[];
    } else {
      hide ReadCString, Ascii, NameBytes;
      var front, name := names[..|names| - 1], names[|names| - 1];
      assert names == front + [name];
      var before, known := StringsExist(front);
      var added := NameBytes(name) + [0];
      strs, offsets := before + added, known[name := |before|];
      NewName(before, name);
      forall n | n in known && n != name ensures ReadCString(strs, known[n]) == Ok(n) {
        OldName(before, added, known[n]);
      }
      assert |added| == |name| + 1 by { LengthOfName(name); }
    }
  }

  lemma LengthOfName(name: string)
    requires Ascii(name)
    ensures |NameBytes(name)| == |name|
  {
  }

  lemma NewName(before: seq<byte>, name: string)
    requires Ascii(name)
    ensures ReadCString(before + (NameBytes(name) + [0]), |before|) == Ok(name)
  {
    NameReadsBack(name, []);
    assert (before + (NameBytes(name) + [0]))[|before|..] == NameBytes(name) + [0] + [];
  }

  lemma OldName(before: seq<byte>, added: seq<byte>, offset: nat)
    requires offset < |before| && before[|before| - 1] == 0
    ensures ReadCString(before + added, offset) == ReadCString(before, offset)
  {
    NulEndsName(before[offset..], added);
    assert (before + added)[offset..] == before[offset..] + added;
  }

  /** A place for every name: its offset in the table, and 0 for the empty name. */
  lemma PlaceExists(names: seq<string>) returns (strs: seq<byte>, place: Place)
    requires TableSize(names) < 0x1_0000_0000 && forall n :: n in names ==> Ascii(n)
    ensures |strs| == TableSize(names)
    ensures forall n :: n in names ==> Placed(strs, place, n)
  {
    var offsets;
    strs, offsets := StringsExist(names);
    place := n => if n in offsets then offsets[n] else 0;
  }

  /** The names a record mentions: its own, its members', its enumerators'. */
  predicate Mentions(r: Record, name: string) {
    || name == r.name
    || match r.body
       case CompositeBody(_, _, members) => exists m :: m in members && m.name == name
       case EnumBody(_, values) => exists v :: v in values && v.0 == name
       case Enum64Body(_, values) => exists v :: v in values && v.0 == name
       case _ => false
  }

  /** No record list is out of reach of the round trip: if its names are ASCII and fit one table, it can be encoded. */
  lemma RecordsEncodable(rs: seq<Record>, names: seq<string>) returns (strs: seq<byte>, place: Place)
    requires forall r :: r in rs ==> WellFormed(r.body)
    requires forall r, n :: r in rs && Mentions(r, n) ==> n in names
    requires TableSize(names) < 0x1_0000_0000 && forall n :: n in names ==> Ascii(n)
    ensures |strs| == TableSize(names) && Encodable(strs, place, rs)
  {
    hide WellFormed, Placed, TableSize, Ascii;
    strs, place := PlaceExists(names);
    forall r | r in rs ensures NamesPlaced(strs, place, r) {
      assert Mentions(r, r.name);
      match r.body {
        case CompositeBody(_, _, members) =>
          forall m | m in members ensures Placed(strs, place, m.name) { assert Mentions(r, m.name); }
        case EnumBody(_, values) =>
          forall v | v in values ensures Placed(strs, place, v.0) { assert Mentions(r, v.0); }
        case Enum64Body(_, values) =>
          forall v | v in values ensures Placed(strs, place, v.0) { assert Mentions(r, v.0); }
        case _ =>
      }
    }
  }
}
