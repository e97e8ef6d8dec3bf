/** The names the BTF resolver gives to records, and exactly when two records can end up with the same one
  * (vmlinux.rs, `ensure_type_name`). */
module BtfNames {
  import opened Wrappers
  import opened Btf
  import opened Text

  function KindText(kind: Kind): string {
    match kind
    case Int => "int"
    case Ptr => "ptr"
    case Array => "array"
    case Struct => "struct"
    case Union => "union"
    case Enum => "enum"
    case Fwd => "fwd"
    case Typedef => "typedef"
    case Volatile => "volatile"
    case Const => "const"
    case Restrict => "restrict"
    case Func => "func"
    case FuncProto => "func_proto"
    case Var => "var"
    case DataSec => "datasec"
    case Float => "float"
    case DeclTag => "decl_tag"
    case TypeTag => "type_tag"
    case Enum64 => "enum64"
    case Unknown(_) => "unknown"
  }

  predicate Exists(btf: BtfFile, id: nat) {
    TypeById(btf, id).Ok?
  }

  /** What a record is really called; possibly nothing. */
  function RealName(btf: BtfFile, id: nat): string
    requires Exists(btf, id)
  {
    TypeById(btf, id).value.name
  }

  function Candidate(btf: BtfFile, id: nat): string
    requires Exists(btf, id)
  {
    if RealName(btf, id) == "" then "__btf_" + KindText(TypeById(btf, id).value.kind) + "_" + Decimal(id) else RealName(btf, id)
  }

  function Suffixed(btf: BtfFile, id: nat): string
    requires Exists(btf, id)
  {
    Candidate(btf, id) + "_" + Decimal(id)
  }

  function FreshName(btf: BtfFile, id: nat, used: set<string>): string
    requires Exists(btf, id)
  {
    if Candidate(btf, id) in used then Suffixed(btf, id) else Candidate(btf, id)
  }

  /** A record keeps its real name; a nameless struct, union or enum gets one made of its kind and id. */
  lemma OwnNames(btf: BtfFile, id: nat)
    requires Exists(btf, id)
    ensures var ty := TypeById(btf, id).value;
            && (ty.name != "" ==> Candidate(btf, id) == ty.name)
            && (ty.name == "" && ty.kind == Struct ==> Candidate(btf, id) == "__btf_struct_" + Decimal(id))
            && (ty.name == "" && ty.kind == Union ==> Candidate(btf, id) == "__btf_union_" + Decimal(id))
            && (ty.name == "" && ty.kind == Enum ==> Candidate(btf, id) == "__btf_enum_" + Decimal(id))
            && (ty.name == "" && ty.kind == Enum64 ==> Candidate(btf, id) == "__btf_enum64_" + Decimal(id))
  {
    assert "__btf_" + "struct" + "_" == "__btf_struct_" && "__btf_" + "union" + "_" == "__btf_union_";
    assert "__btf_" + "enum" + "_" == "__btf_enum_" && "__btf_" + "enum64" + "_" == "__btf_enum64_";
  }

  /** The names given so far, and the set of all that are taken. */
  datatype Names = Names(of: map<nat, string>, used: set<string>)

  const NO_NAMES := Names(map[], {})

  /** Naming one record: a second time, or for a missing id, nothing changes. */
  function NameOne(btf: BtfFile, n: Names, id: nat): Names {
    if id in n.of || !Exists(btf, id) then n
    else
      var name := FreshName(btf, id, n.used);
      Names(n.of[id := name], n.used + {name})
  }

  function NameAll(btf: BtfFile, ids: seq<nat>): Names {
    if ids == [] then NO_NAMES else NameOne(btf, NameAll(btf, ids[..|ids| - 1]), ids[|ids| - 1])
  }

  // ----- what every naming history keeps -----

  /** Each name is a record's own or its suffixed form; a name that is taken is someone's; only one record has a name
    * as its own; and a record has the suffixed form only because another record took its own. */
  ghost predicate NamesKnown(btf: BtfFile, n: Names) {
    AreFitting(btf, n) && AreSomeones(n) && OwnOnce(btf, n) && AreForced(btf, n)
  }

  predicate AreFitting(btf: BtfFile, n: Names) {
    forall id :: id in n.of ==> Exists(btf, id) && n.of[id] in n.used && n.of[id] in {Candidate(btf, id), Suffixed(btf, id)}
  }

  ghost predicate AreSomeones(n: Names) {
    forall name :: name in n.used ==> exists id :: id in n.of && n.of[id] == name
  }

  /** The record has its name as its own. */
  predicate IsOwn(btf: BtfFile, n: Names, id: nat) {
    id in n.of && Exists(btf, id) && n.of[id] == Candidate(btf, id)
  }

  ghost predicate OwnOnce(btf: BtfFile, n: Names) {
    forall i, j :: IsOwn(btf, n, i) && IsOwn(btf, n, j) && n.of[i] == n.of[j] ==> i == j
  }

  ghost predicate AreForced(btf: BtfFile, n: Names) {
    forall id :: id in n.of && Exists(btf, id) && n.of[id] == Suffixed(btf, id) ==> TakenFrom(btf, n, id)
  }

  ghost predicate TakenFrom(btf: BtfFile, n: Names, id: nat)
    requires Exists(btf, id)
  {
    exists k :: k in n.of && k != id && n.of[k] == Candidate(btf, id)
  }

  lemma SuffixLengthens(btf: BtfFile, id: nat)
    requires Exists(btf, id)
    ensures |Suffixed(btf, id)| > |Candidate(btf, id)|
  {
  }

  /** Naming one more record, whichever it is. */
  predicate IsNext(btf: BtfFile, n: Names, next: Names, id: nat) {
    id !in n.of && Exists(btf, id) && next == Names(n.of[id := FreshName(btf, id, n.used)], n.used + {FreshName(btf, id, n.used)})
  }

  lemma FittingStays(btf: BtfFile, n: Names, next: Names, id: nat)
    requires IsNext(btf, n, next, id) && AreFitting(btf, n)
    ensures AreFitting(btf, next)
  {
    hide Candidate, Suffixed;
  }

  lemma SomeonesStay(btf: BtfFile, n: Names, next: Names, id: nat)
    requires IsNext(btf, n, next, id) && AreSomeones(n)
    ensures AreSomeones(next)
  {
    hide FreshName;
    forall u | u in next.used ensures exists j :: j in next.of && next.of[j] == u {
      if u == next.of[id] {
        assert id in next.of;
      } else {
        var j :| j in n.of && n.of[j] == u;
        assert next.of[j] == u;
      }
    }
  }

  lemma OwnOnceStays(btf: BtfFile, n: Names, next: Names, id: nat)
    requires IsNext(btf, n, next, id) && AreFitting(btf, n) && OwnOnce(btf, n)
    ensures OwnOnce(btf, next)
  {
    hide Candidate, Suffixed;
    SuffixLengthens(btf, id);
    forall i, j | IsOwn(btf, next, i) && IsOwn(btf, next, j) && next.of[i] == next.of[j] ensures i == j {
      assert i != id ==> IsOwn(btf, n, i);
      assert j != id ==> IsOwn(btf, n, j);
    }
  }

  lemma ForcedStays(btf: BtfFile, n: Names, next: Names, id: nat)
    requires IsNext(btf, n, next, id) && AreSomeones(n) && AreForced(btf, n)
    ensures AreForced(btf, next)
  {
    hide Candidate, Suffixed;
    SuffixLengthens(btf, id);
    forall j | j in next.of && Exists(btf, j) && next.of[j] == Suffixed(btf, j) ensures TakenFrom(btf, next, j) {
      if j == id {
        var k :| k in n.of && n.of[k] == Candidate(btf, id);
        assert next.of[k] == Candidate(btf, id);
      } else {
        assert TakenFrom(btf, n, j);
        var k :| k in n.of && k != j && n.of[k] == Candidate(btf, j);
        assert next.of[k] == Candidate(btf, j);
      }
    }
  }

  lemma NameOneKeepsNames(btf: BtfFile, n: Names, id: nat)
    requires NamesKnown(btf, n)
    ensures NamesKnown(btf, NameOne(btf, n, id))
  {
    hide AreFitting, AreSomeones, OwnOnce, AreForced, FreshName;
    if id !in n.of && Exists(btf, id) {
      var next := NameOne(btf, n, id);
      FittingStays(btf, n, next, id);
      SomeonesStay(btf, n, next, id);
      OwnOnceStays(btf, n, next, id);
      ForcedStays(btf, n, next, id);
    }
  }

  lemma {:induction false} NameAllKnown(btf: BtfFile, ids: seq<nat>)
    ensures NamesKnown(btf, NameAll(btf, ids))
  {
    if ids != [] {
      NameAllKnown(btf, ids[..|ids| - 1]);
      NameOneKeepsNames(btf, NameAll(btf, ids[..|ids| - 1]), ids[|ids| - 1]);
    }
  }

  // ----- when two records share a name -----

  ghost predicate Shares(n: Names) {
    exists i, j :: i in n.of && j in n.of && i != j && n.of[i] == n.of[j]
  }

  /** A real name equals the suffixed form of another record that a third one can force into that form. */
  ghost predicate Clash(btf: BtfFile, i: nat, j: nat, k: nat) {
    && Exists(btf, i) && Exists(btf, j) && Exists(btf, k) && i != j && k != j
    && RealName(btf, i) == Candidate(btf, j) + "_" + Decimal(j) && Candidate(btf, k) == Candidate(btf, j)
  }

  lemma SuffixedText(btf: BtfFile, id: nat)
    requires Exists(btf, id)
    ensures Suffixed(btf, id) == Candidate(btf, id) + "_" + Decimal(id)
  {
  }

  ghost predicate NoClash(btf: BtfFile) {
    forall i, j, k :: !Clash(btf, i, j, k)
  }

  lemma SuffixedInjective(btf: BtfFile, i: nat, j: nat)
    requires Exists(btf, i) && Exists(btf, j) && Suffixed(btf, i) == Suffixed(btf, j)
    ensures i == j
  {
    SuffixDetermined(Candidate(btf, i), i, Candidate(btf, j), j);
  }

  /** Only a real name can equal another record's suffixed form: a made-up name ends in its own id. */
  lemma SuffixedIsReal(btf: BtfFile, i: nat, j: nat)
    requires Exists(btf, i) && Exists(btf, j) && i != j && Candidate(btf, i) == Suffixed(btf, j)
    ensures RealName(btf, i) == Suffixed(btf, j)
  {
    if RealName(btf, i) == "" {
      SuffixDetermined("__btf_" + KindText(TypeById(btf, i).value.kind), i, Candidate(btf, j), j);
    }
  }

  /** Why a suffixed form was handed out, followed back to a record that had its own name: there is a clash. */
  lemma {:induction false} SuffixedHasClash(btf: BtfFile, n: Names, i: nat, j: nat)
    requires NamesKnown(btf, n) && j in n.of && n.of[j] == Suffixed(btf, j)
    requires Exists(btf, i) && i != j && RealName(btf, i) == Suffixed(btf, j)
    ensures !NoClash(btf)
    decreases |Candidate(btf, j)|
  {
    hide Candidate, Suffixed, RealName, Exists;
    assert TakenFrom(btf, n, j);
    var k :| k in n.of && k != j && n.of[k] == Candidate(btf, j);
    if n.of[k] == Candidate(btf, k) {
      SuffixedText(btf, j);
      assert Clash(btf, i, j, k);
    } else {
      SuffixLengthens(btf, k);
      SuffixedIsReal(btf, j, k);
      SuffixedHasClash(btf, n, j, k);
    }
  }

  /** Names that are shared come from a clash. */
  lemma SharedHasClash(btf: BtfFile, n: Names)
    requires NamesKnown(btf, n) && Shares(n)
    ensures !NoClash(btf)
  {
    hide Candidate, Suffixed, RealName, Exists;
    var i, j :| i in n.of && j in n.of && i != j && n.of[i] == n.of[j];
    if n.of[i] == Suffixed(btf, i) && n.of[j] == Suffixed(btf, j) {
      SuffixedInjective(btf, i, j);
    } else if n.of[j] == Suffixed(btf, j) {
      SuffixedIsReal(btf, i, j);
      SuffixedHasClash(btf, n, i, j);
    } else {
      SuffixedIsReal(btf, j, i);
      SuffixedHasClash(btf, n, j, i);
    }
  }

  /** A clash shows when the third record is named first, then the real name, then the record it equals. */
  lemma ClashShares(btf: BtfFile, i: nat, j: nat, k: nat)
    requires Clash(btf, i, j, k)
    ensures var n := NameAll(btf, [k, i, j]);
            i in n.of && j in n.of && n.of[i] == n.of[j] == RealName(btf, i)
  {
    hide Suffixed, Exists;
    SuffixLengthens(btf, j);
    SuffixedText(btf, j);
    assert [k, i, j][..2] == [k, i] && [k, i][..1] == [k] && [k][..0] == [];
    assert NameAll(btf, [k]) == NameOne(btf, NO_NAMES, k);
    assert NameAll(btf, [k, i]) == NameOne(btf, NameAll(btf, [k]), i);
    assert NameAll(btf, [k, i, j]) == NameOne(btf, NameAll(btf, [k, i]), j);
    assert RealName(btf, i) != "";
  }

  /** Some order of naming makes two records share a name exactly when there is a clash. */
  lemma SharesIffClash(btf: BtfFile)
    ensures (exists ids :: Shares(NameAll(btf, ids))) <==> !NoClash(btf)
  {
    hide NameAll, NamesKnown, Shares;
    forall ids | Shares(NameAll(btf, ids)) ensures !NoClash(btf) {
      NameAllKnown(btf, ids);
      SharedHasClash(btf, NameAll(btf, ids));
    }
    if !NoClash(btf) {
      var i, j, k :| Clash(btf, i, j, k);
      ClashShares(btf, i, j, k);
      SharesAt(NameAll(btf, [k, i, j]), i, j);
    }
  }

  lemma SharesAt(n: Names, i: nat, j: nat)
    requires i in n.of && j in n.of && i != j && n.of[i] == n.of[j]
    ensures Shares(n)
  {
  }
}
