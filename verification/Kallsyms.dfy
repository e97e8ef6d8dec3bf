/** Decoding the compressed kernel symbol table (kallsyms.rs). */
module Kallsyms {
  import opened Wrappers
  import opened Memory

  const KALLSYMS_TOKEN_INDEX_BYTES: nat := 512
  const MAX_TOKEN_BYTES: nat := 4096

  datatype Encoding = RelativeUnsigned | LegacySigned

  datatype Layout = Layout(offsets: nat, relativeBaseAddr: nat, encoding: Encoding)

  datatype Info = Info(offsets: nat, relativeBase: u64, numSyms: nat, names: nat, tokenTable: nat, tokenIndex: nat,
                       encoding: Encoding)

  // ----- words and strings, byte by byte -----

  function ReadU16(m: Memory, a: nat): Option<u16> {
    var lo, hi := m.u8(a), m.u8(a + 1);
    if lo.None? || hi.None? then None else Some((lo.value as int) + 0x100 * (hi.value as int))
  }

  function ReadU32(m: Memory, a: nat): Option<u32> {
    var lo, hi := ReadU16(m, a), ReadU16(m, a + 2);
    if lo.None? || hi.None? then None else Some((lo.value as int) + 0x1_0000 * (hi.value as int))
  }

  ghost predicate BytesAt(m: Memory, a: nat, bytes: seq<byte>) {
    forall i :: 0 <= i < |bytes| ==> m.u8(a + i) == Some(bytes[i])
  }

  /** Two bytes are a little-endian word. */
  lemma ReadU16Meaning(m: Memory, a: nat, n: u16)
    ensures ReadU16(m, a) == Some(n) <==> m.u8(a) == Some(n % 0x100) && m.u8(a + 1) == Some(n / 0x100)
    ensures ReadU16(m, a) == Some(n) <==> BytesAt(m, a, Bytes16(n))
    ensures ReadU16(m, a).None? <==> m.u8(a).None? || m.u8(a + 1).None?
  {
    if BytesAt(m, a, Bytes16(n)) {
      assert Bytes16(n)[0] == n % 0x100 && m.u8(a + 0) == Some(n % 0x100) && m.u8(a + 1) == Some(Bytes16(n)[1]);
    }
  }

  /** Four bytes are a little-endian word. */
  lemma ReadU32Meaning(m: Memory, a: nat, n: u32)
    ensures ReadU32(m, a) == Some(n) <==> BytesAt(m, a, Bytes32(n))
    ensures ReadU32(m, a).None? <==>
              m.u8(a).None? || m.u8(a + 1).None? || m.u8(a + 2).None? || m.u8(a + 3).None?
  {
    hide ReadU16, Bytes16, Bytes32, BytesAt;
    var lo, hi := n % 0x1_0000, n / 0x1_0000;
    ReadU16Meaning(m, a, lo);
    ReadU16Meaning(m, a + 2, hi);
    HalfWords(n);
    BytesAtBoth(m, a, Bytes16(lo), Bytes16(hi));
  }

  lemma HalfWords(n: u32)
    ensures Bytes32(n) == Bytes16(n % 0x1_0000) + Bytes16(n / 0x1_0000) && |Bytes16(n % 0x1_0000)| == 2
  {
    hide Bytes16, Bytes32;
    HalfWordParts(n);
    TwoBytes(n % 0x1_0000);
    TwoBytes(n / 0x1_0000);
    assert Bytes32(n) == [n % 0x100, n / 0x100 % 0x100, n / 0x1_0000 % 0x100, n / 0x100_0000] by { WordParts(n); }
  }

  lemma WordParts(n: u32)
    ensures Bytes32(n) == [n % 0x100, n / 0x100 % 0x100, n / 0x1_0000 % 0x100, n / 0x100_0000]
  {
  }

  lemma TwoBytes(n: u16)
    ensures Bytes16(n) == [n % 0x100, n / 0x100]
  {
  }

  lemma HalfWordParts(n: u32)
    ensures n % 0x1_0000 % 0x100 == n % 0x100 && n % 0x1_0000 / 0x100 == n / 0x100 % 0x100
    ensures n / 0x1_0000 / 0x100 == n / 0x100_0000
  {
    var q, r := n / 0x1_0000, n % 0x1_0000;
    assert n == 0x1_0000 * q + r;
    assert n / 0x100 == 0x100 * q + r / 0x100;
  }

  lemma BytesAtBoth(m: Memory, a: nat, x: seq<byte>, y: seq<byte>)
    ensures BytesAt(m, a, x + y) <==> BytesAt(m, a, x) && BytesAt(m, a + |x|, y)
  {
    if BytesAt(m, a, x + y) {
      forall i | 0 <= i < |x| ensures m.u8(a + i) == Some(x[i]) { assert m.u8(a + i) == Some((x + y)[i]); }
      forall i | 0 <= i < |y| ensures m.u8(a + |x| + i) == Some(y[i]) { assert m.u8(a + (|x| + i)) == Some((x + y)[|x| + i]); }
    }
    if BytesAt(m, a, x) && BytesAt(m, a + |x|, y) {
      forall i | 0 <= i < |x + y| ensures m.u8(a + i) == Some((x + y)[i]) {
        assert i >= |x| ==> m.u8(a + |x| + (i - |x|)) == Some(y[i - |x|]);
      }
    }
  }

  /** The text up to a NUL among the first `max` bytes. */
  function ReadText(m: Memory, a: nat, max: nat): Option<string>
    decreases max, a
  {
    if max == 0 || m.u8(a).None? then None
    else if m.u8(a).value == 0 then Some("")
    else
      var rest := ReadText(m, a + 1, max - 1);
      if rest.None? then None else Some([m.u8(a).value as char] + rest.value)
  }

  // ----- one symbol -----

  function DecodeSymbolLenPrefix(first: byte, second: Option<byte>): Option<(nat, nat)> {
    if first < 0x80 then Some((first, 1))
    else if second.None? then None
    else Some((first % 0x80 + 0x80 * (second.value as int), 2))
  }

  function ReadSymbolLen(m: Memory, a: nat): Option<(nat, nat)> {
    if m.u8(a).None? then None else DecodeSymbolLenPrefix(m.u8(a).value, m.u8(a + 1))
  }

  function TokenText(m: Memory, info: Info, token: byte): Option<string> {
    var index := ReadU16(m, info.tokenIndex + 2 * token);
    if index.None? then None else ReadText(m, info.tokenTable + index.value, MAX_TOKEN_BYTES)
  }

  /** The expansion of the first `count` tokens at `start`; the type character that opens the first one is skipped. */
  function ExpandTokens(m: Memory, info: Info, start: nat, count: nat): Option<string>
    decreases count
  {
    if count == 0 then Some("")
    else
      var front, token := ExpandTokens(m, info, start, count - 1), m.u8(start + count - 1);
      if front.None? || token.None? then None
      else
        var s := TokenText(m, info, token.value);
        if s.None? then None else Some(front.value + SkipChars(s.value, if count == 1 then 1 else 0))
  }

  function SkipChars(s: string, n: nat): string {
    s[Min(n, |s|)..]
  }

  datatype Expanded = Expanded(name: string, next: nat)

  function ExpandSymbol(m: Memory, info: Info, offset: nat): Option<Expanded> {
    var len := ReadSymbolLen(m, info.names + offset);
    if len.None? then None
    else
      var name := ExpandTokens(m, info, info.names + offset + len.value.1, len.value.0);
      if name.None? then None else Some(Expanded(name.value, offset + len.value.1 + len.value.0))
  }

  function AddressOf(encoding: Encoding, relativeBase: u64, word: u32): nat {
    if encoding == RelativeUnsigned then SaturatingAdd(relativeBase, word)
    else if word < 0x8000_0000 then word
    else SaturatingSub(relativeBase + (0x1_0000_0000 - word), 1)
  }

  function SymAddress(m: Memory, info: Info, index: nat): Option<nat> {
    var word := ReadU32(m, info.offsets + 4 * index);
    if word.None? then None else Some(AddressOf(info.encoding, info.relativeBase, word.value))
  }

  // ----- the iterator -----

  method ExpandSymbolInto(m: Memory, info: Info, offset: nat) returns (r: Option<Expanded>)
    ensures r == ExpandSymbol(m, info, offset)
  {
    hide TokenText, ReadSymbolLen;
    var name := "";
    var len := ReadSymbolLen(m, info.names + offset);
    if len.None? { return None; }
    var start := info.names + offset + len.value.1;
    for i := 0 to len.value.0
      invariant ExpandTokens(m, info, start, i) == Some(name)
    {
      var token := m.u8(start + i);
      var s := if token.None? then None else TokenText(m, info, token.value);
      if s.None? {
        ExpandTokensFail(m, info, start, i + 1, len.value.0);
        return None;
      }
      name := name + SkipChars(s.value, if i == 0 then 1 else 0);
    }
    return Some(Expanded(name, offset + len.value.1 + len.value.0));
  }

  lemma {:induction false} ExpandTokensFail(m: Memory, info: Info, start: nat, k: nat, count: nat)
    requires k <= count && ExpandTokens(m, info, start, k).None?
    ensures ExpandTokens(m, info, start, count).None?
  {
    hide TokenText;
    if k < count { ExpandTokensFail(m, info, start, k, count - 1); }
  }

  /** A token that can be neither read nor expanded. */
  ghost predicate IsLostToken(m: Memory, info: Info, at: nat) {
    m.u8(at).None? || TokenText(m, info, m.u8(at).value).None?
  }

  /** An expansion fails exactly when one of its tokens is lost. */
  lemma {:induction false} ExpandTokensFailIff(m: Memory, info: Info, start: nat, count: nat)
    ensures ExpandTokens(m, info, start, count).None? <==> exists at: nat :: start <= at < start + count && IsLostToken(m, info, at)
  {
    hide TokenText;
    if count > 0 {
      ExpandTokensFailIff(m, info, start, count - 1);
      assert IsLostToken(m, info, start + count - 1) ==> ExpandTokens(m, info, start, count).None?;
    }
  }

  class Iterator {
    const info: Info
    const m: Memory
    var curIdx: nat
    var curNameOff: nat

    constructor (info: Info, m: Memory)
      ensures this.info == info && this.m == m && curIdx == 0 && curNameOff == 0
    {
      this.info, this.m, curIdx, curNameOff := info, m, 0, 0;
    }

    /** The next address and name, or None at the end of the table or when a read fails; a failed read moves nothing. */
    method Next() returns (r: Option<(nat, string)>)
      modifies this
      ensures var address := SymAddress(m, info, old(curIdx));
              var symbol := ExpandSymbol(m, info, old(curNameOff));
              if old(curIdx) >= info.numSyms || address.None? || symbol.None?
              then r.None? && curIdx == old(curIdx) && curNameOff == old(curNameOff)
              else r == Some((address.value, symbol.value.name)) && curIdx == old(curIdx) + 1
                   && curNameOff == symbol.value.next
    {
      hide ExpandSymbol, SymAddress;
      if curIdx >= info.numSyms { return None; }
      var address := SymAddress(m, info, curIdx);
      if address.None? { return None; }
      var symbol := ExpandSymbolInto(m, info, curNameOff);
      if symbol.None? { return None; }
      curNameOff := symbol.value.next;
      curIdx := curIdx + 1;
      return Some((address.value, symbol.value.name));
    }
  }

  // ----- the compressed table -----

  datatype Symbol = Symbol(address: u64, tokens: seq<byte>)

  const MAX_TOKENS: nat := 32767

  function EncodeLen(n: nat): seq<byte>
    requires n <= MAX_TOKENS
  {
    if n < 0x80 then [n] else [n % 0x80 + 0x80, n / 0x80]
  }

  function EncodeSymbol(s: Symbol): seq<byte>
    requires |s.tokens| <= MAX_TOKENS
  {
    EncodeLen(|s.tokens|) + s.tokens
  }

  predicate AllShort(syms: seq<Symbol>) {
    forall s :: s in syms ==> |s.tokens| <= MAX_TOKENS
  }

  function EncodeNames(syms: seq<Symbol>): seq<byte>
    requires AllShort(syms)
  {
    if syms == [] then [] else EncodeNames(syms[..|syms| - 1]) + EncodeSymbol(syms[|syms| - 1])
  }

  /** The word that stands for an address in the offsets array. */
  function EncodeAddress(encoding: Encoding, relativeBase: u64, address: u64): u32
    requires Addressable(encoding, relativeBase, address)
  {
    if encoding == RelativeUnsigned then address - relativeBase
    else if address < 0x8000_0000 then address
    else 0x1_0000_0000 - (address - relativeBase + 1)
  }

  /** An unsigned word reaches 4 GiB above the base; a signed one is absolute, or at most 2 GiB above the base. */
  predicate Addressable(encoding: Encoding, relativeBase: u64, address: u64) {
    if encoding == RelativeUnsigned then relativeBase <= address < relativeBase + 0x1_0000_0000
    else address < 0x8000_0000 || relativeBase <= address < relativeBase + 0x8000_0000
  }

  lemma AddressReadsBack(encoding: Encoding, relativeBase: u64, address: u64)
    requires Addressable(encoding, relativeBase, address)
    ensures AddressOf(encoding, relativeBase, EncodeAddress(encoding, relativeBase, address)) == address
  {
  }

  /** An address can be expressed exactly when some word stands for it. */
  lemma AddressableIff(encoding: Encoding, relativeBase: u64, address: u64)
    ensures Addressable(encoding, relativeBase, address) <==> exists word: u32 :: AddressOf(encoding, relativeBase, word) == address
  {
    if Addressable(encoding, relativeBase, address) { AddressReadsBack(encoding, relativeBase, address); }
  }

  /** An ASCII token with at least one character that fits the reader's limit together with its NUL. */
  predicate IsToken(s: string) {
    0 < |s| < 4096 && forall i :: 0 <= i < |s| ==> 0 < s[i] as int < 128
  }

  function TokenBytes(s: string): seq<byte>
    requires IsToken(s)
  {
    seq(|s|, i requires 0 <= i < |s| => s[i] as int) + [0]
  }

  /** The token index has two bytes for the token, and the token table holds its text at that offset. */
  ghost predicate TokenStored(m: Memory, info: Info, token: byte, s: string) {
    && IsToken(s)
    && exists index: u16 :: BytesAt(m, info.tokenIndex + 2 * token, Bytes16(index))
                            && BytesAt(m, info.tokenTable + index, TokenBytes(s))
  }

  /** Memory holds the symbols, compressed with the tokens of `table`. */
  ghost predicate Stores(m: Memory, info: Info, table: seq<string>, syms: seq<Symbol>) {
    && TableStored(m, info, table) && |syms| == info.numSyms && AllShort(syms)
    && BytesAt(m, info.names, EncodeNames(syms))
    && (forall i {:trigger syms[i]} :: 0 <= i < |syms| ==>
          && Addressable(info.encoding, info.relativeBase, syms[i].address)
          && BytesAt(m, info.offsets + 4 * i, Bytes32(EncodeAddress(info.encoding, info.relativeBase, syms[i].address))))
  }

  /** The uncompressed text of a symbol, type character first. */
  function FullName(table: seq<string>, tokens: seq<byte>): string
    requires |table| == 256
  {
    if tokens == [] then "" else FullName(table, tokens[..|tokens| - 1]) + table[tokens[|tokens| - 1]]
  }

  /** The symbol's name: everything after the type character. */
  function NameOf(table: seq<string>, tokens: seq<byte>): string
    requires |table| == 256
  {
    var full := FullName(table, tokens);
    if full == "" then "" else full[1..]
  }

  lemma LenReadsBack(n: nat, rest: Option<byte>)
    requires n <= MAX_TOKENS
    ensures n < 0x80 ==> DecodeSymbolLenPrefix(n, rest) == Some((n, 1))
    ensures n >= 0x80 ==> DecodeSymbolLenPrefix(n % 0x80 + 0x80, Some(n / 0x80)) == Some((n, 2))
    ensures DecodeSymbolLenPrefix(n % 0x80 + 0x80, None) == None
  {
  }

  /** A stored text is read back exactly when it fits the limit together with its NUL. */
  lemma {:induction false} TextReadsBack(m: Memory, a: nat, max: nat, s: string)
    requires forall i :: 0 <= i < |s| ==> 0 < s[i] as int < 128
    requires (forall i :: 0 <= i < |s| ==> m.u8(a + i) == Some(s[i] as int)) && m.u8(a + |s|) == Some(0)
    ensures ReadText(m, a, max) == if |s| < max then Some(s) else None
    decreases |s|
  {
    if s != "" && max > 0 {
      assert m.u8(a + 0) == Some(s[0] as int);
      forall i | 0 <= i < |s[1..]| ensures m.u8(a + 1 + i) == Some(s[1..][i] as int) {
        assert m.u8(a + (i + 1)) == Some(s[i + 1] as int);
      }
      TextReadsBack(m, a + 1, max - 1, s[1..]);
      assert s == [s[0]] + s[1..];
    }
  }

  lemma TokenReadsBack(m: Memory, info: Info, token: byte, s: string)
    requires TokenStored(m, info, token, s)
    ensures TokenText(m, info, token) == Some(s)
  {
    var index: u16 :| BytesAt(m, info.tokenIndex + 2 * token, Bytes16(index)) && BytesAt(m, info.tokenTable + index, TokenBytes(s));
    ReadU16Meaning(m, info.tokenIndex + 2 * token, index);
    var a := info.tokenTable + index;
    var bytes := TokenBytes(s);
    forall i | 0 <= i < |s| ensures m.u8(a + i) == Some(s[i] as int) {
      assert m.u8(a + i) == Some(bytes[i]);
    }
    assert m.u8(a + |s|) == Some(bytes[|s|]);
    TextReadsBack(m, a, MAX_TOKEN_BYTES, s);
  }

  /** Every token of the table is stored where the token index says. */
  ghost predicate TableStored(m: Memory, info: Info, table: seq<string>) {
    |table| == 256 && forall t: byte {:trigger table[t]} :: TokenStored(m, info, t, table[t])
  }

  lemma NoTokens(m: Memory, info: Info, table: seq<string>, start: nat)
    requires |table| == 256
    ensures ExpandTokens(m, info, start, 0) == Some(NameOf(table, [])) && |FullName(table, [])| == 0
  {
  }

  lemma OneMoreToken(m: Memory, info: Info, start: nat, front: string, count: nat, token: byte, s: string)
    requires ExpandTokens(m, info, start, count) == Some(front)
    requires m.u8(start + count) == Some(token) && TokenText(m, info, token) == Some(s)
    ensures ExpandTokens(m, info, start, count + 1) == Some(front + SkipChars(s, if count == 0 then 1 else 0))
  {
    hide TokenText, SkipChars;
  }

  lemma OneMoreName(table: seq<string>, front: seq<byte>, token: byte)
    requires |table| == 256 && |table[token]| > 0 && |FullName(table, front)| >= |front|
    ensures NameOf(table, front + [token]) == NameOf(table, front) + SkipChars(table[token], if front == [] then 1 else 0)
    ensures |FullName(table, front + [token])| > |front|
  {
    assert (front + [token])[..|front|] == front;
    assert FullName(table, front + [token]) == FullName(table, front) + table[token];
    if front != [] {
      assert SkipChars(table[token], 0) == table[token];
    }
  }

  lemma {:induction false} TokensReadBack(m: Memory, info: Info, table: seq<string>, start: nat, tokens: seq<byte>)
    requires TableStored(m, info, table) && BytesAt(m, start, tokens)
    ensures ExpandTokens(m, info, start, |tokens|) == Some(NameOf(table, tokens))
    ensures |FullName(table, tokens)| >= |tokens|
  {
    hide TokenText, TokenStored, ExpandTokens, FullName, NameOf, SkipChars;
    if tokens == [] {
      NoTokens(m, info, table, start);
    } else {
      var front, last := tokens[..|tokens| - 1], tokens[|tokens| - 1];
      TokensReadBack(m, info, table, start, front);
      assert m.u8(start + (|tokens| - 1)) == Some(last);
      TokenReadsBack(m, info, last, table[last]);
      StoredIsToken(m, info, last, table[last]);
      OneMoreToken(m, info, start, NameOf(table, front), |front|, last, table[last]);
      OneMoreName(table, front, last);
      assert front + [last] == tokens;
    }
  }

  lemma StoredIsToken(m: Memory, info: Info, token: byte, s: string)
    requires TokenStored(m, info, token, s)
    ensures |s| > 0
  {
  }

  lemma SymbolReadsBack(m: Memory, info: Info, table: seq<string>, offset: nat, s: Symbol)
    requires TableStored(m, info, table)
    requires |s.tokens| <= MAX_TOKENS && BytesAt(m, info.names + offset, EncodeSymbol(s))
    ensures ExpandSymbol(m, info, offset) == Some(Expanded(NameOf(table, s.tokens), offset + |EncodeSymbol(s)|))
  {
    hide ExpandTokens, TableStored, NameOf;
    var bytes, head, a := EncodeSymbol(s), EncodeLen(|s.tokens|), info.names + offset;
    assert m.u8(a + 0) == Some(bytes[0]);
    if |s.tokens| >= 0x80 { assert m.u8(a + 1) == Some(bytes[1]); }
    LenReadsBack(|s.tokens|, m.u8(a + 1));
    assert ReadSymbolLen(m, a) == Some((|s.tokens|, |head|));
    forall i | 0 <= i < |s.tokens| ensures m.u8(a + |head| + i) == Some(s.tokens[i]) {
      assert m.u8(a + (|head| + i)) == Some(bytes[|head| + i]);
    }
    TokensReadBack(m, info, table, a + |head|, s.tokens);
  }

  /** The encodings before a symbol, and its own, begin the whole names table. */
  lemma {:induction false} NamesPrefix(syms: seq<Symbol>, i: nat)
    requires AllShort(syms) && i < |syms|
    ensures AllShort(syms[..i]) && AllShort([syms[i]])
    ensures EncodeNames(syms[..i]) + EncodeSymbol(syms[i]) <= EncodeNames(syms)
  {
    hide EncodeSymbol;
    assert forall s :: s in syms[..i] ==> s in syms;
    assert syms[i] in syms;
    if i < |syms| - 1 {
      var front := syms[..|syms| - 1];
      assert forall s :: s in front ==> s in syms;
      NamesPrefix(front, i);
      assert front[..i] == syms[..i];
    }
  }

  /** The total encoded size of the first `i` symbols: where the name of symbol `i` starts. */
  function SizeUpTo(syms: seq<Symbol>, i: nat): nat
    requires AllShort(syms) && i <= |syms|
  {
    |EncodeNames(syms[..i])|
  }

  /** Symbol `i` is decoded from where the first `i` names end, and decoding it ends where symbol `i + 1` starts. */
  lemma EntryReadsBack(m: Memory, info: Info, table: seq<string>, syms: seq<Symbol>, i: nat)
    requires Stores(m, info, table, syms) && i < |syms|
    ensures SymAddress(m, info, i) == Some(syms[i].address)
    ensures ExpandSymbol(m, info, SizeUpTo(syms, i)) == Some(Expanded(NameOf(table, syms[i].tokens), SizeUpTo(syms, i + 1)))
  {
    hide ExpandSymbol, TableStored, NameOf, EncodeSymbol, EncodeAddress, ReadU32;
    NamesPrefix(syms, i);
    var s, offset := syms[i], SizeUpTo(syms, i);
    assert syms[..i + 1][..i] == syms[..i];
    var all := EncodeNames(syms);
    var before := EncodeNames(syms[..i]);
    assert s in syms;
    forall k | 0 <= k < |EncodeSymbol(s)| ensures m.u8(info.names + offset + k) == Some(EncodeSymbol(s)[k]) {
      assert m.u8(info.names + (offset + k)) == Some(all[offset + k]);
      assert all[offset + k] == (before + EncodeSymbol(s))[offset + k];
    }
    SymbolReadsBack(m, info, table, offset, s);
    AddressReadsBack(info.encoding, info.relativeBase, s.address);
    ReadU32Meaning(m, info.offsets + 4 * i, EncodeAddress(info.encoding, info.relativeBase, s.address));
  }

  /** Iterating a stored table yields exactly its addresses and names, in order, and then ends. */
  method IterateAll(info: Info, m: Memory, ghost table: seq<string>, ghost syms: seq<Symbol>) returns (found: seq<(nat, string)>)
    requires Stores(m, info, table, syms)
    ensures |found| == |syms|
    ensures forall i :: 0 <= i < |syms| ==> found[i] == (syms[i].address as nat, NameOf(table, syms[i].tokens))
  {
    hide Stores, ExpandSymbol, SymAddress, NameOf;
    StoredShape(m, info, table, syms);
    var it := new Iterator(info, m);
    found := [];
    var next: Option<(nat, string)> := None;
    var more := true;
    while more
      invariant fresh(it) && it.info == info && it.m == m
      invariant it.curIdx == |found| <= |syms| && it.curNameOff == SizeUpTo(syms, it.curIdx)
      invariant !more ==> |found| == |syms|
      invariant forall i :: 0 <= i < |found| ==> found[i] == (syms[i].address as nat, NameOf(table, syms[i].tokens))
      decreases |syms| - |found|, more
    {
      if it.curIdx < |syms| { EntryReadsBack(m, info, table, syms, it.curIdx); }
      next := it.Next();
      more := next.Some?;
      if more { found := found + [next.value]; }
    }
  }

  lemma StoredShape(m: Memory, info: Info, table: seq<string>, syms: seq<Symbol>)
    requires Stores(m, info, table, syms)
    ensures |table| == 256 && |syms| == info.numSyms && AllShort(syms) && SizeUpTo(syms, 0) == 0
  {
    assert syms[..0] == [];
  }
}
