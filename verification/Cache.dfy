/** The text form of a cached kernel hint (cache.rs). */
module Cache {
  import opened Wrappers
  import opened Memory
  import opened Text

  datatype CacheEntry = CacheEntry(version: u32, memoryFingerprint: u64, defsFingerprint: u64, kernelHint: u64,
                                   updatedUnixSecs: u64)

  const VERSION := "version"
  const MEMORY_FINGERPRINT := "memory_fingerprint"
  const DEFS_FINGERPRINT := "defs_fingerprint"
  const KERNEL_HINT := "kernel_hint"
  const UPDATED := "updated_unix_secs"

  // ----- trimming and splitting -----

  predicate IsQuote(c: char) {
    c == '"'
  }

  /** The text after every leading copy of a prefix. */
  function TrimPrefixes(s: string, prefix: string): string
    requires prefix != ""
  {
    if prefix <= s then TrimPrefixes(s[|prefix|..], prefix) else s
  }

  /** The first position of a character, or the length when it does not occur. */
  function Find(s: string, c: char): (i: nat)
    ensures i <= |s| && c !in s[..i] && (i < |s| ==> s[i] == c)
  {
    if s == "" || s[0] == c then 0 else
      var i := 1 + Find(s[1..], c);
      assert s[..i] == [s[0]] + s[1..][..i - 1];
      i
  }

  /** Rust's `lines`: a line ends at a newline, which takes a carriage return before it along. */
  function Lines(s: string): seq<string> {
    if s == "" then []
    else
      var i := Find(s, '\n');
      if i == |s| then [s] else [StripCarriageReturn(s[..i])] + Lines(s[i + 1..])
  }

  function StripCarriageReturn(s: string): string {
    if s != "" && s[|s| - 1] == '\r' then s[..|s| - 1] else s
  }

  // ----- writing -----

  function Padded(n: u64): string {
    "0x" + PadZeros(Hex(n), 16)
  }

  /** A key and its value, quoted or not. */
  function Line(key: string, quote: string, value: string): string {
    key + " = " + quote + value + quote
  }

  function FormatLines(e: CacheEntry): seq<string> {
    [ Line(VERSION, "", Decimal(e.version)),
      Line(MEMORY_FINGERPRINT, "\"", Padded(e.memoryFingerprint)),
      Line(DEFS_FINGERPRINT, "\"", Padded(e.defsFingerprint)),
      Line(KERNEL_HINT, "\"", "0x" + Hex(e.kernelHint)),
      Line(UPDATED, "", Decimal(e.updatedUnixSecs)) ]
  }

  /** Every line followed by a newline. */
  function Unlines(lines: seq<string>): string {
    if lines == [] then "" else lines[0] + "\n" + Unlines(lines[1..])
  }

  function FormatCacheEntry(e: CacheEntry): string {
    Unlines(FormatLines(e))
  }

  // ----- reading -----

  function ParseU32(s: string): Option<nat> {
    FromStrRadix(s, 10, 0xFFFF_FFFF)
  }

  function ParseU64(s: string): Option<nat> {
    FromStrRadix(s, 10, U64_MAX)
  }

  predicate IsHexLetter(c: char) {
    'a' <= c <= 'f' || 'A' <= c <= 'F'
  }

  function ParseHexU64(value: string): Option<nat> {
    var trimmed := Trim(value);
    var digits := TrimPrefixes(TrimPrefixes(trimmed, "0x"), "0X");
    var isHex := "0x" <= trimmed || "0X" <= trimmed || exists i :: 0 <= i < |digits| && IsHexLetter(digits[i]);
    var radix := if isHex then 16 else 10;
    FromStrRadix(digits, radix, U64_MAX)
  }

  /** The key and value of a trimmed line; nothing for a blank line, a comment, or a line without an equals sign. */
  function KeyValue(line: string): Option<(string, string)> {
    var i := Find(line, '=');
    if line == "" || line[0] == '#' || i == |line| then None
    else Some((Trim(line[..i]), TrimBy(Trim(line[i + 1..]), IsQuote)))
  }

  /** The value of the last line that has this key. */
  function LastValue(lines: seq<string>, key: string): Option<string> {
    if lines == [] then None
    else
      var kv := KeyValue(Trim(lines[|lines| - 1]));
      if kv.Some? && kv.value.0 == key then Some(kv.value.1) else LastValue(lines[..|lines| - 1], key)
  }

  function Bind(s: Option<string>, parse: string -> Option<nat>): Option<nat> {
    if s.None? then None else parse(s.value)
  }

  /** An entry needs all five values; for a key that occurs more than once only the last line counts, even a bad one. */
  ghost predicate Describes(lines: seq<string>, e: CacheEntry) {
    && Bind(LastValue(lines, "version"), ParseU32) == Some(e.version as nat)
    && Bind(LastValue(lines, "memory_fingerprint"), ParseHexU64) == Some(e.memoryFingerprint as nat)
    && Bind(LastValue(lines, "defs_fingerprint"), ParseHexU64) == Some(e.defsFingerprint as nat)
    && Bind(LastValue(lines, "kernel_hint"), ParseHexU64) == Some(e.kernelHint as nat)
    && Bind(LastValue(lines, "updated_unix_secs"), ParseU64) == Some(e.updatedUnixSecs as nat)
  }

  /** What a line says: it is neither blank nor a comment, its key is what stands before its first equals sign, and its
    * value what stands after it, without the white space around them and the quotes around the value. */
  ghost predicate Says(line: string, key: string, value: string) {
    && line != "" && line[0] != '#'
    && exists i :: 0 <= i < |line| && line[i] == '=' && '=' !in line[..i]
                   && key == Trim(line[..i]) && value == TrimBy(Trim(line[i + 1..]), (c: char) => c == '"')
  }

  lemma TrimQuotes(s: string)
    ensures TrimBy(s, IsQuote) == TrimBy(s, (c: char) => c == '"')
  {
    var p := (c: char) => c == '"';
    SameTrimStart(s, IsQuote, p);
    SameTrimEnd(TrimStart(s, p), IsQuote, p);
  }

  lemma {:induction false} SameTrimStart(s: string, p: char -> bool, q: char -> bool)
    requires forall c :: p(c) == q(c)
    ensures TrimStart(s, p) == TrimStart(s, q)
  {
    if s != "" { SameTrimStart(s[1..], p, q); }
  }

  lemma {:induction false} SameTrimEnd(s: string, p: char -> bool, q: char -> bool)
    requires forall c :: p(c) == q(c)
    ensures TrimEnd(s, p) == TrimEnd(s, q)
  {
    if s != "" { SameTrimEnd(s[..|s| - 1], p, q); }
  }

  lemma FirstOnly(s: string, c: char, i: nat)
    requires i < |s| && s[i] == c && c !in s[..i]
    ensures Find(s, c) == i
  {
    hide Find;
    NotBefore(s, c, i, Find(s, c));
    NotBefore(s, c, Find(s, c), i);
  }

  lemma NotBefore(s: string, c: char, i: nat, k: nat)
    requires i <= |s| && c !in s[..i]
    ensures k < i ==> s[k] != c
  {
    if k < i { assert s[..i][k] == s[k]; }
  }

  lemma KeyValueMeaning(line: string, key: string, value: string)
    ensures KeyValue(line) == Some((key, value)) <==> Says(line, key, value)
  {
    hide TrimBy, Find, Trim;
    var i := Find(line, '=');
    if i < |line| { TrimQuotes(Trim(line[i + 1..])); }
    if Says(line, key, value) {
      var k :| 0 <= k < |line| && line[k] == '=' && '=' !in line[..k]
               && key == Trim(line[..k]) && value == TrimBy(Trim(line[k + 1..]), (c: char) => c == '"');
      FirstOnly(line, '=', k);
    }
  }

  method ParseCacheEntry(content: string) returns (r: Result<CacheEntry>)
    ensures forall e :: Describes(Lines(content), e) <==> r == Ok(e)
  {
    hide KeyValue, ParseU32, ParseU64, ParseHexU64, Lines, Trim;
    Bounds();
    var version, memoryFingerprint, defsFingerprint, kernelHint, updatedUnixSecs: Option<nat> := None, None, None, None, None;
    var lines := Lines(content);
    for i := 0 to |lines|
      invariant version == Bind(LastValue(lines[..i], VERSION), ParseU32)
      invariant memoryFingerprint == Bind(LastValue(lines[..i], MEMORY_FINGERPRINT), ParseHexU64)
      invariant defsFingerprint == Bind(LastValue(lines[..i], DEFS_FINGERPRINT), ParseHexU64)
      invariant kernelHint == Bind(LastValue(lines[..i], KERNEL_HINT), ParseHexU64)
      invariant updatedUnixSecs == Bind(LastValue(lines[..i], UPDATED), ParseU64)
    {
      assert lines[..i + 1][..i] == lines[..i];
      var kv := KeyValue(Trim(lines[i]));
      if kv.None? { continue; }
      var (key, value) := kv.value;
      if key == VERSION {
        version := ParseU32(value);
      } else if key == MEMORY_FINGERPRINT {
        memoryFingerprint := ParseHexU64(value);
      } else if key == DEFS_FINGERPRINT {
        defsFingerprint := ParseHexU64(value);
      } else if key == KERNEL_HINT {
        kernelHint := ParseHexU64(value);
      } else if key == UPDATED {
        updatedUnixSecs := ParseU64(value);
      }
    }
    assert lines[..|lines|] == lines;
    assert forall e :: Describes(lines, e) ==>
      && version == Some(e.version as nat) && memoryFingerprint == Some(e.memoryFingerprint as nat)
      && defsFingerprint == Some(e.defsFingerprint as nat) && kernelHint == Some(e.kernelHint as nat)
      && updatedUnixSecs == Some(e.updatedUnixSecs as nat);
    if version.Some? && memoryFingerprint.Some? && defsFingerprint.Some? && kernelHint.Some? && updatedUnixSecs.Some? {
      var e := CacheEntry(version.value, memoryFingerprint.value, defsFingerprint.value, kernelHint.value, updatedUnixSecs.value);
      assert Describes(lines, e);
      return Ok(e);
    }
    return Err;
  }

  /** What the number readers accept fits its type. */
  lemma Bounds()
    ensures forall s: string {:trigger ParseU32(s)} :: ParseU32(s).Some? ==> ParseU32(s).value <= 0xFFFF_FFFF
    ensures forall s: string {:trigger ParseU64(s)} :: ParseU64(s).Some? ==> ParseU64(s).value <= U64_MAX
    ensures forall s: string {:trigger ParseHexU64(s)} :: ParseHexU64(s).Some? ==> ParseHexU64(s).value <= U64_MAX
  {
  }

  // ----- the round trip -----

  predicate Bare(s: string, p: char -> bool) {
    s != "" && !p(s[0]) && !p(s[|s| - 1])
  }

  lemma {:induction false} TrimStartDrops(a: string, s: string, p: char -> bool)
    requires (forall c :: c in a ==> p(c)) && (s == "" || !p(s[0]))
    ensures TrimStart(a + s, p) == s
  {
    if a == "" {
      assert a + s == s;
    } else {
      assert (a + s)[1..] == a[1..] + s;
      TrimStartDrops(a[1..], s, p);
    }
  }

  lemma {:induction false} TrimEndDrops(s: string, b: string, p: char -> bool)
    requires (forall c :: c in b ==> p(c)) && (s == "" || !p(s[|s| - 1]))
    ensures TrimEnd(s + b, p) == s
  {
    if b == "" {
      assert s + b == s;
    } else {
      assert (s + b)[..|s + b| - 1] == s + b[..|b| - 1];
      TrimEndDrops(s, b[..|b| - 1], p);
    }
  }

  /** Trimming removes exactly what surrounds a text with bare ends. */
  lemma TrimDrops(a: string, s: string, b: string, p: char -> bool)
    requires (forall c :: c in a + b ==> p(c)) && Bare(s, p)
    ensures TrimBy(a + s + b, p) == s
  {
    forall c | c in a ensures p(c) { assert c in a + b; }
    forall c | c in b ensures p(c) { assert c in a + b; }
    assert a + s + b == a + (s + b);
    TrimStartDrops(a, s + b, p);
    TrimEndDrops(s, b, p);
  }

  lemma {:induction false} FirstAt(a: string, c: char, b: string)
    requires c !in a
    ensures Find(a + [c] + b, c) == |a|
  {
    if a != "" {
      assert (a + [c] + b)[1..] == a[1..] + [c] + b;
      FirstAt(a[1..], c, b);
    }
  }

  /** A key the writer can use: no spaces around it, no separators in it, and not the start of a comment. */
  predicate PlainKey(key: string) {
    Bare(key, IsSpace) && '=' !in key && '\n' !in key && key[0] != '#'
  }

  lemma PlainKeys()
    ensures PlainKey(VERSION) && PlainKey(MEMORY_FINGERPRINT) && PlainKey(DEFS_FINGERPRINT)
    ensures PlainKey(KERNEL_HINT) && PlainKey(UPDATED)
  {
    hide PlainKey;
    LettersArePlain(VERSION);
    LettersArePlain(MEMORY_FINGERPRINT);
    LettersArePlain(DEFS_FINGERPRINT);
    LettersArePlain(KERNEL_HINT);
    LettersArePlain(UPDATED);
  }

  lemma LettersArePlain(key: string)
    requires key != "" && forall i :: 0 <= i < |key| ==> '_' <= key[i] <= 'z'
    ensures PlainKey(key)
  {
  }

  /** A key, an equals sign and a value, spaced as the writer does it. */
  lemma KeyValueReadsBack(key: string, q: string, v: string)
    requires PlainKey(key) && Bare(v, IsSpace) && Bare(v, IsQuote) && (q == "" || q == "\"")
    ensures KeyValue(Line(key, q, v)) == Some((key, v))
  {
    hide TrimBy, Find;
    var line, value := Line(key, q, v), q + v + q;
    assert line == (key + " ") + "=" + (" " + value);
    FirstAt(key + " ", '=', " " + value);
    assert line[..|key| + 1] == key + " " && line[|key| + 2..] == " " + value;
    TrimDrops("", key, " ", IsSpace);
    assert "" + key + " " == key + " ";
    TrimDrops(" ", value, "", IsSpace);
    assert " " + value + "" == " " + value;
    TrimDrops(q, v, q, IsQuote);
  }

  lemma {:induction false} NoPrefix(s: string, prefix: string)
    requires |prefix| == 2 && (forall i :: 0 <= i < |s| ==> s[i] != prefix[1])
    ensures TrimPrefixes(s, prefix) == s
  {
    assert |s| >= 2 ==> s[1] != prefix[1];
  }

  lemma HexIsBare(digits: string)
    requires digits != "" && (forall c :: c in digits ==> IsHexDigit(c))
    ensures Bare("0x" + digits, IsSpace) && Bare("0x" + digits, IsQuote)
  {
    var s := "0x" + digits;
    assert s[|s| - 1] == digits[|digits| - 1] && digits[|digits| - 1] in digits;
  }

  lemma OneHexPrefix(digits: string)
    requires forall c :: c in digits ==> IsHexDigit(c)
    ensures TrimPrefixes(TrimPrefixes("0x" + digits, "0x"), "0X") == digits
  {
    var s := "0x" + digits;
    assert forall i :: 0 <= i < |digits| ==> digits[i] in digits;
    assert s[2..] == digits;
    NoPrefix(digits, "0x");
    NoPrefix(digits, "0X");
    assert TrimPrefixes(s, "0x") == TrimPrefixes(digits, "0x");
  }

  lemma DigitsReadBack(digits: string, n: u64)
    requires digits != "" && IsHexDigit(digits[0]) && Value(digits, 16) == Some(n as nat)
    ensures FromStrRadix(digits, 16, U64_MAX) == Some(n as nat)
  {
    hide Value;
  }

  /** Hexadecimal digits after one `0x` are read back as hexadecimal. */
  lemma HexReadsBack(digits: string, n: u64)
    requires digits != "" && (forall c :: c in digits ==> IsHexDigit(c)) && Value(digits, 16) == Some(n as nat)
    ensures ParseHexU64("0x" + digits) == Some(n as nat)
    ensures Bare("0x" + digits, IsSpace) && Bare("0x" + digits, IsQuote)
  {
    hide Trim, Value, TrimPrefixes, Bare, FromStrRadix, IsHexDigit;
    var s := "0x" + digits;
    HexIsBare(digits);
    TrimBare(s);
    OneHexPrefix(digits);
    assert digits[0] in digits;
    DigitsReadBack(digits, n);
    assert "0x" <= s;
  }

  /** Digits without a prefix are hexadecimal if there is a letter among them, and decimal otherwise. */
  lemma BareDigitsReadBack(digits: string, n: u64)
    requires digits != "" && (forall c :: c in digits ==> DigitValue(c, 16).Some?)
    requires Value(digits, if exists c :: c in digits && !('0' <= c <= '9') then 16 else 10) == Some(n as nat)
    ensures ParseHexU64(digits) == Some(n as nat)
  {
    hide Trim, Value, TrimPrefixes;
    assert digits[0] in digits && digits[|digits| - 1] in digits;
    assert forall i :: 0 <= i < |digits| ==> digits[i] in digits;
    TrimBare(digits);
    NoPrefix(digits, "0x");
    NoPrefix(digits, "0X");
    if c :| c in digits && !('0' <= c <= '9') {
      var i :| 0 <= i < |digits| && digits[i] == c;
      assert IsHexLetter(digits[i]);
    }
  }

  /** An upper-case prefix means hexadecimal as well. */
  lemma UpperPrefixReadsBack(digits: string, n: u64)
    requires digits != "" && (forall c :: c in digits ==> DigitValue(c, 16).Some?) && Value(digits, 16) == Some(n as nat)
    ensures ParseHexU64("0X" + digits) == Some(n as nat)
  {
    hide Trim, Value;
    var s := "0X" + digits;
    assert digits[0] in digits && s[|s| - 1] == digits[|digits| - 1] && digits[|digits| - 1] in digits;
    assert forall i :: 0 <= i < |digits| ==> digits[i] in digits;
    TrimBare(s);
    NoPrefix(s, "0x");
    NoPrefix(digits, "0X");
    assert s[2..] == digits;
  }

  /** Decimal digits without a prefix are read back as decimal. */
  lemma PlainDecimalReadsBack(n: u64)
    ensures ParseHexU64(Decimal(n)) == Some(n as nat)
  {
    hide TrimBy, Value, Render;
    var s := Decimal(n);
    RenderReadsBack(n, 10);
    DecimalReadsBack(n);
    TrimBare(s);
    assert forall i :: 0 <= i < |s| ==> s[i] in s;
    NoPrefix(s, "0x");
    NoPrefix(s, "0X");
  }

  lemma PlainHexReadsBack(n: u64)
    ensures ParseHexU64("0x" + Hex(n)) == Some(n as nat) && Bare("0x" + Hex(n), IsSpace) && Bare("0x" + Hex(n), IsQuote)
  {
    RenderReadsBack(n, 16);
    HexReadsBack(Hex(n), n);
  }

  lemma PaddedHexReadsBack(n: u64)
    ensures ParseHexU64(Padded(n)) == Some(n as nat) && Bare(Padded(n), IsSpace) && Bare(Padded(n), IsQuote)
  {
    RenderReadsBack(n, 16);
    PaddedReadsBack(Hex(n), 16, 16);
    HexReadsBack(PadZeros(Hex(n), 16), n);
  }

  lemma DecimalReadsBack(n: u64)
    ensures ParseU64(Decimal(n)) == Some(n as nat) && (n < 0x1_0000_0000 ==> ParseU32(Decimal(n)) == Some(n as nat))
    ensures Bare(Decimal(n), IsSpace) && Bare(Decimal(n), IsQuote)
  {
    RenderReadsBack(n, 10);
    var s := Decimal(n);
    assert s[0] in s && s[|s| - 1] in s;
  }

  /** What each written line says. */
  lemma FormattedLines(e: CacheEntry)
    ensures KeyValue(FormatLines(e)[0]) == Some((VERSION, Decimal(e.version)))
    ensures KeyValue(FormatLines(e)[1]) == Some((MEMORY_FINGERPRINT, Padded(e.memoryFingerprint)))
    ensures KeyValue(FormatLines(e)[2]) == Some((DEFS_FINGERPRINT, Padded(e.defsFingerprint)))
    ensures KeyValue(FormatLines(e)[3]) == Some((KERNEL_HINT, "0x" + Hex(e.kernelHint)))
    ensures KeyValue(FormatLines(e)[4]) == Some((UPDATED, Decimal(e.updatedUnixSecs)))
  {
    hide KeyValue, Line, PlainKey, Bare, Decimal, Hex, Padded;
    PlainKeys();
    DecimalReadsBack(e.version);
    PaddedHexReadsBack(e.memoryFingerprint);
    PaddedHexReadsBack(e.defsFingerprint);
    PlainHexReadsBack(e.kernelHint);
    DecimalReadsBack(e.updatedUnixSecs);
    KeyValueReadsBack(VERSION, "", Decimal(e.version));
    KeyValueReadsBack(MEMORY_FINGERPRINT, "\"", Padded(e.memoryFingerprint));
    KeyValueReadsBack(DEFS_FINGERPRINT, "\"", Padded(e.defsFingerprint));
    KeyValueReadsBack(KERNEL_HINT, "\"", "0x" + Hex(e.kernelHint));
    KeyValueReadsBack(UPDATED, "", Decimal(e.updatedUnixSecs));
  }

  /** A line the parser passes over: blank, a comment, without an equals sign, or with an unknown key. */
  ghost predicate Ignorable(line: string) {
    forall key, value :: Says(Trim(line), key, value) ==>
      key !in {"version", "memory_fingerprint", "defs_fingerprint", "kernel_hint", "updated_unix_secs"}
  }

  /** Blank lines, comments and lines without an equals sign are ignorable. */
  lemma IgnorableLines(line: string)
    ensures Trim(line) == "" || Trim(line)[0] == '#' || '=' !in Trim(line) ==> Ignorable(line)
  {
  }

  /** Each of the entry's lines occurs, any number of times and in any order, and every other line is ignorable. */
  ghost predicate Holds(lines: seq<string>, e: CacheEntry) {
    && (forall l :: l in lines ==> Ignorable(l) || Trim(l) in FormatLines(e))
    && (forall k :: 0 <= k < 5 ==> exists l :: l in lines && Trim(l) == FormatLines(e)[k])
  }

  lemma {:induction false} OnlyValue(lines: seq<string>, key: string, v: string, at: string)
    requires at in lines && KeyValue(Trim(at)).Some? && KeyValue(Trim(at)).value.0 == key
    requires forall l :: l in lines && KeyValue(Trim(l)).Some? && KeyValue(Trim(l)).value.0 == key ==>
               KeyValue(Trim(l)).value.1 == v
    ensures LastValue(lines, key) == Some(v)
  {
    hide KeyValue, Trim;
    var kv := KeyValue(Trim(lines[|lines| - 1]));
    if !(kv.Some? && kv.value.0 == key) {
      OnlyValue(lines[..|lines| - 1], key, v, at);
    }
  }

  /** The last value of a key is what the entry's line for it says. */
  lemma FormattedValue(lines: seq<string>, e: CacheEntry, k: nat)
    requires Holds(lines, e) && k < 5
    ensures KeyValue(FormatLines(e)[k]).Some?
    ensures LastValue(lines, KeyValue(FormatLines(e)[k]).value.0) == Some(KeyValue(FormatLines(e)[k]).value.1)
  {
    hide KeyValue, Trim, FormatLines, LastValue, Says;
    FormattedLines(e);
    FiveLines(e);
    var (key, v) := KeyValue(FormatLines(e)[k]).value;
    var at :| at in lines && Trim(at) == FormatLines(e)[k];
    forall l | l in lines && KeyValue(Trim(l)).Some? && KeyValue(Trim(l)).value.0 == key
      ensures KeyValue(Trim(l)).value.1 == v
    {
      KeyValueMeaning(Trim(l), key, KeyValue(Trim(l)).value.1);
      var j :| 0 <= j < 5 && Trim(l) == FormatLines(e)[j];
    }
    OnlyValue(lines, key, v, at);
  }

  lemma FiveLines(e: CacheEntry)
    ensures |FormatLines(e)| == 5
  {
  }

  /** Wherever an entry's lines stand among ignorable ones, the text describes that entry and no other. */
  lemma EntryReadsBack(lines: seq<string>, e: CacheEntry)
    requires Holds(lines, e)
    ensures forall other :: Describes(lines, other) <==> other == e
  {
    hide KeyValue, FormatLines, LastValue, Holds, ParseU32, ParseU64, ParseHexU64, Padded, Render;
    FormattedLines(e);
    FormattedValue(lines, e, 0);
    FormattedValue(lines, e, 1);
    FormattedValue(lines, e, 2);
    FormattedValue(lines, e, 3);
    FormattedValue(lines, e, 4);
    DecimalReadsBack(e.version);
    PaddedHexReadsBack(e.memoryFingerprint);
    PaddedHexReadsBack(e.defsFingerprint);
    PlainHexReadsBack(e.kernelHint);
    DecimalReadsBack(e.updatedUnixSecs);
  }

  lemma FirstLine(line: string, rest: string)
    requires '\n' !in line && StripCarriageReturn(line) == line
    ensures Lines(line + "\n" + rest) == [line] + Lines(rest)
  {
    hide Find, StripCarriageReturn;
    var s := line + "\n" + rest;
    FirstAt(line, '\n', rest);
    assert s == line + ['\n'] + rest;
    assert s[..|line|] == line && s[|line| + 1..] == rest;
  }

  /** Splitting what was joined gives the lines back. */
  lemma {:induction false} LinesOfUnlines(lines: seq<string>)
    requires forall l :: l in lines ==> '\n' !in l && StripCarriageReturn(l) == l
    ensures Lines(Unlines(lines)) == lines
  {
    if lines != [] {
      FirstLine(lines[0], Unlines(lines[1..]));
      LinesOfUnlines(lines[1..]);
    }
  }

  lemma {:induction false} TrimBare(s: string)
    requires Bare(s, IsSpace)
    ensures Trim(s) == s
  {
    TrimDrops("", s, "", IsSpace);
    assert "" + s + "" == s;
  }

  /** A line of text that trimming leaves alone. */
  predicate IsLine(l: string) {
    '\n' !in l && StripCarriageReturn(l) == l && Trim(l) == l
  }

  lemma OneLine(key: string, q: string, v: string)
    requires PlainKey(key) && '\n' !in v && Bare(v, IsSpace) && (q == "" || q == "\"")
    ensures IsLine(Line(key, q, v))
  {
    var l := Line(key, q, v);
    assert l[0] == key[0];
    assert q == "" ==> l[|l| - 1] == v[|v| - 1];
    TrimBare(l);
  }

  /** Numbers are written without spaces, quotes or newlines. */
  lemma NumbersAreWords(n: u64)
    ensures '\n' !in Decimal(n) && '\n' !in "0x" + Hex(n) && '\n' !in Padded(n)
  {
    RenderReadsBack(n, 10);
    RenderReadsBack(n, 16);
    PaddedReadsBack(Hex(n), 16, 16);
  }

  lemma WrittenLines(e: CacheEntry)
    ensures forall l :: l in FormatLines(e) ==> IsLine(l)
  {
    hide Line, PlainKey, IsLine, Bare, Decimal, Hex, Padded;
    PlainKeys();
    NumbersAreWords(e.version);
    NumbersAreWords(e.memoryFingerprint);
    NumbersAreWords(e.defsFingerprint);
    NumbersAreWords(e.kernelHint);
    NumbersAreWords(e.updatedUnixSecs);
    DecimalReadsBack(e.version);
    PaddedHexReadsBack(e.memoryFingerprint);
    PaddedHexReadsBack(e.defsFingerprint);
    PlainHexReadsBack(e.kernelHint);
    DecimalReadsBack(e.updatedUnixSecs);
    OneLine(VERSION, "", Decimal(e.version));
    OneLine(MEMORY_FINGERPRINT, "\"", Padded(e.memoryFingerprint));
    OneLine(DEFS_FINGERPRINT, "\"", Padded(e.defsFingerprint));
    OneLine(KERNEL_HINT, "\"", "0x" + Hex(e.kernelHint));
    OneLine(UPDATED, "", Decimal(e.updatedUnixSecs));
  }

  /** A formatted entry holds its own lines. */
  lemma FormattedHolds(e: CacheEntry)
    ensures Lines(FormatCacheEntry(e)) == FormatLines(e) && Holds(Lines(FormatCacheEntry(e)), e)
  {
    hide Lines, FormatLines, Trim, StripCarriageReturn;
    WrittenLines(e);
    FiveLines(e);
    LinesOfUnlines(FormatLines(e));
    assert forall k :: 0 <= k < 5 ==> FormatLines(e)[k] in FormatLines(e) && Trim(FormatLines(e)[k]) == FormatLines(e)[k];
  }

  /** The text of each line. */
  lemma FormatText(e: CacheEntry)
    ensures FormatLines(e)[0] == "version = " + Decimal(e.version)
    ensures FormatLines(e)[1] == "memory_fingerprint = \"0x" + PadZeros(Hex(e.memoryFingerprint), 16) + "\""
    ensures FormatLines(e)[2] == "defs_fingerprint = \"0x" + PadZeros(Hex(e.defsFingerprint), 16) + "\""
    ensures FormatLines(e)[3] == "kernel_hint = \"0x" + Hex(e.kernelHint) + "\""
    ensures FormatLines(e)[4] == "updated_unix_secs = " + Decimal(e.updatedUnixSecs)
  {
    hide Decimal, Hex, PadZeros;
    PlainLine("version", Decimal(e.version));
    PlainLine("updated_unix_secs", Decimal(e.updatedUnixSecs));
    QuotedLine("memory_fingerprint", PadZeros(Hex(e.memoryFingerprint), 16));
    QuotedLine("defs_fingerprint", PadZeros(Hex(e.defsFingerprint), 16));
    QuotedLine("kernel_hint", Hex(e.kernelHint));
    assert "version" + " = " == "version = " && "updated_unix_secs" + " = " == "updated_unix_secs = ";
    assert "memory_fingerprint" + " = \"0x" == "memory_fingerprint = \"0x";
    assert "defs_fingerprint" + " = \"0x" == "defs_fingerprint = \"0x";
    assert "kernel_hint" + " = \"0x" == "kernel_hint = \"0x";
  }

  lemma PlainLine(key: string, v: string)
    ensures Line(key, "", v) == key + " = " + v
  {
  }

  lemma QuotedLine(key: string, v: string)
    ensures Line(key, "\"", "0x" + v) == key + " = \"0x" + v + "\""
  {
    assert " = \"0x" == " = " + "\"" + "0x";
    assert key + " = " + "\"" + ("0x" + v) + "\"" == key + (" = " + "\"" + "0x") + v + "\"";
  }

  lemma UnlinesFive(l: seq<string>)
    requires |l| == 5
    ensures Unlines(l) == l[0] + "\n" + (l[1] + "\n" + (l[2] + "\n" + (l[3] + "\n" + (l[4] + "\n" + ""))))
  {
    assert Unlines(l[5..]) == "";
    assert l[4..][1..] == l[5..] && Unlines(l[4..]) == l[4] + "\n" + "";
    assert l[3..][1..] == l[4..] && Unlines(l[3..]) == l[3] + "\n" + Unlines(l[4..]);
    assert l[2..][1..] == l[3..] && Unlines(l[2..]) == l[2] + "\n" + Unlines(l[3..]);
    assert l[1..][1..] == l[2..] && Unlines(l[1..]) == l[1] + "\n" + Unlines(l[2..]);
  }

  /** One file, letter by letter, and the entry it holds. */
  method ExampleFile() returns (text: string, r: Result<CacheEntry>)
    ensures text == "version = 1" + "\n" + ("memory_fingerprint = \"0x000000000000002b\"" + "\n"
                    + ("defs_fingerprint = \"0x00000000000000f0\"" + "\n" + ("kernel_hint = \"0x1000\"" + "\n"
                    + ("updated_unix_secs = 42" + "\n" + ""))))
    ensures r == Ok(CacheEntry(1, 0x2b, 0xf0, 0x1000, 42))
    ensures text == FormatCacheEntry(CacheEntry(1, 0x2b, 0xf0, 0x1000, 42))
  {
    hide FormatLines, Unlines, Lines, Holds;
    var e := CacheEntry(1, 0x2b, 0xf0, 0x1000, 42);
    text := FormatCacheEntry(e);
    ExampleLines();
    FiveLines(e);
    UnlinesFive(FormatLines(e));
    FormattedHolds(e);
    EntryReadsBack(FormatLines(e), e);
    r := ParseCacheEntry(text);
  }

  lemma ExampleLines()
    ensures var l := FormatLines(CacheEntry(1, 0x2b, 0xf0, 0x1000, 42));
            && l[0] == "version = 1" && l[1] == "memory_fingerprint = \"0x000000000000002b\""
            && l[2] == "defs_fingerprint = \"0x00000000000000f0\"" && l[3] == "kernel_hint = \"0x1000\""
            && l[4] == "updated_unix_secs = 42"
  {
    hide PadZeros, Render;
    FormatText(CacheEntry(1, 0x2b, 0xf0, 0x1000, 42));
    ExampleNumbers();
  }

  lemma ExampleNumbers()
    ensures Decimal(1) == "1" && Decimal(42) == "42" && Hex(0x1000) == "1000"
    ensures PadZeros(Hex(0x2b), 16) == "000000000000002b" && PadZeros(Hex(0xf0), 16) == "00000000000000f0"
  {
    assert Render(4, 10) == "4" && Render(42, 10) == "42";
    assert Render(2, 16) == "2" && Render(0x2b, 16) == "2b";
    assert Render(15, 16) == "f" && Render(0xf0, 16) == "f0";
    assert Render(1, 16) == "1" && Render(0x10, 16) == "10" && Render(0x100, 16) == "100" && Render(0x1000, 16) == "1000";
    PaddedTo("2b", "000000000000002b", 16);
    PaddedTo("f0", "00000000000000f0", 16);
  }

  lemma PaddedTo(s: string, p: string, width: nat)
    requires |s| <= |p| == width && p[|p| - |s|..] == s && forall i :: 0 <= i < |p| - |s| ==> p[i] == '0'
    ensures PadZeros(s, width) == p
  {
    PadZerosMeaning(s, width);
    var q := PadZeros(s, width);
    forall i | 0 <= i < |p| ensures q[i] == p[i] {
      if i >= |p| - |s| { assert q[i] == q[|q| - |s|..][i - (|q| - |s|)] && p[i] == p[|p| - |s|..][i - (|p| - |s|)]; }
    }
  }

  /** Parsing a formatted entry gives it back. */
  method RoundTrip(e: CacheEntry) returns (r: Result<CacheEntry>)
    ensures r == Ok(e)
  {
    FormattedHolds(e);
    EntryReadsBack(FormatLines(e), e);
    r := ParseCacheEntry(FormatCacheEntry(e));
  }
}
