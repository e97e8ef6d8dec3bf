/** Numbers as text: what Rust's formatting writes and what its number parsing reads. */
module Text {
  import opened Wrappers

  predicate IsSpace(c: char) {
    '\t' <= c <= '\r' || c == ' '
  }

  function TrimStart(s: string, p: char -> bool): string {
    if s != "" && p(s[0]) then TrimStart(s[1..], p) else s
  }

  function TrimEnd(s: string, p: char -> bool): string {
    if s != "" && p(s[|s| - 1]) then TrimEnd(s[..|s| - 1], p) else s
  }

  function TrimBy(s: string, p: char -> bool): string {
    TrimEnd(TrimStart(s, p), p)
  }

  function Trim(s: string): string {
    TrimBy(s, IsSpace)
  }

  function Digit(d: nat): char
    requires d < 16
  {
    "0123456789abcdef"[d]
  }

  function DigitValue(c: char, radix: nat): Option<nat> {
    var d := if '0' <= c <= '9' then c as int - '0' as int
             else if 'a' <= c <= 'z' then c as int - 'a' as int + 10
             else if 'A' <= c <= 'Z' then c as int - 'A' as int + 10
             else 36;
    if d < radix then Some(d) else None
  }

  function Render(n: nat, radix: nat): string
    requires 2 <= radix <= 16
    decreases n
  {
    if n < radix then [Digit(n)] else Render(n / radix, radix) + [Digit(n % radix)]
  }

  function Decimal(n: nat): string {
    Render(n, 10)
  }

  function Hex(n: nat): string {
    Render(n, 16)
  }

  function PadZeros(s: string, width: nat): string
    decreases if |s| < width then width - |s| else 0
  {
    if |s| >= width then s else PadZeros("0" + s, width)
  }

  function Value(s: string, radix: nat): Option<nat> {
    if s == "" then Some(0)
    else
      var front, d := Value(s[..|s| - 1], radix), DigitValue(s[|s| - 1], radix);
      if front.None? || d.None? then None else Some(front.value * radix + d.value)
  }

  /** Rust's `from_str_radix` for an unsigned type: an optional plus sign, at least one digit, and no overflow. */
  function FromStrRadix(s: string, radix: nat, max: nat): Option<nat> {
    var digits := if s != "" && s[0] == '+' then s[1..] else s;
    var value := Value(digits, radix);
    if digits == "" || value.None? || value.value > max then None else value
  }

  predicate IsHexDigit(c: char) {
    '0' <= c <= '9' || 'a' <= c <= 'f'
  }

  predicate IsDecimalDigit(c: char) {
    '0' <= c <= '9'
  }

  /** The characters that count as white space, by code. */
  lemma SpaceMeaning(c: char)
    ensures IsSpace(c) <==> c as int in {9, 10, 11, 12, 13, 32}
  {
  }

  /** A character is a digit of either case, up to the radix. */
  lemma DigitMeaning(c: char, radix: nat, d: nat)
    requires radix <= 16
    ensures DigitValue(c, radix) == Some(d) <==> d < radix && (c == "0123456789abcdef"[d] || c == "0123456789ABCDEF"[d])
  {
  }

  /** What trimming takes away is white space, and what it leaves has none at its ends. */
  lemma {:induction false} TrimStartMeaning(s: string, p: char -> bool) returns (a: string)
    ensures s == a + TrimStart(s, p) && (forall c :: c in a ==> p(c))
    ensures TrimStart(s, p) != "" ==> !p(TrimStart(s, p)[0])
  {
    a := "";
    if s != "" && p(s[0]) {
      var rest := TrimStartMeaning(s[1..], p);
      a := [s[0]] + rest;
    }
  }

  lemma {:induction false} TrimEndMeaning(s: string, p: char -> bool) returns (b: string)
    ensures s == TrimEnd(s, p) + b && (forall c :: c in b ==> p(c))
    ensures TrimEnd(s, p) != "" ==> !p(TrimEnd(s, p)[|TrimEnd(s, p)| - 1])
  {
    b := "";
    if s != "" && p(s[|s| - 1]) {
      var rest := TrimEndMeaning(s[..|s| - 1], p);
      b := rest + [s[|s| - 1]];
    }
  }

  lemma TrimMeaning(s: string, p: char -> bool) returns (a: string, b: string)
    ensures s == a + TrimBy(s, p) + b && (forall c :: c in a || c in b ==> p(c))
    ensures TrimBy(s, p) != "" ==> !p(TrimBy(s, p)[0]) && !p(TrimBy(s, p)[|TrimBy(s, p)| - 1])
  {
    a := TrimStartMeaning(s, p);
    b := TrimEndMeaning(TrimStart(s, p), p);
    assert a + (TrimBy(s, p) + b) == a + TrimBy(s, p) + b;
  }

  /** A text has a value exactly when all its characters are digits. */
  lemma {:induction false} ValueIff(s: string, radix: nat)
    ensures Value(s, radix).Some? <==> forall c :: c in s ==> DigitValue(c, radix).Some?
  {
    hide DigitValue;
    if s != "" {
      ValueIff(s[..|s| - 1], radix);
      assert s == s[..|s| - 1] + [s[|s| - 1]];
    }
  }

  /** A number is read from at least one digit, with or without a plus sign, if it is not too large. */
  lemma FromStrRadixMeaning(s: string, radix: nat, max: nat, n: nat)
    requires radix <= 16
    ensures FromStrRadix(s, radix, max) == Some(n) <==>
            n <= max && exists digits :: IsDigitsOf(s, digits) && Value(digits, radix) == Some(n)
  {
    hide Value, DigitValue;
    var digits := if s != "" && s[0] == '+' then s[1..] else s;
    if FromStrRadix(s, radix, max) == Some(n) {
      assert s != digits ==> s == "+" + digits;
      assert IsDigitsOf(s, digits);
    }
    if other :| IsDigitsOf(s, other) && Value(other, radix) == Some(n) {
      ValueIff(other, radix);
      PlusIsNoDigit(radix);
      assert other[0] in other;
      assert s == "+" + other ==> s[1..] == other;
    }
  }

  lemma PlusIsNoDigit(radix: nat)
    requires radix <= 16
    ensures DigitValue('+', radix).None?
  {
  }

  ghost predicate IsDigitsOf(s: string, digits: string) {
    digits != "" && (s == digits || s == "+" + digits)
  }

  /** No zero stands in front of a written number. */
  lemma {:induction false} RenderIsShort(n: nat, radix: nat)
    requires 2 <= radix <= 16
    ensures Render(n, radix) != "" && (n > 0 ==> Render(n, radix)[0] != '0')
    decreases n
  {
    DivMod(n, radix);
    if n >= radix { RenderIsShort(n / radix, radix); }
  }

  /** Padding fills up with zeros, and only as far as needed. */
  lemma {:induction false} PadZerosMeaning(s: string, width: nat)
    ensures |PadZeros(s, width)| == if |s| < width then width else |s|
    ensures forall i :: 0 <= i < |PadZeros(s, width)| - |s| ==> PadZeros(s, width)[i] == '0'
    ensures |PadZeros(s, width)| >= |s| && PadZeros(s, width)[|PadZeros(s, width)| - |s|..] == s
    decreases if |s| < width then width - |s| else 0
  {
    if |s| < width {
      PadZerosMeaning("0" + s, width);
      var p := PadZeros(s, width);
      assert p[|p| - |s| - 1..] == "0" + s;
      assert p[|p| - |s| - 1] == ("0" + s)[0];
      assert p[|p| - |s|..] == (p[|p| - |s| - 1..])[1..] == s;
    }
  }

  lemma DigitReadsBack(d: nat, radix: nat)
    requires d < radix <= 16
    ensures DigitValue(Digit(d), radix) == Some(d)
    ensures IsHexDigit(Digit(d)) && (radix <= 10 ==> IsDecimalDigit(Digit(d)))
  {
  }

  lemma ValueAppend(front: string, c: char, radix: nat, v: nat, d: nat)
    requires Value(front, radix) == Some(v) && DigitValue(c, radix) == Some(d)
    ensures Value(front + [c], radix) == Some(v * radix + d)
  {
    hide DigitValue;
    assert (front + [c])[..|front|] == front;
  }

  lemma DivMod(n: nat, radix: nat)
    requires radix >= 2
    ensures n / radix * radix + n % radix == n && n / radix >= 0 && 0 <= n % radix < radix
    ensures n >= radix ==> n / radix < n
  {
  }

  /** Reading back what was written; only digits are written, and at least one. */
  lemma {:induction false} RenderReadsBack(n: nat, radix: nat)
    requires 2 <= radix <= 16
    ensures Value(Render(n, radix), radix) == Some(n) && Render(n, radix) != ""
    ensures forall c :: c in Render(n, radix) ==> IsHexDigit(c) && (radix <= 10 ==> IsDecimalDigit(c))
    decreases n
  {
    hide Value, DigitValue, Digit, IsHexDigit, IsDecimalDigit;
    DivMod(n, radix);
    if n < radix {
      DigitReadsBack(n, radix);
      NoDigits(radix);
      ValueAppend("", Digit(n), radix, 0, n);
      assert "" + [Digit(n)] == [Digit(n)];
    } else {
      DigitReadsBack(n % radix, radix);
      RenderReadsBack(n / radix, radix);
      ValueAppend(Render(n / radix, radix), Digit(n % radix), radix, n / radix, n % radix);
    }
  }

  lemma NoDigits(radix: nat)
    ensures Value("", radix) == Some(0)
  {
  }

  lemma {:induction false} LeadingZero(s: string, radix: nat)
    requires radix >= 2
    ensures Value("0" + s, radix) == Value(s, radix)
  {
    if s == "" {
      assert "0" + s == "0" && "0"[..0] == "";
    } else {
      LeadingZero(s[..|s| - 1], radix);
      assert ("0" + s)[..|s|] == "0" + s[..|s| - 1];
    }
  }

  lemma {:induction false} PaddedReadsBack(s: string, width: nat, radix: nat)
    requires radix >= 2 && forall c :: c in s ==> IsHexDigit(c)
    ensures Value(PadZeros(s, width), radix) == Value(s, radix) && |PadZeros(s, width)| >= |s|
    ensures forall c :: c in PadZeros(s, width) ==> IsHexDigit(c)
    decreases if |s| < width then width - |s| else 0
  {
    if |s| < width {
      LeadingZero(s, radix);
      PaddedReadsBack("0" + s, width, radix);
    }
  }

  /** Different numbers are written differently. */
  lemma DecimalInjective(a: nat, b: nat)
    requires Decimal(a) == Decimal(b)
    ensures a == b
  {
    RenderReadsBack(a, 10);
    RenderReadsBack(b, 10);
  }

  /** The text after the last underscore. */
  function AfterUnderscore(s: string): string {
    if s == "" || s[|s| - 1] == '_' then "" else AfterUnderscore(s[..|s| - 1]) + [s[|s| - 1]]
  }

  lemma {:induction false} AfterUnderscoreIs(p: string, d: string)
    requires '_' !in d
    ensures AfterUnderscore(p + "_" + d) == d
  {
    var s := p + "_" + d;
    if d == "" {
      assert s[|s| - 1] == '_';
    } else {
      var front := d[..|d| - 1];
      assert s[..|s| - 1] == p + "_" + front && s[|s| - 1] == d[|d| - 1];
      AfterUnderscoreIs(p, front);
      assert d == front + [d[|d| - 1]];
    }
  }

  /** A decimal suffix after an underscore can be read off a text, because digits hold no underscore. */
  lemma SuffixDetermined(p: string, a: nat, q: string, b: nat)
    requires p + "_" + Decimal(a) == q + "_" + Decimal(b)
    ensures a == b
  {
    RenderReadsBack(a, 10);
    RenderReadsBack(b, 10);
    AfterUnderscoreIs(p, Decimal(a));
    AfterUnderscoreIs(q, Decimal(b));
    DecimalInjective(a, b);
  }
}
