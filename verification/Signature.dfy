/** Masked byte signatures written as text (sig.rs). */
module Signature {
  import opened Wrappers
  import opened Bits
  import opened Memory
  import opened Text

  /** `derefPos` lists the positions whose tokens are starred. */
  datatype Signature = Signature(bytes: seq<byte>, mask: seq<byte>, derefPos: seq<nat>)

  // ----- tokens -----

  predicate IsStar(c: char) {
    c == '*'
  }

  function WordEnd(s: string): (n: nat)
    ensures n <= |s|
  {
    if s == "" || IsSpace(s[0]) then 0 else 1 + WordEnd(s[1..])
  }

  function SplitWhitespace(s: string): seq<string>
    decreases |s|
  {
    if s == "" then []
    else if IsSpace(s[0]) then SplitWhitespace(s[1..])
    else [s[..WordEnd(s)]] + SplitWhitespace(s[WordEnd(s)..])
  }

  /** White space, a word, white space, and so on; `gaps` are the stretches of white space. */
  function Interleave(gaps: seq<string>, words: seq<string>): string
    requires |gaps| == |words| + 1
  {
    if words == [] then gaps[0] else gaps[0] + words[0] + Interleave(gaps[1..], words[1..])
  }

  predicate IsBlank(s: string) {
    forall i :: 0 <= i < |s| ==> IsSpace(s[i])
  }

  /** Every stretch is white space, and between two words there is some. */
  predicate AreGaps(gaps: seq<string>) {
    && (forall g :: g in gaps ==> IsBlank(g))
    && forall i :: 0 < i < |gaps| - 1 ==> gaps[i] != ""
  }

  predicate IsWord(s: string) {
    s != "" && forall i :: 0 <= i < |s| ==> !IsSpace(s[i])
  }

  lemma {:induction false} WordEndsAtSpace(word: string, rest: string)
    requires (forall i :: 0 <= i < |word| ==> !IsSpace(word[i])) && (rest == "" || IsSpace(rest[0]))
    ensures WordEnd(word + rest) == |word|
  {
    if word == "" {
      assert word + rest == rest;
    } else {
      assert (word + rest)[1..] == word[1..] + rest;
      WordEndsAtSpace(word[1..], rest);
    }
  }

  lemma {:induction false} BlankStart(gap: string, rest: string)
    requires IsBlank(gap)
    ensures SplitWhitespace(gap + rest) == SplitWhitespace(rest)
  {
    if gap == "" {
      assert gap + rest == rest;
    } else {
      assert (gap + rest)[1..] == gap[1..] + rest;
      BlankStart(gap[1..], rest);
    }
  }

  lemma OneWord(word: string, rest: string)
    requires IsWord(word) && (rest == "" || IsSpace(rest[0]))
    ensures SplitWhitespace(word + rest) == [word] + SplitWhitespace(rest)
  {
    hide IsSpace;
    WordEndsAtSpace(word, rest);
    var all := word + rest;
    assert all[0] == word[0] && all[..|word|] == word && all[|word|..] == rest;
  }

  /** Splitting a text gives the words that white space separates in it. */
  lemma {:induction false} SplitInvertsJoin(gaps: seq<string>, words: seq<string>)
    requires |gaps| == |words| + 1 && AreGaps(gaps) && forall w :: w in words ==> IsWord(w)
    ensures SplitWhitespace(Interleave(gaps, words)) == words
    decreases |words|
  {
    hide IsWord, IsBlank;
    if words == [] {
      assert gaps[0] in gaps && gaps[0] + "" == gaps[0];
      BlankStart(gaps[0], "");
      assert SplitWhitespace("") == [];
    } else {
      var rest := Interleave(gaps[1..], words[1..]);
      assert gaps[0] in gaps && gaps[1] in gaps && words[0] in words;
      assert gaps[0] + words[0] + rest == gaps[0] + (words[0] + rest);
      BlankStart(gaps[0], words[0] + rest);
      RestStarts(gaps, words, rest);
      OneWord(words[0], rest);
      SplitInvertsJoin(gaps[1..], words[1..]);
      assert [words[0]] + words[1..] == words;
    }
  }

  /** After a word the text ends or goes on with white space. */
  lemma RestStarts(gaps: seq<string>, words: seq<string>, rest: string)
    requires |gaps| == |words| + 1 && words != [] && AreGaps(gaps) && rest == Interleave(gaps[1..], words[1..])
    ensures rest == "" || IsSpace(rest[0])
  {
    assert gaps[1] in gaps;
    if gaps[1] != "" {
      assert rest[0] == gaps[1][0];
    } else {
      assert |words| == 1;
    }
  }

  function Unstarred(token: string): string {
    TrimStart(token, IsStar)
  }

  /** What is left of a token once the stars in front of it are gone. */
  lemma UnstarredMeaning(token: string) returns (stars: string)
    ensures token == stars + Unstarred(token) && (forall c :: c in stars ==> c == '*')
    ensures Unstarred(token) != "" ==> Unstarred(token)[0] != '*'
  {
    stars := TrimStartMeaning(token, IsStar);
  }

  predicate IsStarred(token: string) {
    token != "" && token[0] == '*'
  }

  function ZeroWildcards(s: string): (r: string)
    ensures |r| == |s|
  {
    if s == "" then "" else [if s[0] == '?' then '0' else s[0]] + ZeroWildcards(s[1..])
  }

  /** The value of a token; a token that is not a byte counts as zero. */
  function TokenByte(token: string): byte {
    FromStrRadix(ZeroWildcards(Unstarred(token)), 16, 255).GetOr(0)
  }

  function TokenMask(token: string): byte {
    var t := Unstarred(token);
    if t == "?" || t == "??" then 0
    else if |t| == 2 && t[0] == '?' then 0x0f
    else if |t| == 2 && t[1] == '?' then 0xf0
    else 0xff
  }

  function Bytes(tokens: seq<string>): seq<byte> {
    seq(|tokens|, i requires 0 <= i < |tokens| => TokenByte(tokens[i]))
  }

  function Masks(tokens: seq<string>): seq<byte> {
    seq(|tokens|, i requires 0 <= i < |tokens| => TokenMask(tokens[i]))
  }

  /** The positions of the starred tokens, counted from `off`. */
  function Stars(tokens: seq<string>, off: nat): seq<nat> {
    if tokens == [] then []
    else Stars(tokens[..|tokens| - 1], off) + if IsStarred(tokens[|tokens| - 1]) then [off + |tokens| - 1] else []
  }

  ghost predicate HasStar(token: string) {
    exists rest :: token == "*" + rest
  }

  lemma StarMeaning(token: string)
    ensures IsStarred(token) <==> HasStar(token)
  {
    if IsStarred(token) { assert token == "*" + token[1..]; }
  }

  /** Exactly the starred positions, in order. */
  ghost predicate AreStars(r: seq<nat>, tokens: seq<string>, off: nat) {
    && (forall p: nat :: p in r <==> off <= p < off + |tokens| && HasStar(tokens[p - off]))
    && (forall j, k :: 0 <= j < k < |r| ==> r[j] < r[k])
  }

  lemma StarsMore(r: seq<nat>, front: seq<string>, token: string, off: nat)
    requires AreStars(r, front, off)
    ensures AreStars(r + (if HasStar(token) then [off + |front|] else []), front + [token], off)
  {
    hide HasStar;
    var all, next := front + [token], r + (if HasStar(token) then [off + |front|] else []);
    forall j | 0 <= j < |r| ensures r[j] < off + |front| { assert r[j] in r; }
    forall p: nat ensures p in next <==> off <= p < off + |all| && HasStar(all[p - off]) {
      assert p in r <==> off <= p < off + |front| && HasStar(front[p - off]);
      assert all[|front|] == token;
    }
  }

  lemma {:induction false} StarsAre(tokens: seq<string>, off: nat)
    ensures AreStars(Stars(tokens, off), tokens, off)
  {
    hide IsStarred, HasStar, AreStars;
    if tokens == [] {
      NoStarsFrom(off);
    } else {
      var front, last := tokens[..|tokens| - 1], tokens[|tokens| - 1];
      StarMeaning(last);
      StarsAre(front, off);
      StarsMore(Stars(front, off), front, last, off);
      assert front + [last] == tokens;
    }
  }

  lemma NoStarsFrom(off: nat)
    ensures AreStars([], [], off)
  {
  }

  lemma StarsAppend(r: seq<nat>, front: seq<string>, tokens: seq<string>)
    requires AreStars(r, front, 0)
    ensures AreStars(r + Stars(tokens, |front|), front + tokens, 0)
  {
    hide HasStar, Stars;
    StarsAre(tokens, |front|);
    var more, all := Stars(tokens, |front|), front + tokens;
    forall j, k | 0 <= j < |r| && 0 <= k < |more| ensures r[j] < more[k] { assert r[j] in r && more[k] in more; }
    forall p: nat ensures p in r + more <==> p < |all| && HasStar(all[p - 0]) {
      assert p in r <==> p < |front| && HasStar(front[p - 0]);
      assert p in more <==> |front| <= p < |front| + |tokens| && HasStar(tokens[p - |front|]);
    }
  }

  function AllTokens(fragments: seq<string>): seq<string> {
    if fragments == [] then [] else AllTokens(fragments[..|fragments| - 1]) + SplitWhitespace(fragments[|fragments| - 1])
  }

  /** A signature has one byte and one mask for every token, and the positions of the starred ones, in order. */
  ghost predicate Describes(sig: Signature, tokens: seq<string>) {
    && sig.bytes == Bytes(tokens) && sig.mask == Masks(tokens)
    && AreStars(sig.derefPos, tokens, 0)
  }

  method New(fragments: seq<string>) returns (r: Signature)
    ensures Describes(r, AllTokens(fragments))
  {
    hide SplitWhitespace, TokenByte, TokenMask, AreStars, Stars;
    NoStars();
    var bytes, mask, derefPos, off := [], [], [], 0;
    for i := 0 to |fragments|
      invariant off == |AllTokens(fragments[..i])| && Describes(Signature(bytes, mask, derefPos), AllTokens(fragments[..i]))
    {
      assert fragments[..i + 1][..i] == fragments[..i];
      var tokens := SplitWhitespace(fragments[i]);
      ghost var front := AllTokens(fragments[..i]);
      StarsAppend(derefPos, front, tokens);
      assert Bytes(front + tokens) == Bytes(front) + Bytes(tokens);
      assert Masks(front + tokens) == Masks(front) + Masks(tokens);
      bytes := bytes + Bytes(tokens);
      mask := mask + Masks(tokens);
      derefPos := derefPos + Stars(tokens, off);
      off := off + |tokens|;
    }
    assert fragments[..|fragments|] == fragments;
    return Signature(bytes, mask, derefPos);
  }

  lemma NoStars()
    ensures AreStars([], [], 0)
  {
  }

  predicate Equals(sig: Signature, w: seq<byte>) {
    && |w| == |sig.bytes| == |sig.mask|
    && forall i :: 0 <= i < |w| ==> And(w[i], sig.mask[i]) == sig.bytes[i]
  }

  // ----- what a match means -----

  predicate IsNibble(c: char) {
    c == '?' || DigitValue(c, 16).Some?
  }

  /** One question mark, or two characters that are each a hexadecimal digit or a question mark. */
  predicate IsPattern(t: string) {
    t == "?" || (|t| == 2 && IsNibble(t[0]) && IsNibble(t[1]))
  }

  predicate NibbleMatches(c: char, n: nat) {
    c == '?' || DigitValue(c, 16) == Some(n)
  }

  /** The high nibble against the first character, the low one against the second. */
  predicate NibblesMatch(t: string, b: byte)
    requires IsPattern(t)
  {
    t == "?" || (NibbleMatches(t[0], b / 16) && NibbleMatches(t[1], b % 16))
  }

  /** The four masks keep both nibbles, one of them, or none. */
  lemma MasksKeepNibbles(b: byte)
    ensures And(b, 0) == 0 && And(b, 0x0f) == b % 16 && And(b, 0xf0) == b / 16 * 16 && And(b, 0xff) == b
  {
    hide And;
    AndZero(b);
    AndZero(b / 16);
    AndZero(b / 16 / 16);
    LowNibble(b, 0x0f);
    LowNibble(b, 0xf0);
    LowNibble(b, 0xff);
    LowNibble(b / 16, 0x0f);
  }

  lemma TwoDigits(h: char, l: char)
    requires DigitValue(h, 16).Some? && DigitValue(l, 16).Some?
    ensures FromStrRadix([h, l], 16, 255) == Some(16 * DigitValue(h, 16).value + DigitValue(l, 16).value)
  {
    hide DigitValue;
    assert [h, l][..1] == [h] && [h][..0] == [];
    assert Value([h], 16) == Some(DigitValue(h, 16).value);
    PlusAndZero();
    DigitsAreNibbles(h);
    DigitsAreNibbles(l);
  }

  lemma PlusAndZero()
    ensures DigitValue('+', 16).None? && DigitValue('0', 16) == Some(0)
  {
  }

  /** A byte passes a token's masked comparison exactly when its nibbles match the token's characters. */
  lemma TokenMatches(token: string, b: byte)
    requires IsPattern(Unstarred(token))
    ensures And(b, TokenMask(token)) == TokenByte(token) <==> NibblesMatch(Unstarred(token), b)
  {
    hide And, DigitValue, FromStrRadix, Unstarred;
    var t := Unstarred(token);
    MasksKeepNibbles(b);
    PlusAndZero();
    if t == "?" {
      WildcardIsZero();
    } else {
      var h, l := if t[0] == '?' then '0' else t[0], if t[1] == '?' then '0' else t[1];
      assert t == [t[0]] + [t[1]] && ZeroWildcards(t) == [h, l];
      TwoDigits(h, l);
      DigitsAreNibbles(h);
      DigitsAreNibbles(l);
    }
  }

  lemma DigitsAreNibbles(c: char)
    ensures DigitValue(c, 16).Some? ==> DigitValue(c, 16).value < 16
  {
  }

  lemma WildcardIsZero()
    ensures FromStrRadix(ZeroWildcards("?"), 16, 255) == Some(0)
  {
    assert "0"[..0] == "" && ZeroWildcards("?") == "0";
  }

  /** A token that is nothing but stars stands for a zero byte. */
  lemma StarsAlone(token: string)
    requires Unstarred(token) == ""
    ensures TokenByte(token) == 0 && TokenMask(token) == 0xff
  {
    hide Unstarred;
  }

  /** A text matches a signature exactly when it has one byte for each token and every byte matches its token. */
  lemma EqualsMeaning(sig: Signature, tokens: seq<string>, w: seq<byte>)
    requires Describes(sig, tokens) && forall i :: 0 <= i < |tokens| ==> IsPattern(Unstarred(tokens[i]))
    ensures Equals(sig, w) <==> |w| == |tokens| && forall i :: 0 <= i < |w| ==> NibblesMatch(Unstarred(tokens[i]), w[i])
  {
    hide And, TokenMask, TokenByte, NibblesMatch, IsPattern, Unstarred;
    if |w| == |tokens| {
      forall i | 0 <= i < |w| ensures And(w[i], sig.mask[i]) == sig.bytes[i] <==> NibblesMatch(Unstarred(tokens[i]), w[i]) {
        TokenMatches(tokens[i], w[i]);
      }
    }
  }
}
