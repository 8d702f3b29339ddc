/**
 * The input helpers of the link service: the random slug generator and the
 * slug and domain validators. Each validator is written as the recursive
 * matcher its regular expression amounts to and is proved equivalent to a
 * direct description of the strings it accepts.
 */
module Helpers {

  predicate IsDigit(c: char) { '0' <= c <= '9' }

  predicate IsAsciiLetter(c: char) { 'A' <= c <= 'Z' || 'a' <= c <= 'z' }

  // ---------------------------------------------------------------------------
  // generateUniqueString
  // ---------------------------------------------------------------------------

  const UpperCase: string := "ABCDEFGHIJKLMNOPQRSTUVWXYZ"
  const LowerCase: string := "abcdefghijklmnopqrstuvwxyz"
  const Digits: string := "0123456789"

  /**
   * The 62 characters a generated string is drawn from: the source's single
   * literal, written here as its three runs of upper-case letters,
   * lower-case letters and digits.
   */
  const Alphabet: string := UpperCase + LowerCase + Digits

  lemma UpperCaseLetters()
    ensures forall i :: 0 <= i < |UpperCase| ==> 'A' <= UpperCase[i] <= 'Z'
  {
  }

  lemma LowerCaseLetters()
    ensures forall i :: 0 <= i < |LowerCase| ==> 'a' <= LowerCase[i] <= 'z'
  {
  }

  lemma DigitCharacters()
    ensures forall i :: 0 <= i < |Digits| ==> IsDigit(Digits[i])
  {
  }

  /** Every character of the alphabet is an ASCII letter or digit. */
  lemma AlphabetIsAlphanumeric()
    ensures |Alphabet| == 62
    ensures forall i :: 0 <= i < |Alphabet| ==> IsAsciiLetter(Alphabet[i]) || IsDigit(Alphabet[i])
  {
    UpperCaseLetters();
    LowerCaseLetters();
    DigitCharacters();
    forall i | 0 <= i < |Alphabet| ensures IsAsciiLetter(Alphabet[i]) || IsDigit(Alphabet[i]) {
      if i < 26 {
        assert Alphabet[i] == UpperCase[i];
      } else if i < 52 {
        assert Alphabet[i] == LowerCase[i - 26];
      } else {
        assert Alphabet[i] == Digits[i - 52];
      }
    }
  }

  /**
   * `Math.floor(r * characters.length)` for a draw `r` of `Math.random()`,
   * which lies in [0, 1): always a valid index into the alphabet.
   */
  function CharIndex(r: real): (i: int)
    requires 0.0 <= r < 1.0
    ensures 0 <= i < |Alphabet|
  {
    (r * (|Alphabet| as real)).Floor
  }

  /**
   * `generateUniqueString(length)`: `length` characters, the i-th chosen by
   * the i-th draw `random(i)` of `Math.random()`. A negative length gives the
   * empty string, as the counting loop never runs.
   */
  method GenerateUniqueString(random: nat -> real, length: int := 12) returns (s: string)
    requires forall n :: 0.0 <= random(n) < 1.0
    ensures |s| == if length < 0 then 0 else length
    ensures forall i :: 0 <= i < |s| ==> s[i] == Alphabet[CharIndex(random(i))]
    ensures forall i :: 0 <= i < |s| ==> IsAsciiLetter(s[i]) || IsDigit(s[i])
    ensures 3 <= length <= 32 ==> IsValidSlug(s)
  {
    s := "";
    var index := 0;
    while index < length
      invariant 0 <= index <= if length < 0 then 0 else length
      invariant |s| == index
      invariant forall i :: 0 <= i < index ==> s[i] == Alphabet[CharIndex(random(i))]
    {
      var randomIndex := CharIndex(random(index));
      s := s + [Alphabet[randomIndex]];
      index := index + 1;
    }
    AlphabetIsAlphanumeric();
    if 3 <= length <= 32 {
      IsValidSlugIff(s);
    }
  }

  // ---------------------------------------------------------------------------
  // Character classes and bounded repetition
  // ---------------------------------------------------------------------------

  /** The character classes the two regular expressions use. */
  datatype CharClass =
    | WordOrHyphen        // [\w-]
    | AlnumFolded         // [\da-z] under the `i` flag
    | AlnumHyphenFolded   // [\da-z-] under the `i` flag
    | Digit               // \d

  /**
   * Case folding under the `i` flag of a non-Unicode regular expression, as
   * far as these classes can tell: an upper-case ASCII letter matches its
   * lower-case partner; no other character folds onto an ASCII letter.
   */
  function FoldCase(c: char): (f: char)
    ensures IsAsciiLetter(c) <==> 'a' <= f <= 'z'
    ensures IsDigit(c) <==> IsDigit(f)
  {
    if 'A' <= c <= 'Z' then (c as int + 32) as char else c
  }

  predicate InClass(c: char, cls: CharClass) {
    match cls
    case WordOrHyphen => IsAsciiLetter(c) || IsDigit(c) || c == '_' || c == '-'
    case AlnumFolded => IsDigit(FoldCase(c)) || 'a' <= FoldCase(c) <= 'z'
    case AlnumHyphenFolded => IsDigit(FoldCase(c)) || 'a' <= FoldCase(c) <= 'z' || c == '-'
    case Digit => IsDigit(c)
  }

  /** `s` matches `cls{lo,hi}`: one class character at a time. */
  predicate Repeat(s: string, cls: CharClass, lo: nat, hi: nat)
    decreases |s|
  {
    if s == [] then lo == 0
    else 0 < hi && InClass(s[0], cls) && Repeat(s[1..], cls, if lo == 0 then 0 else lo - 1, hi - 1)
  }

  /** Bounded repetition accepts exactly the strings of `lo` to `hi` class characters. */
  lemma {:induction false} RepeatIff(s: string, cls: CharClass, lo: nat, hi: nat)
    ensures Repeat(s, cls, lo, hi) <==> lo <= |s| <= hi && forall i :: 0 <= i < |s| ==> InClass(s[i], cls)
    decreases |s|
  {
    if s != [] && hi > 0 {
      RepeatIff(s[1..], cls, if lo == 0 then 0 else lo - 1, hi - 1);
      assert forall i :: 1 <= i < |s| ==> s[i] == s[1..][i - 1];
    }
  }

  // ---------------------------------------------------------------------------
  // isValidSlug
  // ---------------------------------------------------------------------------

  /** A character a slug may contain: a letter, a digit, `_` or `-`. */
  predicate IsSlugChar(c: char) {
    IsAsciiLetter(c) || IsDigit(c) || c == '_' || c == '-'
  }

  /** `isValidSlug(slug)`: non-empty and matching `^[\w-]{3,32}$`. */
  predicate IsValidSlug(slug: string) {
    slug != "" && Repeat(slug, WordOrHyphen, 3, 32)
  }

  /** A slug is valid exactly when it has 3 to 32 characters, each a letter, digit, `_` or `-`. */
  lemma IsValidSlugIff(slug: string)
    ensures IsValidSlug(slug) <==> 3 <= |slug| <= 32 && forall i :: 0 <= i < |slug| ==> IsSlugChar(slug[i])
  {
    RepeatIff(slug, WordOrHyphen, 3, 32);
  }

  // ---------------------------------------------------------------------------
  // isValidDomain
  // ---------------------------------------------------------------------------

  /** The position of the first `c` in `s`. */
  function IndexOf(s: string, c: char): (i: nat)
    requires c in s
    ensures i < |s| && s[i] == c && c !in s[..i]
    decreases |s|
  {
    if s[0] == c then 0
    else
      var j := IndexOf(s[1..], c);
      assert s[..j + 1] == [s[0]] + s[1..][..j];
      1 + j
  }

  /** The first `c` of `a + [c] + b`, when `a` has none, is the one after `a`. */
  lemma IndexOfAfter(a: string, c: char, b: string)
    requires c !in a
    ensures IndexOf(a + [c] + b, c) == |a|
  {
    var s := a + [c] + b;
    assert s[|a|] == c;
  }

  /** `[\da-z](?:[\da-z-]{0,61}[\da-z])?` under the `i` flag: one character, or first, middle and last. */
  predicate LabelMatches(l: string) {
    && |l| >= 1
    && InClass(l[0], AlnumFolded)
    && (|l| == 1 || (Repeat(l[1..|l| - 1], AlnumHyphenFolded, 0, 61) && InClass(l[|l| - 1], AlnumFolded)))
  }

  /** `(?:LABEL\.)*LABEL`: labels separated by dots, split at the first dot. */
  predicate HostMatches(h: string)
    decreases |h|
  {
    if '.' in h then
      var i := IndexOf(h, '.');
      LabelMatches(h[..i]) && HostMatches(h[i + 1..])
    else
      LabelMatches(h)
  }

  /** `\d+`. */
  predicate DigitsMatch(p: string) {
    Repeat(p, Digit, 1, |p|)
  }

  /** `^HOST(?::\d+)?$`: a host, optionally followed by `:` and a port, split at the first colon. */
  predicate DomainMatches(d: string) {
    if ':' in d then
      var i := IndexOf(d, ':');
      HostMatches(d[..i]) && DigitsMatch(d[i + 1..])
    else
      HostMatches(d)
  }

  /** `isValidDomain(domain)`: non-empty, matching the domain pattern, and at most 253 characters long. */
  predicate IsValidDomain(domain: string) {
    domain != "" && DomainMatches(domain) && |domain| <= 253
  }

  // The strings accepted, described directly.

  /** A label: 1 to 63 letters, digits or hyphens, not starting or ending with a hyphen. */
  predicate IsLabel(l: string) {
    && 1 <= |l| <= 63
    && (forall i :: 0 <= i < |l| ==> IsAsciiLetter(l[i]) || IsDigit(l[i]) || l[i] == '-')
    && l[0] != '-' && l[|l| - 1] != '-'
  }

  predicate AllLabels(labels: seq<string>) {
    forall i :: 0 <= i < |labels| ==> IsLabel(labels[i])
  }

  /** The labels joined with dots. */
  function JoinDots(labels: seq<string>): (r: string)
    requires |labels| >= 1
    ensures |r| >= |labels[0]|
    decreases |labels|
  {
    if |labels| == 1 then labels[0] else labels[0] + "." + JoinDots(labels[1..])
  }

  /** Nothing, or a colon followed by one or more digits. */
  predicate IsPortSuffix(p: string) {
    p == "" || (|p| >= 2 && p[0] == ':' && forall i :: 1 <= i < |p| ==> IsDigit(p[i]))
  }

  /** One or more labels joined with dots, then an optional port suffix. */
  ghost predicate IsDomainSyntax(d: string) {
    exists labels: seq<string>, port: string ::
      |labels| >= 1 && AllLabels(labels) && IsPortSuffix(port) && d == JoinDots(labels) + port
  }

  // Proofs

  /** The folded classes accept a character of either case. */
  lemma FoldedClasses(c: char)
    ensures InClass(c, AlnumFolded) <==> IsAsciiLetter(c) || IsDigit(c)
    ensures InClass(c, AlnumHyphenFolded) <==> IsAsciiLetter(c) || IsDigit(c) || c == '-'
  {
  }

  /** The label matcher accepts exactly the labels. */
  lemma LabelMatchesIff(l: string)
    ensures LabelMatches(l) <==> IsLabel(l)
  {
    if |l| >= 2 {
      var mid := l[1..|l| - 1];
      RepeatIff(mid, AlnumHyphenFolded, 0, 61);
      forall i | 0 <= i < |l| {
        FoldedClasses(l[i]);
      }
      assert forall i :: 1 <= i < |l| - 1 ==> l[i] == mid[i - 1];
    } else if |l| == 1 {
      FoldedClasses(l[0]);
    }
  }

  /** A joined list of labels contains no colon. */
  lemma {:induction false} JoinHasNoColon(labels: seq<string>)
    requires |labels| >= 1 && AllLabels(labels)
    ensures ':' !in JoinDots(labels)
    decreases |labels|
  {
    assert IsLabel(labels[0]);
    assert forall i :: 0 <= i < |labels[0]| ==> labels[0][i] != ':';
    if |labels| > 1 {
      JoinHasNoColon(labels[1..]);
    }
  }

  lemma LabelHasNoDot(l: string)
    requires IsLabel(l)
    ensures '.' !in l
  {
    assert forall i :: 0 <= i < |l| ==> l[i] != '.';
  }

  /** Joined labels pass the host matcher. */
  lemma {:induction false} HostComplete(labels: seq<string>)
    requires |labels| >= 1 && AllLabels(labels)
    ensures HostMatches(JoinDots(labels))
    decreases |labels|
  {
    LabelHasNoDot(labels[0]);
    LabelMatchesIff(labels[0]);
    if |labels| > 1 {
      var rest := JoinDots(labels[1..]);
      IndexOfAfter(labels[0], '.', rest);
      var h := labels[0] + "." + rest;
      assert h == labels[0] + ['.'] + rest;
      assert h[..|labels[0]|] == labels[0];
      assert h[|labels[0]| + 1..] == rest;
      HostComplete(labels[1..]);
    }
  }

  /** What the host matcher accepts is a dot-joined list of labels. */
  lemma {:induction false} HostSound(h: string) returns (labels: seq<string>)
    requires HostMatches(h)
    ensures |labels| >= 1 && AllLabels(labels) && JoinDots(labels) == h
    decreases |h|
  {
    if '.' in h {
      var i := IndexOf(h, '.');
      LabelMatchesIff(h[..i]);
      var rest := HostSound(h[i + 1..]);
      labels := [h[..i]] + rest;
      assert labels[1..] == rest;
      assert h == h[..i] + "." + h[i + 1..];
    } else {
      LabelMatchesIff(h);
      labels := [h];
    }
  }

  /** `\d+` accepts exactly the non-empty digit strings. */
  lemma DigitsMatchIff(p: string)
    ensures DigitsMatch(p) <==> |p| >= 1 && forall i :: 0 <= i < |p| ==> IsDigit(p[i])
  {
    RepeatIff(p, Digit, 1, |p|);
  }

  /** What the domain matcher accepts is labels joined with dots and an optional port suffix. */
  lemma ValidDomainHasSyntax(d: string)
    requires IsValidDomain(d)
    ensures IsDomainSyntax(d)
  {
    if ':' in d {
      var i := IndexOf(d, ':');
      var labels := HostSound(d[..i]);
      var port := d[i..];
      DigitsMatchIff(d[i + 1..]);
      assert forall j :: 1 <= j < |port| ==> port[j] == d[i + 1..][j - 1];
      assert IsPortSuffix(port);
      assert d == JoinDots(labels) + port;
    } else {
      var labels := HostSound(d);
      assert IsPortSuffix("");
      assert d == JoinDots(labels) + "";
    }
  }

  /** Labels joined with dots and an optional port suffix pass the domain matcher. */
  lemma SyntaxIsValidDomain(d: string)
    requires |d| <= 253 && IsDomainSyntax(d)
    ensures IsValidDomain(d)
  {
    var labels: seq<string>, port: string :|
      |labels| >= 1 && AllLabels(labels) && IsPortSuffix(port) && d == JoinDots(labels) + port;
    var host := JoinDots(labels);
    assert |labels[0]| >= 1;
    JoinHasNoColon(labels);
    HostComplete(labels);
    if port == "" {
      assert d == host;
    } else {
      var digits := port[1..];
      assert d == host + [':'] + digits;
      IndexOfAfter(host, ':', digits);
      assert d[..|host|] == host;
      assert d[|host| + 1..] == digits;
      DigitsMatchIff(digits);
    }
  }

  /**
   * A domain is valid exactly when it is at most 253 characters long and is
   * one or more dot-separated labels, optionally followed by `:` and digits.
   */
  lemma IsValidDomainIff(d: string)
    ensures IsValidDomain(d) <==> |d| <= 253 && IsDomainSyntax(d)
  {
    if IsValidDomain(d) {
      ValidDomainHasSyntax(d);
    }
    if |d| <= 253 && IsDomainSyntax(d) {
      SyntaxIsValidDomain(d);
    }
  }

  /** The empty string is not a valid domain, and a valid domain is at most 253 characters long, port included. */
  lemma ValidDomainBounds(d: string)
    ensures IsValidDomain("") == false
    ensures IsValidDomain(d) ==> 1 <= |d| <= 253
  {
  }
}
