/**
  String helpers the backend relies on: PHP's `str_replace` with an empty
  replacement, the `\d+` capture class, `intval` on a string, and the decimal
  rendering JavaScript uses when it interpolates a number into a URL.
 */
module Text {

  // ---------------------------------------------------------------------------
  // Occurrences and str_replace(needle, "", haystack)
  // ---------------------------------------------------------------------------

  /** `pat` occurs somewhere inside `s`. */
  predicate Contains(s: string, pat: string)
    requires |pat| > 0
    decreases |s|
  {
    |s| >= |pat| && (s[..|pat|] == pat || Contains(s[1..], pat))
  }

  /**
    PHP's `str_replace(pat, "", s)`: one left-to-right scan that drops every
    non-overlapping occurrence of `pat`; the text left behind is not rescanned.
   */
  function RemoveAll(s: string, pat: string): (r: string)
    requires |pat| > 0
    ensures |r| <= |s|
    ensures !Contains(s, pat) ==> r == s
    decreases |s|
  {
    if |s| < |pat| then s
    else if s[..|pat|] == pat then RemoveAll(s[|pat|..], pat)
    else [s[0]] + RemoveAll(s[1..], pat)
  }

  /** A leading occurrence is dropped and scanning resumes right after it. */
  lemma RemoveLeading(pat: string, s: string)
    requires |pat| > 0
    ensures RemoveAll(pat + s, pat) == RemoveAll(s, pat)
  {
    assert (pat + s)[..|pat|] == pat;
    assert (pat + s)[|pat|..] == s;
  }

  /** Where `pat` does not start, the scan copies one character and moves on. */
  lemma RemoveNoMatchHead(t: string, pat: string)
    requires |pat| > 0 && |t| > 0 && !(pat <= t)
    ensures RemoveAll(t, pat) == [t[0]] + RemoveAll(t[1..], pat)
  {
    if |t| < |pat| {
      assert [t[0]] + t[1..] == t;
    }
  }

  lemma ShiftNoStart(t: string, n: nat, pat: string)
    requires 0 < n <= |t|
    requires forall k :: 0 <= k < n ==> !(pat <= t[k..])
    ensures !(pat <= t)
    ensures forall k :: 0 <= k < n - 1 ==> !(pat <= t[1..][k..])
  {
    assert t[0..] == t;
    forall k | 0 <= k < n - 1
      ensures !(pat <= t[1..][k..])
    {
      assert t[1..][k..] == t[k + 1..];
    }
  }

  lemma Reassemble(t: string, n: nat, rest: string)
    requires 0 < n <= |t|
    ensures [t[0]] + (t[1..][..n - 1] + rest) == t[..n] + rest
    ensures t[1..][n - 1..] == t[n..]
  {
    assert [t[0]] + t[1..][..n - 1] == t[..n];
  }

  /** When `pat` starts at none of the first `n` positions, those characters are copied through. */
  lemma {:induction false} RemovePlain(t: string, n: nat, pat: string)
    requires |pat| > 0 && n <= |t|
    requires forall k :: 0 <= k < n ==> !(pat <= t[k..])
    ensures RemoveAll(t, pat) == t[..n] + RemoveAll(t[n..], pat)
    decreases n
  {
    if n > 0 {
      ShiftNoStart(t, n, pat);
      RemoveNoMatchHead(t, pat);
      RemovePlain(t[1..], n - 1, pat);
      Reassemble(t, n, RemoveAll(t[n..], pat));
    }
  }

  /** A string lacking a character of `pat` cannot contain `pat`. */
  lemma {:induction false} MissingCharNoOccurrence(s: string, pat: string, c: char)
    requires |pat| > 0
    requires c in pat && c !in s
    ensures !Contains(s, pat)
    decreases |s|
  {
    if |s| >= |pat| {
      assert forall x :: x in s[..|pat|] ==> x in s;
      assert s[..|pat|] != pat;
      assert forall x :: x in s[1..] ==> x in s;
      MissingCharNoOccurrence(s[1..], pat, c);
    }
  }

  /** Concatenation keeps `c` out when neither part holds it. */
  lemma NotInConcat(a: string, b: string, c: char)
    requires c !in a && c !in b
    ensures c !in a + b
  {
  }

  // ---------------------------------------------------------------------------
  // Decimal digits
  // ---------------------------------------------------------------------------

  /** PCRE's `\d` without the Unicode flag: the ASCII digits. */
  predicate IsDigit(c: char) {
    '0' <= c <= '9'
  }

  predicate AllDigits(s: string) {
    forall i :: 0 <= i < |s| ==> IsDigit(s[i])
  }

  function DigitValue(c: char): (d: nat)
    requires IsDigit(c)
    ensures d < 10
  {
    c as int - '0' as int
  }

  function DigitChar(d: nat): (c: char)
    requires d < 10
    ensures IsDigit(c) && DigitValue(c) == d
  {
    ('0' as int + d) as char
  }

  /** The number a string of decimal digits denotes (most significant first). */
  function DigitsValue(s: string): nat
    requires AllDigits(s)
    decreases |s|
  {
    if |s| == 0 then 0 else DigitsValue(s[..|s| - 1]) * 10 + DigitValue(s[|s| - 1])
  }

  /**
    The canonical decimal form of `n`, as `${n}` renders a non-negative integer:
    digits only, no leading zero, and it denotes `n`.
   */
  function NatToString(n: nat): (r: string)
    ensures |r| > 0 && AllDigits(r)
    ensures DigitsValue(r) == n
    ensures r[0] == '0' ==> n == 0
    decreases n
  {
    if n < 10 then [DigitChar(n)]
    else
      var front := NatToString(n / 10);
      var r := front + [DigitChar(n % 10)];
      assert r[..|r| - 1] == front;
      r
  }

  // ---------------------------------------------------------------------------
  // PHP intval on a string
  // ---------------------------------------------------------------------------

  /** The whitespace PHP skips before a numeric string. */
  predicate IsPhpSpace(c: char) {
    c == ' ' || c == '\t' || c == '\n' || c == '\r' || c == '\U{B}' || c == '\U{C}'
  }

  function SkipSpace(s: string): (r: string)
    ensures |r| <= |s| && r == s[|s| - |r|..]
    ensures forall i :: 0 <= i < |s| - |r| ==> IsPhpSpace(s[i])
    ensures |r| > 0 ==> !IsPhpSpace(r[0])
    decreases |s|
  {
    if |s| > 0 && IsPhpSpace(s[0]) then
      var r := SkipSpace(s[1..]);
      assert forall i :: 1 <= i < |s| - |r| ==> s[i] == s[1..][i - 1];
      r
    else s
  }

  /** The longest prefix of `s` made of digits. */
  function DigitPrefix(s: string): (r: string)
    ensures AllDigits(r) && r <= s
    ensures |r| < |s| ==> !IsDigit(s[|r|])
    decreases |s|
  {
    if |s| > 0 && IsDigit(s[0]) then [s[0]] + DigitPrefix(s[1..]) else []
  }

  /**
    `intval($s)` for a string: optional leading whitespace, an optional sign,
    then the longest run of digits; no digits gives 0.
   */
  function IntVal(s: string): (r: int)
    ensures AllDigits(s) ==> r == DigitsValue(s)
    ensures r < 0 ==> var t := SkipSpace(s); |t| > 0 && t[0] == '-'
    ensures var t := SkipSpace(s); |t| > 0 && t[0] == '-' ==> r <= 0
  {
    DigitsAreOwnPrefix(s);
    var t := SkipSpace(s);
    if |t| > 0 && t[0] == '-' then -(DigitsValue(DigitPrefix(t[1..])) as int)
    else if |t| > 0 && t[0] == '+' then DigitsValue(DigitPrefix(t[1..]))
    else DigitsValue(DigitPrefix(t))
  }

  /** A digits-only string is its own digit prefix. */
  lemma {:induction false} DigitPrefixOfDigits(s: string)
    requires AllDigits(s)
    ensures DigitPrefix(s) == s
    decreases |s|
  {
    if |s| > 0 {
      DigitPrefixOfDigits(s[1..]);
      assert [s[0]] + s[1..] == s;
    }
  }

  lemma DigitsAreOwnPrefix(s: string)
    ensures AllDigits(s) ==> SkipSpace(s) == s && DigitPrefix(s) == s
  {
    if AllDigits(s) {
      if |s| > 0 {
        assert IsDigit(s[0]);
      }
      DigitPrefixOfDigits(s);
    }
  }

  /** Rendering a natural and reading it back with `intval` round-trips. */
  lemma IntValOfNatToString(n: nat)
    ensures IntVal(NatToString(n)) == n
  {
    assert IntVal(NatToString(n)) == DigitsValue(NatToString(n));
  }

  /** Digit strings hold no underscore. */
  lemma DigitsHaveNoUnderscore(s: string)
    requires AllDigits(s)
    ensures '_' !in s
  {
    assert forall i :: 0 <= i < |s| ==> s[i] != '_';
  }
}
