/**
  String helpers shared by the filename rules: ASCII case folding, decimal
  numerals (the way a JavaScript integer prints and parses), prefixes,
  suffixes and character search.
 */
module Text {
  import opened Wrappers

  /** `toLowerCase` restricted to ASCII: 'A'..'Z' map to 'a'..'z', every other character is kept. */
  function LowerChar(c: char): char {
    if 'A' <= c <= 'Z' then (c as int + 32) as char else c
  }

  /** `toLowerCase` on ASCII letters: the result has no upper-case ASCII
      letter, each upper-case letter becomes the letter 32 code points above
      it, and every other character is kept. */
  function Lower(s: string): (r: string)
    ensures |r| == |s|
    ensures forall k :: 0 <= k < |s| ==> !('A' <= r[k] <= 'Z')
    ensures forall k :: 0 <= k < |s| && 'A' <= s[k] <= 'Z' ==> r[k] as int == s[k] as int + 32
    ensures forall k :: 0 <= k < |s| && !('A' <= s[k] <= 'Z') ==> r[k] == s[k]
  {
    seq(|s|, k requires 0 <= k < |s| => LowerChar(s[k]))
  }

  /** Lowering never touches punctuation, so it keeps '.', '/' and '_' and creates none. */
  lemma LowerCharKeepsPunctuation(x: char, c: char)
    requires c == '.' || c == '/' || c == '_'
    ensures LowerChar(x) == c <==> x == c
  {
  }

  lemma LowerConcat(a: string, b: string)
    ensures Lower(a + b) == Lower(a) + Lower(b)
  {
    assert forall k :: 0 <= k < |a + b| ==> Lower(a + b)[k] == (Lower(a) + Lower(b))[k];
  }

  lemma LowerSlice(s: string, i: int, j: int)
    requires 0 <= i <= j <= |s|
    ensures Lower(s)[i..j] == Lower(s[i..j])
  {
  }

  /** Lowering a prefix is taking the prefix of the lowered string. */
  lemma LowerPrefix(s: string, j: int)
    requires 0 <= j <= |s|
    ensures Lower(s)[..j] == Lower(s[..j])
  {
  }

  /** Lowering a suffix is taking the suffix of the lowered string. */
  lemma LowerSuffix(s: string, i: int)
    requires 0 <= i <= |s|
    ensures Lower(s)[i..] == Lower(s[i..])
  {
  }

  /** A character absent from a string is absent from every slice of it. */
  lemma NotInSlice(s: string, c: char, i: int, j: int)
    requires c !in s && 0 <= i <= j <= |s|
    ensures c !in s[i..j]
  {
    assert forall k :: 0 <= k < j - i ==> s[i..j][k] == s[i + k];
  }

  /** A character absent from a string is absent from every suffix of it. */
  lemma NotInSuffix(s: string, c: char, i: int)
    requires c !in s && 0 <= i <= |s|
    ensures c !in s[i..]
  {
    assert forall k :: 0 <= k < |s| - i ==> s[i..][k] == s[i + k];
  }

  predicate IsDigit(c: char) {
    '0' <= c <= '9'
  }

  predicate AllDigits(s: string) {
    forall k :: 0 <= k < |s| ==> IsDigit(s[k])
  }

  function DigitChar(d: nat): (c: char)
    requires d < 10
    ensures IsDigit(c)
  {
    ('0' as int + d) as char
  }

  function DigitValue(c: char): (d: nat)
    requires IsDigit(c)
    ensures d < 10 && DigitChar(d) == c
  {
    c as int - '0' as int
  }

  /** How JavaScript prints a non-negative integer: its shortest decimal numeral. */
  function NatToDecimal(n: nat): (s: string)
    ensures |s| > 0 && AllDigits(s)
    ensures s[0] == '0' ==> n == 0 && s == "0"
    decreases n
  {
    if n < 10 then [DigitChar(n)] else NatToDecimal(n / 10) + [DigitChar(n % 10)]
  }

  /** The value of a string of decimal digits, as `Number` reads it; the
      empty string reads as 0. A numeral without a leading zero is exactly
      how its value prints. */
  function ParseDecimal(s: string): (n: nat)
    requires AllDigits(s)
    ensures |s| > 0 && s[0] != '0' ==> NatToDecimal(n) == s
    decreases |s|
  {
    if |s| == 0 then 0
    else
      var init := s[..|s| - 1];
      var m := ParseDecimal(init);
      var d := DigitValue(s[|s| - 1]);
      assert |init| > 0 && init[0] != '0' ==> m > 0 && NatToDecimal(m) == init;
      NatToDecimalStep(m, d);
      assert s == init + [s[|s| - 1]];
      10 * m + d
  }

  /** The numeral of `10 * m + d` is that of `m` followed by the digit `d`. */
  lemma NatToDecimalStep(m: nat, d: nat)
    requires d < 10
    ensures m > 0 ==> NatToDecimal(10 * m + d) == NatToDecimal(m) + [DigitChar(d)]
  {
    var n := 10 * m + d;
    assert n / 10 == m && n % 10 == d;
  }

  /** Printing a number and reading it back gives the number. */
  lemma {:induction false} DecimalRoundTrip(n: nat)
    ensures ParseDecimal(NatToDecimal(n)) == n
  {
    if n >= 10 {
      var s := NatToDecimal(n);
      assert s[..|s| - 1] == NatToDecimal(n / 10);
      DecimalRoundTrip(n / 10);
    }
  }

  predicate StartsWith(s: string, prefix: string) {
    |prefix| <= |s| && s[..|prefix|] == prefix
  }

  predicate EndsWith(s: string, suffix: string) {
    |suffix| <= |s| && s[|s| - |suffix|..] == suffix
  }

  /** The rest of `s` after `prefix`, or None when `s` does not start with it. */
  function StripPrefix(prefix: string, s: string): (r: Option<string>)
    ensures r.Some? <==> StartsWith(s, prefix)
    ensures r.Some? ==> prefix + r.value == s
  {
    if StartsWith(s, prefix) then Some(s[|prefix|..]) else None
  }

  /** Index of the last occurrence of `c` in `s`, or -1 (JavaScript's `lastIndexOf`). */
  function LastIndexOf(s: string, c: char): (r: int)
    ensures -1 <= r < |s|
    ensures r >= 0 ==> s[r] == c
    ensures forall k :: r < k < |s| ==> s[k] != c
    decreases |s|
  {
    if |s| == 0 then -1
    else if s[|s| - 1] == c then |s| - 1
    else LastIndexOf(s[..|s| - 1], c)
  }

  /** The contract of LastIndexOf pins its result down, so two strings that agree
      on where `c` occurs have the same last index of `c`. */
  lemma LastIndexOfSamePositions(s: string, t: string, c: char)
    requires |s| == |t|
    requires forall k :: 0 <= k < |s| ==> (s[k] == c <==> t[k] == c)
    ensures LastIndexOf(s, c) == LastIndexOf(t, c)
  {
    var a, b := LastIndexOf(s, c), LastIndexOf(t, c);
    assert a >= 0 ==> t[a] == c;
    assert b >= 0 ==> s[b] == c;
  }

  /** The part of `s` before the first `c`, the whole of `s` when there is none:
      what `s.split(c)[0]` returns. */
  function BeforeFirst(s: string, c: char): (r: string)
    ensures c !in r
    ensures StartsWith(s, r)
    ensures |r| < |s| ==> s[|r|] == c
    decreases |s|
  {
    if |s| == 0 then ""
    else if s[0] == c then ""
    else [s[0]] + BeforeFirst(s[1..], c)
  }

  /** The longest prefix of `s` made of decimal digits. */
  function LeadingDigits(s: string): (r: string)
    ensures AllDigits(r)
    ensures StartsWith(s, r)
    ensures |r| < |s| ==> !IsDigit(s[|r|])
    decreases |s|
  {
    if |s| == 0 || !IsDigit(s[0]) then "" else [s[0]] + LeadingDigits(s[1..])
  }

  /** A numeral followed by a non-digit: the numeral is exactly the leading digits. */
  lemma LeadingDigitsOfNumeral(digits: string, rest: string)
    requires AllDigits(digits)
    requires |rest| > 0 && !IsDigit(rest[0])
    ensures LeadingDigits(digits + rest) == digits
  {
    var s := digits + rest;
    var r := LeadingDigits(s);
    assert s[|digits|] == rest[0];
    assert |r| <= |digits|;
    assert |r| >= |digits|;
    assert r == s[..|r|] == digits;
  }

  /** A suffix of `b` is a suffix of anything ending in `b`. */
  lemma EndsWithConcat(a: string, b: string, suffix: string)
    requires EndsWith(b, suffix)
    ensures EndsWith(a + b, suffix)
  {
    assert (a + b)[|a + b| - |suffix|..] == b[|b| - |suffix|..];
  }

  /** When `a` holds no `c`, the text before the first `c` of `a + [c] + b` is `a`. */
  lemma BeforeFirstAtSeparator(a: string, c: char, b: string)
    requires c !in a
    ensures BeforeFirst(a + [c] + b, c) == a
  {
    var s := a + [c] + b;
    var r := BeforeFirst(s, c);
    assert s[|a|] == c;
    assert |r| >= |a| by {
      assert forall k :: 0 <= k < |a| ==> s[k] == a[k];
    }
    assert |r| <= |a|;
    assert r == s[..|r|] == a;
  }

  /** When `s` holds no `c`, the text before the first `c` is all of `s`. */
  lemma BeforeFirstAbsent(s: string, c: char)
    requires c !in s
    ensures BeforeFirst(s, c) == s
  {
  }

  /** When `b` holds no `c`, the last `c` of `a + [c] + b` is the one between them. */
  lemma LastIndexOfAtSeparator(a: string, c: char, b: string)
    requires c !in b
    ensures LastIndexOf(a + [c] + b, c) == |a|
  {
    var s := a + [c] + b;
    var r := LastIndexOf(s, c);
    assert s[|a|] == c;
    assert r >= |a|;
    assert s[|a| + 1..] == b;
  }

  /** The part of a + b from position |a| + i on is the part of b from i on. */
  lemma SuffixOfConcat(a: string, b: string, i: int)
    requires 0 <= i <= |b|
    ensures (a + b)[|a| + i..] == b[i..]
  {
    assert forall k :: 0 <= k < |b| - i ==> (a + b)[|a| + i..][k] == b[i..][k];
  }

  /** Behind a prefix that ends in `c`, the text after the last `c` is the
      same as without the prefix. */
  lemma AfterLastAfterPrefix(a: string, b: string, c: char)
    requires |a| > 0 && a[|a| - 1] == c
    ensures (a + b)[LastIndexOf(a + b, c) + 1..] == b[LastIndexOf(b, c) + 1..]
  {
    LastIndexOfConcat(a, b, c);
    var rb := LastIndexOf(b, c);
    if rb == -1 {
      assert LastIndexOf(a, c) == |a| - 1;
    }
    SuffixOfConcat(a, b, rb + 1);
  }

  /** Where the last `c` of a concatenation is: in `b` if `b` has one, else in `a`. */
  lemma LastIndexOfConcat(a: string, b: string, c: char)
    ensures LastIndexOf(b, c) >= 0 ==> LastIndexOf(a + b, c) == |a| + LastIndexOf(b, c)
    ensures LastIndexOf(b, c) == -1 ==> LastIndexOf(a + b, c) == LastIndexOf(a, c)
  {
    var s := a + b;
    var r, rb, ra := LastIndexOf(s, c), LastIndexOf(b, c), LastIndexOf(a, c);
    assert forall k :: |a| <= k < |s| ==> s[k] == b[k - |a|];
    assert forall k :: 0 <= k < |a| ==> s[k] == a[k];
    if rb >= 0 {
      assert s[|a| + rb] == c;
      assert r >= |a| + rb;
    } else {
      assert r < |a|;
      assert ra >= 0 ==> s[ra] == c;
    }
  }
}
