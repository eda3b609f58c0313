/**
 * The few java.lang.String, Character and Integer operations the core relies on,
 * written out so that their behaviour is explicit: String.indexOf(String, int),
 * toLowerCase (restricted to ASCII), Character.isUpperCase (restricted to ASCII)
 * and Integer.toString.
 */
module JavaStrings {

  /** True when `needle` occurs in `hay` starting at index `k`. */
  predicate OccursAt(hay: string, needle: string, k: int) {
    0 <= k && k + |needle| <= |hay| && hay[k..k + |needle|] == needle
  }

  /** The leftmost occurrence of `needle` at index `i` or later, or -1. */
  function ScanFrom(hay: string, needle: string, i: nat): (r: int)
    requires i <= |hay|
    ensures r == -1 || (i <= r && OccursAt(hay, needle, r))
    ensures forall k :: i <= k && (r == -1 || k < r) ==> !OccursAt(hay, needle, k)
    decreases |hay| - i
  {
    if i + |needle| > |hay| then -1
    else if hay[i..i + |needle|] == needle then i
    else ScanFrom(hay, needle, i + 1)
  }

  /**
   * String.indexOf(needle, from): a start index at or beyond |hay| finds only the
   * empty needle (at |hay|), and a negative start index is read as 0.
   */
  function IndexOf(hay: string, needle: string, from: int): (r: int)
    ensures r == -1 || OccursAt(hay, needle, r)
    ensures 0 <= from <= |hay| ==> r == -1 || from <= r
    ensures 0 <= from <= |hay| ==>
              forall k :: from <= k && (r == -1 || k < r) ==> !OccursAt(hay, needle, k)
  {
    if from >= |hay| then (if |needle| == 0 then |hay| else -1)
    else ScanFrom(hay, needle, if from < 0 then 0 else from)
  }

  /** Character.toLowerCase, restricted to the ASCII letters. */
  function ToLower(c: char): char {
    if 'A' <= c <= 'Z' then (c as int + 32) as char else c
  }

  /**
   * String.toLowerCase, as a length-preserving character-by-character folding: no
   * capital is left, and every character that is not a capital stays where it is.
   */
  function ToLowerCase(s: string): (r: string)
    ensures |r| == |s|
    ensures forall i :: 0 <= i < |r| ==> !IsUpperCase(r[i])
    ensures forall i :: 0 <= i < |s| && !IsUpperCase(s[i]) ==> r[i] == s[i]
  {
    seq(|s|, i requires 0 <= i < |s| => ToLower(s[i]))
  }

  /** Lower-casing a lower-cased string changes nothing. */
  lemma ToLowerCaseIdempotent(s: string)
    ensures ToLowerCase(ToLowerCase(s)) == ToLowerCase(s)
  {
  }

  /** Two strings fold alike exactly when they agree position by position up to case. */
  lemma ToLowerCaseEqualIgnoringCase(s: string, t: string)
    ensures ToLowerCase(s) == ToLowerCase(t) <==>
            |s| == |t| && forall i :: 0 <= i < |s| ==> ToLower(s[i]) == ToLower(t[i])
  {
    if |s| == |t| && forall i :: 0 <= i < |s| ==> ToLower(s[i]) == ToLower(t[i]) {
      assert forall i :: 0 <= i < |s| ==> ToLowerCase(s)[i] == ToLowerCase(t)[i];
    }
    if ToLowerCase(s) == ToLowerCase(t) {
      forall i | 0 <= i < |s|
        ensures ToLower(s[i]) == ToLower(t[i])
      {
        assert ToLowerCase(s)[i] == ToLower(s[i]) && ToLowerCase(t)[i] == ToLower(t[i]);
      }
    }
  }

  /** Character.isUpperCase, restricted to the ASCII letters. */
  predicate IsUpperCase(c: char) {
    'A' <= c <= 'Z'
  }

  predicate IsDigit(c: char) {
    '0' <= c <= '9'
  }

  function DigitChar(d: int): (c: char)
    requires 0 <= d < 10
    ensures IsDigit(c)
  {
    ('0' as int + d) as char
  }

  /** The decimal digits of `n`, most significant first, without leading zeros. */
  function NatToString(n: nat): (s: string)
    ensures |s| >= 1
    ensures forall i :: 0 <= i < |s| ==> IsDigit(s[i])
    ensures n >= 10 <==> |s| >= 2
    decreases n
  {
    if n < 10 then [DigitChar(n)] else NatToString(n / 10) + [DigitChar(n % 10)]
  }

  /** Integer.toString: a minus sign for negative values, then the digits. */
  function IntToString(n: int): (s: string)
    ensures |s| >= 1 && (s[0] == '-' <==> n < 0)
    ensures forall i :: 1 <= i < |s| ==> IsDigit(s[i])
    ensures s[0] != '-' ==> IsDigit(s[0])
  {
    if n < 0 then "-" + NatToString(-n) else NatToString(n)
  }

  /** Reads back a string of decimal digits. */
  function ParseNat(s: string): nat
    requires forall i :: 0 <= i < |s| ==> IsDigit(s[i])
  {
    if s == [] then 0
    else
      assert IsDigit(s[|s| - 1]);
      ParseNat(s[..|s| - 1]) * 10 + (s[|s| - 1] as int - '0' as int)
  }

  /** Reads back an optionally signed decimal numeral. */
  function ParseInt(s: string): int
    requires |s| >= 1
    requires forall i :: 1 <= i < |s| ==> IsDigit(s[i])
    requires s[0] != '-' ==> IsDigit(s[0])
  {
    if s[0] == '-' then -(ParseNat(s[1..]) as int) else ParseNat(s)
  }

  lemma {:induction false} ParseNatToString(n: nat)
    ensures ParseNat(NatToString(n)) == n
    decreases n
  {
    if n >= 10 {
      var s := NatToString(n);
      assert s[..|s| - 1] == NatToString(n / 10);
      ParseNatToString(n / 10);
    }
  }

  /** The decimal rendering of an int can be read back: Integer.toString loses nothing. */
  lemma ParseIntToString(n: int)
    ensures ParseInt(IntToString(n)) == n
  {
    if n < 0 {
      assert IntToString(n)[1..] == NatToString(-n);
      ParseNatToString(-n);
    } else {
      ParseNatToString(n);
    }
  }

  /** A one-character needle occurs exactly where that character stands. */
  lemma OccursAtSingle(hay: string, c: char, k: int)
    ensures OccursAt(hay, [c], k) <==> 0 <= k < |hay| && hay[k] == c
  {
    if 0 <= k < |hay| {
      assert hay[k..k + 1][0] == hay[k];
    }
  }

  /** indexOf is the first occurrence at or after `from`: any index with that property is its result. */
  lemma IndexOfIsFirstOccurrence(hay: string, needle: string, from: int, r: int)
    requires 0 <= from <= r && OccursAt(hay, needle, r)
    requires forall k :: from <= k < r ==> !OccursAt(hay, needle, k)
    ensures IndexOf(hay, needle, from) == r
  {
  }

  /** indexOf finds nothing when no occurrence starts at or after `from`. */
  lemma IndexOfMissing(hay: string, needle: string, from: int)
    requires 0 <= from <= |hay|
    requires forall k :: from <= k <= |hay| ==> !OccursAt(hay, needle, k)
    ensures IndexOf(hay, needle, from) == -1
  {
  }

  /** Integer.toString is one-to-one. */
  lemma IntToStringInjective(a: int, b: int)
    requires IntToString(a) == IntToString(b)
    ensures a == b
  {
    ParseIntToString(a);
    ParseIntToString(b);
  }
}
