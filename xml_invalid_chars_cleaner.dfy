/**
 * XmlInvalidCharsCleaner: removes from a string every character that may not
 * appear in an XML document, keeping the rest in order.
 *
 * A string is taken as its sequence of Unicode code points; a surrogate that is not
 * part of a pair stands for itself, as a code point between 0xD800 and 0xDFFF.
 */
module XmlInvalidCharsCleaner {

  type CodePoint = c: int | 0 <= c <= 0x10FFFF

  /** The characters the pattern keeps: 0x1-0xD7FF, 0xE000-0xFFFD and 0x10000-0x10FFFF. */
  predicate IsXmlChar(c: CodePoint) {
    (0x1 <= c <= 0xD7FF) || (0xE000 <= c <= 0xFFFD) || (0x10000 <= c <= 0x10FFFF)
  }

  /** Every run of characters outside the kept ranges is replaced by nothing. */
  function Clean(source: seq<CodePoint>): (r: seq<CodePoint>)
    ensures |r| <= |source|
    ensures forall i :: 0 <= i < |r| ==> IsXmlChar(r[i])
  {
    if source == [] then []
    else
      var rest := Clean(source[1..]);
      if IsXmlChar(source[0]) then [source[0]] + rest else rest
  }

  /** Cleaning works piece by piece: what is removed from one part does not depend on the other. */
  lemma {:induction false} CleanConcat(a: seq<CodePoint>, b: seq<CodePoint>)
    ensures Clean(a + b) == Clean(a) + Clean(b)
    decreases |a|
  {
    if a == [] {
      assert a + b == b;
    } else {
      CleanConcat(a[1..], b);
      assert (a + b)[1..] == a[1..] + b;
    }
  }

  /** Each kept character survives as often as it occurs; each other character disappears. */
  lemma {:induction false} CleanCounts(source: seq<CodePoint>, c: CodePoint)
    ensures multiset(Clean(source))[c] == if IsXmlChar(c) then multiset(source)[c] else 0
    decreases |source|
  {
    if source != [] {
      CleanCounts(source[1..], c);
      assert source == [source[0]] + source[1..];
    }
  }

  /** A string is left as it is exactly when every character in it is allowed. */
  lemma {:induction false} CleanIdentityIffValid(source: seq<CodePoint>)
    ensures Clean(source) == source <==> forall i :: 0 <= i < |source| ==> IsXmlChar(source[i])
    decreases |source|
  {
    if source != [] {
      CleanIdentityIffValid(source[1..]);
      if !IsXmlChar(source[0]) {
        assert |Clean(source)| < |source| by {
          assert Clean(source) == Clean(source[1..]);
        }
      } else {
        assert forall i :: 1 <= i < |source| ==> source[i] == source[1..][i - 1];
      }
    }
  }

  /** Cleaning twice is cleaning once. */
  lemma CleanIdempotent(source: seq<CodePoint>)
    ensures Clean(Clean(source)) == Clean(source)
  {
    CleanIdentityIffValid(Clean(source));
  }

  /** `sub` is `s` with some characters left out. */
  predicate IsSubsequence(sub: seq<CodePoint>, s: seq<CodePoint>)
    decreases |s|
  {
    if sub == [] then true
    else if s == [] then false
    else if sub[0] == s[0] then IsSubsequence(sub[1..], s[1..])
    else IsSubsequence(sub, s[1..])
  }

  /** The kept characters appear in their original order: the result is a subsequence of the input. */
  lemma {:induction false} CleanIsSubsequence(source: seq<CodePoint>)
    ensures IsSubsequence(Clean(source), source)
    decreases |source|
  {
    if source != [] {
      CleanIsSubsequence(source[1..]);
    }
  }

  /** The NUL character, the non-characters 0xFFFE and 0xFFFF and a lone surrogate are stripped. */
  lemma CleanExample()
    ensures Clean([0x41, 0x0, 0x42, 0xFFFE, 0xFFFF, 0xD800, 0x1F600, 0x9]) == [0x41, 0x42, 0x1F600, 0x9]
  {
  }
}
