/**
 * XmlValidationError: the kind of an XML validation problem, where it occurred and
 * the parser's message, and the one-line rendering of it.
 */
module XmlValidationErrors {
  import opened JavaStrings

  /** The enum Type. */
  datatype ErrorType = Warning | Error | FatalError

  /** Enum.toString: the constant's name. */
  function TypeName(t: ErrorType): string {
    match t
    case Warning => "Warning"
    case Error => "Error"
    case FatalError => "FatalError"
  }

  /** The fields of an XmlValidationError; the constructor stores them unchanged. */
  datatype XmlValidationError = XmlValidationError(errorType: ErrorType, line: int, position: int, info: string)

  /** `s` with a space before every upper-case letter that does not open the string. */
  function Spaced(s: string): (r: string)
  {
    if s == [] then []
    else
      var c := s[|s| - 1];
      Spaced(s[..|s| - 1]) + (if IsUpperCase(c) && |s| > 1 then " " + [c] else [c])
  }

  /** Every character of `r` that comes right after a space and is upper case loses that space. */
  function Unspaced(r: string): (s: string)
  {
    if r == [] then []
    else
      var c := r[|r| - 1];
      if IsUpperCase(c) && |r| >= 2 && r[|r| - 2] == ' ' then Unspaced(r[..|r| - 2]) + [c]
      else Unspaced(r[..|r| - 1]) + [c]
  }

  /** The number of upper-case letters of `s`. */
  function UpperCount(s: string): nat {
    if s == [] then 0 else UpperCount(s[..|s| - 1]) + (if IsUpperCase(s[|s| - 1]) then 1 else 0)
  }

  lemma {:induction false} SpacedLength(s: string)
    ensures |Spaced(s)| == |s| + (if s == [] then 0 else UpperCount(s[1..]))
    decreases |s|
  {
    if |s| > 1 {
      var init := s[..|s| - 1];
      SpacedLength(init);
      assert s[1..][..|s[1..]| - 1] == init[1..];
    }
  }

  /**
   * splitUpper: the loop over the characters, appending a space before an upper-case
   * letter whenever something has been appended already.
   */
  method SplitUpper(s: string) returns (r: string)
    ensures r == Spaced(s)
  {
    r := "";
    for i := 0 to |s|
      invariant r == Spaced(s[..i])
      invariant |r| >= i
    {
      var c := s[i];
      if IsUpperCase(c) {
        if |r| != 0 {
          r := r + " ";
        }
      }
      r := r + [c];
      assert s[..i + 1][..i] == s[..i];
    }
    assert s[..|s|] == s;
  }

  /** The spaces splitUpper inserts can be taken out again: the rendering loses nothing. */
  lemma {:induction false} UnspacedSpaced(s: string)
    ensures Unspaced(Spaced(s)) == s
    decreases |s|
  {
    if s != [] {
      var init := s[..|s| - 1];
      var c := s[|s| - 1];
      UnspacedSpaced(init);
      var r := Spaced(s);
      if IsUpperCase(c) && |s| > 1 {
        SpacedLength(init);
        assert r[..|r| - 2] == Spaced(init);
      } else {
        assert r[..|r| - 1] == Spaced(init);
        if IsUpperCase(c) {
          assert |s| == 1 && |r| == 1;
        }
      }
      assert init + [c] == s;
    }
  }

  lemma SpacedInjective(a: string, b: string)
    requires Spaced(a) == Spaced(b)
    ensures a == b
  {
    UnspacedSpaced(a);
    UnspacedSpaced(b);
  }

  /** A string with no upper-case letter after its first character is left as it is. */
  lemma {:induction false} SpacedWithoutInnerUpper(s: string)
    requires forall i :: 1 <= i < |s| ==> !IsUpperCase(s[i])
    ensures Spaced(s) == s
    decreases |s|
  {
    if s != [] {
      SpacedWithoutInnerUpper(s[..|s| - 1]);
      assert s[..|s| - 1] + [s[|s| - 1]] == s;
    }
  }

  lemma SpacedSnoc(s: string, c: char)
    ensures Spaced(s + [c]) == Spaced(s) + (if IsUpperCase(c) && |s| > 0 then " " + [c] else [c])
  {
    assert (s + [c])[..|s|] == s;
  }

  /** Characters that are not upper case are copied after a non-empty head. */
  lemma {:induction false} SpacedLowerTail(a: string, b: string)
    requires a != []
    requires forall i :: 0 <= i < |b| ==> !IsUpperCase(b[i])
    ensures Spaced(a + b) == Spaced(a) + b
    decreases |b|
  {
    if b != [] {
      var init := b[..|b| - 1];
      var c := b[|b| - 1];
      SpacedLowerTail(a, init);
      SpacedSnoc(a + init, c);
      assert !IsUpperCase(c);
      assert Spaced(a + init + [c]) == Spaced(a) + init + [c];
      assert a + init + [c] == a + b;
      assert init + [c] == b;
    } else {
      assert a + b == a;
    }
  }

  /** The only characters splitUpper adds are spaces. */
  lemma {:induction false} SpacedAddsOnlySpaces(s: string, ch: char)
    requires ch in Spaced(s)
    ensures ch in s || ch == ' '
    decreases |s|
  {
    var init := s[..|s| - 1];
    var c := s[|s| - 1];
    assert s == init + [c];
    if ch in Spaced(init) {
      SpacedAddsOnlySpaces(init, ch);
    }
  }

  /** Warning and Error have no inner capital and are rendered as they are. */
  lemma PlainTypeNamesSpaced()
    ensures Spaced(TypeName(Warning)) == "Warning"
    ensures Spaced(TypeName(Error)) == "Error"
  {
    SpacedWithoutInnerUpper("Warning");
    SpacedWithoutInnerUpper("Error");
  }

  /** FatalError is rendered as "Fatal Error". */
  lemma FatalErrorSpaced()
    ensures Spaced(TypeName(FatalError)) == "Fatal Error"
  {
    SpacedWithoutInnerUpper("Fatal");
    SpacedSnoc("Fatal", 'E');
    assert "Fatal" + ['E'] == "FatalE";
    SpacedLowerTail("FatalE", "rror");
    assert "FatalE" + "rror" == "FatalError";
  }

  /** toString: "<Type split at capitals>: (Line: <line>, Column: <position>) <info>". */
  function ToString(e: XmlValidationError): (r: string)
    ensures |r| > |e.info| && r[|r| - |e.info|..] == e.info
  {
    Spaced(TypeName(e.errorType)) + ": (Line: " + IntToString(e.line) + ", Column: " + IntToString(e.position)
    + ") " + e.info
  }

  /** Two strings split before the first `c` of each: the parts agree when `c` occurs in neither head. */
  lemma SplitAtFirst(x1: string, y1: string, x2: string, y2: string, c: char)
    requires x1 + y1 == x2 + y2
    requires c !in x1 && c !in x2
    requires |y1| > 0 && y1[0] == c && |y2| > 0 && y2[0] == c
    ensures x1 == x2 && y1 == y2
  {
    assert x1 == (x1 + y1)[..|x1|];
    assert x2 == (x2 + y2)[..|x2|];
  }

  lemma PrefixCancels(p: string, x: string, y: string)
    requires p + x == p + y
    ensures x == y
  {
    assert x == (p + x)[|p|..];
    assert y == (p + y)[|p|..];
  }

  /** What follows the opening of the column number. */
  function ColumnTail(position: int, info: string): string {
    IntToString(position) + (") " + info)
  }

  /** What follows the opening of the line number. */
  function LineTail(line: int, position: int, info: string): string {
    IntToString(line) + (", Column: " + ColumnTail(position, info))
  }

  lemma ColumnTailInjective(pa: int, ia: string, pb: int, ib: string)
    requires ColumnTail(pa, ia) == ColumnTail(pb, ib)
    ensures pa == pb && ia == ib
  {
    SplitAtFirst(IntToString(pa), ") " + ia, IntToString(pb), ") " + ib, ')');
    IntToStringInjective(pa, pb);
    PrefixCancels(") ", ia, ib);
  }

  lemma LineTailInjective(la: int, pa: int, ia: string, lb: int, pb: int, ib: string)
    requires LineTail(la, pa, ia) == LineTail(lb, pb, ib)
    ensures la == lb && pa == pb && ia == ib
  {
    SplitAtFirst(IntToString(la), ", Column: " + ColumnTail(pa, ia),
                 IntToString(lb), ", Column: " + ColumnTail(pb, ib), ',');
    IntToStringInjective(la, lb);
    PrefixCancels(", Column: ", ColumnTail(pa, ia), ColumnTail(pb, ib));
    ColumnTailInjective(pa, ia, pb, ib);
  }

  lemma TypeNameInjective(a: ErrorType, b: ErrorType)
    requires Spaced(TypeName(a)) == Spaced(TypeName(b))
    ensures a == b
  {
    SpacedInjective(TypeName(a), TypeName(b));
  }

  lemma ToStringSplits(e: XmlValidationError)
    ensures ToString(e) == Spaced(TypeName(e.errorType)) + (": (Line: " + LineTail(e.line, e.position, e.info))
  {
  }

  /** The spaced type name followed by ": (Line: " and the rest determines each of them. */
  lemma RenderingInjective(ta: ErrorType, la: int, pa: int, ia: string, tb: ErrorType, lb: int, pb: int, ib: string)
    requires Spaced(TypeName(ta)) + (": (Line: " + LineTail(la, pa, ia)) ==
             Spaced(TypeName(tb)) + (": (Line: " + LineTail(lb, pb, ib))
    ensures ta == tb && la == lb && pa == pb && ia == ib
  {
    var na, nb := Spaced(TypeName(ta)), Spaced(TypeName(tb));
    if ':' in na {
      SpacedAddsOnlySpaces(TypeName(ta), ':');
    }
    if ':' in nb {
      SpacedAddsOnlySpaces(TypeName(tb), ':');
    }
    SplitAtFirst(na, ": (Line: " + LineTail(la, pa, ia), nb, ": (Line: " + LineTail(lb, pb, ib), ':');
    TypeNameInjective(ta, tb);
    PrefixCancels(": (Line: ", LineTail(la, pa, ia), LineTail(lb, pb, ib));
    LineTailInjective(la, pa, ia, lb, pb, ib);
  }

  /** The rendering determines the error: type, line, column and message can all be read back. */
  lemma ToStringInjective(a: XmlValidationError, b: XmlValidationError)
    requires ToString(a) == ToString(b)
    ensures a == b
  {
    ToStringSplits(a);
    ToStringSplits(b);
    RenderingInjective(a.errorType, a.line, a.position, a.info, b.errorType, b.line, b.position, b.info);
  }
}
