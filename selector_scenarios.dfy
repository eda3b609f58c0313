/**
 * Worked examples of the selector steps on small concrete buffers.
 */
module SelectorScenarios {
  import opened Wrappers
  import opened JavaStrings
  import opened SelectorOptions
  import opened Ranges
  import opened SelectorState

  const Brackets: string := "a[bc]d"

  lemma BracketPositions()
    ensures IndexOf(Brackets, "[", 0) == 1
    ensures IndexOf(Brackets, "]", 2) == 4
  {
    var hay := Brackets;
    OccursAtSingle(hay, '[', 0);
    OccursAtSingle(hay, '[', 1);
    IndexOfIsFirstOccurrence(hay, "[", 0, 1);
    OccursAtSingle(hay, ']', 2);
    OccursAtSingle(hay, ']', 3);
    OccursAtSingle(hay, ']', 4);
    IndexOfIsFirstOccurrence(hay, "]", 2, 4);
  }

  /** extractText("[", "]") on "a[bc]d" gives the text between the brackets. */
  lemma ExtractBetweenBrackets()
    ensures ExtractedWith(Cleared(Brackets), Some("["), Some("]"), [NoOptions]).result == Success(Some("bc"))
  {
    BracketPositions();
    var st := Cleared(Brackets);
    var location := Locate(st.text, Top(st), Some("["), Some("]"), [NoOptions]);
    assert location == Found(1, 2, 4, 5);
    var selected := SelectedAt(st, location, [NoOptions]);
    assert Top(selected.state) == Bounds(1, 5, 2, 4);
    assert Extracted(selected.state) == Brackets[2..4] == "bc";
    assert ExtractedWith(st, Some("["), Some("]"), [NoOptions]) == ExtractedAt(st, location, [NoOptions]);
  }

  /** With INCLUDE_DELIMITERS the brackets are part of the extracted text. */
  lemma ExtractBracketsIncluded()
    ensures ExtractedWith(Cleared(Brackets), Some("["), Some("]"), [IncludeDelimiters]).result == Success(Some("[bc]"))
  {
    BracketPositions();
    var st := Cleared(Brackets);
    var location := Locate(st.text, Top(st), Some("["), Some("]"), [IncludeDelimiters]);
    assert location == Found(1, 2, 4, 5);
    var selected := SelectedAt(st, location, [IncludeDelimiters]);
    assert Top(selected.state) == Bounds(1, 5, 1, 5);
    assert Extracted(selected.state) == Brackets[1..5] == "[bc]";
    assert ExtractedWith(st, Some("["), Some("]"), [IncludeDelimiters]) == ExtractedAt(st, location, [IncludeDelimiters]);
  }

  lemma NoBrace()
    ensures IndexOf(Brackets, "{", 0) == -1
  {
    forall k | 0 <= k <= |Brackets|
      ensures !OccursAt(Brackets, "{", k)
    {
      OccursAtSingle(Brackets, '{', k);
    }
    IndexOfMissing(Brackets, "{", 0);
  }

  /** A missing start delimiter under OPTIONAL: no value. */
  lemma MissingStartOptional()
    ensures ExtractedWith(Cleared(Brackets), Some("{"), None, [Optional]).result == Success(None)
  {
    NoBrace();
    var st := Cleared(Brackets);
    assert Locate(st.text, Top(st), Some("{"), None, [Optional]) == Missing(StartNotFound("{"));
  }

  /** A missing start delimiter without OPTIONAL: the exception's message. */
  lemma MissingStartFails()
    ensures ExtractedWith(Cleared(Brackets), Some("{"), None, [NoOptions]).result
            == Failure(SelectionNotFound("Start text: \"{\" not found."))
  {
    NoBrace();
    var st := Cleared(Brackets);
    var location := Locate(st.text, Top(st), Some("{"), None, [NoOptions]);
    assert location == Missing(StartNotFound("{"));
    assert ExtractedWith(st, Some("{"), None, [NoOptions]) == ExtractedAt(st, location, [NoOptions]);
    assert StartNotFound("{") == "Start text: \"{\" not found.";
  }

  /** A missing start delimiter: no value under OPTIONAL, the exception's message otherwise. */
  lemma MissingStart()
    ensures ExtractedWith(Cleared(Brackets), Some("{"), None, [Optional]).result == Success(None)
    ensures ExtractedWith(Cleared(Brackets), Some("{"), None, [NoOptions]).result
            == Failure(SelectionNotFound("Start text: \"{\" not found."))
  {
    MissingStartOptional();
    MissingStartFails();
  }

  const Pairs: string := "a=1;b=2;"

  lemma PairPositions()
    ensures IndexOf(Pairs, "=", 0) == 1 && IndexOf(Pairs, ";", 2) == 3
    ensures IndexOf(Pairs, "=", 4) == 5 && IndexOf(Pairs, ";", 6) == 7
  {
    OccursAtSingle(Pairs, '=', 0);
    OccursAtSingle(Pairs, '=', 1);
    IndexOfIsFirstOccurrence(Pairs, "=", 0, 1);
    OccursAtSingle(Pairs, ';', 2);
    OccursAtSingle(Pairs, ';', 3);
    IndexOfIsFirstOccurrence(Pairs, ";", 2, 3);
    OccursAtSingle(Pairs, '=', 4);
    OccursAtSingle(Pairs, '=', 5);
    IndexOfIsFirstOccurrence(Pairs, "=", 4, 5);
    OccursAtSingle(Pairs, ';', 6);
    OccursAtSingle(Pairs, ';', 7);
    IndexOfIsFirstOccurrence(Pairs, ";", 6, 7);
  }

  /** The first extraction returns the first value and leaves the cursor past its ";". */
  lemma ExtractFirstValue()
    ensures ExtractedWith(Cleared(Pairs), Some("="), Some(";"), [NoOptions])
            == Step(Success(Some("1")), State(Pairs, [Bounds(0, 8, 4, 8)]))
  {
    PairPositions();
    var st := Cleared(Pairs);
    var location := Locate(st.text, Top(st), Some("="), Some(";"), [NoOptions]);
    assert location == Found(1, 2, 3, 4);
    var selected := SelectedAt(st, location, [NoOptions]);
    assert selected.state.stack == [Bounds(0, 8, 4, 8), Bounds(1, 4, 2, 3)];
    assert Extracted(selected.state) == Pairs[2..3] == "1";
    assert ExtractedWith(st, Some("="), Some(";"), [NoOptions]) == ExtractedAt(st, location, [NoOptions]);
  }

  /** From there the same extraction finds the next pair. */
  lemma ExtractSecondValue()
    ensures ExtractedWith(State(Pairs, [Bounds(0, 8, 4, 8)]), Some("="), Some(";"), [NoOptions]).result
            == Success(Some("2"))
  {
    PairPositions();
    var st := State(Pairs, [Bounds(0, 8, 4, 8)]);
    var location := Locate(st.text, Top(st), Some("="), Some(";"), [NoOptions]);
    assert location == Found(5, 6, 7, 8);
    var selected := SelectedAt(st, location, [NoOptions]);
    assert Top(selected.state) == Bounds(5, 8, 6, 7);
    assert Extracted(selected.state) == Pairs[6..7] == "2";
    assert ExtractedWith(st, Some("="), Some(";"), [NoOptions]) == ExtractedAt(st, location, [NoOptions]);
  }

  /** Two extractions in a row: the cursor moves past the first match, so the second finds the next pair. */
  lemma ExtractConsecutiveValues()
    ensures var first := ExtractedWith(Cleared(Pairs), Some("="), Some(";"), [NoOptions]);
            && first.result == Success(Some("1"))
            && ExtractedWith(first.state, Some("="), Some(";"), [NoOptions]).result == Success(Some("2"))
  {
    ExtractFirstValue();
    ExtractSecondValue();
  }
}
