/**
 * Selector: a text buffer and a stack of SelectionRange objects. Every public
 * operation is proved to act on the pair (buffer, values of the ranges) exactly as
 * the corresponding function of SelectorState, where the properties are proved.
 */
module Selectors {
  import opened Wrappers
  import opened JavaStrings
  import opened SelectorOptions
  import opened Ranges
  import opened SelectorState

  /** The current values of a list of ranges, in order. */
  function Snapshot(ranges: seq<SelectionRange>): (bounds: seq<Bounds>)
    reads ranges
    ensures |bounds| == |ranges|
    ensures forall i :: 0 <= i < |ranges| ==> bounds[i] == ranges[i].Value()
  {
    seq(|ranges|, i requires 0 <= i < |ranges| reads ranges => ranges[i].Value())
  }

  /**
   * loadFromFile, with the file given as its lines: each line is appended, preceded
   * by "\n" unless nothing has been appended yet, so that empty leading lines vanish.
   */
  function JoinedLines(lines: seq<string>): (text: string)
  {
    if lines == [] then ""
    else
      var before := JoinedLines(lines[..|lines| - 1]);
      (if |before| != 0 then before + "\n" else before) + lines[|lines| - 1]
  }

  /** The lines separated by "\n": what the loop gives when the first line is not empty. */
  function Intercalated(lines: seq<string>): (text: string)
    requires |lines| >= 1
  {
    if |lines| == 1 then lines[0] else lines[0] + "\n" + Intercalated(lines[1..])
  }

  /** The loop of loadFromFile over the lines a Scanner would return. */
  method LoadFromLines(lines: seq<string>) returns (text: string)
    ensures text == JoinedLines(lines)
  {
    text := "";
    var i := 0;
    while i < |lines|
      invariant 0 <= i <= |lines|
      invariant text == JoinedLines(lines[..i])
    {
      if |text| != 0 {
        text := text + "\n";
      }
      text := text + lines[i];
      assert lines[..i + 1][..i] == lines[..i];
      i := i + 1;
    }
    assert lines[..|lines|] == lines;
  }

  /** Empty lines before the first non-empty one leave no trace in the loaded text. */
  lemma {:induction false} LeadingEmptyLinesVanish(empties: seq<string>, lines: seq<string>)
    requires forall i :: 0 <= i < |empties| ==> empties[i] == ""
    ensures JoinedLines(empties + lines) == JoinedLines(lines)
    decreases |lines|
  {
    if lines == [] {
      EmptyLinesJoinToNothing(empties);
      assert empties + lines == empties;
    } else {
      assert (empties + lines)[..|empties + lines| - 1] == empties + lines[..|lines| - 1];
      LeadingEmptyLinesVanish(empties, lines[..|lines| - 1]);
    }
  }

  lemma {:induction false} EmptyLinesJoinToNothing(empties: seq<string>)
    requires forall i :: 0 <= i < |empties| ==> empties[i] == ""
    ensures JoinedLines(empties) == ""
    decreases |empties|
  {
    if empties != [] {
      EmptyLinesJoinToNothing(empties[..|empties| - 1]);
    }
  }

  lemma {:induction false} IntercalatedAppend(lines: seq<string>, line: string)
    requires |lines| >= 1
    ensures Intercalated(lines + [line]) == Intercalated(lines) + "\n" + line
    decreases |lines|
  {
    if |lines| > 1 {
      assert (lines + [line])[1..] == lines[1..] + [line];
      IntercalatedAppend(lines[1..], line);
    }
  }

  /** When the first line is not empty, the loaded text is the lines joined by "\n". */
  lemma {:induction false} JoinedLinesIntercalates(lines: seq<string>)
    requires |lines| >= 1 && lines[0] != ""
    ensures JoinedLines(lines) == Intercalated(lines)
    decreases |lines|
  {
    if |lines| > 1 {
      var init := lines[..|lines| - 1];
      JoinedLinesIntercalates(init);
      assert |JoinedLines(init)| != 0 by {
        assert |Intercalated(init)| >= |init[0]|;
      }
      IntercalatedAppend(init, lines[|lines| - 1]);
      assert init + [lines[|lines| - 1]] == lines;
    }
  }

  class Selector {
    var text: string
    var selections: seq<SelectionRange>

    /** The buffer and the values of the ranges. */
    function Model(): State
      reads this, selections
    {
      State(text, Snapshot(selections))
    }

    /** No range object occurs twice in the stack, and the values are well formed. */
    predicate Valid()
      reads this, selections
    {
      && (forall i, j :: 0 <= i < j < |selections| ==> selections[i] != selections[j])
      && WellFormed(Model())
    }

    /** Selector(String): the buffer holds `text` and the whole of it is selected. */
    constructor (text: string)
      ensures Valid() && Model() == Cleared(text)
    {
      this.text := text;
      selections := [];
      new;
      ClearSelection();
    }

    /** Selector(): an empty buffer. */
    constructor Empty()
      ensures Valid() && Model() == Cleared("")
    {
      text := "";
      selections := [];
      new;
      ClearSelection();
    }

    /** Selector(File), with the file given as its lines. */
    constructor FromLines(lines: seq<string>)
      ensures Valid() && Model() == Cleared(JoinedLines(lines))
    {
      var loaded := LoadFromLines(lines);
      text := loaded;
      selections := [];
      new;
      ClearSelection();
    }

    /** clearSelection: the stack becomes the one base range over the whole buffer. */
    method ClearSelection()
      modifies this`selections
      ensures Valid() && Model() == Cleared(text)
    {
      var base := new SelectionRange(0, |text|, 0, |text|);
      selections := [base];
    }

    /** getLastSelection: the top of the stack, the search window. */
    function GetLastSelection(): (range: SelectionRange)
      reads this, selections
      requires Valid()
      ensures range in selections && range.Value() == Top(Model())
    {
      selections[|selections| - 1]
    }

    /** append: grow the buffer and stretch the base range (end, then effectiveEnd) over it. */
    method Append(s: string)
      requires Valid()
      modifies this`text, selections[0]
      ensures Valid() && Model() == Appended(old(Model()), s)
    {
      text := text + s;
      var end := |text|;
      var main := selections[0];
      var endAccepted := main.SetEnd(end);
      var effectiveEndAccepted := main.SetEffectiveEnd(end);
      assert endAccepted && effectiveEndAccepted;
      assert forall i :: 1 <= i < |selections| ==> selections[i].Value() == old(selections[i].Value());
      assert Snapshot(selections) == Appended(old(Model()), s).stack;
    }

    /** deselectText: pop the top range, failing when only the base range is left. */
    method DeselectText() returns (r: Result<(), SelectorError>)
      requires Valid()
      modifies this`selections
      ensures Valid() && Step(r, Model()) == Deselected(old(Model()))
    {
      if |selections| < 2 {
        return Failure(DeselectionFailed(NoSelectedText));
      }
      selections := selections[..|selections| - 1];
      assert Snapshot(selections) == old(Model()).stack[..|selections|];
      r := Success(());
    }

    /**
     * setSelection: fold the buffer and the delimiters under IGNORE_CASE and search the
     * top range's window, then act on the outcome.
     */
    method SetSelection(startString: Option<string>, endString: Option<string>, options: seq<SelectorOption>)
      returns (r: Result<bool, SelectorError>)
      requires Valid()
      modifies this`selections, selections[|selections| - 1]
      ensures Valid() && Step(r, Model()) == Selected(old(Model()), startString, endString, options)
    {
      var ignoreCase := IsInclude(IgnoreCase, options);
      var tempText := Folded(text, ignoreCase);
      var lastRange := GetLastSelection();
      var location := LocateIn(tempText, lastRange.Value(), FoldedDelimiter(startString, ignoreCase),
                               FoldedDelimiter(endString, ignoreCase));
      assert location == Locate(text, Top(Model()), startString, endString, options);
      r := SelectAt(location, options);
    }

    /**
     * The rest of setSelection once the search is done: report a miss, or push the
     * range of the match and, unless NO_MOVE, move the cursor of the old top past it.
     */
    method SelectAt(location: Location, options: seq<SelectorOption>) returns (r: Result<bool, SelectorError>)
      requires Valid() && Fits(Top(Model()), location)
      modifies this`selections, selections[|selections| - 1]
      ensures Valid() && Step(r, Model()) == SelectedAt(old(Model()), location, options)
    {
      var optional := IsInclude(Optional, options);
      match location {
        case Missing(message) =>
          r := if optional then Success(false) else Failure(SelectionNotFound(message));
        case Found(_, _, _, _) =>
          PushMatch(location, options);
          r := Success(true);
      }
    }

    /** The success path of setSelection: push the range of the match and, unless NO_MOVE, move the old top's cursor past it. */
    method PushMatch(location: Location, options: seq<SelectorOption>)
      requires Valid() && Fits(Top(Model()), location) && location.Found?
      modifies this`selections, selections[|selections| - 1]
      ensures Valid() && Model() == SelectedAt(old(Model()), location, options).state
    {
      ghost var before := Model();
      SelectedAtPushesThenMoves(before, location, options);
      var includeDelimiters := IsInclude(IncludeDelimiters, options);
      var range := new SelectionRange(location.start, location.end,
                                      if includeDelimiters then location.start else location.effectiveStart,
                                      if includeDelimiters then location.end else location.effectiveEnd);
      assert range.Value() == Pushed(location, options);
      ghost var pushed := before.stack + [range.Value()];
      var lastRange := |selections| - 1;
      Push(range);
      assert Model() == State(before.text, pushed);
      var noMove := IsInclude(NoMove, options);
      if !noMove {
        assert selections[lastRange] == old(selections[|selections| - 1]);
        MoveCursor(lastRange, location.end);
        assert Model() == State(before.text, pushed[lastRange := pushed[lastRange].(effectiveStart := location.end)]);
      }
    }

    /** selections.add(range), for a range not yet on the stack. */
    method Push(range: SelectionRange)
      requires Valid() && range !in selections
      requires range.Value().Ordered() && range.Value().end <= |text|
      modifies this`selections
      ensures selections == old(selections) + [range]
      ensures Valid() && Model() == State(text, old(Model()).stack + [range.Value()])
    {
      selections := selections + [range];
      assert Snapshot(selections) == old(Model()).stack + [range.Value()];
    }

    /** setEffectiveStart(value) on the range at depth `k`, when the range accepts it. */
    method MoveCursor(k: int, value: int)
      requires Valid() && 0 <= k < |selections|
      requires Model().stack[k].AcceptsEffectiveStart(value) && Model().stack[k].start <= value
      modifies selections[k]
      ensures Valid() && Model() == State(text, old(Model()).stack[k := old(Model()).stack[k].(effectiveStart := value)])
    {
      var range := selections[k];
      var accepted := range.SetEffectiveStart(value);
      assert accepted;
      assert forall i :: 0 <= i < |selections| && i != k ==> selections[i].Value() == old(selections[i].Value());
      assert Snapshot(selections) == old(Model()).stack[k := old(Model()).stack[k].(effectiveStart := value)];
    }

    /** selectTextToEnd(startString, option...): from the start text to the window's end. */
    method SelectTextToEnd(startString: string, options: seq<SelectorOption>) returns (r: Result<bool, SelectorError>)
      requires Valid()
      modifies this`selections, selections[|selections| - 1]
      ensures Valid() && Step(r, Model()) == Selected(old(Model()), Some(startString), None, options)
    {
      r := SetSelection(Some(startString), None, options);
    }

    /** selectTextFromStart(endString, option...): from the window's cursor to the end text. */
    method SelectTextFromStart(endString: string, options: seq<SelectorOption>) returns (r: Result<bool, SelectorError>)
      requires Valid()
      modifies this`selections, selections[|selections| - 1]
      ensures Valid() && Step(r, Model()) == Selected(old(Model()), None, Some(endString), options)
    {
      r := SetSelection(None, Some(endString), options);
    }

    /** selectText(startString, endString, option...): between the two texts. */
    method SelectText(startString: string, endString: string, options: seq<SelectorOption>)
      returns (r: Result<bool, SelectorError>)
      requires Valid()
      modifies this`selections, selections[|selections| - 1]
      ensures Valid() && Step(r, Model()) == Selected(old(Model()), Some(startString), Some(endString), options)
    {
      r := SetSelection(Some(startString), Some(endString), options);
    }

    /** The body shared by the four contains forms: select with NO_MOVE and OPTIONAL, and undo it. */
    method Contains(startString: Option<string>, endString: Option<string>, ignoreCase: bool) returns (found: bool)
      requires Valid()
      modifies this`selections, selections[|selections| - 1]
      ensures Valid() && Model() == old(Model())
      ensures found == (Selected(old(Model()), startString, endString, ContainsOptions(ignoreCase)).result == Success(true))
    {
      ContainsLeavesStateUnchanged(Model(), startString, endString, ContainsOptions(ignoreCase));
      var selected := SetSelection(startString, endString, ContainsOptions(ignoreCase));
      if selected == Success(true) {
        var popped := DeselectText();
        found := true;
      } else {
        found := false;
      }
    }

    /** containsText(string): does `s` occur inside the window's effective interval? */
    method ContainsText(s: string) returns (found: bool)
      requires Valid()
      modifies this`selections, selections[|selections| - 1]
      ensures Valid() && Model() == old(Model())
      ensures found <==> exists j :: Top(Model()).effectiveStart <= j && j + |s| <= Top(Model()).effectiveEnd &&
                                     OccursAt(text, s, j)
    {
      ContainsTextIffOccurs(Model(), s, false);
      found := Contains(None, Some(s), false);
    }

    /** containsTextIgnoringCase(string): the same on the lower-cased buffer and text. */
    method ContainsTextIgnoringCase(s: string) returns (found: bool)
      requires Valid()
      modifies this`selections, selections[|selections| - 1]
      ensures Valid() && Model() == old(Model())
      ensures found <==> exists j :: Top(Model()).effectiveStart <= j && j + |s| <= Top(Model()).effectiveEnd &&
                                     OccursAt(ToLowerCase(text), ToLowerCase(s), j)
    {
      ContainsTextIffOccurs(Model(), s, true);
      found := Contains(None, Some(s), true);
    }

    /** containsText(startString, endString): is there a match for the pair in the window? */
    method ContainsTextBetween(startString: string, endString: string) returns (found: bool)
      requires Valid()
      modifies this`selections, selections[|selections| - 1]
      ensures Valid() && Model() == old(Model())
      ensures found <==> exists k, j :: MatchAt(text, Top(Model()), Some(startString), Some(endString), k, j)
    {
      assert IgnoreCase !in ContainsOptions(false);
      SelectedSucceedsIffMatch(Model(), Some(startString), Some(endString), ContainsOptions(false));
      found := Contains(Some(startString), Some(endString), false);
    }

    /** containsTextIgnoringCase(startString, endString): the same on the lower-cased buffer and texts. */
    method ContainsTextBetweenIgnoringCase(startString: string, endString: string) returns (found: bool)
      requires Valid()
      modifies this`selections, selections[|selections| - 1]
      ensures Valid() && Model() == old(Model())
      ensures found <==> exists k, j :: MatchAt(ToLowerCase(text), Top(Model()), Some(ToLowerCase(startString)),
                                                Some(ToLowerCase(endString)), k, j)
    {
      assert IgnoreCase in ContainsOptions(true);
      SelectedSucceedsIffMatch(Model(), Some(startString), Some(endString), ContainsOptions(true));
      found := Contains(Some(startString), Some(endString), true);
    }

    /** extractText(): the text of the top range's effective interval. */
    method ExtractText() returns (x: string)
      requires Valid()
      ensures x == Extracted(Model())
    {
      var range := GetLastSelection();
      x := text[range.effectiveStart..range.effectiveEnd];
    }

    /** extractText() followed by deselectText(), on a selector with a range above the base. */
    method TakeSelection() returns (x: string)
      requires Valid() && |selections| >= 2
      modifies this`selections
      ensures Valid()
      ensures x == Extracted(old(Model())) && Model() == Deselected(old(Model())).state
    {
      x := ExtractText();
      var popped := DeselectText();
    }

    /**
     * The body shared by the extract forms that take options: select, and on success
     * extract and deselect; a miss under OPTIONAL gives None (Java's null).
     */
    method ExtractWith(startString: Option<string>, endString: Option<string>, options: seq<SelectorOption>)
      returns (r: Result<Option<string>, SelectorError>)
      requires Valid()
      modifies this`selections, selections[|selections| - 1]
      ensures Valid() && Step(r, Model()) == ExtractedWith(old(Model()), startString, endString, options)
    {
      ghost var st := Model();
      ghost var location := Locate(st.text, Top(st), startString, endString, options);
      ghost var expected := ExtractedAt(st, location, options);
      assert ExtractedWith(st, startString, endString, options) == expected;
      ghost var selectedAt := SelectedAt(st, location, options);
      assert Selected(st, startString, endString, options) == selectedAt;
      ExtractedAtCases(st, location, options);
      var selected := SetSelection(startString, endString, options);
      if selected.Failure? {
        r := Failure(selected.error);
      } else if selected.value {
        SelectedAtPushes(st, location, options);
        var x := TakeSelection();
        r := Success(Some(x));
      } else {
        r := Success(None);
      }
      assert Step(r, Model()) == expected;
    }

    /**
     * The body shared by the extract forms without options: select with NO_OPTIONS
     * (a miss is an error), extract and deselect.
     */
    method ExtractRequired(startString: Option<string>, endString: Option<string>)
      returns (r: Result<string, SelectorError>)
      requires Valid()
      modifies this`selections, selections[|selections| - 1]
      ensures Valid()
      ensures var e := ExtractedWith(old(Model()), startString, endString, [NoOptions]);
              && Model() == e.state
              && (r.Success? <==> e.result.Success?)
              && (r.Success? ==> e.result == Success(Some(r.value)))
              && (r.Failure? ==> e.result == Failure(r.error))
    {
      ghost var st := Model();
      ghost var location := Locate(st.text, Top(st), startString, endString, [NoOptions]);
      ghost var expected := ExtractedAt(st, location, [NoOptions]);
      assert ExtractedWith(st, startString, endString, [NoOptions]) == expected;
      ghost var selectedAt := SelectedAt(st, location, [NoOptions]);
      assert Selected(st, startString, endString, [NoOptions]) == selectedAt;
      assert Optional !in [NoOptions];
      ExtractedAtCases(st, location, [NoOptions]);
      var selected := SetSelection(startString, endString, [NoOptions]);
      if selected.Failure? {
        return Failure(selected.error);
      }
      SelectedAtPushes(st, location, [NoOptions]);
      var x := TakeSelection();
      r := Success(x);
    }

    /** extractTextToEnd(startString). */
    method ExtractTextToEnd(startString: string) returns (r: Result<string, SelectorError>)
      requires Valid()
      modifies this`selections, selections[|selections| - 1]
      ensures Valid()
      ensures var e := ExtractedWith(old(Model()), Some(startString), None, [NoOptions]);
              && Model() == e.state
              && (r.Success? <==> e.result.Success?)
              && (r.Success? ==> e.result == Success(Some(r.value)))
              && (r.Failure? ==> e.result == Failure(r.error))
    {
      r := ExtractRequired(Some(startString), None);
    }

    /** extractTextToEnd(startString, option). */
    method ExtractTextToEndWith(startString: string, option: SelectorOption)
      returns (r: Result<Option<string>, SelectorError>)
      requires Valid()
      modifies this`selections, selections[|selections| - 1]
      ensures Valid() && Step(r, Model()) == ExtractedWith(old(Model()), Some(startString), None, [option])
    {
      r := ExtractWith(Some(startString), None, [option]);
    }

    /** extractTextFromStart(endString). */
    method ExtractTextFromStart(endString: string) returns (r: Result<string, SelectorError>)
      requires Valid()
      modifies this`selections, selections[|selections| - 1]
      ensures Valid()
      ensures var e := ExtractedWith(old(Model()), None, Some(endString), [NoOptions]);
              && Model() == e.state
              && (r.Success? <==> e.result.Success?)
              && (r.Success? ==> e.result == Success(Some(r.value)))
              && (r.Failure? ==> e.result == Failure(r.error))
    {
      r := ExtractRequired(None, Some(endString));
    }

    /** extractTextFromStart(endString, option). */
    method ExtractTextFromStartWith(endString: string, option: SelectorOption)
      returns (r: Result<Option<string>, SelectorError>)
      requires Valid()
      modifies this`selections, selections[|selections| - 1]
      ensures Valid() && Step(r, Model()) == ExtractedWith(old(Model()), None, Some(endString), [option])
    {
      r := ExtractWith(None, Some(endString), [option]);
    }

    /** extractText(startString, endString). */
    method ExtractTextBetween(startString: string, endString: string) returns (r: Result<string, SelectorError>)
      requires Valid()
      modifies this`selections, selections[|selections| - 1]
      ensures Valid()
      ensures var e := ExtractedWith(old(Model()), Some(startString), Some(endString), [NoOptions]);
              && Model() == e.state
              && (r.Success? <==> e.result.Success?)
              && (r.Success? ==> e.result == Success(Some(r.value)))
              && (r.Failure? ==> e.result == Failure(r.error))
    {
      r := ExtractRequired(Some(startString), Some(endString));
    }

    /** extractText(startString, endString, option...). */
    method ExtractTextBetweenWith(startString: string, endString: string, options: seq<SelectorOption>)
      returns (r: Result<Option<string>, SelectorError>)
      requires Valid()
      modifies this`selections, selections[|selections| - 1]
      ensures Valid() && Step(r, Model()) == ExtractedWith(old(Model()), Some(startString), Some(endString), options)
    {
      r := ExtractWith(Some(startString), Some(endString), options);
    }
  }
}
