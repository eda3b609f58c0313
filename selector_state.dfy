/**
 * The selector as a value: the text buffer and the stack of ranges, and the
 * search, push, pop, append and extract steps of Selector as functions of that value.
 * The Selector class (module Selectors) is proved to follow these functions.
 */
module SelectorState {
  import opened Wrappers
  import opened JavaStrings
  import opened SelectorOptions
  import opened Ranges

  /** IllegalTextSelectionException and IllegalTextDeselectionException, with their messages. */
  datatype SelectorError =
    | SelectionNotFound(message: string)
    | DeselectionFailed(message: string)

  const NoSelectedText: string := "There isn't any selected text"

  /** The message of a missing start boundary, with the delimiter in place of `#`. */
  function StartNotFound(delimiter: string): string {
    "Start text: \"" + delimiter + "\" not found."
  }

  /** The message of a missing end boundary, with the delimiter in place of `#`. */
  function EndNotFound(delimiter: string): string {
    "End text: \"" + delimiter + "\" not found."
  }

  /** The text buffer and the selection stack; the last range is the top. */
  datatype State = State(text: string, stack: seq<Bounds>)

  /**
   * What every Selector keeps: a base range spanning the whole buffer (its cursor,
   * effectiveStart, is free) and every range ordered and inside the buffer.
   */
  predicate WellFormed(st: State) {
    && |st.stack| >= 1
    && st.stack[0].start == 0
    && st.stack[0].end == |st.text|
    && st.stack[0].effectiveEnd == |st.text|
    && forall i :: 0 <= i < |st.stack| ==> st.stack[i].Ordered() && st.stack[i].end <= |st.text|
  }

  /** getLastSelection: the search window. */
  function Top(st: State): Bounds
    requires |st.stack| >= 1
  {
    st.stack[|st.stack| - 1]
  }

  /** A fresh selector over `text`: clearSelection. */
  function Cleared(text: string): (st: State)
    ensures WellFormed(st) && |st.stack| == 1
    ensures Extracted(st) == text
  {
    State(text, [Bounds(0, |text|, 0, |text|)])
  }

  /** append: the buffer grows and the base range's end and effectiveEnd follow it. */
  function Appended(st: State, s: string): (r: State)
    requires WellFormed(st)
    ensures WellFormed(r)
    ensures |r.text| == |st.text| + |s| && r.text[..|st.text|] == st.text && r.text[|st.text|..] == s
    ensures |r.stack| == |st.stack|
    ensures forall i :: 1 <= i < |st.stack| ==> r.stack[i] == st.stack[i]
    ensures r.stack[0].effectiveStart == st.stack[0].effectiveStart
  {
    var text := st.text + s;
    State(text, st.stack[0 := st.stack[0].(end := |text|, effectiveEnd := |text|)])
  }

  /** deselectText: pops the top, but never the base range. */
  function Deselected(st: State): (r: Step<()>)
    requires WellFormed(st)
    ensures WellFormed(r.state) && r.state.text == st.text
    ensures r.result.Failure? <==> |st.stack| == 1
    ensures r.result.Failure? ==> r.state == st && r.result.error == DeselectionFailed(NoSelectedText)
    ensures r.result.Success? ==> r.state.stack + [Top(st)] == st.stack
  {
    if |st.stack| < 2 then Step(Failure(DeselectionFailed(NoSelectedText)), st)
    else Step(Success(()), st.(stack := st.stack[..|st.stack| - 1]))
  }

  /** extractText(): the text between the top range's effective bounds. */
  function Extracted(st: State): (r: string)
    requires WellFormed(st)
  {
    st.text[Top(st).effectiveStart..Top(st).effectiveEnd]
  }

  /** The outcome of an operation that may fail, and the state after it. */
  datatype Step<T> = Step(result: Result<T, SelectorError>, state: State)

  // ---------------------------------------------------------------------------
  // The search of setSelection

  /** Under IGNORE_CASE both the buffer and the delimiters are lower-cased before matching. */
  function Folded(s: string, ignoreCase: bool): (r: string)
    ensures |r| == |s|
  {
    if ignoreCase then ToLowerCase(s) else s
  }

  function FoldedDelimiter(d: Option<string>, ignoreCase: bool): (r: Option<string>)
    ensures r.Some? <==> d.Some?
    ensures d.Some? ==> r.value == Folded(d.value, ignoreCase)
  {
    match d
    case None => None
    case Some(s) => Some(Folded(s, ignoreCase))
  }

  /** The text of a delimiter; an absent one is empty. */
  function Text(d: Option<string>): string {
    match d
    case None => ""
    case Some(s) => s
  }

  /** The four indices setSelection computes, or the message of the check that failed. */
  datatype Location =
    | Found(start: int, effectiveStart: int, effectiveEnd: int, end: int)
    | Missing(message: string)

  /**
   * The search of setSelection on the (possibly folded) buffer `hay` with the
   * (possibly folded) delimiters: find the start delimiter at or after the window's
   * cursor, then the end delimiter at or after the end of the start delimiter, and
   * reject anything that reaches past the window's effectiveEnd.
   */
  function LocateIn(hay: string, window: Bounds, startString: Option<string>, endString: Option<string>): (r: Location)
    requires window.Checked() && window.end <= |hay|
    ensures r.Found? ==>
              window.effectiveStart <= r.start <= r.effectiveStart <= r.effectiveEnd <= r.end <= window.effectiveEnd
    ensures r.Found? ==>
              r.effectiveStart == r.start + |Text(startString)| && r.end == r.effectiveEnd + |Text(endString)|
    ensures r.Found? && startString.None? ==> r.start == window.effectiveStart
    ensures r.Found? && startString.Some? ==>
              && OccursAt(hay, startString.value, r.start)
              && forall k :: window.effectiveStart <= k < r.start ==> !OccursAt(hay, startString.value, k)
    ensures r.Found? && endString.None? ==> r.effectiveEnd == window.effectiveEnd
    ensures r.Found? && endString.Some? ==>
              && OccursAt(hay, endString.value, r.effectiveEnd)
              && forall k :: r.effectiveStart <= k < r.effectiveEnd ==> !OccursAt(hay, endString.value, k)
    ensures r.Missing? ==>
              || (startString.Some? && r.message == StartNotFound(startString.value))
              || (endString.Some? && r.message == EndNotFound(endString.value))
  {
    var start := if startString.Some? then IndexOf(hay, startString.value, window.effectiveStart) else window.effectiveStart;
    if start < 0 || start > window.effectiveEnd then
      assert startString.Some?;
      Missing(StartNotFound(startString.value))
    else
      var effectiveStart := start + |Text(startString)|;
      if effectiveStart > window.effectiveEnd then
        assert startString.Some?;
        Missing(StartNotFound(startString.value))
      else
        var effectiveEnd := if endString.Some? then IndexOf(hay, endString.value, effectiveStart) else window.effectiveEnd;
        if effectiveEnd < 0 || effectiveEnd > window.effectiveEnd then
          assert endString.Some?;
          Missing(EndNotFound(endString.value))
        else
          var end := effectiveEnd + |Text(endString)|;
          if end > window.effectiveEnd then
            assert endString.Some?;
            Missing(EndNotFound(endString.value))
          else
            Found(start, effectiveStart, effectiveEnd, end)
  }

  /** The search of setSelection on the buffer, lower-casing buffer and delimiters first under IGNORE_CASE. */
  function Locate(text: string, window: Bounds, startString: Option<string>, endString: Option<string>,
                  options: seq<SelectorOption>): (r: Location)
    requires window.Checked() && window.end <= |text|
    ensures Fits(window, r)
    ensures r.Found? ==> 0 <= r.start && r.end <= |text|
  {
    var ignoreCase := IgnoreCase in options;
    LocateIn(Folded(text, ignoreCase), window, FoldedDelimiter(startString, ignoreCase), FoldedDelimiter(endString, ignoreCase))
  }

  /**
   * A start boundary at `k` and an end boundary at `j` that both fit the window:
   * the start delimiter occurs at `k` at or after the cursor (or `k` is the cursor),
   * and the end delimiter occurs at `j` after the start delimiter and ends inside the
   * window (or `j` is the window's effectiveEnd).
   */
  predicate MatchAt(hay: string, window: Bounds, startString: Option<string>, endString: Option<string>, k: int, j: int) {
    && (match startString
        case None => k == window.effectiveStart
        case Some(s) => window.effectiveStart <= k && OccursAt(hay, s, k))
    && k + |Text(startString)| <= j
    && (match endString
        case None => j == window.effectiveEnd
        case Some(e) => OccursAt(hay, e, j) && j + |e| <= window.effectiveEnd)
  }

  /** The search succeeds exactly when some pair of boundaries fits the window. */
  lemma LocateInFindsAnyMatch(hay: string, window: Bounds, startString: Option<string>, endString: Option<string>)
    requires window.Checked() && window.end <= |hay|
    ensures LocateIn(hay, window, startString, endString).Found? <==>
            exists k, j :: MatchAt(hay, window, startString, endString, k, j)
  {
    var r := LocateIn(hay, window, startString, endString);
    if r.Found? {
      assert MatchAt(hay, window, startString, endString, r.start, r.effectiveEnd);
    }
    if k, j :| MatchAt(hay, window, startString, endString, k, j) {
      var start := if startString.Some? then IndexOf(hay, startString.value, window.effectiveStart) else window.effectiveStart;
      if startString.Some? {
        assert OccursAt(hay, startString.value, k);
      }
      assert 0 <= start <= k;
      var effectiveStart := start + |Text(startString)|;
      assert effectiveStart <= j <= window.effectiveEnd;
      var effectiveEnd := if endString.Some? then IndexOf(hay, endString.value, effectiveStart) else window.effectiveEnd;
      if endString.Some? {
        assert OccursAt(hay, endString.value, j);
      }
      assert 0 <= effectiveEnd <= j;
      assert effectiveEnd + |Text(endString)| <= window.effectiveEnd;
    }
  }

  lemma StartAndEndMessagesDiffer(sd: string, ed: string)
    ensures StartNotFound(sd) != EndNotFound(ed)
  {
    assert StartNotFound(sd)[0] == 'S' && EndNotFound(ed)[0] == 'E';
  }

  /**
   * The search reports the start delimiter as not found exactly when no occurrence of
   * it at or after the cursor ends inside the window, whatever the end delimiter.
   */
  lemma LocateInMissesStart(hay: string, window: Bounds, sd: string, endString: Option<string>)
    requires window.Checked() && window.end <= |hay|
    ensures LocateIn(hay, window, Some(sd), endString) == Missing(StartNotFound(sd)) <==>
            forall k :: window.effectiveStart <= k && k + |sd| <= window.effectiveEnd ==> !OccursAt(hay, sd, k)
  {
    var start := IndexOf(hay, sd, window.effectiveStart);
    if k :| window.effectiveStart <= k && k + |sd| <= window.effectiveEnd && OccursAt(hay, sd, k) {
      assert 0 <= start <= k;
      if endString.Some? {
        StartAndEndMessagesDiffer(sd, endString.value);
      }
    } else if start >= 0 {
      assert OccursAt(hay, sd, start);
    }
  }

  /**
   * The search reports the end delimiter as not found exactly when the start boundary
   * fits the window but no occurrence of the end delimiter after it ends inside the window.
   */
  lemma LocateInMissesEnd(hay: string, window: Bounds, startString: Option<string>, ed: string)
    requires window.Checked() && window.end <= |hay|
    ensures var head := LocateIn(hay, window, startString, None);
            LocateIn(hay, window, startString, Some(ed)) == Missing(EndNotFound(ed)) <==>
            && head.Found?
            && forall j :: head.effectiveStart <= j && j + |ed| <= window.effectiveEnd ==> !OccursAt(hay, ed, j)
  {
    var head := LocateIn(hay, window, startString, None);
    var r := LocateIn(hay, window, startString, Some(ed));
    if head.Found? {
      var effectiveStart := head.effectiveStart;
      var effectiveEnd := IndexOf(hay, ed, effectiveStart);
      assert r == (if effectiveEnd < 0 || effectiveEnd > window.effectiveEnd || effectiveEnd + |ed| > window.effectiveEnd
                   then Missing(EndNotFound(ed))
                   else Found(head.start, effectiveStart, effectiveEnd, effectiveEnd + |ed|));
      if j :| effectiveStart <= j && j + |ed| <= window.effectiveEnd && OccursAt(hay, ed, j) {
        assert 0 <= effectiveEnd <= j;
      } else if effectiveEnd >= 0 {
        assert OccursAt(hay, ed, effectiveEnd);
      }
    } else {
      assert startString.Some? && head == Missing(StartNotFound(startString.value));
      assert r == head;
      StartAndEndMessagesDiffer(startString.value, ed);
    }
  }

  /**
   * Under IGNORE_CASE the search sees only the lower-cased buffer and delimiters:
   * changing the case of any of them does not change where the match is.
   */
  lemma LocateIgnoresCase(text: string, text2: string, window: Bounds,
                          startString: Option<string>, endString: Option<string>,
                          startString2: Option<string>, endString2: Option<string>, options: seq<SelectorOption>)
    requires window.Checked() && window.end <= |text|
    requires IgnoreCase in options
    requires ToLowerCase(text) == ToLowerCase(text2)
    requires FoldedDelimiter(startString, true) == FoldedDelimiter(startString2, true)
    requires FoldedDelimiter(endString, true) == FoldedDelimiter(endString2, true)
    ensures Locate(text, window, startString, endString, options) == Locate(text2, window, startString2, endString2, options)
  {
  }

  // ---------------------------------------------------------------------------
  // setSelection

  /** The range setSelection pushes for a match: the delimiters cut off, or kept under INCLUDE_DELIMITERS. */
  function Pushed(location: Location, options: seq<SelectorOption>): (r: Bounds)
    requires location.Found?
    ensures r.start == location.start && r.end == location.end
    ensures 0 <= location.start <= location.effectiveStart <= location.effectiveEnd <= location.end ==>
              && r.Ordered()
              && r.effectiveStart <= location.effectiveStart && location.effectiveEnd <= r.effectiveEnd
  {
    if IncludeDelimiters in options then Bounds(location.start, location.end, location.start, location.end)
    else Bounds(location.start, location.end, location.effectiveStart, location.effectiveEnd)
  }

  /** An outcome LocateIn can give for `window`: a match lies inside the window's effective interval. */
  predicate Fits(window: Bounds, location: Location) {
    location.Found? ==>
      window.effectiveStart <= location.start <= location.effectiveStart <= location.effectiveEnd
      <= location.end <= window.effectiveEnd
  }

  /**
   * setSelection once the search is done: on a miss return false under OPTIONAL and
   * fail otherwise, changing nothing; on a match push the new range and, unless
   * NO_MOVE, move the cursor of the range beneath it past the match.
   */
  function SelectedAt(st: State, location: Location, options: seq<SelectorOption>): (r: Step<bool>)
    requires WellFormed(st) && Fits(Top(st), location)
    ensures WellFormed(r.state) && r.state.text == st.text
    ensures r.result == Success(true) <==> location.Found?
    ensures r.result != Success(true) ==> r.state == st
    ensures r.result == Success(false) <==> location.Missing? && Optional in options
    ensures r.result.Failure? ==> r.result.error == SelectionNotFound(location.message)
  {
    var window := Top(st);
    match location
    case Missing(message) =>
      if Optional in options then Step(Success(false), st) else Step(Failure(SelectionNotFound(message)), st)
    case Found(_, _, _, end) =>
      var beneath := if NoMove in options then window else window.(effectiveStart := end);
      Step(Success(true), st.(stack := st.stack[..|st.stack| - 1] + [beneath, Pushed(location, options)]))
  }

  /** setSelection: the search of the top range, then what follows from its outcome. */
  function Selected(st: State, startString: Option<string>, endString: Option<string>,
                    options: seq<SelectorOption>): (r: Step<bool>)
    requires WellFormed(st)
    ensures WellFormed(r.state) && r.state.text == st.text
    ensures r.result != Success(true) ==> r.state == st
    ensures r.result == Success(false) ==> Optional in options
    ensures r.result.Failure? ==> Optional !in options && r.result.error.SelectionNotFound?
  {
    SelectedAt(st, Locate(st.text, Top(st), startString, endString, options), options)
  }

  /** The options containsText and containsTextIgnoringCase search with. */
  function ContainsOptions(ignoreCase: bool): seq<SelectorOption> {
    if ignoreCase then [NoMove, Optional, IgnoreCase] else [NoMove, Optional]
  }

  /**
   * The extract forms that take options, once the search is done: a select, then on
   * success the text of the new range and a deselect; a miss under OPTIONAL gives no
   * value (Java's null).
   */
  function ExtractedAt(st: State, location: Location, options: seq<SelectorOption>): (r: Step<Option<string>>)
    requires WellFormed(st) && Fits(Top(st), location)
    ensures WellFormed(r.state)
    ensures r.result.Failure? <==> SelectedAt(st, location, options).result.Failure?
    ensures r.result == Success(None) <==> SelectedAt(st, location, options).result == Success(false)
  {
    var selected := SelectedAt(st, location, options);
    match selected.result
    case Failure(e) => Step(Failure(e), selected.state)
    case Success(found) =>
      if found then Step(Success(Some(Extracted(selected.state))), Deselected(selected.state).state)
      else Step(Success(None), selected.state)
  }

  /** extractTextToEnd, extractTextFromStart and extractText(start, end) with options. */
  function ExtractedWith(st: State, startString: Option<string>, endString: Option<string>,
                         options: seq<SelectorOption>): (r: Step<Option<string>>)
    requires WellFormed(st)
    ensures WellFormed(r.state)
    ensures r.result.Failure? <==> Selected(st, startString, endString, options).result.Failure?
    ensures r.result == Success(None) <==> Selected(st, startString, endString, options).result == Success(false)
  {
    ExtractedAt(st, Locate(st.text, Top(st), startString, endString, options), options)
  }

  // ---------------------------------------------------------------------------
  // Properties of the search and of the operations built on it

  /** A select succeeds exactly when a pair of boundaries fits the window in the (folded) buffer. */
  lemma SelectedSucceedsIffMatch(st: State, startString: Option<string>, endString: Option<string>,
                                 options: seq<SelectorOption>)
    requires WellFormed(st)
    ensures var ignoreCase := IgnoreCase in options;
            Selected(st, startString, endString, options).result == Success(true) <==>
            exists k, j :: MatchAt(Folded(st.text, ignoreCase), Top(st), FoldedDelimiter(startString, ignoreCase),
                                   FoldedDelimiter(endString, ignoreCase), k, j)
  {
    var ignoreCase := IgnoreCase in options;
    LocateInFindsAnyMatch(Folded(st.text, ignoreCase), Top(st), FoldedDelimiter(startString, ignoreCase),
                          FoldedDelimiter(endString, ignoreCase));
  }

  /**
   * The stack after a match: one range more, nothing below the window changed, the
   * window's cursor moved to the end of the match unless NO_MOVE, and the pushed range on top.
   */
  lemma SelectedAtPushes(st: State, location: Location, options: seq<SelectorOption>)
    requires WellFormed(st) && Fits(Top(st), location) && location.Found?
    ensures var r := SelectedAt(st, location, options).state;
            && |r.stack| == |st.stack| + 1
            && r.stack[..|st.stack| - 1] == st.stack[..|st.stack| - 1]
            && r.stack[|st.stack| - 1] ==
               (if NoMove in options then Top(st) else Top(st).(effectiveStart := location.end))
            && Top(r) == Pushed(location, options)
  {
    var r := SelectedAt(st, location, options).state;
    assert r.stack == st.stack[..|st.stack| - 1] + [r.stack[|st.stack| - 1], Pushed(location, options)];
  }

  /** The stack after a match, as the push of the new range followed by the move of the old top's cursor. */
  lemma SelectedAtPushesThenMoves(st: State, location: Location, options: seq<SelectorOption>)
    requires WellFormed(st) && Fits(Top(st), location) && location.Found?
    ensures var pushed := st.stack + [Pushed(location, options)];
            var n := |st.stack|;
            SelectedAt(st, location, options).state.stack ==
            if NoMove in options then pushed else pushed[n - 1 := pushed[n - 1].(effectiveStart := location.end)]
  {
    SelectedAtPushes(st, location, options);
  }

  /** Where the delimiters of a match sit in the range and how its effective bounds cut them off. */
  predicate Delimits(hay: string, sd: string, ed: string, top: Bounds, keepDelimiters: bool) {
    && 0 <= top.start && top.start + |sd| + |ed| <= top.end <= |hay|
    && hay[top.start..top.start + |sd|] == sd
    && hay[top.end - |ed|..top.end] == ed
    && (keepDelimiters ==> top.effectiveStart == top.start && top.effectiveEnd == top.end)
    && (!keepDelimiters ==> top.effectiveStart == top.start + |sd| && top.effectiveEnd == top.end - |ed|)
  }

  /**
   * A range `top` is the first match in `window`: it lies inside the window, starts at
   * the first occurrence of the start delimiter at or after the cursor (or at the cursor),
   * and ends with the first occurrence of the end delimiter after that (or at the
   * window's effectiveEnd).
   */
  predicate FirstMatch(hay: string, window: Bounds, startString: Option<string>, endString: Option<string>,
                       top: Bounds)
  {
    var sd := Text(startString);
    var ed := Text(endString);
    && window.effectiveStart <= top.start && top.end <= window.effectiveEnd
    && (startString.None? ==> top.start == window.effectiveStart)
    && (forall k :: window.effectiveStart <= k < top.start ==> !OccursAt(hay, sd, k))
    && (endString.None? ==> top.end == window.effectiveEnd)
    && (endString.Some? ==> forall k :: top.start + |sd| <= k < top.end - |ed| ==> !OccursAt(hay, ed, k))
  }

  /** The range pushed for a match of the search is the first match, with its delimiters in place. */
  lemma PushedDescribesMatch(hay: string, window: Bounds, sd: Option<string>, ed: Option<string>,
                             options: seq<SelectorOption>)
    requires window.Checked() && window.end <= |hay|
    requires LocateIn(hay, window, sd, ed).Found?
    ensures var top := Pushed(LocateIn(hay, window, sd, ed), options);
            && FirstMatch(hay, window, sd, ed, top)
            && Delimits(hay, Text(sd), Text(ed), top, IncludeDelimiters in options)
  {
    var location := LocateIn(hay, window, sd, ed);
    var top := Pushed(location, options);
    var s, e := Text(sd), Text(ed);
    assert top.start == location.start && top.end == location.end;
    assert 0 <= window.effectiveStart <= top.start && top.start + |s| + |e| <= top.end <= window.effectiveEnd;
    assert hay[top.start..top.start + |s|] == s by {
      if sd.Some? { assert OccursAt(hay, sd.value, location.start); }
    }
    assert hay[top.end - |e|..top.end] == e by {
      if ed.Some? { assert OccursAt(hay, ed.value, location.effectiveEnd); }
    }
    assert forall k :: window.effectiveStart <= k < top.start ==> !OccursAt(hay, s, k) by {
      if sd.Some? {
        assert forall k :: window.effectiveStart <= k < location.start ==> !OccursAt(hay, sd.value, k);
      }
    }
    assert ed.Some? ==> forall k :: top.start + |s| <= k < top.end - |e| ==> !OccursAt(hay, e, k);
  }

  /**
   * The range a successful select pushes is the first match in the (folded) buffer
   * inside the window, and its effective bounds drop the delimiters unless
   * INCLUDE_DELIMITERS.
   */
  lemma SelectedPushesMatch(st: State, startString: Option<string>, endString: Option<string>,
                            options: seq<SelectorOption>)
    requires WellFormed(st)
    requires Selected(st, startString, endString, options).result == Success(true)
    ensures var ignoreCase := IgnoreCase in options;
            var hay := Folded(st.text, ignoreCase);
            var sd := FoldedDelimiter(startString, ignoreCase);
            var ed := FoldedDelimiter(endString, ignoreCase);
            var top := Top(Selected(st, startString, endString, options).state);
            && FirstMatch(hay, Top(st), sd, ed, top)
            && Delimits(hay, Text(sd), Text(ed), top, IncludeDelimiters in options)
  {
    var ignoreCase := IgnoreCase in options;
    var hay := Folded(st.text, ignoreCase);
    var sd := FoldedDelimiter(startString, ignoreCase);
    var ed := FoldedDelimiter(endString, ignoreCase);
    var location := Locate(st.text, Top(st), startString, endString, options);
    assert location == LocateIn(hay, Top(st), sd, ed);
    SelectedAtPushes(st, location, options);
    PushedDescribesMatch(hay, Top(st), sd, ed, options);
  }

  /**
   * The cursor protocol: after a successful select the range beneath the new one
   * has its cursor moved to the end of the match, unless NO_MOVE; nothing below it changes.
   */
  lemma SelectedMovesCursor(st: State, startString: Option<string>, endString: Option<string>,
                            options: seq<SelectorOption>)
    requires WellFormed(st)
    requires Selected(st, startString, endString, options).result == Success(true)
    ensures var r := Selected(st, startString, endString, options).state;
            && |r.stack| == |st.stack| + 1
            && r.stack[..|st.stack| - 1] == st.stack[..|st.stack| - 1]
            && r.stack[|st.stack| - 1] ==
               (if NoMove in options then Top(st) else Top(st).(effectiveStart := Top(r).end))
            && Top(st).effectiveStart <= Top(r).start
  {
    SelectedAtPushes(st, Locate(st.text, Top(st), startString, endString, options), options);
  }

  /**
   * Only which of the four tested flags occur matters: not the order of the options,
   * not how often they occur, and not NO_OPTIONS.
   */
  lemma SelectedDependsOnlyOnMembership(st: State, startString: Option<string>, endString: Option<string>,
                                        a: seq<SelectorOption>, b: seq<SelectorOption>)
    requires WellFormed(st)
    requires forall o :: o != NoOptions ==> (o in a <==> o in b)
    ensures Selected(st, startString, endString, a) == Selected(st, startString, endString, b)
  {
    assert (IgnoreCase in a) == (IgnoreCase in b);
    assert (Optional in a) == (Optional in b);
    assert (NoMove in a) == (NoMove in b);
    assert (IncludeDelimiters in a) == (IncludeDelimiters in b);
  }

  /** NO_OPTIONS is tested by no search: adding it changes nothing, so [NO_OPTIONS] acts as no options. */
  lemma NoOptionsIsNeutral(st: State, startString: Option<string>, endString: Option<string>,
                           options: seq<SelectorOption>)
    requires WellFormed(st)
    ensures Selected(st, startString, endString, options + [NoOptions]) == Selected(st, startString, endString, options)
    ensures Selected(st, startString, endString, [NoOptions]) == Selected(st, startString, endString, [])
  {
    SelectedDependsOnlyOnMembership(st, startString, endString, options + [NoOptions], options);
    SelectedDependsOnlyOnMembership(st, startString, endString, [NoOptions], []);
  }

  /** A NO_MOVE + OPTIONAL select, whatever the search found, is undone by a deselect. */
  lemma SelectedAtUndoable(st: State, location: Location, options: seq<SelectorOption>)
    requires WellFormed(st) && Fits(Top(st), location)
    requires NoMove in options && Optional in options
    ensures var r := SelectedAt(st, location, options);
            && r.result.Success?
            && (r.result.value ==> Deselected(r.state) == Step(Success(()), st))
            && (!r.result.value ==> r.state == st)
  {
    if location.Found? {
      SelectedAtPushes(st, location, options);
      var r := SelectedAt(st, location, options).state;
      assert r.stack[..|r.stack| - 1] == st.stack;
    }
  }

  /**
   * The contains forms: a NO_MOVE + OPTIONAL select never fails, and undoing it with a
   * deselect on success gives back the state exactly, so neither outcome changes anything.
   */
  lemma ContainsLeavesStateUnchanged(st: State, startString: Option<string>, endString: Option<string>,
                                     options: seq<SelectorOption>)
    requires WellFormed(st)
    requires NoMove in options && Optional in options
    ensures var r := Selected(st, startString, endString, options);
            && r.result.Success?
            && (r.result.value ==> Deselected(r.state) == Step(Success(()), st))
            && (!r.result.value ==> r.state == st)
  {
    SelectedAtUndoable(st, Locate(st.text, Top(st), startString, endString, options), options);
  }

  /**
   * containsText(s): true exactly when the (folded) text `s` occurs wholly inside the
   * top range's effective interval.
   */
  lemma ContainsTextIffOccurs(st: State, s: string, ignoreCase: bool)
    requires WellFormed(st)
    ensures Selected(st, None, Some(s), ContainsOptions(ignoreCase)).result == Success(true) <==>
            exists j :: Top(st).effectiveStart <= j && j + |s| <= Top(st).effectiveEnd &&
                        OccursAt(Folded(st.text, ignoreCase), Folded(s, ignoreCase), j)
  {
    var hay := Folded(st.text, ignoreCase);
    var e := Folded(s, ignoreCase);
    assert (IgnoreCase in ContainsOptions(ignoreCase)) == ignoreCase;
    SelectedSucceedsIffMatch(st, None, Some(s), ContainsOptions(ignoreCase));
    if j :| Top(st).effectiveStart <= j && j + |s| <= Top(st).effectiveEnd && OccursAt(hay, e, j) {
      assert MatchAt(hay, Top(st), None, Some(e), Top(st).effectiveStart, j);
    }
  }

  /** The two cases of an extract: the select succeeded, or nothing changed. */
  lemma ExtractedAtCases(st: State, location: Location, options: seq<SelectorOption>)
    requires WellFormed(st) && Fits(Top(st), location)
    ensures var selected := SelectedAt(st, location, options);
            var r := ExtractedAt(st, location, options);
            && (location.Found? ==>
                  r == Step(Success(Some(Extracted(selected.state))), Deselected(selected.state).state))
            && (location.Missing? ==> r.state == st && (r.result.Success? ==> r.result.value.None?))
  {
  }

  /** ExtractedWithRestoresDepth for any outcome of the search. */
  lemma ExtractedAtRestoresDepth(st: State, location: Location, options: seq<SelectorOption>)
    requires WellFormed(st) && Fits(Top(st), location)
    ensures var r := ExtractedAt(st, location, options);
            && r.state.text == st.text
            && |r.state.stack| == |st.stack|
            && r.state.stack[..|st.stack| - 1] == st.stack[..|st.stack| - 1]
            && Top(r.state).(effectiveStart := Top(st).effectiveStart) == Top(st)
  {
    ExtractedAtCases(st, location, options);
    if location.Found? {
      SelectedAtPushes(st, location, options);
    }
  }

  /**
   * The extract forms restore the stack depth; the only lasting change they can make
   * is to the cursor (effectiveStart) of the window.
   */
  lemma ExtractedWithRestoresDepth(st: State, startString: Option<string>, endString: Option<string>,
                                   options: seq<SelectorOption>)
    requires WellFormed(st)
    ensures var r := ExtractedWith(st, startString, endString, options);
            && r.state.text == st.text
            && |r.state.stack| == |st.stack|
            && r.state.stack[..|st.stack| - 1] == st.stack[..|st.stack| - 1]
            && Top(r.state).(effectiveStart := Top(st).effectiveStart) == Top(st)
  {
    ExtractedAtRestoresDepth(st, Locate(st.text, Top(st), startString, endString, options), options);
  }

  /** ExtractedWithMovesOnlyOnSuccess for any outcome of the search. */
  lemma ExtractedAtMovesOnlyOnSuccess(st: State, location: Location, options: seq<SelectorOption>)
    requires WellFormed(st) && Fits(Top(st), location)
    ensures var r := ExtractedAt(st, location, options);
            && (!r.result.Success? || r.result.value.None? ==> r.state == st)
            && (NoMove in options ==> r.state == st)
            && (r.result.Success? && r.result.value.Some? && NoMove !in options ==>
                  Top(r.state).effectiveStart == Top(SelectedAt(st, location, options).state).end)
  {
    ExtractedAtCases(st, location, options);
    if location.Found? {
      SelectedAtPushes(st, location, options);
    }
  }

  /**
   * An extract changes nothing when it finds nothing (an error, or no value under
   * OPTIONAL) and nothing under NO_MOVE; otherwise the cursor ends at the match's end.
   */
  lemma ExtractedWithMovesOnlyOnSuccess(st: State, startString: Option<string>, endString: Option<string>,
                                        options: seq<SelectorOption>)
    requires WellFormed(st)
    ensures var r := ExtractedWith(st, startString, endString, options);
            && (!r.result.Success? || r.result.value.None? ==> r.state == st)
            && (NoMove in options ==> r.state == st)
            && (r.result.Success? && r.result.value.Some? && NoMove !in options ==>
                  Top(r.state).effectiveStart == Top(Selected(st, startString, endString, options).state).end)
  {
    ExtractedAtMovesOnlyOnSuccess(st, Locate(st.text, Top(st), startString, endString, options), options);
  }

  lemma ToLowerCaseSlice(s: string, a: int, b: int)
    requires 0 <= a <= b <= |s|
    ensures ToLowerCase(s[a..b]) == ToLowerCase(s)[a..b]
  {
  }

  lemma SliceSplits(s: string, a: int, b: int, c: int, d: int)
    requires 0 <= a <= b <= c <= d <= |s|
    ensures s[a..d] == s[a..b] + s[b..c] + s[c..d]
  {
  }

  /** Folding commutes with slicing, so a match found in the folded buffer splits the same way. */
  lemma FoldedMatchSplits(text: string, ignoreCase: bool, sd: string, ed: string, top: Bounds, keepDelimiters: bool)
    requires Delimits(Folded(text, ignoreCase), sd, ed, top, keepDelimiters)
    ensures var x := text[top.effectiveStart..top.effectiveEnd];
            && (keepDelimiters ==> exists mid :: Folded(x, ignoreCase) == sd + mid + ed)
            && (!keepDelimiters ==> Folded(text, ignoreCase)[top.start..top.end] == sd + Folded(x, ignoreCase) + ed)
  {
    var hay := Folded(text, ignoreCase);
    var x := text[top.effectiveStart..top.effectiveEnd];
    if ignoreCase {
      ToLowerCaseSlice(text, top.effectiveStart, top.effectiveEnd);
    }
    assert Folded(x, ignoreCase) == hay[top.effectiveStart..top.effectiveEnd];
    var mid := hay[top.start + |sd|..top.end - |ed|];
    SliceSplits(hay, top.start, top.start + |sd|, top.end - |ed|, top.end);
    if keepDelimiters {
      assert Folded(x, ignoreCase) == sd + mid + ed;
    }
  }

  /**
   * What an extract returns is taken from the original buffer, not the folded one;
   * folded, it is the match with the delimiters cut off, or kept under INCLUDE_DELIMITERS.
   */
  lemma ExtractedWithReturnsMatch(st: State, startString: Option<string>, endString: Option<string>,
                                  options: seq<SelectorOption>, x: string)
    requires WellFormed(st)
    requires ExtractedWith(st, startString, endString, options).result == Success(Some(x))
    ensures var ignoreCase := IgnoreCase in options;
            var sd := Text(FoldedDelimiter(startString, ignoreCase));
            var ed := Text(FoldedDelimiter(endString, ignoreCase));
            var top := Top(Selected(st, startString, endString, options).state);
            && x == st.text[top.effectiveStart..top.effectiveEnd]
            && (IncludeDelimiters in options ==>
                  exists mid :: Folded(x, ignoreCase) == sd + mid + ed)
            && (IncludeDelimiters !in options ==>
                  Folded(st.text, ignoreCase)[top.start..top.end] == sd + Folded(x, ignoreCase) + ed)
  {
    var ignoreCase := IgnoreCase in options;
    var sd := Text(FoldedDelimiter(startString, ignoreCase));
    var ed := Text(FoldedDelimiter(endString, ignoreCase));
    var location := Locate(st.text, Top(st), startString, endString, options);
    ExtractedAtCases(st, location, options);
    SelectedPushesMatch(st, startString, endString, options);
    var top := Top(Selected(st, startString, endString, options).state);
    FoldedMatchSplits(st.text, ignoreCase, sd, ed, top, IncludeDelimiters in options);
  }
}
