# Text selector and XML helpers, modelled in Dafny

This project models the text selector of the `com.albertoteloko.utils` library and two small XML helpers.

The selector is an in-memory scanner over a text buffer. It keeps a stack of nested selection ranges. Each range has outer bounds and an inner "effective" interval. The effective start of a range doubles as its cursor for the next search. Every `select*`, `contains*` and `extract*` operation goes through one search, `setSelection`:

- find the first start delimiter at or after the top range's cursor;
- find the first end delimiter after it;
- check that the match lies inside the top range's effective interval;
- push a new range for the match and, unless `NO_MOVE`, move the cursor of the range beneath past the match.

The two helpers:

- `XmlValidationError` renders an error as one line. It splits the type name at its capitals.
- `XmlInvalidCharsCleaner` strips the characters XML does not allow.

Layout, one module per file:

| file | module | contents |
|---|---|---|
| `wrappers.dfy` | `Wrappers` | `Option` and `Result` |
| `java_strings.dfy` | `JavaStrings` | `String.indexOf`, `toLowerCase`, `Character.isUpperCase`, `Integer.toString` and its inverse |
| `selector_options.dfy` | `SelectorOptions` | the option enum and `isInclude` |
| `selection_range.dfy` | `Ranges` | the `SelectionRange` class with guarded setters, and its value `Bounds` |
| `selector_state.dfy` | `SelectorState` | the selector as a value and every operation as a function of it, with the properties proved |
| `selector.dfy` | `Selectors` | the `Selector` class; each method is proved to act on its state as the matching `SelectorState` function |
| `selector_scenarios.dfy` | `SelectorScenarios` | worked examples on concrete buffers |
| `xml_validation_error.dfy` | `XmlValidationErrors` | `splitUpper` and `toString` |
| `xml_invalid_chars_cleaner.dfy` | `XmlInvalidCharsCleaner` | `clean`, as a filter on code points |

The class methods state their new state as `Model() == F(old(Model()), ...)`, where `F` is a function of `SelectorState`. The properties the library promises are proved about those functions.

Exceptions become `Result` values:

- `IllegalTextSelectionException` becomes `SelectionNotFound`, with the same message.
- `IllegalTextDeselectionException` becomes `DeselectionFailed`, with the same message.

`null` becomes `Option`: an absent delimiter is `None`, and so is the value a failed optional extract returns.

Where the code and the library's documentation differ, the model follows the code:

- `setEffectiveStart` does not check `value >= start`. Its second check compares `end` with `start` instead. `start <= effectiveStart` is therefore proved as an invariant of the selector (`WellFormed`), not of the range.
- Under `IGNORE_CASE` the not-found message carries the lower-cased delimiter, because `setSelection` reassigns its parameter before building the message.
- Extracting between `"="` and `";"` from `"a=1;b=2;"` gives the values `"1"` and `"2"`, without their keys (`ExtractConsecutiveValues`).

## Model

| member | source | states |
|---|---|---|
| JavaStrings.IndexOf | src/main/java/com/albertoteloko/utils/selector/Selector.java:397 | the result is -1 or an occurrence of the needle; from a start inside the string it is at or after the start, and no earlier occurrence exists at or after the start |
| JavaStrings.IndexOfIsFirstOccurrence | src/main/java/com/albertoteloko/utils/selector/Selector.java:418 | any occurrence with no earlier occurrence from the start index is what indexOf returns |
| JavaStrings.ToLowerCase | src/main/java/com/albertoteloko/utils/selector/Selector.java:385-388 | folding keeps the length, leaves no capital, and leaves every character that is not a capital where it was |
| JavaStrings.ToLowerCaseIdempotent | src/main/java/com/albertoteloko/utils/selector/Selector.java:385-388 | folding a folded string changes nothing |
| JavaStrings.ToLowerCaseEqualIgnoringCase | src/main/java/com/albertoteloko/utils/selector/Selector.java:385-388 | two strings fold alike exactly when they have the same length and agree position by position up to case |
| JavaStrings.IntToString | src/main/java/com/albertoteloko/utils/io/XmlValidationError.java:40 | the rendering is a leading minus sign exactly for negative values, and decimal digits everywhere else |
| JavaStrings.ParseIntToString | src/main/java/com/albertoteloko/utils/io/XmlValidationError.java:40 | the decimal rendering of an int reads back as the same int |
| JavaStrings.IntToStringInjective | src/main/java/com/albertoteloko/utils/io/XmlValidationError.java:40 | two ints with the same rendering are equal |
| SelectorOptions.IsInclude | src/main/java/com/albertoteloko/utils/selector/SelectorOptions.java:11-18 | the scan returns true exactly when the option occurs in the list, so an empty list reports every flag false |
| Ranges.ConstructorAccepts | src/main/java/com/albertoteloko/utils/selector/SelectionRange.java:20-28 | the constructor's checks, run with effectiveEnd set while effectiveStart is still 0, pass exactly when 0 <= start, 0 <= effectiveStart <= effectiveEnd <= end and start <= effectiveEnd |
| Ranges.SelectionRange.constructor | src/main/java/com/albertoteloko/utils/selector/SelectionRange.java:20-28 | a range whose checks pass stores the four values and satisfies the checked ordering |
| Ranges.SelectionRange.SetEffectiveStart | src/main/java/com/albertoteloko/utils/selector/SelectionRange.java:71-78 | accepted exactly when 0 <= value, end >= start, value <= effectiveEnd and value <= end; a rejected value changes nothing; only effectiveStart changes; the checked ordering is kept |
| Ranges.SelectionRange.SetEffectiveEnd | src/main/java/com/albertoteloko/utils/selector/SelectionRange.java:85-92 | accepted exactly when 0 <= value, value >= start, value >= effectiveStart and value <= end; a rejected value changes nothing; only effectiveEnd changes; the checked ordering is kept |
| Ranges.SelectionRange.SetEnd | src/main/java/com/albertoteloko/utils/selector/SelectionRange.java:99-106 | accepted exactly when 0 <= value, value >= start, value >= effectiveStart and value >= effectiveEnd; a rejected value changes nothing; only end changes; the checked ordering is kept |
| SelectorState.Cleared | src/main/java/com/albertoteloko/utils/selector/Selector.java:205-208 | a single range spanning the buffer, which is what extractText then returns |
| SelectorState.Appended | src/main/java/com/albertoteloko/utils/selector/Selector.java:84-94 | the buffer is the old buffer followed by the appended text; the base range's cursor and every nested range are unchanged; the stack stays well formed |
| SelectorState.Deselected | src/main/java/com/albertoteloko/utils/selector/Selector.java:195-200 | fails with "There isn't any selected text", changing nothing, exactly when only the base range is left; otherwise removes the top and nothing else |
| SelectorState.LocateIn | src/main/java/com/albertoteloko/utils/selector/Selector.java:392-432 | a match lies inside the window's effective interval; its start is the first occurrence of the start delimiter at or after the cursor (or the cursor), its effective end the first occurrence of the end delimiter after the start delimiter (or the window's effectiveEnd), and the effective bounds cut the delimiters off; a failure carries the not-found message of one of the given delimiters |
| SelectorState.LocateInMissesStart | src/main/java/com/albertoteloko/utils/selector/Selector.java:400-411 | the start message is reported exactly when no occurrence of the start delimiter at or after the cursor ends inside the window, whatever the end delimiter |
| SelectorState.LocateInMissesEnd | src/main/java/com/albertoteloko/utils/selector/Selector.java:421-431 | the end message is reported exactly when the start boundary fits but no occurrence of the end delimiter after it ends inside the window |
| SelectorState.StartAndEndMessagesDiffer | src/main/java/com/albertoteloko/utils/selector/Selector.java:402-425 | the start and end messages never coincide |
| SelectorState.Locate | src/main/java/com/albertoteloko/utils/selector/Selector.java:385-398 | under IGNORE_CASE the buffer and the delimiters are lower-cased before the search; a match fits the window and lies inside the buffer |
| SelectorState.LocateIgnoresCase | src/main/java/com/albertoteloko/utils/selector/Selector.java:385-398 | under IGNORE_CASE changing the case of the buffer or of a delimiter does not change the match |
| SelectorState.LocateInFindsAnyMatch | src/main/java/com/albertoteloko/utils/selector/Selector.java:392-432 | the search succeeds exactly when some pair of delimiter positions fits the window |
| SelectorState.Pushed | src/main/java/com/albertoteloko/utils/selector/Selector.java:434-435 | the new range spans the match; for an ordered match it is ordered and its effective interval holds the text between the delimiters |
| SelectorState.SelectedAt | src/main/java/com/albertoteloko/utils/selector/Selector.java:400-440 | true exactly on a match; false exactly on a miss under OPTIONAL; otherwise the not-found error; every outcome but true leaves the state unchanged; the stack stays well formed |
| SelectorState.Selected | src/main/java/com/albertoteloko/utils/selector/Selector.java:382-441 | a failed search leaves buffer and stack unchanged; false only under OPTIONAL; an error only without OPTIONAL |
| SelectorState.SelectedSucceedsIffMatch | src/main/java/com/albertoteloko/utils/selector/Selector.java:382-441 | a select returns true exactly when a pair of delimiter positions fits the top range in the (folded) buffer |
| SelectorState.SelectedAtPushes | src/main/java/com/albertoteloko/utils/selector/Selector.java:434-440 | after a match the stack is one longer, the ranges below the old top are unchanged, the old top's cursor is at the end of the match unless NO_MOVE, and the new top is the pushed range |
| SelectorState.SelectedAtPushesThenMoves | src/main/java/com/albertoteloko/utils/selector/Selector.java:434-440 | the same stack, as a push followed by the move of the old top's cursor |
| SelectorState.PushedDescribesMatch | src/main/java/com/albertoteloko/utils/selector/Selector.java:406-435 | the pushed range is the first match in the window, holds the delimiters at its ends, and has effective bounds without them, or with them under INCLUDE_DELIMITERS |
| SelectorState.SelectedPushesMatch | src/main/java/com/albertoteloko/utils/selector/Selector.java:385-435 | the same for a successful select, in the folded buffer |
| SelectorState.SelectedMovesCursor | src/main/java/com/albertoteloko/utils/selector/Selector.java:437-439 | only the range beneath the new top changes, and only its cursor, to the end of the match; under NO_MOVE nothing below changes; the new range starts at or after the old cursor |
| SelectorState.SelectedDependsOnlyOnMembership | src/main/java/com/albertoteloko/utils/selector/SelectorOptions.java:11-18 | a select depends on which options occur, not on their order, repetition or NO_OPTIONS |
| SelectorState.NoOptionsIsNeutral | src/main/java/com/albertoteloko/utils/selector/SelectorOptions.java:9 | adding NO_OPTIONS changes no select, so [NO_OPTIONS] acts as no options |
| SelectorState.SelectedAtUndoable | src/main/java/com/albertoteloko/utils/selector/Selector.java:216-266 | a NO_MOVE + OPTIONAL select never fails and, on true, the following deselect gives back the state it started from |
| SelectorState.ContainsLeavesStateUnchanged | src/main/java/com/albertoteloko/utils/selector/Selector.java:216-266 | the contains forms leave the buffer and every range as they were, in both outcomes |
| SelectorState.ContainsTextIffOccurs | src/main/java/com/albertoteloko/utils/selector/Selector.java:216-222 | containsText(s) is true exactly when (folded) s occurs wholly inside the top range's effective interval |
| SelectorState.ExtractedAt | src/main/java/com/albertoteloko/utils/selector/Selector.java:301-308 | an extract fails exactly when its select fails, and returns no value exactly when its select returns false |
| SelectorState.ExtractedWith | src/main/java/com/albertoteloko/utils/selector/Selector.java:301-372 | the same, for the search from the current state |
| SelectorState.ExtractedAtCases | src/main/java/com/albertoteloko/utils/selector/Selector.java:301-308 | on a match the result is the selected text and the state after the deselect; otherwise the state is unchanged and there is no value |
| SelectorState.ExtractedAtRestoresDepth | src/main/java/com/albertoteloko/utils/selector/Selector.java:286-372 | an extract leaves the stack depth, the buffer and every range but the top's cursor unchanged, whatever the search found |
| SelectorState.ExtractedWithRestoresDepth | src/main/java/com/albertoteloko/utils/selector/Selector.java:286-372 | the same, for the search from the current state |
| SelectorState.ExtractedAtMovesOnlyOnSuccess | src/main/java/com/albertoteloko/utils/selector/Selector.java:286-372 | an extract that finds nothing, or runs under NO_MOVE, changes nothing; one that returns a value leaves the cursor at the end of the match |
| SelectorState.ExtractedWithMovesOnlyOnSuccess | src/main/java/com/albertoteloko/utils/selector/Selector.java:286-372 | the same, for the search from the current state |
| SelectorState.ToLowerCaseSlice | src/main/java/com/albertoteloko/utils/selector/Selector.java:385-388 | folding a slice is slicing the folded string |
| SelectorState.FoldedMatchSplits | src/main/java/com/albertoteloko/utils/selector/Selector.java:385-388 | a match found in the folded buffer splits the original buffer at the same indices |
| SelectorState.ExtractedWithReturnsMatch | src/main/java/com/albertoteloko/utils/selector/Selector.java:273-277 | the extracted text comes from the original buffer; folded, it is the match with its delimiters cut off, or kept under INCLUDE_DELIMITERS |
| Selectors.LoadFromLines | src/main/java/com/albertoteloko/utils/selector/Selector.java:24-29 | the loop appends each line, after "\n" only once the buffer is non-empty, and builds JoinedLines(lines) |
| Selectors.LeadingEmptyLinesVanish | src/main/java/com/albertoteloko/utils/selector/Selector.java:25-27 | empty lines before the first non-empty one leave no trace |
| Selectors.EmptyLinesJoinToNothing | src/main/java/com/albertoteloko/utils/selector/Selector.java:25-27 | only empty lines load as the empty text |
| Selectors.IntercalatedAppend | src/main/java/com/albertoteloko/utils/selector/Selector.java:25-28 | joining with "\n" one more line appends "\n" and the line |
| Selectors.JoinedLinesIntercalates | src/main/java/com/albertoteloko/utils/selector/Selector.java:25-28 | when the first line is not empty, the loaded text is the lines joined by "\n" |
| Selectors.Selector.constructor | src/main/java/com/albertoteloko/utils/selector/Selector.java:57-63 | a new selector holds the text, with the whole of it selected |
| Selectors.Selector.Empty | src/main/java/com/albertoteloko/utils/selector/Selector.java:48-50 | a new selector over the empty text |
| Selectors.Selector.FromLines | src/main/java/com/albertoteloko/utils/selector/Selector.java:40-42 | a new selector over the loaded lines |
| Selectors.Selector.ClearSelection | src/main/java/com/albertoteloko/utils/selector/Selector.java:205-208 | the stack becomes the single range (0, \|text\|, 0, \|text\|) |
| Selectors.Selector.GetLastSelection | src/main/java/com/albertoteloko/utils/selector/Selector.java:448-450 | the top range object, whose value is the top of the model |
| Selectors.Selector.Append | src/main/java/com/albertoteloko/utils/selector/Selector.java:84-94 | the buffer and the base range change as Appended says, and both setters accept |
| Selectors.Selector.DeselectText | src/main/java/com/albertoteloko/utils/selector/Selector.java:195-200 | result and new state are those of Deselected |
| Selectors.Selector.SetSelection | src/main/java/com/albertoteloko/utils/selector/Selector.java:382-441 | result and new state are those of Selected |
| Selectors.Selector.SelectAt | src/main/java/com/albertoteloko/utils/selector/Selector.java:400-440 | result and new state are those of SelectedAt for the search's outcome |
| Selectors.Selector.PushMatch | src/main/java/com/albertoteloko/utils/selector/Selector.java:434-440 | the new range and the moved cursor are those of SelectedAt; the range constructor's and setEffectiveStart's checks all pass |
| Selectors.Selector.Push | src/main/java/com/albertoteloko/utils/selector/Selector.java:435 | the new range object is added on top and nothing else changes |
| Selectors.Selector.MoveCursor | src/main/java/com/albertoteloko/utils/selector/Selector.java:438 | only the cursor of range k changes, to the given value |
| Selectors.Selector.SelectTextToEnd | src/main/java/com/albertoteloko/utils/selector/Selector.java:112-130 | Selected with the start delimiter only |
| Selectors.Selector.SelectTextFromStart | src/main/java/com/albertoteloko/utils/selector/Selector.java:139-157 | Selected with the end delimiter only |
| Selectors.Selector.SelectText | src/main/java/com/albertoteloko/utils/selector/Selector.java:167-188 | Selected with both delimiters |
| Selectors.Selector.Contains | src/main/java/com/albertoteloko/utils/selector/Selector.java:216-266 | true exactly when the NO_MOVE + OPTIONAL select returns true; the state is unchanged |
| Selectors.Selector.ContainsText | src/main/java/com/albertoteloko/utils/selector/Selector.java:245-251 | true exactly when the text occurs inside the top range's effective interval; the state is unchanged |
| Selectors.Selector.ContainsTextIgnoringCase | src/main/java/com/albertoteloko/utils/selector/Selector.java:216-222 | the same after lower-casing buffer and text |
| Selectors.Selector.ContainsTextBetween | src/main/java/com/albertoteloko/utils/selector/Selector.java:260-266 | true exactly when a pair of delimiter positions fits the top range; the state is unchanged |
| Selectors.Selector.ContainsTextBetweenIgnoringCase | src/main/java/com/albertoteloko/utils/selector/Selector.java:231-237 | the same after lower-casing buffer and delimiters |
| Selectors.Selector.ExtractText | src/main/java/com/albertoteloko/utils/selector/Selector.java:273-277 | the text between the top range's effective bounds |
| Selectors.Selector.TakeSelection | src/main/java/com/albertoteloko/utils/selector/Selector.java:302-304 | the selected text, then the deselect |
| Selectors.Selector.ExtractWith | src/main/java/com/albertoteloko/utils/selector/Selector.java:301-308 | result and new state are those of ExtractedWith |
| Selectors.Selector.ExtractRequired | src/main/java/com/albertoteloko/utils/selector/Selector.java:286-291 | the value of ExtractedWith with NO_OPTIONS, which is never absent, or its error |
| Selectors.Selector.ExtractTextToEnd | src/main/java/com/albertoteloko/utils/selector/Selector.java:286-291 | the text after the start delimiter, or the not-found error |
| Selectors.Selector.ExtractTextToEndWith | src/main/java/com/albertoteloko/utils/selector/Selector.java:301-308 | ExtractedWith with the start delimiter and the option |
| Selectors.Selector.ExtractTextFromStart | src/main/java/com/albertoteloko/utils/selector/Selector.java:317-322 | the text before the end delimiter, or the not-found error |
| Selectors.Selector.ExtractTextFromStartWith | src/main/java/com/albertoteloko/utils/selector/Selector.java:332-339 | ExtractedWith with the end delimiter and the option |
| Selectors.Selector.ExtractTextBetween | src/main/java/com/albertoteloko/utils/selector/Selector.java:349-354 | the text between the delimiters, or the not-found error |
| Selectors.Selector.ExtractTextBetweenWith | src/main/java/com/albertoteloko/utils/selector/Selector.java:365-372 | ExtractedWith with both delimiters and the options |
| SelectorScenarios.ExtractBetweenBrackets | src/main/java/com/albertoteloko/utils/selector/Selector.java:349-354 | extracting between "[" and "]" from "a[bc]d" gives "bc" |
| SelectorScenarios.ExtractBracketsIncluded | src/main/java/com/albertoteloko/utils/selector/Selector.java:434-435 | with INCLUDE_DELIMITERS it gives "[bc]" |
| SelectorScenarios.MissingStartOptional | src/main/java/com/albertoteloko/utils/selector/Selector.java:400-401 | a missing start delimiter under OPTIONAL gives no value |
| SelectorScenarios.MissingStartFails | src/main/java/com/albertoteloko/utils/selector/Selector.java:402-404 | without OPTIONAL it gives the error "Start text: "{" not found." |
| SelectorScenarios.MissingStart | src/main/java/com/albertoteloko/utils/selector/Selector.java:400-404 | a missing start delimiter gives no value under OPTIONAL, and the error "Start text: "{" not found." otherwise |
| SelectorScenarios.ExtractFirstValue | src/main/java/com/albertoteloko/utils/selector/Selector.java:437-439 | the first extract from "a=1;b=2;" gives "1" and leaves the cursor after the first ";" |
| SelectorScenarios.ExtractSecondValue | src/main/java/com/albertoteloko/utils/selector/Selector.java:392-397 | the next extract starts at the cursor and gives "2" |
| SelectorScenarios.ExtractConsecutiveValues | src/main/java/com/albertoteloko/utils/selector/Selector.java:365-372 | two extracts in a row give "1" and then "2" |
| XmlValidationErrors.SplitUpper | src/main/java/com/albertoteloko/utils/io/XmlValidationError.java:8-21 | the loop builds Spaced(s): the input with a space before each capital that does not open the string |
| XmlValidationErrors.SpacedLength | src/main/java/com/albertoteloko/utils/io/XmlValidationError.java:8-21 | the output is longer than the input by the number of capitals after index 0 |
| XmlValidationErrors.UnspacedSpaced | src/main/java/com/albertoteloko/utils/io/XmlValidationError.java:11-18 | removing the inserted spaces gives back the input |
| XmlValidationErrors.SpacedInjective | src/main/java/com/albertoteloko/utils/io/XmlValidationError.java:11-18 | different inputs give different outputs |
| XmlValidationErrors.SpacedWithoutInnerUpper | src/main/java/com/albertoteloko/utils/io/XmlValidationError.java:8-21 | a string with no capital after index 0, the empty one included, is returned unchanged |
| XmlValidationErrors.SpacedSnoc | src/main/java/com/albertoteloko/utils/io/XmlValidationError.java:11-18 | one more character adds a space first exactly when it is a capital and something came before it |
| XmlValidationErrors.SpacedLowerTail | src/main/java/com/albertoteloko/utils/io/XmlValidationError.java:11-18 | characters that are not capitals are copied as they are |
| XmlValidationErrors.SpacedAddsOnlySpaces | src/main/java/com/albertoteloko/utils/io/XmlValidationError.java:11-18 | every output character is an input character or a space |
| XmlValidationErrors.PlainTypeNamesSpaced | src/main/java/com/albertoteloko/utils/io/XmlValidationError.java:4-6 | Warning and Error render as they are |
| XmlValidationErrors.FatalErrorSpaced | src/main/java/com/albertoteloko/utils/io/XmlValidationError.java:4-6 | FatalError renders as "Fatal Error" |
| XmlValidationErrors.ToString | src/main/java/com/albertoteloko/utils/io/XmlValidationError.java:35-43 | the rendering is longer than the message and ends with it; ToStringInjective shows that everything else can be read back too |
| XmlValidationErrors.RenderingInjective | src/main/java/com/albertoteloko/utils/io/XmlValidationError.java:38-41 | the spaced type name followed by ": (Line: ", the line, ", Column: ", the column, ") " and the message determines each part |
| XmlValidationErrors.ToStringInjective | src/main/java/com/albertoteloko/utils/io/XmlValidationError.java:35-43 | the rendering determines the type, line, column and message |
| XmlValidationErrors.ColumnTailInjective | src/main/java/com/albertoteloko/utils/io/XmlValidationError.java:40-41 | the column number and message can be read back from what follows "Column: " |
| XmlValidationErrors.LineTailInjective | src/main/java/com/albertoteloko/utils/io/XmlValidationError.java:40-41 | the line, column and message can be read back from what follows "Line: " |
| XmlValidationErrors.ToStringSplits | src/main/java/com/albertoteloko/utils/io/XmlValidationError.java:35-43 | the rendering is the spaced type name followed by ": (Line: " and the rest |
| XmlInvalidCharsCleaner.Clean | src/main/java/com/albertoteloko/utils/XmlInvalidCharsCleaner.java:9-17 | every character left lies in [U+0001,U+D7FF], [U+E000,U+FFFD] or [U+10000,U+10FFFF] and the result is no longer than the input |
| XmlInvalidCharsCleaner.CleanConcat | src/main/java/com/albertoteloko/utils/XmlInvalidCharsCleaner.java:15-17 | cleaning two pieces and joining them is cleaning the joined string, so removing whole runs is removing each character |
| XmlInvalidCharsCleaner.CleanCounts | src/main/java/com/albertoteloko/utils/XmlInvalidCharsCleaner.java:9-17 | an allowed character is kept as often as it occurs; any other, U+0000, U+FFFE, U+FFFF and lone surrogates included, is removed every time |
| XmlInvalidCharsCleaner.CleanIdentityIffValid | src/main/java/com/albertoteloko/utils/XmlInvalidCharsCleaner.java:15-17 | a string is returned unchanged exactly when all its characters are allowed |
| XmlInvalidCharsCleaner.CleanIdempotent | src/main/java/com/albertoteloko/utils/XmlInvalidCharsCleaner.java:15-17 | cleaning twice is cleaning once |
| XmlInvalidCharsCleaner.CleanIsSubsequence | src/main/java/com/albertoteloko/utils/XmlInvalidCharsCleaner.java:15-17 | the result keeps the input's order: it is the input with some characters left out |
| XmlInvalidCharsCleaner.CleanExample | src/main/java/com/albertoteloko/utils/XmlInvalidCharsCleaner.java:9-13 | U+0000, U+FFFE, U+FFFF and a lone U+D800 are removed; U+0009 and U+1F600 are kept |

## Left out

- Reading a file (`Selector(File)`, `loadFromFile`): the file is given as the sequence of lines a `Scanner` would return (`FromLines`). Opening, reading and closing the file are I/O.
- `Selector(StringBuilder)`: the model's buffer belongs to the selector. Aliasing of a caller's `StringBuilder` and changes made to it from outside are not modelled.
- Case folding and `Character.isUpperCase`: restricted to the ASCII letters. Unicode and locale-dependent folding, which can change the length of a string, is not modelled.
- Characters: a Dafny `char` is a Unicode scalar value, while a Java `String` is a sequence of UTF-16 code units. In `Selectors.Selector`, `JavaStrings.IndexOf` and `XmlValidationErrors.SplitUpper`, indices, lengths and every range bound count characters where Java counts `char`s, so they differ from Java's for text outside the Basic Multilingual Plane. A text or delimiter holding an unpaired surrogate has no counterpart in the model.
- Integer width: indices and line numbers are unbounded integers. Buffers longer than `Integer.MAX_VALUE` characters are not modelled.
- `getMainString` and the range getters: the model reads the buffer and the fields directly.
- `SelectionRange.contains` and `SelectionRange.toString` are not modelled. The first always returns true; the second is debug output.
- The overloads without options: `selectTextToEnd(String)` and the other option-less forms are the option forms called with `[NoOptions]`, and `NoOptionsIsNeutral` shows that this is the empty option set.
- The fluent `return this` of `append` is not modelled.
- `CheckUtils` is not part of this model. Its argument checks use the order `>=` / `<=`. A range setter's failed check, an `IllegalArgumentException`, is modelled as a rejected value that changes nothing; only accepted calls occur in the selector, as the asserts in `Append` and `PushMatch` show.
- Ranges.SelectionRange.constructor: requires its checks to pass instead of throwing; every call site is proved to meet that.
- Selectors.Selector.constructor: the null and empty-string check `CheckUtils.checkString` makes on the text is not modelled. A Dafny string is never null, and the empty text is accepted.
- `IllegalTextExtractionException` is thrown by none of the code modelled, so it has no counterpart.
- XmlInvalidCharsCleaner.Clean: the input is a sequence of code points in which a lone surrogate stands for itself. The decoding of UTF-16 and the regular-expression engine are not modelled.
- XmlValidationError's constructor and fields are the datatype `XmlValidationError`, whose fields are stored unchanged by construction. `Enum.toString` is `TypeName`.
