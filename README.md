# Photobook phrase form: a Dafny model

The application is a single React component, `App`, with two screens. On the
setup screen the user picks how many photo phrases to write, 1 to 20, and
confirms. The input screen then shows one text field for the anniversary date,
two for cover phrases and one per photo phrase. Each field accepts at most 28
characters. A reset button returns to the setup screen. A "copy all" button
assembles the clipboard text:

- the trimmed date, if it is not empty;
- then the trimmed non-empty cover phrases;
- then one line `"{i}. {phrase}"` per non-empty photo phrase, where `i` is the
  phrase's own 1-based position.

Lines within a group are separated by a line break. Groups are separated by a
blank line. When the text is empty, the component shows "nothing to copy"
instead of writing to the clipboard.

This project models:

- the assembly of the clipboard text, as pure functions;
- the component's six state fields and their event handlers, as pure
  transitions on a `Form` value;
- a class `App` whose handler methods update the fields in place and are
  proved to match those transitions.

Files:

- `text.dfy` (module `TextUtil`): JavaScript's `trim` over the ECMAScript
  white-space and line-terminator characters. It also holds the decimal
  rendering of a number, `join`, and its inverse `Split`.
- `assembly.dfy` (module `Assembly`): the three sections, the pushes that
  collect them, the text, and the decision to copy or not.
- `form.dfy` (module `FormModel`): the state value, one transition per
  handler, the length invariant, and traces of events the two screens offer.
- `app.dfy` (module `AppComponent`): the component as a class with the six
  fields. Its `Valid()` is the length invariant together with screen
  consistency. The only contract that mentions it is the handlers' preservation
  ensures: every handler keeps it, except `SetCount`, which keeps it only on the
  setup screen, the only screen with the slider. No method requires it.
- `scenarios.dfy` (module `Scenarios`): the clipboard text for three concrete
  forms.

## Model

| member | source | states |
|---|---|---|
| TextUtil.IsSpace | App.tsx:67 | the characters `trim` removes, the ECMAScript white space and line terminators; specified through TrimStartSpec, TrimEndSpec and Trim |
| TextUtil.TrimStart | App.tsx:67 | the leading half of `trim`; see TrimStartSpec |
| TextUtil.TrimStartSpec | App.tsx:67 | leading trim drops the longest all-white-space prefix: the result is a suffix, the cut part is all white space, and a non-empty result starts with a non-space |
| TextUtil.TrimEnd | App.tsx:67 | the trailing half of `trim`; see TrimEndSpec |
| TextUtil.TrimEndSpec | App.tsx:67 | trailing trim drops the longest all-white-space suffix: the result is a prefix, the cut part is all white space, and a non-empty result ends with a non-space |
| TextUtil.Trim | App.tsx:67 | the trimmed text is empty exactly when the input is all white space; otherwise it starts and ends with a non-space |
| TextUtil.TrimIsSlice | App.tsx:67 | the trimmed text is a contiguous slice of the input, with only white space cut away on either side |
| TextUtil.TrimUnique | App.tsx:74 | white space + unpadded middle + white space always trims to that middle: trim is uniquely characterised |
| TextUtil.TrimIdempotent | App.tsx:74 | trimming twice equals trimming once |
| TextUtil.TrimOfUnpadded | App.tsx:74 | a text with no white space at either end is unchanged by trim |
| TextUtil.TrimKeepsCharacters | App.tsx:82 | every character of the trimmed text occurs in the input |
| TextUtil.NatToString | App.tsx:82 | the rendering of a phrase number is one or more decimal digits, with no leading zero except for 0 |
| TextUtil.ParseNatToString | App.tsx:82 | reading the rendered digits back gives the number |
| TextUtil.NatToStringInjective | App.tsx:82 | distinct numbers render to distinct strings |
| TextUtil.JoinWith | App.tsx:90 | `Array.prototype.join`; see JoinWithEmpty, JoinWithAppend and SplitJoin |
| TextUtil.JoinWithEmpty | App.tsx:90 | with a non-empty separator, a join is empty exactly when it has no element, or one empty element |
| TextUtil.JoinWithAppend | App.tsx:90 | joining two non-empty lists one after the other puts exactly one separator between the two joins |
| TextUtil.Split | App.tsx:90 | the inverse of the line-break join (the source itself never splits): at least one piece, none containing the delimiter; see SplitJoin |
| TextUtil.SplitJoin | App.tsx:90 | splitting a line-break join gives the lines back when no line contains a line break |
| Assembly.DateLines | App.tsx:67-70 | the date section: the trimmed date when it is not blank; see SectionsWellFormed, AssembleAsGlue and AssembleEmpty |
| Assembly.CoverLines | App.tsx:73-75 | the trimmed non-blank cover phrases in order; see CoverLinesLength, CoverLinesAt and CoverLineSource |
| Assembly.NumberedLine | App.tsx:82 | a main phrase's line `${index + 1}. ${phrase.trim()}`; see NumberedLineNumber |
| Assembly.MainLines | App.tsx:81-83 | one numbered line per non-blank main phrase, numbered by its position in the whole list; see MainLinesLength, MainLinesAt, MainLineSource, MainLinesAppend and MainLinesOrdered |
| Assembly.Push | App.tsx:68-87 | `sections.push(lines)` guarded by a non-empty section; see PushGlue and SectionsWellFormed |
| Assembly.Sections | App.tsx:64-87 | the date, cover and main sections in push order, each only when non-empty; see SectionsWellFormed and AssembleLines |
| Assembly.SectionTexts | App.tsx:90 | one text per section, its lines joined with a line break; see JoinSectionsAsLines |
| Assembly.Assemble | App.tsx:63-90 | the clipboard text; see AssembleAsGlue, AssembleLines and AssembleEmpty |
| Assembly.CopyOutcome | App.tsx:92-103 | an empty text means nothing to copy; any other text is written to the clipboard unchanged |
| Assembly.CoverLinesLength | App.tsx:73-75 | there is exactly one cover line per cover phrase that does not trim to empty |
| Assembly.CoverLinesAt | App.tsx:73-75 | a non-empty cover phrase appears trimmed, after exactly the lines of the non-empty phrases before it (order kept) |
| Assembly.CoverLineSource | App.tsx:73-75 | every cover line is the trim of a non-empty cover phrase, at the position its predecessors determine |
| Assembly.MainLinesLength | App.tsx:81-83 | there is exactly one numbered line per main phrase that does not trim to empty |
| Assembly.MainLinesAppend | App.tsx:81-83 | the lines of a concatenation are the first part's lines, then the second part's, numbered from its position in the whole list |
| Assembly.MainLinesAt | App.tsx:81-83 | the non-empty phrase at index k yields exactly `NatToString(k+1) + ". " + trim`, after the lines of the non-empty phrases before it: empty phrases yield no line and shift no number |
| Assembly.MainLineSource | App.tsx:81-83 | every main line is the numbered line of a non-empty phrase, at the position its predecessors determine |
| Assembly.MainLinesOrdered | App.tsx:81-83 | the lines of two non-empty phrases appear in the order of their indices |
| Assembly.NumberedLineNumber | App.tsx:82 | a numbered line is the digits of its 1-based index (parsing back to it), then ". ", then the trimmed phrase |
| Assembly.SectionsWellFormed | App.tsx:64-87 | at most three sections are pushed; none is empty and none has an empty line |
| Assembly.PushGlue | App.tsx:85-90 | pushing a section puts its joined lines after the text so far, separated by one blank line when both are non-empty |
| Assembly.AssembleAsGlue | App.tsx:64-90 | the text is date, cover section and main section in that order, each joined with line breaks, the non-empty ones separated by one blank line |
| Assembly.JoinSectionsAsLines | App.tsx:90 | joining section texts with a blank line equals joining all their lines with a line break, one empty line between sections |
| Assembly.AssembleLines | App.tsx:64-90 | unless every field is blank, splitting the text on line breaks recovers every section's lines, with exactly one empty line between consecutive sections |
| Assembly.AssembleEmpty | App.tsx:64-92 | the text is empty exactly when the date, every cover phrase and every main phrase trim to empty |
| Assembly.CopyOutcomeOfFields | App.tsx:90-103 | "nothing to copy" is chosen exactly when every field trims to empty; otherwise the assembled text is written |
| FormModel.Initial | App.tsx:20-25 | the mount-time state is valid, is on the setup screen and has no phrase slots |
| FormModel.SetCount | App.tsx:121 | the slider changes only the count, and keeps the invariant |
| FormModel.HandleConfirm | App.tsx:27-30 | phrases become exactly `count` empty strings and the input screen shows; date, cover, count and message are untouched |
| FormModel.HandleReset | App.tsx:32-39 | every field returns to its mount-time value, whatever the prior state |
| FormModel.HandlePhraseChange | App.tsx:41-47 | an over-long value leaves the state unchanged; otherwise only the addressed phrase becomes the value, the length and all other fields stay |
| FormModel.HandleAnniversaryDateChange | App.tsx:49-53 | an over-long value leaves the state unchanged; otherwise only the date becomes the value |
| FormModel.HandleCoverPhraseChange | App.tsx:55-61 | an over-long value leaves the state unchanged; otherwise only the addressed cover phrase becomes the value, the length and all other fields stay |
| FormModel.CopyMessage | App.tsx:92-102 | the status text for the chosen action and the clipboard's answer; see CopyAllMessage |
| FormModel.HandleCopyAll | App.tsx:63-104 | copy all changes nothing but the status message |
| FormModel.MessageExpired | App.tsx:95 | the timer callback clears the message and changes nothing else |
| FormModel.ResetIsInitial | App.tsx:32-39 | reset equals the mount-time state; resetting twice equals resetting once |
| FormModel.CopyAllMessage | App.tsx:92-103 | the message is "nothing to copy" when every field is blank, whatever the clipboard says; otherwise it is the success or failure message matching the clipboard's answer |
| FormModel.Enabled | App.tsx:106-258 | which events the screen on show offers: slider and confirm on the setup screen, edits, reset and copy on the input screen; see StepPreserves |
| FormModel.Step | App.tsx:106-258 | an event dispatched to the handler its control is bound to; see StepPreserves |
| FormModel.Feasible | App.tsx:106-258 | every event of a sequence is offered when it comes; see RunPreserves |
| FormModel.Run | App.tsx:106-258 | the state after a sequence of events; see RunPreserves and ReachableValid |
| FormModel.StepPreserves | App.tsx:41-61 | every event the current screen offers keeps all texts within 28 characters, two cover phrases, the count in 1..20, and `count` slots on the input screen |
| FormModel.RunPreserves | App.tsx:20-61 | any feasible sequence of events from a valid state keeps that invariant |
| FormModel.ReachableValid | App.tsx:20-61 | every state reachable from the mount-time state satisfies the invariant |
| AppComponent.App.constructor | App.tsx:20-25 | the fields start at the `useState` initial values |
| AppComponent.App.SetCount | App.tsx:121 | sets only `count`; the new state is the model's SetCount of the old; the length invariant is kept, and on the setup screen, where the slider is, so is screen consistency |
| AppComponent.App.HandleConfirm | App.tsx:27-30 | `phrases` becomes `count` empty strings and `showInputs` true; nothing else changes |
| AppComponent.App.HandleReset | App.tsx:32-39 | every field is overwritten with its initial value |
| AppComponent.App.HandlePhraseChange | App.tsx:41-47 | the copied array with one element replaced is stored only when the value fits; nothing else changes |
| AppComponent.App.HandleAnniversaryDateChange | App.tsx:49-53 | the date is replaced only when the value fits; nothing else changes |
| AppComponent.App.HandleCoverPhraseChange | App.tsx:55-61 | the copied cover array with one element replaced is stored only when the value fits; nothing else changes |
| AppComponent.App.HandleCopyAll | App.tsx:63-104 | returns the clipboard action for the assembled text and sets the matching message; nothing else changes |
| AppComponent.App.MessageExpired | App.tsx:95 | clears the message; nothing else changes |
| Scenarios.AllSectionsExample | App.tsx:63-90 | date "2024.10.26", cover ["Our Trip", ""], phrases ["Day one", ""] give "2024.10.26\n\nOur Trip\n\n1. Day one" |
| Scenarios.NoDateExample | App.tsx:63-90 | no date, cover ["A", "B"], phrases ["X", "Y"] give "A\nB\n\n1. X\n2. Y" |
| Scenarios.EmptyFormExample | App.tsx:63-102 | an empty form gives the empty text, hence "nothing to copy" |

## Left out

- Rendering, styling, keyframes and the icons carry no logic, so they are not modelled.
- The clipboard write is asynchronous. The model collapses its pending phase:
  `HandleCopyAll` takes the clipboard's answer (written or rejected) as a
  parameter and sets the final message at once.
- The two-second `setTimeout` is not modelled as time. Only its callback's
  effect, clearing the message, is modelled, as `MessageExpired`. A trace may
  fire it at any point.
- React mechanics (`useState` batching, `useCallback` memoisation,
  re-rendering) are framework behaviour and are not modelled. Each handler
  takes effect at once.
- `FormModel.SetCount` requires 1..20. `Number(e.target.value)` coercion and
  the slider's `min`/`max` attributes are browser input handling, and they
  keep the value in that range.
- `AppComponent.App.SetCount` keeps `Valid()` only when called on the setup
  screen. On the input screen, a new count would no longer match the number of
  phrase slots. The slider is rendered only on the setup screen, so the
  component never does this.
- `FormModel.HandlePhraseChange` requires the index to be in range. In
  JavaScript, an out-of-range index would silently extend the array. The
  rendered inputs only pass indices of existing phrases.
- `FormModel.HandleCoverPhraseChange` requires the index to be in range, for
  the same reason.
- `FormModel.HandleConfirm` requires `count >= 0`. `Array(count)` throws for a
  negative count; the slider never produces one.
- `FormModel.WithinLimit` compares the length in Unicode scalar values.
  JavaScript's `.length` counts UTF-16 code units, so a character outside the
  Basic Multilingual Plane counts as 1 here and as 2 there.
- The HTML `maxLength` attribute on the inputs is not modelled. Only the
  handlers' own length check is.
- `TextUtil.IsSpace` lists the ECMAScript white-space and line-terminator
  characters, with the Unicode space separators of current Unicode. It
  follows no particular engine's Unicode version.
- `Assembly.AssembleLines` assumes the fields hold no line break, which a
  single-line text input ensures. Without that assumption the splitting
  round trip does not hold.
