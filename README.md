# Numeric input widget with percent and pixel units — Dafny model

The repository is a React numeric input with two units, `%` and `px`. The root
`Input` holds the current value and unit. It changes them only through
`handleSetUnit` and `handleSetValue`, and both call an `onChange(value, unit)`
observer. The `InputField` keeps a staged text buffer and a last valid value.
On commit (blur or Enter) it reads the leftmost number matching
`-?\d+(\.\d+)?` from the buffer. A negative number becomes 0. Under `%`, a
number above 100 is replaced by the last valid value. An effect on
`[value, unit]` refreshes the last valid value and the buffer after every
value or unit change. Step buttons move the value by one and are disabled at
the boundaries. A unit toggle switches units and clamps to 100 when switching
to `%`.

The model has four modules:

- `Numerals` (numerals.dfy) models the text handling.
  - `ReplaceFirstComma` handles an edit.
  - `FirstMatch` and `ParsedNumber` are the commit's scanner. They are proved
    against an independent finite automaton (`Accepts`) for the pattern:
    leftmost start, longest match, and "no match" exactly when no substring is
    a word of the pattern.
  - The matched text is read as an exact decimal.
- `Units` (units.dfy) holds the unit-dependent rules: the range check
  `InRange`, the commit clamp `Resolve`, the unit-switch clamp
  `SwitchedValue`, and the step buttons' disabled predicates and targets.
- `InputWidget` (widget.dfy) is the class `Widget`. It holds `Input`'s state,
  `InputField`'s state and the log of observer calls. Its methods are the
  handlers and the synchronising effect `Sync`. `Handle` dispatches one user
  event the way the rendered elements wire it, then runs the effect.
  - The class invariant is `Coherent()`: whenever the effect last saw an
    in-range value, the last valid value is that value.
  - `Valid()` adds two conditions: the effect has caught up, and the value is
    in range. Every event preserves `Valid()`.
- `Scenarios` (scenarios.dfy) restates each of the component's test cases as
  a run of the model. The rendered unit labels that the first test also looks
  for are left out with the rest of the rendering.

Two details of the code are easy to misread, and the model follows the code:

- An edit replaces only the FIRST comma, because `String.replace` with a
  string pattern replaces one occurrence; later commas stay in the text.
- The increase button is disabled under `%` at any value `>= 100`, not only
  at exactly 100.

## Model

| member | source | states |
|---|---|---|
| `Numerals.ReplaceFirstComma` | src/ui/input.tsx:256-258 | the staged text has the same length as the edited text; position k becomes '.' exactly when it holds the first comma, and every other character is kept |
| `Numerals.NoCommaVerbatim` | src/ui/input.tsx:257 | text without a comma is staged verbatim |
| `Numerals.OnlyFirstCommaReplaced` | src/ui/input.tsx:257 | a comma after an earlier comma survives the edit |
| `Numerals.DigitRun` | src/ui/input.tsx:261 | the end of the longest run of digits starting at i: everything before it is a digit, and the character at it is not |
| `Numerals.MatchAt` | src/ui/input.tsx:261 | the match at a start position lies in the text, has non-empty whole digits and digit-only fraction, and its slice is exactly sign, whole digits and optional "." plus fraction |
| `Numerals.Match.Value` | src/ui/input.tsx:262 | parseFloat(match[0]) on exact decimals: the magnitude whole + fraction / 10^length(fraction), negated for a signed match; its bounds are proved in MagnitudeBounds and its value on concrete shapes in the Reads lemmas |
| `Numerals.MatchAtIsLongest` | src/ui/input.tsx:261 | the automaton accepts the match at i, and no longer slice from i is accepted |
| `Numerals.NoMatchAt` | src/ui/input.tsx:261 | where no digit or minus-before-digit begins, no slice from that position is accepted |
| `Numerals.FindFrom` | src/ui/input.tsx:261 | scanning from i: None means that no slice at or after i is accepted; Some gives an accepted, well-formed match with nothing accepted starting earlier, and nothing longer accepted at its start |
| `Numerals.FirstMatch` | src/ui/input.tsx:261 | `String.match` semantics: None iff no substring is a word of -?\d+(\.\d+)?; otherwise the leftmost-starting, longest accepted match |
| `Numerals.ParsedNumber` | src/ui/input.tsx:261-262 | the commit reads exactly the decimal value of the first match (`FirstMatch(s).value.Value()`) and 0 when no substring matches the pattern; an unsigned match reads as a non-negative number, a signed one as a non-positive one |
| `Numerals.ReadsFromStart` | src/ui/input.tsx:261-262 | text that starts with a match is read from that match |
| `Numerals.ReadsDigits` | src/ui/input.tsx:262 | a plain run of digits is read as its decimal value |
| `Numerals.ReadsNegativeDigits` | src/ui/input.tsx:262 | "-" followed by digits is read as the negated value |
| `Numerals.ReadsDecimal` | src/ui/input.tsx:262 | whole digits, ".", fraction digits and a tail that does not start with a digit are read as whole + fraction / 10^length(fraction) |
| `Numerals.MagnitudeBounds` | src/ui/input.tsx:262 | the whole digits are the integer part (floor) of the magnitude that is read |
| `Units.InRange` | src/ui/input.tsx:272-275 | the effect's validity test: 0 <= value <= 100 under %, 0 <= value under px; Resolve, SwitchedValue and the step lemmas prove that results stay inside it |
| `Units.Resolve` | src/ui/input.tsx:263-265 | the commit clamp: an in-range number is kept, a negative number becomes 0, and a percentage above 100 becomes the last valid value; the result is in range under px always, and under % whenever the last valid value is |
| `Units.ResolveIdempotent` | src/ui/input.tsx:263-265 | applying the clamp to its own result changes nothing, when the last valid value is admissible |
| `Units.SwitchedValue` | src/ui/input.tsx:322-325 | switching to % turns a value above 100 into exactly 100; every other value, negative ones included, is kept; a non-negative value ends in range for the new unit |
| `Units.SwitchIdempotent` | src/ui/input.tsx:321-325 | clicking the already active unit changes the value no further |
| `Units.DecreaseDisabled` | src/ui/input.tsx:113 | the decrease button is disabled exactly at value 0 under either unit; for an in-range value, DecreaseDisabledIff proves this is exactly when a press would be a no-op |
| `Units.DecreaseTarget` | src/ui/input.tsx:116 | Math.max(value - 1, 0) is never negative, is at least value - 1, and is one of those two |
| `Units.DecreaseDisabledIff` | src/ui/input.tsx:113-116 | for an in-range value, decrease is disabled iff pressing it could not change the value (the value is 0); otherwise it lowers the value; the target stays in range |
| `Units.IncreaseDisabled` | src/ui/input.tsx:184 | the increase button is disabled under % at any value >= 100 and never under px; for an in-range value, IncreaseDisabledIff proves this is exactly when a press would be a no-op; above 100 % the button is disabled although a press would give 100 |
| `Units.IncreaseTarget` | src/ui/input.tsx:186-193 | under px the target is value + 1; under % it is at most 100 and at most value + 1, and equals one of the two |
| `Units.IncreaseDisabledIff` | src/ui/input.tsx:184-193 | for an in-range value, increase is disabled iff pressing it could not change the value, never under px, and otherwise raises the value within range |
| `InputWidget.Notifies` | src/ui/input.tsx:64-289 | which events reach handleSetUnit or handleSetValue: unit clicks always, blur and the Enter key always, a step click only when its button is not disabled, edits and other keys never; Handle proves that onChange is called exactly for these |
| `InputWidget.Widget.constructor` | src/ui/input.tsx:253-254 | mounting takes the initial value and unit, sets the last valid value to the initial value unchecked, stages String(value), calls no observer, and is valid if the initial value is in range |
| `InputWidget.Widget.SetUnit` | src/ui/input.tsx:321-329 | the value becomes SwitchedValue(old value, next), the unit becomes next, onChange is called once with (new value, next), and nothing else changes |
| `InputWidget.Widget.SetValue` | src/ui/input.tsx:331-334 | the value is stored without clamping, the unit is kept, onChange is called once with (v, unit), and nothing else changes |
| `InputWidget.Widget.Change` | src/ui/input.tsx:256-258 | the staged text becomes the first-comma-replaced edit |
| `InputWidget.Widget.Commit` | src/ui/input.tsx:260-269 | the value becomes Resolve(ParsedNumber(staged), unit, lastValid); String(value) is staged; onChange is called once; from a valid state the value stays in range, and a percentage above 100 leaves it unchanged |
| `InputWidget.Widget.Decrease` | src/ui/input.tsx:115-117 | the value becomes DecreaseTarget(value) through SetValue, and stays in range |
| `InputWidget.Widget.Increase` | src/ui/input.tsx:186-193 | the value becomes IncreaseTarget(value, unit) through SetValue, and stays in range |
| `InputWidget.Widget.Sync` | src/ui/input.tsx:271-279 | a no-op when value and unit are what it last saw; otherwise it stages String(value) and takes the value as last valid exactly when the unit admits it; afterwards it is settled, and valid whenever the value is in range |
| `InputWidget.Widget.Handle` | src/ui/input.tsx:64-290 | one event plus the effect: a click on a unit target sets the unit to it and the value to SwitchedValue; a blur or an Enter key commits Resolve(ParsedNumber(staged), unit, lastValid) and shows it; an enabled step button moves to IncreaseTarget or DecreaseTarget; an edit of a settled field stages the first-comma-replaced text and changes nothing else; onChange is called exactly once when the event reaches a mutator (with the final value and unit) and never otherwise; the log only grows; the effect restages String(value) whenever value or unit moved and keeps lastValid equal to an in-range value, while an out-of-range value leaves lastValid as it was; when neither value nor unit moved and no commit happened, the uncommitted text of a settled field stays (an edit's text, or what was staged before); a valid widget stays valid |
| `Scenarios.StagesCommaDecimal` | src/__test__/input.test.tsx:81 | "12,3a" is staged as "12.3a" |
| `Scenarios.ReadsTwelvePointThree` | src/__test__/input.test.tsx:81-83 | "12.3a" is read as 12.3 |
| `Scenarios.ReadsCommaDecimal` | src/__test__/input.test.tsx:81-83 | typing "12,3a" yields the number 12.3 |
| `Scenarios.ReadsNegative` | src/__test__/input.test.tsx:95-97 | typing "-5" yields the number -5 before clamping |
| `Scenarios.ReadsHundredFifty` | src/__test__/input.test.tsx:109-111 | typing "150" yields the number 150 before clamping |
| `Scenarios.ReadsTwenty` | src/__test__/input.test.tsx:124-126 | typing "20" yields the number 20 |
| `Scenarios.MountShowsValue` | src/__test__/input.test.tsx:18-30 | mounted at 10 px, the field shows String(10), the unit is px, and no observer call has been made |
| `Scenarios.SwitchToPercentClamps` | src/__test__/input.test.tsx:33-44 | 120 px switched to % shows 100 and reports (100, %) once |
| `Scenarios.SwitchUnitNotifies` | src/__test__/input.test.tsx:129-141 | 10 px switched to % reports (10, %) once |
| `Scenarios.DecreaseDisabledAtZero` | src/__test__/input.test.tsx:46-57 | at 0 px the decrease button is disabled, and a click changes nothing and notifies no one |
| `Scenarios.IncreaseDisabledAtHundred` | src/__test__/input.test.tsx:59-70 | at 100 % the increase button is disabled, and a click changes nothing and notifies no one |
| `Scenarios.CommaAndTrailingText` | src/__test__/input.test.tsx:72-84 | typing "12,3a" at 0 px and committing gives the value 12.3 and shows String(12.3) |
| `Scenarios.NegativeBecomesZero` | src/__test__/input.test.tsx:86-98 | typing "-5" and committing gives 0 under either unit |
| `Scenarios.OverflowRevertsToLastValid` | src/__test__/input.test.tsx:100-112 | typing "150" at 50 % and committing reverts to 50, not 100 |
| `Scenarios.CommitNotifies` | src/__test__/input.test.tsx:114-127 | typing "20" at 10 px and committing reports exactly [(20, px)] |
| `Scenarios.UnitClickKeepsDraft` | src/ui/input.tsx:271-279 | at 50 %, the edit "42" followed by a click on the active % unit leaves "42" staged, because the effect's dependencies did not change |
| `Scenarios.OutOfRangeKeepsLastValid` | src/ui/input.tsx:271-279 | mounted at -5 px, a click on % keeps the value -5, and the effect does not refresh the last valid value, which stays -5 |

## Left out

- Rendering, class names, `cva`/`cn` styling and SVG icons are left out. They are presentational, and `../lib/utils` is not part of this model.
- The hover, focus and tooltip flags (`isHovered`, `isFocused`, `openTooltip`, and the `setIsFocused(false)` in `handleBlur`) are left out. They are last-writer-wins booleans with no bearing on value or unit.
- Numbers are exact `real`s, not IEEE-754 doubles. The model does not capture rounding in `parseFloat`, `Infinity` from very long digit runs, `-0` from "-0", or imprecision in `value + 1`.
- `String(num)` is the constructor parameter `show`, and nothing is proved about its digits. This includes the exponent forms (`1e21`, `1e-7`) that a later commit would parse differently.
- React's context and scheduling are replaced by direct field access. The effect is an explicit `Sync()` that runs after each handler (inside `Handle`). It remembers the dependency values it last ran with, as React does.
- The JavaScript default props (value 0, unit `%`) are not modelled: the constructor takes the initial value and unit explicitly.
- Sub-components rendered outside an `Input` see a context with no `setUnit`/`setValue`. Their handlers are then no-ops. This is not modelled.
- The observer is always present in the model: `changes` records the calls. An absent `onChange` differs only in that nothing observes them.
- The `isNaN` guard on line 263 is not modelled, because `parseFloat` of a text that matches the pattern is never NaN.
- An Enter key press followed by a real blur commits twice in the source. The model sees these as two separate events.
- src/App.tsx is not part of this model. It is an example page that only stores what `onChange` reports.
