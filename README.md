# Calculator widget — a Dafny model

The modelled program is a browser calculator (`script.js`). A text display
holds an arithmetic expression that the user types with the keypad or the
keyboard. Named actions act on the display: clear, delete the last
character, evaluate (`=`), square, square root and sign toggle. A status line
reports what happened. A history list keeps the last eight results, most
recent first. Clicking an entry loads its result back into the display.

The model has three layers:

- **Pure helpers.** `JsStrings` gives JavaScript's `trim` and the blankness
  test `!s.trim()`. `Evaluator` covers `sanitizeExpression`,
  `evaluateExpression`, `Number(...)`, `value < 0`, `* -1` and
  `formatResult`. `History` covers the history list:
  `[entry, ...entries].slice(0, 8)` and the blank-expression guard of
  `addHistoryEntry`.
- **The calculator as state transitions.** `CalculatorSpec` has a `State`
  (display, status, history) and one function per operation. Lemmas state
  each operation's cases, the invariant it keeps and how operations relate.
  `Dispatch` covers `handleAction`, `handleButtonClick` and
  `handleKeyboardInput` over that state.
- **The calculator as the page runs it.** `CalculatorWidget.Calculator` is a
  class whose fields the handlers update in place. Each method is proved to
  reach exactly the state the matching function gives. The class has two
  keyboard handlers: `HandleKeyAsWritten` follows the page's unanchored key
  test, and `HandleKey` follows the corrected test described under
  "## Findings". Each method also
  keeps the history invariant: at most eight entries, none with a blank
  expression.

JavaScript's number machinery is a parameter, `Numerics`. It covers
evaluating the sanitised text with `Function(...)`, `Math.pow(x, 2)`,
`Math.sqrt` and the finite branch of `formatResult`. Properties that need
real IEEE behaviour require `IeeeLike(n)`: no finite number prints as
`"Error"`, and zero squares, roots and prints as `0`.

## Model

| member | source | states |
|---|---|---|
| JsStrings.TrimStartDropsBlank | script.js:56 | removing leading whitespace keeps a suffix that does not start with whitespace, and only whitespace is dropped |
| JsStrings.TrimEndDropsBlank | script.js:56 | removing trailing whitespace keeps a prefix that does not end with whitespace, and only whitespace is dropped |
| JsStrings.TrimIsInnerSlice | script.js:56 | `trim` returns a contiguous slice of its input with no whitespace at either end |
| JsStrings.TrimEmptyIffBlank | script.js:64 | `!s.trim()` holds exactly when every character of `s` is whitespace |
| Evaluator.Sanitize | script.js:50-52 | the sanitised text is no longer than the input and holds only digits and `+ - * / ( ) .` |
| Evaluator.SanitizeCounts | script.js:50-52 | sanitising keeps every allowed character exactly as often as the input has it, and drops every other character |
| Evaluator.SanitizeIsSubsequence | script.js:50-52 | the sanitised text keeps the input's order (it is a subsequence of the input) |
| Evaluator.SanitizeUnique | script.js:50-52 | any order-preserving selection of the input that holds exactly its allowed characters is the sanitised text |
| Evaluator.SanitizeAllowedIdentity | script.js:50-52 | text made only of allowed characters is left unchanged |
| Evaluator.SanitizeIdempotent | script.js:50-52 | sanitising twice is the same as sanitising once |
| Evaluator.SanitizeHasNoWhitespace | script.js:50-52 | sanitised text never contains whitespace |
| Evaluator.SanitizedTrimsToItself | script.js:55-58 | sanitised text trims to nothing exactly when it is empty, since no allowed character is whitespace |
| Evaluator.SurvivorNotBlank | script.js:54-58 | text from which any character survives sanitising is not blank |
| Evaluator.EvaluateCases | script.js:54-61 | evaluation is the no-op exactly when nothing survives sanitising; it throws exactly when running the sanitised text throws; otherwise it returns what running gives; and any outcome other than the no-op implies a non-blank input |
| Evaluator.NegateInvolutive | script.js:156 | multiplying by -1 twice gives back the number |
| Evaluator.Format | script.js:11-16 | a non-finite number formats as "Error"; for JavaScript numbers, the result is "Error" exactly when the number is not finite |
| History.Push | script.js:67 | the new entry is first, followed by the old entries in order, keeping at most eight |
| History.AddEntry | script.js:63-69 | a blank expression leaves the list unchanged; any other expression pushes `(expression, result)` |
| History.AddEntryPushes | script.js:63-69 | a non-blank expression is always recorded |
| History.PushWellFormed | script.js:67 | pushing an entry whose expression is not blank keeps the list within eight entries with no blank expression |
| History.AddEntryWellFormed | script.js:63-69 | recording keeps the list within eight entries with no blank expression |
| History.PushAllKeepsMostRecent | script.js:67 | after any sequence of pushes, the list is the pushed entries newest first, then the old list, cut to eight |
| History.FullAfterLimitPushes | script.js:67 | after at least eight pushes the list is full and holds exactly the last eight entries pushed, newest first |
| CalculatorSpec.Initial | script.js:265-266 | the page starts with an empty display, an empty history and the status "Ready" |
| CalculatorSpec.AppendValue | script.js:28-35 | the display becomes the old display (or nothing, if it showed "Error") followed by the value; the status is emptied; history is untouched |
| CalculatorSpec.ClearDisplay | script.js:37-40 | the display is emptied, the status is "Cleared" and history is untouched |
| CalculatorSpec.DeleteLast | script.js:42-48 | an empty or "Error" display becomes empty; any other display loses exactly its last character; status and history are untouched |
| CalculatorSpec.ClearHistory | script.js:71-75 | history is emptied, the status is "History cleared" and the display is untouched |
| CalculatorSpec.Calculate | script.js:95-113 | the no-op changes nothing; a throw or a result formatting as "Error" shows "Error" with "Please check the expression"; otherwise the display shows the result, the status is "Result added to history" and `(old display, result)` is pushed |
| CalculatorSpec.ApplySquare | script.js:115-129 | the status line changes only to "Unable to square this value" |
| CalculatorSpec.ApplySquareCases | script.js:115-129 | a blank display changes nothing; a throw shows "Error" with "Unable to square this value"; otherwise the display shows the formatted square (a no-op evaluation counting as 0), `display + "²"` is pushed with that result and the status is untouched |
| CalculatorSpec.ApplySqrt | script.js:131-148 | the status line changes only to "Cannot take square root" |
| CalculatorSpec.ApplySqrtCases | script.js:131-148 | a blank display changes nothing; a throw or a negative value shows "Error" with "Cannot take square root"; otherwise the display shows the formatted root, `"√(" + display + ")"` is pushed with that result and the status is untouched |
| CalculatorSpec.ToggleSign | script.js:150-163 | history is never touched, and the status changes only to "Unable to toggle sign" |
| CalculatorSpec.ToggleSignCases | script.js:150-163 | a blank display changes nothing; a throw shows "Error" with "Unable to toggle sign"; otherwise the display shows the formatted negation |
| CalculatorSpec.ToggleSignOutcomes | script.js:150-163 | for JavaScript numbers and a non-blank display, toggling shows "Error" exactly when the evaluation throws or is not finite; a no-op evaluation shows "0"; a finite value shows its rendered negation |
| CalculatorSpec.SelectHistory | script.js:255-263 | a click on entry `i` loads that entry's result with the status "Loaded value from history"; a click elsewhere changes nothing; history is untouched |
| CalculatorSpec.CalculateKeepsInv | script.js:95-113 | evaluating keeps history within eight entries with no blank expression |
| CalculatorSpec.ApplySquareKeepsInv | script.js:115-129 | squaring keeps history within eight entries with no blank expression |
| CalculatorSpec.ApplySqrtKeepsInv | script.js:131-148 | taking the root keeps history within eight entries with no blank expression |
| CalculatorSpec.DeleteLastUndoesAppend | script.js:28-48 | deleting right after typing one character restores the display (emptied, if it showed "Error"), unless the typing spelled "Error" |
| CalculatorSpec.NoAllowedCharIsEmpty | script.js:54-58 | text with no allowed character, such as "Error", evaluates to the no-op |
| CalculatorSpec.SquareOfErrorIsZero | script.js:115-129 | squaring while "Error" is shown displays "0" and records `("Error²", "0")` |
| CalculatorSpec.CalculateOutcomes | script.js:95-113 | for JavaScript numbers, evaluating shows "Error" exactly when the evaluation throws or is not finite; otherwise the newest history entry is `(old display, shown result)` |
| CalculatorSpec.SelectNewestAfterCalculate | script.js:255-263 | after a successful evaluation, clicking the newest entry reloads the shown result and leaves history as it is |
| Dispatch.ActionNamed | script.js:165-191 | a name selects the action that has that name, and no action for any other name |
| Dispatch.HandleAction | script.js:165-191 | the action with the given name is performed; an unknown action name changes nothing |
| Dispatch.ApplyKeepsInv | script.js:165-191 | every action keeps history within eight entries with no blank expression |
| Dispatch.HandleButtonClick | script.js:193-205 | a click outside any button changes nothing; a button with a value types it; a button with no value but an action performs that action by name; a button with neither changes nothing |
| Dispatch.HandleButtonClickKeepsInv | script.js:193-205 | every click keeps history within eight entries with no blank expression |
| Dispatch.HandleKeyAsWritten | script.js:207-246 | as written, a key whose name contains any allowed character is typed whole into the display; otherwise a named key performs its action; a key that neither matches nor is named changes nothing |
| Dispatch.KeyPressKeepsInv | script.js:207-246 | every key press, under the as-written or the corrected test, keeps history within eight entries with no blank expression |
| Dispatch.HandleKey | script.js:207-246 | a single allowed character is typed; a named key performs its action; any other key changes nothing |
| Dispatch.NamedKeysAreNotTyped | script.js:216-245 | no named key is a single allowed character, so named keys always reach their action |
| Dispatch.KeyTestsAgree | script.js:210-214 | the as-written and corrected key tests agree on every one-character key and every named key |
| Dispatch.FunctionKeyTypesItsName | script.js:210-214 | as written, pressing F5 on an empty display shows "F5"; with the corrected test F5 changes nothing |
| CalculatorWidget.Calculator.constructor | script.js:265-266 | the widget starts in the initial state, which satisfies the history invariant |
| CalculatorWidget.Calculator.AppendValue | script.js:28-35 | the new state is `AppendValue` of the old one, and the invariant is kept |
| CalculatorWidget.Calculator.ClearDisplay | script.js:37-40 | the new state is `ClearDisplay` of the old one, and the invariant is kept |
| CalculatorWidget.Calculator.DeleteLast | script.js:42-48 | the new state is `DeleteLast` of the old one, and the invariant is kept |
| CalculatorWidget.Calculator.AddHistoryEntry | script.js:63-69 | history becomes `AddEntry` of the old list; display and status are untouched; the invariant is kept |
| CalculatorWidget.Calculator.ClearHistory | script.js:71-75 | the new state is `ClearHistory` of the old one, and the invariant is kept |
| CalculatorWidget.Calculator.Calculate | script.js:95-113 | the new state is `Calculate` of the old one, and the invariant is kept |
| CalculatorWidget.Calculator.ApplySquare | script.js:115-129 | the new state is `ApplySquare` of the old one, and the invariant is kept |
| CalculatorWidget.Calculator.ApplySqrt | script.js:131-148 | the new state is `ApplySqrt` of the old one, and the invariant is kept |
| CalculatorWidget.Calculator.ToggleSign | script.js:150-163 | the new state is `ToggleSign` of the old one, and the invariant is kept |
| CalculatorWidget.Calculator.SelectHistoryEntry | script.js:255-263 | the new state is `SelectHistory` of the old one, and the invariant is kept |
| CalculatorWidget.Calculator.Perform | script.js:165-191 | the new state is the chosen action applied to the old one, and the invariant is kept |
| CalculatorWidget.Calculator.HandleAction | script.js:165-191 | the new state is `HandleAction` of the old one, and the invariant is kept |
| CalculatorWidget.Calculator.HandleButtonClick | script.js:193-205 | the new state is `HandleButtonClick` of the old one, and the invariant is kept |
| CalculatorWidget.Calculator.HandleKeyAsWritten | script.js:207-246 | the new state is `HandleKeyAsWritten` of the old one (the page's unanchored test), and the invariant is kept |
| CalculatorWidget.Calculator.HandleKey | script.js:207-246 | the new state is the corrected `HandleKey` of the old one, and the invariant is kept |

## Left out

- Evaluating the sanitised text with `Function(...)` is the `run` field of `Numerics`. It is not modelled: JavaScript's expression grammar and IEEE-754 arithmetic are outside the model.
- `Math.pow(x, 2)`, `Math.sqrt`, `toString` and `toFixed(8)` are the `square`, `sqrt` and `render` fields of `Numerics`. They are not modelled, for the same reason.
- Evaluator.Format: it is "Error" exactly for non-finite numbers only under `IeeeLike`. Without it, `render` is arbitrary.
- Signed zero is not distinguished. `-0` only ever reaches the display through `formatResult`, which prints it as `0`.
- `renderHistory` is not modelled. It only mirrors the history list into the page.
- `animateDisplay` is not modelled. It is a CSS class and a timer.
- The colour argument of `setStatus` is not modelled; only the message text is.
- `event.preventDefault()` is not modelled: it has no effect on the calculator's state.
- `closest('button')` is replaced by an optional `Button`, and `closest('li')` by an entry index. An index outside the list stands for a click that hits no entry.
- `entry.dataset.result || ''` is modelled as the entry's result, since an empty result already reads as `''`.
- `slice(0, -1)` removes one UTF-16 code unit, while the model removes one character. The two differ only for characters outside the Basic Multilingual Plane.
- The display's initial value comes from the page markup, and `index.html` is not part of this model. The model starts with an empty display.
- The dedicated clear-history button listener (`script.js:251-253`) is `handleAction('clear-history')`, modelled through `HandleAction`.
- CalculatorSpec.DeleteLastUndoesAppend: it excludes typing the last letter of "Error", because the display then reads as the sentinel and deleting empties it.
- CalculatorSpec.CalculateOutcomes: it holds only for `IeeeLike` numerics, because an arbitrary `render` could print "Error" for a finite number.
- Where the code and the prose description of the program differ, the model follows the code:
  - Squaring or rooting a value whose result formats as "Error" (for example squaring `1/0`) shows "Error" but does not set a failure status. It still records `(expression, "Error")` in history.
  - Squaring, rooting or toggling the "Error" display treats it as 0, because the sentinel sanitises to nothing.

## Findings

| source | as written | input that shows it | evidently intended | confidence | as-written member | corrected member |
|---|---|---|---|---|---|---|
| script.js:210 | `allowedKeys.test(key)` has no anchors, so it matches any key name that contains a digit or operator, and the whole name is appended | pressing F5 (or any of F1–F12) with an empty display makes it show "F5" | only a single digit or operator key types into the display | likely; not executed | Dispatch.FunctionKeyTypesItsName | Dispatch.HandleKey |
