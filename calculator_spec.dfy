/**
 The calculator's state and what each operation does to it, as functions from
 the old state to the new one. The class in `calculator.dfy` runs the same
 operations by updating fields, and is proved to agree with these functions.
 */
module CalculatorSpec {
  import opened JsStrings
  import opened Evaluator
  import opened History

  /** The display's error sentinel. */
  const ErrorText := "Error"

  // The status-line messages.
  const Ready := "Ready"
  const Cleared := "Cleared"
  const HistoryCleared := "History cleared"
  const ResultAdded := "Result added to history"
  const CheckExpression := "Please check the expression"
  const SquareFailed := "Unable to square this value"
  const SqrtFailed := "Cannot take square root"
  const ToggleFailed := "Unable to toggle sign"
  const Loaded := "Loaded value from history"

  /** The marker appended to a squared expression, and the root sign. */
  const SquareMark := "\U{00B2}"
  const RootSign := "\U{221A}"

  /** The display text, the status line and the history list. */
  datatype State = State(display: string, status: string, history: seq<Entry>)

  /** The markers are not whitespace, so an expression carrying one is never
      blank. */
  lemma NotBlankAt(s: string, i: nat)
    requires i < |s| && (s[i] == SquareMark[0] || s[i] == RootSign[0] || s[i] == 'E')
    ensures !IsBlank(s)
  {
    BlankAt(s);
  }

  /** The state every operation keeps. */
  ghost predicate Inv(s: State) {
    WellFormed(s.history)
  }

  /** The state after loading the page. */
  function Initial(): (s: State)
    ensures Inv(s) && s.history == [] && s.display == [] && s.status == Ready
  {
    State("", Ready, [])
  }

  /** `appendValue`: the display ends with `v`, preceded by the old display, or
      by nothing when the old display was the error sentinel; the status line
      is emptied. */
  function AppendValue(s: State, v: string): (r: State)
    ensures r.history == s.history && r.status == ""
    ensures |r.display| >= |v| && r.display[|r.display| - |v|..] == v
    ensures r.display[..|r.display| - |v|] == if s.display == ErrorText then "" else s.display
  {
    var base := if s.display == ErrorText then "" else s.display;
    assert (base + v)[..|base|] == base;
    s.(display := base + v, status := "")
  }

  /** `clearDisplay`. */
  function ClearDisplay(s: State): (r: State)
    ensures r.display == [] && r.status == Cleared && r.history == s.history
  {
    s.(display := "", status := Cleared)
  }

  /** `deleteLast`: an empty or error display becomes empty; any other loses
      exactly its last character. The status line is untouched. */
  function DeleteLast(s: State): (r: State)
    ensures r.history == s.history && r.status == s.status
    ensures s.display == [] || s.display == ErrorText ==> r.display == []
    ensures s.display != [] && s.display != ErrorText ==>
      r.display + [s.display[|s.display| - 1]] == s.display
  {
    if s.display == [] || s.display == ErrorText then s.(display := "")
    else s.(display := s.display[..|s.display| - 1])
  }

  /** `clearHistory`. */
  function ClearHistory(s: State): (r: State)
    ensures r.history == [] && r.display == s.display && r.status == HistoryCleared
  {
    s.(history := [], status := HistoryCleared)
  }

  /** `calculate`. Nothing left after sanitising: nothing changes. The
      evaluation throws or gives a number that formats as the sentinel: the
      display shows the sentinel and history is untouched. Otherwise the
      display shows the formatted result and `(old display, result)` is always
      pushed onto history (the display cannot be blank here). */
  function Calculate(s: State, n: Numerics): (r: State)
    ensures Evaluate(s.display, n).Empty? ==> r == s
    ensures Evaluate(s.display, n).Fail? ==>
      r == s.(display := ErrorText, status := CheckExpression)
    ensures Evaluate(s.display, n).Value? ==>
      var result := Format(Evaluate(s.display, n).v, n);
      if result == ErrorText then
        r == s.(display := ErrorText, status := CheckExpression)
      else
        r == State(result, ResultAdded, Push(s.history, Entry(s.display, result)))
  {
    var o := Evaluate(s.display, n);
    match o
    case Empty => s
    case Fail => s.(display := ErrorText, status := CheckExpression)
    case Value(v) =>
      var result := Format(v, n);
      if result == ErrorText then s.(display := ErrorText, status := CheckExpression)
      else
        EvaluateCases(s.display, n);
        AddEntryPushes(s.history, s.display, result);
        State(result, ResultAdded, AddEntry(s.history, s.display, result))
  }

  /** `applySquare`: a display that trims to nothing is left alone; otherwise
      the display is evaluated and either shows the sentinel or the formatted
      square, which is recorded against `display + "²"`. The status line is
      only written on failure. */
  function ApplySquare(s: State, n: Numerics): (r: State)
    ensures r.status == s.status || r.status == SquareFailed
  {
    if Trim(s.display) == [] then s
    else
      var o := Evaluate(s.display, n);
      if o.Fail? then s.(display := ErrorText, status := SquareFailed)
      else
        var squared := Format(n.square(ToNumber(o)), n);
        s.(display := squared, history := AddEntry(s.history, s.display + SquareMark, squared))
  }

  /** What `applySquare` does, case by case. A blank display: nothing changes.
      The evaluation throws: the sentinel, history untouched. Otherwise (a
      blank evaluation counting as zero) the display shows the formatted
      square, `display + "²"` with that result is always pushed onto history,
      and the status line is untouched. */
  lemma ApplySquareCases(s: State, n: Numerics)
    ensures IsBlank(s.display) ==> ApplySquare(s, n) == s
    ensures !IsBlank(s.display) && Evaluate(s.display, n).Fail? ==>
      ApplySquare(s, n) == s.(display := ErrorText, status := SquareFailed)
    ensures !IsBlank(s.display) && !Evaluate(s.display, n).Fail? ==>
      var squared := Format(n.square(ToNumber(Evaluate(s.display, n))), n);
      ApplySquare(s, n) ==
        s.(display := squared, history := Push(s.history, Entry(s.display + SquareMark, squared)))
  {
    TrimEmptyIffBlank(s.display);
    if !IsBlank(s.display) && !Evaluate(s.display, n).Fail? {
      var squared := Format(n.square(ToNumber(Evaluate(s.display, n))), n);
      NotBlankAt(s.display + SquareMark, |s.display|);
      AddEntryPushes(s.history, s.display + SquareMark, squared);
    }
  }

  /** `applySqrt`: a display that trims to nothing is left alone; otherwise
      the display is evaluated and either shows the sentinel or the formatted
      root, which is recorded against `"√(" + display + ")"`. The status line
      is only written on failure. */
  function ApplySqrt(s: State, n: Numerics): (r: State)
    ensures r.status == s.status || r.status == SqrtFailed
  {
    if Trim(s.display) == [] then s
    else
      var o := Evaluate(s.display, n);
      if o.Fail? || IsNegative(o) then s.(display := ErrorText, status := SqrtFailed)
      else
        var rooted := Format(n.sqrt(ToNumber(o)), n);
        s.(display := rooted, history := AddEntry(s.history, RootSign + "(" + s.display + ")", rooted))
  }

  /** What `applySqrt` does, case by case. A blank display: nothing changes.
      The evaluation throws or is negative: the sentinel, history untouched.
      Otherwise the display shows the formatted root and `"√(" + display + ")"`
      with that result is always pushed onto history; the status line is
      untouched. */
  lemma ApplySqrtCases(s: State, n: Numerics)
    ensures IsBlank(s.display) ==> ApplySqrt(s, n) == s
    ensures !IsBlank(s.display) && (Evaluate(s.display, n).Fail? || IsNegative(Evaluate(s.display, n))) ==>
      ApplySqrt(s, n) == s.(display := ErrorText, status := SqrtFailed)
    ensures !IsBlank(s.display) && !Evaluate(s.display, n).Fail? && !IsNegative(Evaluate(s.display, n)) ==>
      var rooted := Format(n.sqrt(ToNumber(Evaluate(s.display, n))), n);
      ApplySqrt(s, n) ==
        s.(display := rooted, history := Push(s.history, Entry(RootSign + "(" + s.display + ")", rooted)))
  {
    TrimEmptyIffBlank(s.display);
    var o := Evaluate(s.display, n);
    if !IsBlank(s.display) && !o.Fail? && !IsNegative(o) {
      var rooted := Format(n.sqrt(ToNumber(o)), n);
      NotBlankAt(RootSign + "(" + s.display + ")", 0);
      AddEntryPushes(s.history, RootSign + "(" + s.display + ")", rooted);
    }
  }

  /** `toggleSign`. Never touches history, and writes the status line only on
      failure. */
  function ToggleSign(s: State, n: Numerics): (r: State)
    ensures r.history == s.history
    ensures r.status == s.status || r.status == ToggleFailed
  {
    if Trim(s.display) == [] then s
    else
      var o := Evaluate(s.display, n);
      if o.Fail? then s.(display := ErrorText, status := ToggleFailed)
      else s.(display := Format(Negate(ToNumber(o)), n))
  }

  /** What `toggleSign` does, case by case. A blank display: nothing changes.
      The evaluation throws: the sentinel. Otherwise the display shows the
      formatted negation (a blank evaluation counting as zero). */
  lemma ToggleSignCases(s: State, n: Numerics)
    ensures IsBlank(s.display) ==> ToggleSign(s, n) == s
    ensures !IsBlank(s.display) && Evaluate(s.display, n).Fail? ==>
      ToggleSign(s, n) == s.(display := ErrorText, status := ToggleFailed)
    ensures !IsBlank(s.display) && !Evaluate(s.display, n).Fail? ==>
      ToggleSign(s, n) == s.(display := Format(Negate(ToNumber(Evaluate(s.display, n))), n))
  {
    TrimEmptyIffBlank(s.display);
  }

  /** For JavaScript numbers, toggling a non-blank display shows the sentinel
      exactly when the evaluation throws or gives a number that is not
      finite; a no-op evaluation shows "0", and a finite value shows its
      negation. */
  lemma ToggleSignOutcomes(s: State, n: Numerics)
    requires IeeeLike(n)
    requires !IsBlank(s.display)
    ensures var o := Evaluate(s.display, n);
      ToggleSign(s, n).display == ErrorText <==> o.Fail? || (o.Value? && !o.v.Finite?)
    ensures Evaluate(s.display, n).Empty? ==> ToggleSign(s, n).display == "0"
    ensures var o := Evaluate(s.display, n);
      o.Value? && o.v.Finite? ==> ToggleSign(s, n).display == n.render(-o.v.x)
  {
    ToggleSignCases(s, n);
  }

  /** A click in the history list: on the `index`-th entry it loads that
      entry's result into the display; anywhere else (no entry under the
      cursor) nothing changes. History itself is never touched. */
  function SelectHistory(s: State, index: int): (r: State)
    ensures r.history == s.history
    ensures 0 <= index < |s.history| ==>
      r.display == s.history[index].result && r.status == Loaded
    ensures !(0 <= index < |s.history|) ==> r == s
  {
    if 0 <= index < |s.history| then
      s.(display := s.history[index].result, status := Loaded)
    else s
  }

  // ---------------------------------------------------------------------------
  // The invariant
  // ---------------------------------------------------------------------------

  lemma CalculateKeepsInv(s: State, n: Numerics)
    requires Inv(s)
    ensures Inv(Calculate(s, n))
  {
    var o := Evaluate(s.display, n);
    if o.Value? && Format(o.v, n) != ErrorText {
      EvaluateCases(s.display, n);
      PushWellFormed(s.history, Entry(s.display, Format(o.v, n)));
    }
  }

  lemma ApplySquareKeepsInv(s: State, n: Numerics)
    requires Inv(s)
    ensures Inv(ApplySquare(s, n))
  {
    ApplySquareCases(s, n);
    var o := Evaluate(s.display, n);
    if !IsBlank(s.display) && !o.Fail? {
      var squared := Format(n.square(ToNumber(o)), n);
      NotBlankAt(s.display + SquareMark, |s.display|);
      PushWellFormed(s.history, Entry(s.display + SquareMark, squared));
    }
  }

  lemma ApplySqrtKeepsInv(s: State, n: Numerics)
    requires Inv(s)
    ensures Inv(ApplySqrt(s, n))
  {
    ApplySqrtCases(s, n);
    var o := Evaluate(s.display, n);
    if !IsBlank(s.display) && !o.Fail? && !IsNegative(o) {
      var rooted := Format(n.sqrt(ToNumber(o)), n);
      NotBlankAt(RootSign + "(" + s.display + ")", 0);
      PushWellFormed(s.history, Entry(RootSign + "(" + s.display + ")", rooted));
    }
  }

  // ---------------------------------------------------------------------------
  // Properties relating several operations
  // ---------------------------------------------------------------------------

  /** Deleting right after typing one character restores the display, unless it
      showed the error sentinel, which typing had already replaced, or typing
      spelled out the sentinel itself. */
  lemma DeleteLastUndoesAppend(s: State, c: char)
    requires AppendValue(s, [c]).display != ErrorText
    ensures DeleteLast(AppendValue(s, [c])).display ==
      if s.display == ErrorText then "" else s.display
  {
  }

  /** Text without any allowed character, such as the sentinel, evaluates to
      the no-op. */
  lemma {:induction false} NoAllowedCharIsEmpty(raw: string, n: Numerics)
    requires forall i | 0 <= i < |raw| :: !IsAllowed(raw[i])
    ensures Evaluate(raw, n).Empty?
  {
    SanitizeCounts(raw);
  }

  /** Squaring while the sentinel is shown: the no-op evaluation is taken as
      zero, so the display becomes "0" and `("Error²", "0")` is recorded. */
  lemma SquareOfErrorIsZero(s: State, n: Numerics)
    requires s.display == ErrorText && IeeeLike(n)
    ensures ApplySquare(s, n) ==
      s.(display := "0", history := Push(s.history, Entry("Error" + SquareMark, "0")))
  {
    NotBlankAt(ErrorText, 0);
    NoAllowedCharIsEmpty(ErrorText, n);
    ApplySquareCases(s, n);
  }

  /** For JavaScript numbers, `calculate` shows the sentinel exactly when the
      evaluation throws or gives a number that is not finite; in every other
      case but the no-op it shows the result and records it as the newest
      entry. */
  lemma CalculateOutcomes(s: State, n: Numerics)
    requires IeeeLike(n)
    requires !Evaluate(s.display, n).Empty?
    ensures var o := Evaluate(s.display, n);
      Calculate(s, n).display == ErrorText <==> o.Fail? || !o.v.Finite?
    ensures var o := Evaluate(s.display, n);
      !o.Fail? && o.v.Finite? ==>
        Calculate(s, n).history[0] == Entry(s.display, Calculate(s, n).display)
  {
  }

  /** After a successful calculation, clicking the newest history entry
      reloads the result that is already shown and leaves history as it is. */
  lemma SelectNewestAfterCalculate(s: State, n: Numerics)
    requires Evaluate(s.display, n).Value?
    requires Calculate(s, n).display != ErrorText
    ensures SelectHistory(Calculate(s, n), 0).display == Calculate(s, n).display
    ensures SelectHistory(Calculate(s, n), 0).history == Calculate(s, n).history
  {
  }
}
