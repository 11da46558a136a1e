/**
 The calculator widget as the page runs it: the display text, the status line
 and the history list are fields that each handler updates in place. Every
 method is proved to leave the state that the matching function of
 `CalculatorSpec` or `Dispatch` describes, and to keep history well formed.
 */
module CalculatorWidget {
  import opened JsStrings
  import opened Evaluator
  import opened History
  import Spec = CalculatorSpec
  import opened Dispatch

  class Calculator {
    var display: string
    var status: string
    var history: seq<Entry>

    /** The abstract state. */
    function Snapshot(): Spec.State
      reads this
    {
      Spec.State(display, status, history)
    }

    ghost predicate Valid()
      reads this
    {
      WellFormed(history)
    }

    /** The page after loading: `renderHistory()` of the empty list, then
        `setStatus('Ready')`. */
    constructor ()
      ensures Valid() && Snapshot() == Spec.Initial()
    {
      display := "";
      status := Spec.Ready;
      history := [];
    }

    method AppendValue(value: string)
      requires Valid()
      modifies this
      ensures Valid() && Snapshot() == Spec.AppendValue(old(Snapshot()), value)
    {
      if display == Spec.ErrorText {
        display := "";
      }
      display := display + value;
      status := "";
    }

    method ClearDisplay()
      requires Valid()
      modifies this
      ensures Valid() && Snapshot() == Spec.ClearDisplay(old(Snapshot()))
    {
      display := "";
      status := Spec.Cleared;
    }

    method DeleteLast()
      requires Valid()
      modifies this
      ensures Valid() && Snapshot() == Spec.DeleteLast(old(Snapshot()))
    {
      if display == "" || display == Spec.ErrorText {
        display := "";
        return;
      }
      display := display[..|display| - 1];
    }

    method AddHistoryEntry(expression: string, result: string)
      requires Valid()
      modifies this
      ensures Valid()
      ensures history == AddEntry(old(history), expression, result)
      ensures display == old(display) && status == old(status)
    {
      if Trim(expression) == [] {
        return;
      }
      AddEntryWellFormed(history, expression, result);
      history := ([Entry(expression, result)] + history)[..Min(|history| + 1, HistoryLimit)];
    }

    method ClearHistory()
      requires Valid()
      modifies this
      ensures Valid() && Snapshot() == Spec.ClearHistory(old(Snapshot()))
    {
      history := [];
      status := Spec.HistoryCleared;
    }

    method Calculate(n: Numerics)
      requires Valid()
      modifies this
      ensures Valid() && Snapshot() == Spec.Calculate(old(Snapshot()), n)
    {
      var value := Evaluate(display, n);
      if value.Empty? {
        return;
      }
      if value.Fail? {
        display := Spec.ErrorText;
        status := Spec.CheckExpression;
        return;
      }
      var result := Format(value.v, n);
      if result == Spec.ErrorText {
        display := Spec.ErrorText;
        status := Spec.CheckExpression;
        return;
      }
      AddHistoryEntry(display, result);
      display := result;
      status := Spec.ResultAdded;
    }

    method ApplySquare(n: Numerics)
      requires Valid()
      modifies this
      ensures Valid() && Snapshot() == Spec.ApplySquare(old(Snapshot()), n)
    {
      ghost var s0 := Snapshot();
      if Trim(display) == [] {
        return;
      }
      var value := Evaluate(display, n);
      if value.Fail? {
        display := Spec.ErrorText;
        status := Spec.SquareFailed;
        return;
      }
      var squared := Format(n.square(ToNumber(value)), n);
      AddHistoryEntry(display + Spec.SquareMark, squared);
      display := squared;
      assert Snapshot() == s0.(display := squared,
        history := AddEntry(s0.history, s0.display + Spec.SquareMark, squared));
    }

    method ApplySqrt(n: Numerics)
      requires Valid()
      modifies this
      ensures Valid() && Snapshot() == Spec.ApplySqrt(old(Snapshot()), n)
    {
      ghost var s0 := Snapshot();
      if Trim(display) == [] {
        return;
      }
      var value := Evaluate(display, n);
      if value.Fail? || IsNegative(value) {
        display := Spec.ErrorText;
        status := Spec.SqrtFailed;
        return;
      }
      var rooted := Format(n.sqrt(ToNumber(value)), n);
      var expression := Spec.RootSign + "(" + display + ")";
      AddHistoryEntry(expression, rooted);
      display := rooted;
      assert Snapshot() == s0.(display := rooted, history := AddEntry(s0.history, expression, rooted));
    }

    method ToggleSign(n: Numerics)
      requires Valid()
      modifies this
      ensures Valid() && Snapshot() == Spec.ToggleSign(old(Snapshot()), n)
    {
      if Trim(display) == [] {
        return;
      }
      var value := Evaluate(display, n);
      if value.Fail? {
        display := Spec.ErrorText;
        status := Spec.ToggleFailed;
        return;
      }
      display := Format(Negate(ToNumber(value)), n);
    }

    /** The history list's click listener; `index` is the entry under the
        cursor, anything outside the list's range meaning no entry. */
    method SelectHistoryEntry(index: int)
      requires Valid()
      modifies this
      ensures Valid() && Snapshot() == Spec.SelectHistory(old(Snapshot()), index)
    {
      if !(0 <= index < |history|) {
        return;
      }
      display := history[index].result;
      status := Spec.Loaded;
    }

    method Perform(a: Action, n: Numerics)
      requires Valid()
      modifies this
      ensures Valid() && Snapshot() == Apply(old(Snapshot()), a, n)
    {
      match a
      case Clear => ClearDisplay();
      case Delete => DeleteLast();
      case Equals => Calculate(n);
      case Square => ApplySquare(n);
      case Sqrt => ApplySqrt(n);
      case Toggle => ToggleSign(n);
      case EraseHistory => ClearHistory();
    }

    method HandleAction(name: string, n: Numerics)
      requires Valid()
      modifies this
      ensures Valid() && Snapshot() == Dispatch.HandleAction(old(Snapshot()), name, n)
    {
      match ActionNamed(name)
      case None =>
      case Some(a) => Perform(a, n);
    }

    method HandleButtonClick(target: Option<Button>, n: Numerics)
      requires Valid()
      modifies this
      ensures Valid() && Snapshot() == Dispatch.HandleButtonClick(old(Snapshot()), target, n)
    {
      if target.None? {
        return;
      }
      var b := target.value;
      if b.value != "" {
        AppendValue(b.value);
      } else if b.action != "" {
        HandleAction(b.action, n);
      }
    }

    /** `handleKeyboardInput` as written: any key whose name holds an allowed
        character is typed, whole, into the display. */
    method HandleKeyAsWritten(key: string, n: Numerics)
      requires Valid()
      modifies this
      ensures Valid() && Snapshot() == Dispatch.HandleKeyAsWritten(old(Snapshot()), key, n)
    {
      if MatchesAllowedKeysAsWritten(key) {
        AppendValue(key);
        return;
      }
      match KeyAction(key)
      case None =>
      case Some(a) => Perform(a, n);
    }

    /** `handleKeyboardInput` with the intended single-character test. */
    method HandleKey(key: string, n: Numerics)
      requires Valid()
      modifies this
      ensures Valid() && Snapshot() == Dispatch.HandleKey(old(Snapshot()), key, n)
    {
      if IsInputKey(key) {
        AppendValue(key);
        return;
      }
      match KeyAction(key)
      case None =>
      case Some(a) => Perform(a, n);
    }
  }
}
