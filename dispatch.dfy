/**
 How button clicks and key presses reach the calculator's operations.
 */
module Dispatch {
  import opened Evaluator
  import opened CalculatorSpec

  datatype Option<T> = None | Some(value: T)

  /** The named actions of the keypad (`data-action`). */
  datatype Action = Clear | Delete | Equals | Square | Sqrt | Toggle | EraseHistory

  /** The `data-action` name of each action. */
  function ActionName(a: Action): string {
    match a
    case Clear => "clear"
    case Delete => "delete"
    case Equals => "equals"
    case Square => "square"
    case Sqrt => "sqrt"
    case Toggle => "toggle-sign"
    case EraseHistory => "clear-history"
  }

  /** The `switch` of `handleAction`: which action, if any, a name selects. It
      selects exactly the action with that name, and no action for any other
      name. */
  function ActionNamed(name: string): (r: Option<Action>)
    ensures r.Some? ==> ActionName(r.value) == name
    ensures r.None? ==> forall a: Action :: ActionName(a) != name
    ensures forall a: Action :: ActionName(a) == name ==> r == Some(a)
  {
    match name
    case "clear" => Some(Clear)
    case "delete" => Some(Delete)
    case "equals" => Some(Equals)
    case "square" => Some(Square)
    case "sqrt" => Some(Sqrt)
    case "toggle-sign" => Some(Toggle)
    case "clear-history" => Some(EraseHistory)
    case _ => None
  }

  /** What an action does to the state. */
  function Apply(s: State, a: Action, n: Numerics): State {
    match a
    case Clear => ClearDisplay(s)
    case Delete => DeleteLast(s)
    case Equals => Calculate(s, n)
    case Square => ApplySquare(s, n)
    case Sqrt => ApplySqrt(s, n)
    case Toggle => ToggleSign(s, n)
    case EraseHistory => ClearHistory(s)
  }

  /** Every action keeps history well formed: within the limit and free of
      blank expressions. */
  lemma ApplyKeepsInv(s: State, a: Action, n: Numerics)
    requires Inv(s)
    ensures Inv(Apply(s, a, n))
  {
    match a
    case Equals => CalculateKeepsInv(s, n);
    case Square => ApplySquareKeepsInv(s, n);
    case Sqrt => ApplySqrtKeepsInv(s, n);
    case _ =>
  }

  /** `handleAction`: the action with the given name is performed, and an
      unknown name does nothing. */
  function HandleAction(s: State, name: string, n: Numerics): (r: State)
    ensures forall a: Action :: ActionName(a) == name ==> r == Apply(s, a, n)
    ensures (forall a: Action :: ActionName(a) != name) ==> r == s
  {
    match ActionNamed(name)
    case None => s
    case Some(a) => Apply(s, a, n)
  }

  /** The `data-value` and `data-action` attributes of a keypad button; an
      absent attribute reads as "". */
  datatype Button = Button(value: string, action: string)

  /** `handleButtonClick`: a click outside any button does nothing; a button
      with a value types it; otherwise its action, if any, is performed. */
  function HandleButtonClick(s: State, target: Option<Button>, n: Numerics): (r: State)
    ensures target.None? ==> r == s
    ensures target.Some? && target.value.value != "" ==> r == AppendValue(s, target.value.value)
    ensures target.Some? && target.value.value == "" && target.value.action != "" ==>
      r == HandleAction(s, target.value.action, n)
    ensures target.Some? && target.value.value == "" && target.value.action == "" ==> r == s
  {
    match target
    case None => s
    case Some(b) =>
      if b.value != "" then AppendValue(s, b.value)
      else if b.action != "" then HandleAction(s, b.action, n)
      else s
  }

  /** Every click keeps history well formed. */
  lemma HandleButtonClickKeepsInv(s: State, target: Option<Button>, n: Numerics)
    requires Inv(s)
    ensures Inv(HandleButtonClick(s, target, n))
  {
    if target.Some? && target.value.value == "" {
      match ActionNamed(target.value.action)
      case None =>
      case Some(a) => ApplyKeepsInv(s, a, n);
    }
  }

  // ---------------------------------------------------------------------------
  // The keyboard
  // ---------------------------------------------------------------------------

  /** The test `allowedKeys.test(key)` as written: the regular expression has no
      anchors, so it holds when ANY character of the key name is allowed. */
  predicate MatchesAllowedKeysAsWritten(key: string) {
    exists i | 0 <= i < |key| :: IsAllowed(key[i])
  }

  /** The evidently intended test: the key is a single allowed character. */
  predicate IsInputKey(key: string) {
    |key| == 1 && IsAllowed(key[0])
  }

  /** The named keys of `handleKeyboardInput` and what they do. */
  function KeyAction(key: string): Option<Action> {
    match key
    case "Enter" => Some(Equals)
    case "=" => Some(Equals)
    case "Backspace" => Some(Delete)
    case "Delete" => Some(Clear)
    case "Escape" => Some(Clear)
    case "s" => Some(Square)
    case "r" => Some(Sqrt)
    case "t" => Some(Toggle)
    case _ => None
  }

  /** The body of `handleKeyboardInput` once it is decided whether the key is
      typed into the display. */
  function KeyPress(s: State, key: string, typed: bool, n: Numerics): State {
    if typed then AppendValue(s, key)
    else match KeyAction(key)
      case None => s
      case Some(a) => Apply(s, a, n)
  }

  /** `handleKeyboardInput` as written: any key whose name holds an allowed
      character is typed, whole, into the display. */
  function HandleKeyAsWritten(s: State, key: string, n: Numerics): (r: State)
    ensures MatchesAllowedKeysAsWritten(key) ==> r == AppendValue(s, key)
    ensures !MatchesAllowedKeysAsWritten(key) && KeyAction(key).Some? ==>
      r == Apply(s, KeyAction(key).value, n)
    ensures !MatchesAllowedKeysAsWritten(key) && KeyAction(key).None? ==> r == s
  {
    KeyPress(s, key, MatchesAllowedKeysAsWritten(key), n)
  }

  /** `handleKeyboardInput` with the intended test: a key either types one
      allowed character, performs its named action, or does nothing. */
  function HandleKey(s: State, key: string, n: Numerics): (r: State)
    ensures IsInputKey(key) ==> r == AppendValue(s, key)
    ensures !IsInputKey(key) && KeyAction(key).None? ==> r == s
    ensures KeyAction(key).Some? ==> r == Apply(s, KeyAction(key).value, n)
  {
    NamedKeysAreNotTyped(key);
    KeyPress(s, key, IsInputKey(key), n)
  }

  /** Every key press, under either test, keeps history well formed. */
  lemma KeyPressKeepsInv(s: State, key: string, typed: bool, n: Numerics)
    requires Inv(s)
    ensures Inv(KeyPress(s, key, typed, n))
  {
    if !typed && KeyAction(key).Some? {
      ApplyKeepsInv(s, KeyAction(key).value, n);
    }
  }

  /** No named key is a single allowed character. */
  lemma NamedKeysAreNotTyped(key: string)
    ensures KeyAction(key).Some? ==> !IsInputKey(key)
  {
    if KeyAction(key).Some? && |key| == 1 {
      assert key == "=" || key == "s" || key == "r" || key == "t";
    }
  }

  /** The two tests agree on every one-character key and on every named key,
      so the correction changes nothing else the keyboard does. */
  lemma KeyTestsAgree(key: string)
    requires |key| == 1 || KeyAction(key).Some?
    ensures MatchesAllowedKeysAsWritten(key) <==> IsInputKey(key)
  {
  }

  /** As written, pressing F5 on an empty display types the key's whole name:
      the display becomes "F5". With the intended test, F5 does nothing. */
  lemma FunctionKeyTypesItsName(s: State, n: Numerics)
    requires s.display == ""
    ensures HandleKeyAsWritten(s, "F5", n).display == "F5"
    ensures HandleKey(s, "F5", n) == s
  {
    assert IsAllowed("F5"[1]);
  }
}
