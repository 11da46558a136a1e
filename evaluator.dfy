/**
 The expression pipeline of the calculator: the character filter applied to
 the display text, the evaluation of what remains, and the formatting of a
 numeric result. The arithmetic itself (JavaScript numbers, run through a
 generated function) is not modelled: it is a parameter of type `Numerics`.
 */
module Evaluator {
  import opened JsStrings

  // ---------------------------------------------------------------------------
  // Sanitising
  // ---------------------------------------------------------------------------

  /** The characters that survive sanitising: digits and `+ - * / ( ) .`. */
  predicate IsAllowed(c: char) {
    ('0' <= c <= '9') || c == '+' || c == '-' || c == '*' || c == '/'
    || c == '(' || c == ')' || c == '.'
  }

  /** `sanitizeExpression`: drop every character that is not allowed. The result
      holds only allowed characters. */
  function Sanitize(s: string): (r: string)
    ensures |r| <= |s|
    ensures forall i | 0 <= i < |r| :: IsAllowed(r[i])
  {
    if s == [] then []
    else (if IsAllowed(s[0]) then [s[0]] else []) + Sanitize(s[1..])
  }

  /** Sanitising keeps each allowed character exactly as often as the input
      holds it, and no other character. */
  lemma {:induction false} SanitizeCounts(s: string)
    ensures forall c :: multiset(Sanitize(s))[c] == if IsAllowed(c) then multiset(s)[c] else 0
  {
    if s != [] {
      SanitizeCounts(s[1..]);
      assert s == [s[0]] + s[1..];
    }
  }

  /** `a` can be obtained from `b` by deleting characters (greedy matching). */
  predicate IsSubsequence(a: string, b: string)
    decreases |b|
  {
    if a == [] then true
    else if b == [] then false
    else if a[0] == b[0] then IsSubsequence(a[1..], b[1..])
    else IsSubsequence(a, b[1..])
  }

  lemma {:induction false} SubsequenceMultiset(a: string, b: string)
    requires IsSubsequence(a, b)
    ensures multiset(a) <= multiset(b)
    decreases |b|
  {
    if a != [] {
      assert b == [b[0]] + b[1..];
      if a[0] == b[0] {
        assert a == [a[0]] + a[1..];
        SubsequenceMultiset(a[1..], b[1..]);
      } else {
        SubsequenceMultiset(a, b[1..]);
      }
    }
  }

  /** The sanitised text keeps the input's order: it is a subsequence of it. */
  lemma {:induction false} SanitizeIsSubsequence(s: string)
    ensures IsSubsequence(Sanitize(s), s)
  {
    if s != [] {
      SanitizeIsSubsequence(s[1..]);
      var rest := Sanitize(s[1..]);
      if IsAllowed(s[0]) {
        assert Sanitize(s) == [s[0]] + rest;
        assert Sanitize(s)[1..] == rest;
      } else {
        assert Sanitize(s) == rest;
        if rest != [] {
          assert rest[0] != s[0];
        }
      }
    }
  }

  /** Sanitising yields exactly THE subsequence of allowed characters: any
      subsequence of `s` made of allowed characters that keeps every allowed
      character of `s` is the sanitised text. */
  lemma {:induction false} SanitizeUnique(s: string, r: string)
    requires IsSubsequence(r, s)
    requires forall i | 0 <= i < |r| :: IsAllowed(r[i])
    requires forall c :: IsAllowed(c) ==> multiset(r)[c] == multiset(s)[c]
    ensures r == Sanitize(s)
    decreases |s|
  {
    if s == [] {
      assert r == [];
    } else if r != [] && r[0] == s[0] {
      KeepsFirst(s, r);
      SanitizeUnique(s[1..], r[1..]);
      assert r == [r[0]] + r[1..];
    } else {
      SkipsFirst(s, r);
      SanitizeUnique(s[1..], r);
    }
  }

  /** The step of `SanitizeUnique` where `r` keeps the first character. */
  lemma KeepsFirst(s: string, r: string)
    requires s != [] && r != [] && r[0] == s[0]
    requires IsSubsequence(r, s)
    requires forall i | 0 <= i < |r| :: IsAllowed(r[i])
    requires forall c :: IsAllowed(c) ==> multiset(r)[c] == multiset(s)[c]
    ensures IsAllowed(s[0]) && IsSubsequence(r[1..], s[1..])
    ensures forall i | 0 <= i < |r[1..]| :: IsAllowed(r[1..][i])
    ensures forall c :: IsAllowed(c) ==> multiset(r[1..])[c] == multiset(s[1..])[c]
  {
    assert s == [s[0]] + s[1..];
    assert r == [r[0]] + r[1..];
    assert IsAllowed(r[0]);
  }

  /** The step of `SanitizeUnique` where `r` does not keep the first character:
      that character cannot be allowed, since `r` then holds one fewer of it. */
  lemma SkipsFirst(s: string, r: string)
    requires s != [] && (r == [] || r[0] != s[0])
    requires IsSubsequence(r, s)
    requires forall c :: IsAllowed(c) ==> multiset(r)[c] == multiset(s)[c]
    ensures !IsAllowed(s[0]) && IsSubsequence(r, s[1..])
    ensures forall c :: IsAllowed(c) ==> multiset(r)[c] == multiset(s[1..])[c]
  {
    assert s == [s[0]] + s[1..];
    assert IsSubsequence(r, s[1..]);
    SubsequenceMultiset(r, s[1..]);
    assert multiset(r)[s[0]] <= multiset(s[1..])[s[0]] < multiset(s)[s[0]];
  }

  /** Sanitising text that holds only allowed characters changes nothing. */
  lemma {:induction false} SanitizeAllowedIdentity(s: string)
    requires forall i | 0 <= i < |s| :: IsAllowed(s[i])
    ensures Sanitize(s) == s
  {
    if s != [] {
      assert forall i | 0 <= i < |s[1..]| :: s[1..][i] == s[i + 1];
      SanitizeAllowedIdentity(s[1..]);
    }
  }

  /** `sanitizeExpression` is idempotent. */
  lemma SanitizeIdempotent(s: string)
    ensures Sanitize(Sanitize(s)) == Sanitize(s)
  {
    SanitizeAllowedIdentity(Sanitize(s));
  }

  /** No allowed character is whitespace, so sanitised text never contains
      whitespace. */
  lemma SanitizeHasNoWhitespace(s: string)
    ensures forall i | 0 <= i < |Sanitize(s)| :: !IsWhitespace(Sanitize(s)[i])
  {
  }

  // ---------------------------------------------------------------------------
  // Numbers and evaluation
  // ---------------------------------------------------------------------------

  /** A JavaScript number; signed zero is not distinguished. */
  datatype Double = Finite(x: real) | Infinite(negative: bool) | NaN

  /** How running the generated function on sanitised text ends: it returns a
      value or it throws (a syntax error, calling a number, ...). Sanitised
      text such as `/5/` is a regular-expression literal, so the function
      returns a RegExp object; such an object is not finite, converts to NaN
      and is not below zero, so it is `Returned(NaN)` on every path. */
  datatype Completion = Returned(value: Double) | Threw

  /** The result of `evaluateExpression`: the no-op `''` (`Empty`), a thrown
      exception (`Fail`) or a number. */
  datatype Outcome = Empty | Fail | Value(v: Double)

  /** The IEEE-double machinery the source delegates to JavaScript:
      `run` is `Function('"use strict"; return (' + s + ')')()` on sanitised
      non-blank text, `square` is `Math.pow(x, 2)`, `sqrt` is `Math.sqrt`, and
      `render` is the finite branch of `formatResult` (`toString`, or
      `parseFloat(x.toFixed(8)).toString()` for non-integers). */
  datatype Numerics = Numerics(
    run: string -> Completion,
    square: Double -> Double,
    sqrt: Double -> Double,
    render: real -> string)

  /** Facts about JavaScript numbers that the properties below rely on: no
      finite number prints as "Error", and zero squares, roots and prints as
      plain zero. */
  ghost predicate IeeeLike(n: Numerics) {
    && (forall x: real :: n.render(x) != "Error")
    && n.render(0.0) == "0"
    && n.square(Finite(0.0)) == Finite(0.0)
    && n.sqrt(Finite(0.0)) == Finite(0.0)
  }

  /** `evaluateExpression`: sanitise, answer `Empty` when what remains trims to
      nothing, otherwise run the sanitised text. */
  function Evaluate(raw: string, n: Numerics): Outcome {
    var s := Sanitize(raw);
    if Trim(s) == [] then Empty
    else match n.run(s)
      case Threw => Fail
      case Returned(v) => Value(v)
  }

  /** `Evaluate` answers `Empty` exactly when nothing survives sanitising, and
      anything else only for a display that is not blank; otherwise it is what
      running the sanitised text gives. */
  lemma EvaluateCases(raw: string, n: Numerics)
    ensures Evaluate(raw, n).Empty? <==> Sanitize(raw) == []
    ensures !Evaluate(raw, n).Empty? ==> !IsBlank(raw)
    ensures Evaluate(raw, n).Fail? <==> Sanitize(raw) != [] && n.run(Sanitize(raw)).Threw?
    ensures Evaluate(raw, n).Value? ==> n.run(Sanitize(raw)) == Returned(Evaluate(raw, n).v)
  {
    SanitizedTrimsToItself(raw);
    assert Evaluate(raw, n).Empty? <==> Trim(Sanitize(raw)) == [];
    if Sanitize(raw) != [] {
      SurvivorNotBlank(raw);
    }
  }

  /** Sanitised text holds no whitespace, so it trims to nothing exactly when
      it is empty. */
  lemma SanitizedTrimsToItself(raw: string)
    ensures Trim(Sanitize(raw)) == [] <==> Sanitize(raw) == []
  {
    var s := Sanitize(raw);
    TrimEmptyIffBlank(s);
    if s != [] {
      assert !IsWhitespace(s[0]) by { assert IsAllowed(s[0]); }
    }
  }

  /** Text from which some character survives sanitising is not blank. */
  lemma SurvivorNotBlank(raw: string)
    requires Sanitize(raw) != []
    ensures !IsBlank(raw)
  {
    var s := Sanitize(raw);
    SanitizeCounts(raw);
    assert s[0] in raw by { assert multiset(s)[s[0]] > 0; }
    var j :| 0 <= j < |raw| && raw[j] == s[0];
    assert !IsWhitespace(raw[j]) by { assert IsAllowed(s[0]); }
    BlankAt(raw);
  }

  /** `Number(value)` applied to what `evaluateExpression` returned: the no-op
      `''` converts to zero. */
  function ToNumber(o: Outcome): (d: Double)
    requires !o.Fail?
    ensures o.Empty? ==> d == Finite(0.0)
    ensures o.Value? ==> d == o.v
  {
    if o.Empty? then Finite(0.0) else o.v
  }

  /** `value < 0` in `applySqrt`: the no-op `''` compares as zero, NaN compares
      false. */
  predicate IsNegative(o: Outcome)
    requires !o.Fail?
  {
    match o
    case Empty => false
    case Value(Finite(x)) => x < 0.0
    case Value(Infinite(negative)) => negative
    case Value(NaN) => false
  }

  /** `Number(value) * -1`, which is exact on doubles. */
  function Negate(d: Double): (r: Double)
    ensures r.Finite? <==> d.Finite?
    ensures d.Finite? ==> r.x + d.x == 0.0
    ensures d.Infinite? ==> r.Infinite? && r.negative != d.negative
    ensures d.NaN? ==> r.NaN?
  {
    match d
    case Finite(x) => Finite(-x)
    case Infinite(negative) => Infinite(!negative)
    case NaN => NaN
  }

  /** Multiplying by -1 twice gives back the number. */
  lemma NegateInvolutive(d: Double)
    ensures Negate(Negate(d)) == d
  {
  }

  /** `formatResult`: "Error" for a non-finite number, the rendering otherwise;
      for JavaScript numbers, "Error" exactly when the number is not finite. */
  function Format(d: Double, n: Numerics): (r: string)
    ensures !d.Finite? ==> r == "Error"
    ensures IeeeLike(n) ==> (r == "Error" <==> !d.Finite?)
  {
    if !d.Finite? then "Error" else n.render(d.x)
  }
}
