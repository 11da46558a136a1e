/**
 The part of JavaScript's string semantics the calculator relies on:
 `String.prototype.trim` and the blankness test `!s.trim()` that guards
 history recording and the unary operations.
 */
module JsStrings {

  /** The characters `trim` removes: ECMAScript WhiteSpace (TAB, VT, FF, SP,
      NBSP, ZWNBSP and the Unicode "Zs" category) and LineTerminator
      (LF, CR, LS, PS), by code point: U+0009 to U+000D are TAB, LF, VT, FF
      and CR. */
  predicate IsWhitespace(c: char) {
    var k := c as int;
    || 0x09 <= k <= 0x0D || k == 0x20 || k == 0xA0 || k == 0x1680
    || 0x2000 <= k <= 0x200A || k == 0x2028 || k == 0x2029 || k == 0x202F
    || k == 0x205F || k == 0x3000 || k == 0xFEFF
  }

  /** Every character of `s` is whitespace (the empty string included). */
  predicate IsBlank(s: string) {
    s == [] || (IsWhitespace(s[0]) && IsBlank(s[1..]))
  }

  /** `IsBlank` character by character. */
  lemma {:induction false} BlankAt(s: string)
    ensures IsBlank(s) <==> forall i | 0 <= i < |s| :: IsWhitespace(s[i])
  {
    if s != [] {
      BlankAt(s[1..]);
      assert forall i | 1 <= i < |s| :: s[i] == s[1..][i - 1];
    }
  }

  /** A concatenation is blank exactly when both parts are. */
  lemma {:induction false} BlankAppend(a: string, b: string)
    ensures IsBlank(a + b) <==> IsBlank(a) && IsBlank(b)
  {
    if a == [] {
      assert a + b == b;
    } else {
      BlankAppend(a[1..], b);
      assert (a + b)[1..] == a[1..] + b;
    }
  }

  /** `s` is blank exactly when both sides of any split of it are. */
  lemma BlankSplit(s: string, k: nat)
    requires k <= |s|
    ensures IsBlank(s) <==> IsBlank(s[..k]) && IsBlank(s[k..])
  {
    assert s == s[..k] + s[k..];
    BlankAppend(s[..k], s[k..]);
  }

  /** `s` with its leading whitespace removed. */
  function TrimStart(s: string): string {
    if s != [] && IsWhitespace(s[0]) then TrimStart(s[1..]) else s
  }

  /** `TrimStart` keeps a suffix of `s` that does not start with whitespace,
      and everything it drops is whitespace. */
  lemma {:induction false} TrimStartDropsBlank(s: string)
    ensures var r := TrimStart(s);
      && |r| <= |s| && r == s[|s| - |r|..]
      && IsBlank(s[..|s| - |r|])
      && (r == [] || !IsWhitespace(r[0]))
  {
    if s != [] && IsWhitespace(s[0]) {
      TrimStartDropsBlank(s[1..]);
      var r := TrimStart(s);
      assert s[..|s| - |r|][1..] == s[1..][..|s| - 1 - |r|];
    }
  }

  /** `s` with its trailing whitespace removed. */
  function TrimEnd(s: string): string {
    if s != [] && IsWhitespace(s[|s| - 1]) then TrimEnd(s[..|s| - 1]) else s
  }

  /** `TrimEnd` keeps a prefix of `s` that does not end with whitespace, and
      everything it drops is whitespace. */
  lemma {:induction false} TrimEndDropsBlank(s: string)
    ensures var r := TrimEnd(s);
      && |r| <= |s| && r == s[..|r|]
      && IsBlank(s[|r|..])
      && (r == [] || !IsWhitespace(r[|r| - 1]))
  {
    if s != [] && IsWhitespace(s[|s| - 1]) {
      var p := s[..|s| - 1];
      TrimEndDropsBlank(p);
      var r := TrimEnd(s);
      assert r == p[..|r|] == s[..|r|];
      BlankAppend(p[|r|..], [s[|s| - 1]]);
      assert s[|r|..] == p[|r|..] + [s[|s| - 1]];
    }
  }

  /** `r` occurs in `s` starting at index `i`. */
  predicate OccursAt(r: string, s: string, i: int) {
    0 <= i <= |s| - |r| && r == s[i..i + |r|]
  }

  /** JavaScript's `s.trim()`: leading, then trailing whitespace removed. */
  function Trim(s: string): string {
    TrimEnd(TrimStart(s))
  }

  lemma PrefixOfSuffix(s: string, k: nat, m: nat)
    requires k + m <= |s|
    ensures s[k..][..m] == s[k..k + m]
  {
  }

  /** What `trim` promises: a contiguous slice of `s` with no whitespace at
      either end. */
  lemma TrimIsInnerSlice(s: string)
    ensures exists i :: OccursAt(Trim(s), s, i)
    ensures Trim(s) == [] || (!IsWhitespace(Trim(s)[0]) && !IsWhitespace(Trim(s)[|Trim(s)| - 1]))
  {
    var t := TrimStart(s);
    TrimStartDropsBlank(s);
    var r := TrimEnd(t);
    TrimEndDropsBlank(t);
    assert r == Trim(s);
    PrefixOfSuffix(s, |s| - |t|, |r|);
    assert OccursAt(r, s, |s| - |t|);
    if r != [] {
      assert r[0] == t[0];
    }
  }

  /** `!s.trim()` holds exactly when `s` consists of whitespace only. */
  lemma TrimEmptyIffBlank(s: string)
    ensures Trim(s) == [] <==> IsBlank(s)
  {
    var t := TrimStart(s);
    TrimStartDropsBlank(s);
    BlankSplit(s, |s| - |t|);
    var r := TrimEnd(t);
    TrimEndDropsBlank(t);
    BlankSplit(t, |r|);
    if r != [] {
      BlankSplit(r, |r| - 1);
    }
  }
}
