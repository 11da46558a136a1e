/**
 The recent-results list: most recent first, at most `HistoryLimit` entries,
 blank expressions ignored.
 */
module History {
  import opened JsStrings

  /** `historyLimit`. */
  const HistoryLimit: nat := 8

  /** One recorded calculation, as shown in the list. */
  datatype Entry = Entry(expression: string, result: string)

  function Min(a: int, b: int): int {
    if a <= b then a else b
  }

  /** `[entry, ...historyEntries].slice(0, historyLimit)`: the new entry at the
      front, followed by as many of the old entries as fit, in their order. */
  function Push(h: seq<Entry>, e: Entry): (r: seq<Entry>)
    ensures |r| == Min(|h| + 1, HistoryLimit)
    ensures r[0] == e
    ensures r[1..] == h[..|r| - 1]
  {
    ([e] + h)[..Min(|h| + 1, HistoryLimit)]
  }

  /** `addHistoryEntry` on the list: a blank (whitespace-only) expression leaves
      it as it is; any other pushes `(expression, result)`. */
  function AddEntry(h: seq<Entry>, expression: string, result: string): (r: seq<Entry>)
    ensures IsBlank(expression) ==> r == h
    ensures !IsBlank(expression) ==>
      && |r| == Min(|h| + 1, HistoryLimit)
      && r[0] == Entry(expression, result)
      && r[1..] == h[..|r| - 1]
  {
    TrimEmptyIffBlank(expression);
    if Trim(expression) == [] then h else Push(h, Entry(expression, result))
  }

  /** A non-blank expression is always recorded. */
  lemma AddEntryPushes(h: seq<Entry>, expression: string, result: string)
    requires !IsBlank(expression)
    ensures AddEntry(h, expression, result) == Push(h, Entry(expression, result))
  {
    TrimEmptyIffBlank(expression);
  }

  /** What the list always satisfies: within the limit, and no entry with a
      blank expression. */
  ghost predicate WellFormed(h: seq<Entry>) {
    && |h| <= HistoryLimit
    && forall i | 0 <= i < |h| :: !IsBlank(h[i].expression)
  }

  /** Pushing an entry whose expression is not blank keeps the list well
      formed. */
  lemma PushWellFormed(h: seq<Entry>, e: Entry)
    requires WellFormed(h) && !IsBlank(e.expression)
    ensures WellFormed(Push(h, e))
  {
    var r := Push(h, e);
    forall i | 0 <= i < |r| ensures !IsBlank(r[i].expression) {
      if i > 0 {
        assert r[i] == r[1..][i - 1] == h[i - 1];
      }
    }
  }

  lemma AddEntryWellFormed(h: seq<Entry>, expression: string, result: string)
    requires WellFormed(h)
    ensures WellFormed(AddEntry(h, expression, result))
  {
    if !IsBlank(expression) {
      AddEntryPushes(h, expression, result);
      PushWellFormed(h, Entry(expression, result));
    }
  }

  /** `s` in reverse order. */
  function Reversed(s: seq<Entry>): (r: seq<Entry>)
    ensures |r| == |s|
    ensures forall i | 0 <= i < |s| :: r[i] == s[|s| - 1 - i]
  {
    if s == [] then [] else Reversed(s[1..]) + [s[0]]
  }

  /** Pushing `es[0]`, then `es[1]`, and so on. */
  function PushAll(h: seq<Entry>, es: seq<Entry>): seq<Entry>
    decreases |es|
  {
    if es == [] then h else PushAll(Push(h, es[0]), es[1..])
  }

  /** The first `n` elements of `s`, or all of `s` if it is shorter. */
  function Take(s: seq<Entry>, n: nat): (r: seq<Entry>)
    ensures |r| == Min(|s|, n) && r == s[..|r|]
  {
    s[..Min(|s|, n)]
  }

  /** Truncating before appending to a suffix changes nothing once the result
      is truncated again. */
  lemma TakeAppendTake(a: seq<Entry>, b: seq<Entry>, n: nat)
    ensures Take(a + Take(b, n), n) == Take(a + b, n)
  {
    var lhs, rhs := Take(a + Take(b, n), n), Take(a + b, n);
    assert |lhs| == |rhs|;
    forall i | 0 <= i < |lhs| ensures lhs[i] == rhs[i] {
      if i >= |a| {
        assert lhs[i] == Take(b, n)[i - |a|] == b[i - |a|];
      }
    }
  }

  /** Successive pushes keep exactly the most recent entries, most recent first:
      the list after pushing `es` is made of the first `HistoryLimit` entries
      of `es` reversed, followed by the old list. */
  lemma {:induction false} PushAllKeepsMostRecent(h: seq<Entry>, es: seq<Entry>)
    requires |h| <= HistoryLimit
    ensures PushAll(h, es) == Take(Reversed(es) + h, HistoryLimit)
    decreases |es|
  {
    if es == [] {
      assert Reversed(es) + h == h;
    } else {
      PushAllKeepsMostRecent(Push(h, es[0]), es[1..]);
      assert Push(h, es[0]) == Take([es[0]] + h, HistoryLimit);
      TakeAppendTake(Reversed(es[1..]), [es[0]] + h, HistoryLimit);
      assert Reversed(es) == Reversed(es[1..]) + [es[0]];
      assert Reversed(es[1..]) + ([es[0]] + h) == Reversed(es) + h;
    }
  }

  /** Once at least `HistoryLimit` entries have been pushed, the list is full
      and holds exactly the last `HistoryLimit` of them, newest first; older
      entries, including everything from before, are evicted. */
  lemma FullAfterLimitPushes(h: seq<Entry>, es: seq<Entry>)
    requires |h| <= HistoryLimit
    requires |es| >= HistoryLimit
    ensures |PushAll(h, es)| == HistoryLimit
    ensures forall i | 0 <= i < HistoryLimit :: PushAll(h, es)[i] == es[|es| - 1 - i]
  {
    PushAllKeepsMostRecent(h, es);
    var r := PushAll(h, es);
    forall i | 0 <= i < HistoryLimit ensures r[i] == es[|es| - 1 - i] {
      assert r[i] == (Reversed(es) + h)[i] == Reversed(es)[i];
    }
  }
}
