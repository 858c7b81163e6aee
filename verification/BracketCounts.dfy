/**
 Bracket depths as plain counts of token texts: the surplus of a stretch is how often the opening
 text stands in it less how often the closing text does. A counter that never goes below zero is
 the largest surplus of all stretches that end where it stands.
 */
module BracketCounts {
  import opened Outcomes
  import opened Delimiters

  /** How many tokens from `from` up to `to` have the given text. */
  ghost function Occurrences(ts: seq<Token>, text: string, from: nat, to: nat): nat
    requires from <= to <= |ts|
  {
    if from == to then 0 else Occurrences(ts, text, from, to - 1) + if ts[to - 1].value == text then 1 else 0
  }

  ghost function Surplus(ts: seq<Token>, open: string, close: string, from: nat, to: nat): int
    requires from <= to <= |ts|
  {
    Occurrences(ts, open, from, to) - Occurrences(ts, close, from, to)
  }

  /** No stretch ending just before token `n` opens more than it closes. */
  ghost predicate NoneOpen(ts: seq<Token>, open: string, close: string, n: nat)
    requires n <= |ts|
  {
    forall j: nat :: j <= n ==> Surplus(ts, open, close, j, n) <= 0
  }

  /** `d` is the largest surplus of a stretch ending just before token `n`; the empty stretch makes it at least zero. */
  ghost predicate IsLargestSurplus(ts: seq<Token>, open: string, close: string, n: nat, d: int)
    requires n <= |ts|
  {
    && (forall j: nat :: j <= n ==> Surplus(ts, open, close, j, n) <= d)
    && exists j: nat :: j <= n && Surplus(ts, open, close, j, n) == d
  }

  lemma NoneOpenIsZero(ts: seq<Token>, open: string, close: string, n: nat, d: int)
    requires n <= |ts| && IsLargestSurplus(ts, open, close, n, d)
    ensures d >= 0 && (d == 0 <==> NoneOpen(ts, open, close, n))
  {
    assert Surplus(ts, open, close, n, n) == 0;
  }

  /** What the token before `n` adds to the surplus of a stretch that ends just after it. */
  ghost function Step(ts: seq<Token>, open: string, close: string, n: nat): int
    requires 0 < n <= |ts|
  {
    if ts[n - 1].value == open then 1 else if ts[n - 1].value == close then -1 else 0
  }

  lemma SurplusAt(ts: seq<Token>, open: string, close: string, j: nat, n: nat)
    requires j <= n && 0 < n <= |ts| && open != close
    ensures Surplus(ts, open, close, j, n) == if j < n then Surplus(ts, open, close, j, n - 1) + Step(ts, open, close, n) else 0
  {
  }

  /** Reading one more token moves the largest surplus as a counter that stops at zero moves. */
  lemma LargestSurplusNext(ts: seq<Token>, open: string, close: string, n: nat, d: int)
    requires 0 < n <= |ts| && open != close && IsLargestSurplus(ts, open, close, n - 1, d)
    ensures var next := d + Step(ts, open, close, n);
            IsLargestSurplus(ts, open, close, n, if next >= 0 then next else 0)
  {
    var next := d + Step(ts, open, close, n);
    var largest := if next >= 0 then next else 0;
    SurplusAt(ts, open, close, n, n);
    forall j: nat | j <= n ensures Surplus(ts, open, close, j, n) <= largest {
      SurplusAt(ts, open, close, j, n);
    }
    NoneOpenIsZero(ts, open, close, n - 1, d);
    var j: nat :| j <= n - 1 && Surplus(ts, open, close, j, n - 1) == d;
    SurplusAt(ts, open, close, j, n);
  }

  lemma LargestSurplusStart(ts: seq<Token>, open: string, close: string)
    ensures IsLargestSurplus(ts, open, close, 0, 0)
  {
    assert Surplus(ts, open, close, 0, 0) == 0;
  }

  /** The depth of each kind, in the texts of its brackets. */
  lemma {:induction false} DepthExact(ts: seq<Token>, n: nat)
    requires n <= |ts|
    ensures Depth(ts, Round, n) == Surplus(ts, "(", ")", 0, n)
    ensures Depth(ts, Square, n) == Surplus(ts, "[", "]", 0, n)
    ensures Depth(ts, Brace, n) == Surplus(ts, "{", "}", 0, n)
  {
    if n > 0 { DepthExact(ts, n - 1); }
  }
}
