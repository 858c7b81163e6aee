/**
 Delimiter matching with one stack per bracket kind, nesting depth of function bodies, and the
 signature scan that relies on both. Matching is specified by depth counts alone.
 */
module Delimiters {
  import opened Outcomes

  datatype Token = Token(value: string, offset: nat, line: nat, isIdentifier: bool)

  datatype Bracket = Round | Square | Brace

  datatype DelimiterError =
    | UnmatchedClosing(index: nat)
    | Unclosed(index: nat)
    | DepthUnderflow(index: nat)
    | InconsistentDepth
    | LacksParameterList(index: nat)
    | UnmatchedInSignature(index: nat)
    | LacksBody(index: nat)

  function Opening(t: Token): Option<Bracket> {
    if t.value == "(" then Some(Round) else if t.value == "[" then Some(Square) else if t.value == "{" then Some(Brace) else None
  }

  function Closing(t: Token): Option<Bracket> {
    if t.value == ")" then Some(Round) else if t.value == "]" then Some(Square) else if t.value == "}" then Some(Brace) else None
  }

  // ----- depth -----

  /** Openings less closings of one kind among the first `n` tokens. */
  function Depth(ts: seq<Token>, k: Bracket, n: nat): int
    requires n <= |ts|
  {
    if n == 0 then 0
    else
      Depth(ts, k, n - 1)
      + (if Opening(ts[n - 1]) == Some(k) then 1 else if Closing(ts[n - 1]) == Some(k) then -1 else 0)
  }

  /** No prefix closes more than it opens, and the whole closes what it opens. */
  ghost predicate Balanced(ts: seq<Token>, k: Bracket) {
    NeverNegative(ts, k, |ts|) && Depth(ts, k, |ts|) == 0
  }

  ghost predicate NeverNegative(ts: seq<Token>, k: Bracket, n: nat)
    requires n <= |ts|
  {
    forall m :: 0 <= m <= n ==> Depth(ts, k, m) >= 0
  }

  /** The depth stays above its value at `i` on all of `i + 1 .. n`. */
  ghost predicate StaysAbove(ts: seq<Token>, k: Bracket, i: nat, n: nat)
    requires i <= n <= |ts|
  {
    forall m :: i < m <= n ==> Depth(ts, k, m) > Depth(ts, k, i)
  }

  /** `j` closes `i`: the depth first returns to its value at `i` just after `j`. */
  ghost predicate Matched(ts: seq<Token>, k: Bracket, i: nat, j: nat) {
    && i < j < |ts|
    && Opening(ts[i]) == Some(k) && Closing(ts[j]) == Some(k)
    && Depth(ts, k, j + 1) == Depth(ts, k, i)
    && StaysAbove(ts, k, i, j)
  }

  ghost predicate Paired(ts: seq<Token>, i: nat, j: nat) {
    exists k :: Matched(ts, k, i, j) || Matched(ts, k, j, i)
  }

  /** The map relates exactly the matched positions below `n`, both ways. */
  ghost predicate PairsUpTo(ts: seq<Token>, pairs: map<nat, nat>, n: nat) {
    && (forall i :: i in pairs ==> i < n && pairs[i] < n && Paired(ts, i, pairs[i]))
    && (forall i: nat, j: nat :: i < n && j < n && Paired(ts, i, j) ==> i in pairs && pairs[i] == j)
  }

  ghost predicate ExactPairs(ts: seq<Token>, pairs: map<nat, nat>) {
    PairsUpTo(ts, pairs, |ts|)
  }

  // ----- uniqueness of matches -----

  lemma SameCloser(ts: seq<Token>, k: Bracket, i: nat, j: nat, j': nat)
    requires Matched(ts, k, i, j) && Matched(ts, k, i, j')
    ensures j == j'
  {
  }

  lemma SameOpener(ts: seq<Token>, k: Bracket, i: nat, i': nat, j: nat)
    requires Matched(ts, k, i, j) && Matched(ts, k, i', j)
    ensures i == i'
  {
  }

  /** A position has at most one partner. */
  lemma PartnerUnique(ts: seq<Token>, i: nat, j: nat, j': nat)
    requires Paired(ts, i, j) && Paired(ts, i, j')
    ensures j == j'
  {
    var k :| Matched(ts, k, i, j) || Matched(ts, k, j, i);
    var k' :| Matched(ts, k', i, j') || Matched(ts, k', j', i);
    assert k == k';
    if Matched(ts, k, i, j) { SameCloser(ts, k, i, j, j'); } else { SameOpener(ts, k, j, j', i); }
  }

  // ----- the stacks -----

  /** `p` opens a bracket at depth `d` that is still open after `n` tokens. */
  ghost predicate StillOpen(ts: seq<Token>, k: Bracket, p: nat, d: nat, n: nat)
    requires n <= |ts|
  {
    p < n && Opening(ts[p]) == Some(k) && Depth(ts, k, p) == d && StaysAbove(ts, k, p, n)
  }

  lemma StaysOpen(ts: seq<Token>, k: Bracket, p: nat, d: nat, n: nat)
    requires n < |ts| && StillOpen(ts, k, p, d, n) && Depth(ts, k, n + 1) > d
    ensures StillOpen(ts, k, p, d, n + 1)
  {
  }

  /** The unmatched openings of one kind among the first `n` tokens, outermost first. */
  ghost predicate IsStack(ts: seq<Token>, k: Bracket, stack: seq<nat>, n: nat)
    requires n <= |ts|
  {
    |stack| == Depth(ts, k, n) && forall d :: 0 <= d < |stack| ==> StillOpen(ts, k, stack[d], d, n)
  }

  lemma StackKept(ts: seq<Token>, k: Bracket, stack: seq<nat>, n: nat)
    requires n < |ts| && IsStack(ts, k, stack, n) && Opening(ts[n]) != Some(k) && Closing(ts[n]) != Some(k)
    ensures IsStack(ts, k, stack, n + 1)
  {
    assert Depth(ts, k, n + 1) == Depth(ts, k, n);
    forall d | 0 <= d < |stack| ensures StillOpen(ts, k, stack[d], d, n + 1) { StaysOpen(ts, k, stack[d], d, n); }
  }

  lemma StackPushed(ts: seq<Token>, k: Bracket, stack: seq<nat>, n: nat)
    requires n < |ts| && IsStack(ts, k, stack, n) && Opening(ts[n]) == Some(k)
    ensures IsStack(ts, k, stack + [n], n + 1)
  {
    assert Depth(ts, k, n + 1) == Depth(ts, k, n) + 1;
    forall d | 0 <= d < |stack| ensures StillOpen(ts, k, (stack + [n])[d], d, n + 1) { StaysOpen(ts, k, stack[d], d, n); }
    assert StillOpen(ts, k, n, |stack|, n + 1);
  }

  lemma TopCloses(ts: seq<Token>, k: Bracket, p: nat, d: nat, n: nat)
    requires n < |ts| && StillOpen(ts, k, p, d, n) && Closing(ts[n]) == Some(k) && Depth(ts, k, n) == d + 1
    ensures Matched(ts, k, p, n)
  {
    assert Depth(ts, k, n + 1) == Depth(ts, k, n) - 1;
  }

  lemma StackPopped(ts: seq<Token>, k: Bracket, stack: seq<nat>, n: nat)
    requires n < |ts| && IsStack(ts, k, stack, n) && Closing(ts[n]) == Some(k) && stack != []
    ensures IsStack(ts, k, stack[..|stack| - 1], n + 1)
    ensures Matched(ts, k, stack[|stack| - 1], n)
  {
    var top := |stack| - 1;
    TopCloses(ts, k, stack[top], top, n);
    assert Depth(ts, k, n + 1) == Depth(ts, k, n) - 1;
    forall d | 0 <= d < top ensures StillOpen(ts, k, stack[..top][d], d, n + 1) { StaysOpen(ts, k, stack[d], d, n); }
  }

  /** A closing token pairs with an earlier position only; any other token with none. */
  lemma PairsKept(ts: seq<Token>, pairs: map<nat, nat>, n: nat)
    requires n < |ts| && PairsUpTo(ts, pairs, n) && Closing(ts[n]).None?
    ensures PairsUpTo(ts, pairs, n + 1)
  {
    forall i: nat, j: nat | i < n + 1 && j < n + 1 && Paired(ts, i, j) ensures i < n && j < n {
      var k :| Matched(ts, k, i, j) || Matched(ts, k, j, i);
    }
  }

  lemma PairsExtended(ts: seq<Token>, pairs: map<nat, nat>, n: nat, k: Bracket, opening: nat)
    requires n < |ts| && PairsUpTo(ts, pairs, n) && Matched(ts, k, opening, n)
    ensures PairsUpTo(ts, pairs[opening := n][n := opening], n + 1)
  {
    var next := pairs[opening := n][n := opening];
    assert Paired(ts, opening, n) && Paired(ts, n, opening);
    forall i: nat, j: nat | i < n + 1 && j < n + 1 && Paired(ts, i, j) ensures i in next && next[i] == j {
      if i == opening {
        PartnerUnique(ts, opening, j, n);
      } else if i == n {
        PartnerUnique(ts, n, j, opening);
      } else if j == n {
        assert Paired(ts, n, i);
        PartnerUnique(ts, n, i, opening);
      }
    }
    forall i | i in next ensures i < n + 1 && next[i] < n + 1 && Paired(ts, i, next[i]) { }
  }

  // ----- matching -----

  /** Every stack describes the first `n` tokens, and no kind has gone negative. */
  ghost predicate StacksUpTo(ts: seq<Token>, stacks: map<Bracket, seq<nat>>, n: nat)
    requires n <= |ts|
  {
    forall k :: k in stacks && IsStack(ts, k, stacks[k], n) && NeverNegative(ts, k, n)
  }

  lemma StacksEmpty(ts: seq<Token>, stacks: map<Bracket, seq<nat>>)
    requires stacks == map[Round := [], Square := [], Brace := []]
    ensures StacksUpTo(ts, stacks, 0)
  {
    forall k ensures k in stacks && IsStack(ts, k, stacks[k], 0) && NeverNegative(ts, k, 0) {
      match k case Round => case Square => case Brace =>
    }
  }

  lemma StacksKept(ts: seq<Token>, stacks: map<Bracket, seq<nat>>, n: nat)
    requires n < |ts| && StacksUpTo(ts, stacks, n) && Opening(ts[n]).None? && Closing(ts[n]).None?
    ensures StacksUpTo(ts, stacks, n + 1)
  {
    forall k ensures IsStack(ts, k, stacks[k], n + 1) && NeverNegative(ts, k, n + 1) { StackKept(ts, k, stacks[k], n); }
  }

  lemma StacksPushed(ts: seq<Token>, stacks: map<Bracket, seq<nat>>, n: nat, openedKind: Bracket)
    requires n < |ts| && StacksUpTo(ts, stacks, n) && Opening(ts[n]) == Some(openedKind)
    ensures StacksUpTo(ts, stacks[openedKind := stacks[openedKind] + [n]], n + 1)
  {
    var next := stacks[openedKind := stacks[openedKind] + [n]];
    forall k ensures k in next && IsStack(ts, k, next[k], n + 1) && NeverNegative(ts, k, n + 1) {
      if k == openedKind { StackPushed(ts, k, stacks[k], n); } else { StackKept(ts, k, stacks[k], n); }
    }
  }

  lemma StacksPopped(ts: seq<Token>, stacks: map<Bracket, seq<nat>>, n: nat, closedKind: Bracket)
    requires n < |ts| && StacksUpTo(ts, stacks, n) && Closing(ts[n]) == Some(closedKind) && stacks[closedKind] != []
    ensures StacksUpTo(ts, stacks[closedKind := stacks[closedKind][..|stacks[closedKind]| - 1]], n + 1)
    ensures Matched(ts, closedKind, stacks[closedKind][|stacks[closedKind]| - 1], n)
  {
    var next := stacks[closedKind := stacks[closedKind][..|stacks[closedKind]| - 1]];
    forall k ensures k in next && IsStack(ts, k, next[k], n + 1) && NeverNegative(ts, k, n + 1) {
      if k == closedKind { StackPopped(ts, k, stacks[k], n); } else { StackKept(ts, k, stacks[k], n); }
    }
    StackPopped(ts, closedKind, stacks[closedKind], n);
  }

  /** The first closing token that goes below zero. */
  ghost predicate FirstUnderflow(ts: seq<Token>, index: nat) {
    && index < |ts|
    && (forall k :: NeverNegative(ts, k, index))
    && exists k :: Closing(ts[index]) == Some(k) && Depth(ts, k, index + 1) < 0
  }

  /** An opening token whose closer never comes. */
  ghost predicate LeftOpen(ts: seq<Token>, index: nat) {
    index < |ts| && exists k :: Opening(ts[index]) == Some(k) && StaysAbove(ts, k, index, |ts|)
  }

  lemma ClosesNothing(ts: seq<Token>, stacks: map<Bracket, seq<nat>>, index: nat, kind: Bracket)
    requires index < |ts| && StacksUpTo(ts, stacks, index) && Closing(ts[index]) == Some(kind) && stacks[kind] == []
    ensures FirstUnderflow(ts, index) && !forall k :: Balanced(ts, k)
  {
    assert Depth(ts, kind, index + 1) < 0;
    assert !Balanced(ts, kind);
  }

  lemma NothingLeftOpen(ts: seq<Token>, stacks: map<Bracket, seq<nat>>)
    requires StacksUpTo(ts, stacks, |ts|) && forall k :: stacks[k] == []
    ensures forall k :: Balanced(ts, k)
  {
    forall k ensures Balanced(ts, k) { assert IsStack(ts, k, stacks[k], |ts|); }
  }

  /** Succeeds iff each kind balances on its own, with exactly the matched positions; errors name a real culprit. */
  method DelimiterPairs(ts: seq<Token>) returns (r: Result<map<nat, nat>, DelimiterError>)
    ensures r.Ok? <==> forall k :: Balanced(ts, k)
    ensures r.Ok? ==> ExactPairs(ts, r.value)
    ensures r.Err? ==> match r.error
                       case UnmatchedClosing(index) => FirstUnderflow(ts, index)
                       case Unclosed(index) =>
                         LeftOpen(ts, index) && forall i: nat :: LeftOpen(ts, i) ==> ts[index].offset <= ts[i].offset
                       case _ => false
  {
    var stacks: map<Bracket, seq<nat>> := map[Round := [], Square := [], Brace := []];
    var pairs: map<nat, nat> := map[];
    StacksEmpty(ts, stacks);
    for index := 0 to |ts|
      invariant StacksUpTo(ts, stacks, index)
      invariant PairsUpTo(ts, pairs, index)
    {
      var openedKind, closedKind := Opening(ts[index]), Closing(ts[index]);
      if openedKind.Some? {
        StacksPushed(ts, stacks, index, openedKind.value);
        PairsKept(ts, pairs, index);
        stacks := stacks[openedKind.value := stacks[openedKind.value] + [index]];
      } else if closedKind.Some? {
        var stack := stacks[closedKind.value];
        if stack == [] {
          ClosesNothing(ts, stacks, index, closedKind.value);
          return Err(UnmatchedClosing(index));
        }
        StacksPopped(ts, stacks, index, closedKind.value);
        var opening := stack[|stack| - 1];
        PairsExtended(ts, pairs, index, closedKind.value, opening);
        stacks := stacks[closedKind.value := stack[..|stack| - 1]];
        pairs := pairs[opening := index][index := opening];
      } else {
        StacksKept(ts, stacks, index);
        PairsKept(ts, pairs, index);
      }
    }
    var unclosed := stacks[Round] + stacks[Square] + stacks[Brace];
    UnclosedAreLeftOpen(ts, stacks, unclosed);
    if unclosed != [] {
      var first := LowestOffset(ts, unclosed);
      LeftOpenUnbalances(ts, first);
      return Err(Unclosed(first));
    }
    NothingLeftOpen(ts, stacks);
    return Ok(pairs);
  }

  lemma UnclosedAreLeftOpen(ts: seq<Token>, stacks: map<Bracket, seq<nat>>, unclosed: seq<nat>)
    requires StacksUpTo(ts, stacks, |ts|) && unclosed == stacks[Round] + stacks[Square] + stacks[Brace]
    ensures forall i: nat :: LeftOpen(ts, i) <==> i in unclosed
    ensures forall i :: 0 <= i < |unclosed| ==> unclosed[i] < |ts|
    ensures unclosed == [] ==> forall k :: stacks[k] == []
  {
    forall k, i | i in stacks[k] ensures i < |ts| && LeftOpen(ts, i) {
      var d :| 0 <= d < |stacks[k]| && stacks[k][d] == i;
    }
    forall i: nat | LeftOpen(ts, i) ensures i in unclosed {
      var k :| Opening(ts[i]) == Some(k) && StaysAbove(ts, k, i, |ts|);
      OpenIsStacked(ts, k, stacks[k], i);
      InUnion(stacks, k, i);
    }
    if unclosed == [] {
      forall k ensures stacks[k] == [] {
        match k case Round => case Square => case Brace =>
      }
    }
  }

  lemma InUnion(stacks: map<Bracket, seq<nat>>, k: Bracket, i: nat)
    requires Round in stacks && Square in stacks && Brace in stacks && i in stacks[k]
    ensures i in stacks[Round] + stacks[Square] + stacks[Brace]
  {
    match k case Round => case Square => case Brace =>
  }

  lemma LeftOpenUnbalances(ts: seq<Token>, i: nat)
    requires LeftOpen(ts, i)
    ensures !forall k :: Balanced(ts, k)
  {
    var k :| Opening(ts[i]) == Some(k) && StaysAbove(ts, k, i, |ts|);
    assert Depth(ts, k, |ts|) > Depth(ts, k, i);
    assert !Balanced(ts, k);
  }

  lemma OpenIsStacked(ts: seq<Token>, k: Bracket, stack: seq<nat>, i: nat)
    requires i < |ts| && IsStack(ts, k, stack, |ts|) && NeverNegative(ts, k, |ts|)
    requires Opening(ts[i]) == Some(k) && StaysAbove(ts, k, i, |ts|)
    ensures i in stack
  {
    var d := Depth(ts, k, i);
    assert Depth(ts, k, |ts|) > d;
    var s := stack[d];
    assert StaysAbove(ts, k, s, |ts|) && Depth(ts, k, s) == d;
  }

  method LowestOffset(ts: seq<Token>, indexes: seq<nat>) returns (first: nat)
    requires indexes != [] && forall m :: 0 <= m < |indexes| ==> indexes[m] < |ts|
    ensures first in indexes && forall m :: 0 <= m < |indexes| ==> ts[first].offset <= ts[indexes[m]].offset
  {
    first := indexes[0];
    for n := 1 to |indexes|
      invariant first in indexes
      invariant forall m :: 0 <= m < n ==> ts[first].offset <= ts[indexes[m]].offset
    {
      if ts[indexes[n]].offset < ts[first].offset {
        first := indexes[n];
      }
    }
  }
}
