/**
 What exact delimiter pairs guarantee, the nesting depth of a function body, and the signature
 scan that finds the body: over matched delimiters it terminates, never misses a partner, and
 hands the depth computation a body on which that cannot fail. Extraction runs it at every function.
 */
module FunctionBodies {
  import opened Outcomes
  import opened Delimiters
  import Parameters

  // ----- every bracket has its partner -----

  lemma {:induction false} FindCloser(ts: seq<Token>, k: Bracket, i: nat, n: nat) returns (j: nat)
    requires i < n <= |ts| && Balanced(ts, k) && Opening(ts[i]) == Some(k) && StaysAbove(ts, k, i, n)
    ensures Matched(ts, k, i, j)
    decreases |ts| - n
  {
    assert Depth(ts, k, n) > Depth(ts, k, i) >= 0;
    if Depth(ts, k, n + 1) > Depth(ts, k, i) {
      j := FindCloser(ts, k, i, n + 1);
    } else {
      j := n;
    }
  }

  lemma {:induction false} FindOpener(ts: seq<Token>, k: Bracket, j: nat, n: nat) returns (i: nat)
    requires n <= j < |ts| && NeverNegative(ts, k, |ts|) && Closing(ts[j]) == Some(k)
    requires forall m :: n < m <= j ==> Depth(ts, k, m) > Depth(ts, k, j + 1)
    ensures Matched(ts, k, i, j)
    decreases n
  {
    assert Depth(ts, k, j + 1) >= 0 && Depth(ts, k, j) == Depth(ts, k, j + 1) + 1;
    if Depth(ts, k, n) > Depth(ts, k, j + 1) {
      i := FindOpener(ts, k, j, n - 1);
    } else {
      i := n;
      assert Depth(ts, k, n + 1) > Depth(ts, k, j + 1);
    }
  }

  predicate IsBracket(t: Token) {
    Opening(t).Some? || Closing(t).Some?
  }

  ghost predicate AllBalanced(ts: seq<Token>) {
    forall k :: Balanced(ts, k)
  }

  lemma BracketHasPartner(ts: seq<Token>, i: nat) returns (j: nat)
    requires AllBalanced(ts) && i < |ts| && IsBracket(ts[i])
    ensures j < |ts| && Paired(ts, i, j)
  {
    if Opening(ts[i]).Some? {
      var k := Opening(ts[i]).value;
      assert Depth(ts, k, i + 1) == Depth(ts, k, i) + 1;
      j := FindCloser(ts, k, i, i + 1);
      assert Matched(ts, k, i, j);
    } else {
      var k := Closing(ts[i]).value;
      assert Balanced(ts, k);
      j := FindOpener(ts, k, i, i);
      assert Matched(ts, k, j, i);
    }
  }

  /** Exact pairs cover every bracket, are their own inverse, fix no position, and point from an opening to a later closing of its kind. */
  lemma PairsAreAnInvolution(ts: seq<Token>, pairs: map<nat, nat>)
    requires ExactPairs(ts, pairs) && AllBalanced(ts)
    ensures forall i: nat :: i in pairs <==> i < |ts| && IsBracket(ts[i])
    ensures forall i: nat :: i in pairs ==> pairs[i] in pairs && pairs[pairs[i]] == i && pairs[i] != i
    ensures forall i: nat :: i in pairs && Opening(ts[i]).Some? ==> i < pairs[i] && Closing(ts[pairs[i]]) == Opening(ts[i])
  {
    forall i: nat | i < |ts| && IsBracket(ts[i]) ensures i in pairs {
      var j := BracketHasPartner(ts, i);
    }
    forall i: nat | i in pairs
      ensures i < |ts| && IsBracket(ts[i]) && pairs[i] in pairs && pairs[pairs[i]] == i && pairs[i] != i
      ensures Opening(ts[i]).Some? ==> i < pairs[i] && Closing(ts[pairs[i]]) == Opening(ts[i])
    {
      var k :| Matched(ts, k, i, pairs[i]) || Matched(ts, k, pairs[i], i);
      assert Paired(ts, pairs[i], i);
    }
  }

  /** Spans of one kind are nested or disjoint. */
  lemma SpansNestOrSeparate(ts: seq<Token>, k: Bracket, i: nat, j: nat, i': nat, j': nat)
    requires Matched(ts, k, i, j) && Matched(ts, k, i', j') && i < i'
    ensures j' < j || j < i'
  {
    if i' <= j {
      assert Depth(ts, k, i') > Depth(ts, k, j + 1);
    }
  }

  // ----- block depth -----

  /** Braces open at `m` beyond those open at `from`. */
  ghost function Nesting(ts: seq<Token>, from: nat, m: nat): int
    requires from <= |ts| && m <= |ts|
  {
    Depth(ts, Brace, m) - Depth(ts, Brace, from)
  }

  ghost predicate IsMaximumNesting(ts: seq<Token>, from: nat, to: nat, maximum: int)
    requires from <= to <= |ts|
  {
    && (forall m :: from <= m <= to ==> Nesting(ts, from, m) <= maximum)
    && exists m :: from <= m <= to && Nesting(ts, from, m) == maximum
  }

  ghost predicate NestingNonnegative(ts: seq<Token>, from: nat, to: nat)
    requires from <= to <= |ts|
  {
    forall m :: from <= m <= to ==> Nesting(ts, from, m) >= 0
  }

  /** The depth stays at or above its start and comes back to it. */
  ghost predicate SelfContained(ts: seq<Token>, from: nat, to: nat)
    requires from <= to <= |ts|
  {
    NestingNonnegative(ts, from, to) && Nesting(ts, from, to) == 0
  }

  /** Maximum brace nesting strictly between `opening` and `closing`; fails exactly when those tokens are not self-contained. */
  method FunctionBlockDepth(ts: seq<Token>, opening: nat, closing: nat) returns (r: Result<nat, DelimiterError>)
    requires opening < closing <= |ts|
    ensures r.Ok? <==> SelfContained(ts, opening + 1, closing)
    ensures r.Ok? ==> IsMaximumNesting(ts, opening + 1, closing, r.value)
    ensures r.Err? ==> match r.error
                       case DepthUnderflow(index) =>
                         opening < index < closing && NestingNonnegative(ts, opening + 1, index) && Nesting(ts, opening + 1, index + 1) < 0
                       case InconsistentDepth => NestingNonnegative(ts, opening + 1, closing) && Nesting(ts, opening + 1, closing) > 0
                       case _ => false
  {
    ghost var from := opening + 1;
    var depth, maximum: nat := 0, 0;
    for index := opening + 1 to closing
      invariant IsNestingSoFar(ts, from, index, depth, maximum)
    {
      NestingNext(ts, from, index, depth, maximum);
      if ts[index].value == "{" {
        depth := depth + 1;
        maximum := if depth > maximum then depth else maximum;
      } else if ts[index].value == "}" {
        if depth == 0 {
          return Err(DepthUnderflow(index));
        }
        depth := depth - 1;
      }
    }
    if depth != 0 {
      return Err(InconsistentDepth);
    }
    return Ok(maximum);
  }

  /** The counters after the tokens from `from` up to `n`, none of which closed too much. */
  ghost predicate IsNestingSoFar(ts: seq<Token>, from: nat, n: nat, depth: nat, maximum: nat)
    requires from <= n <= |ts|
  {
    depth == Nesting(ts, from, n) && NestingNonnegative(ts, from, n) && IsMaximumNesting(ts, from, n, maximum)
  }

  lemma NestingNext(ts: seq<Token>, from: nat, n: nat, depth: nat, maximum: nat)
    requires from <= n < |ts| && IsNestingSoFar(ts, from, n, depth, maximum)
    ensures ts[n].value == "{" ==>
              IsNestingSoFar(ts, from, n + 1, depth + 1, if depth + 1 > maximum then depth + 1 else maximum)
    ensures ts[n].value == "}" && depth > 0 ==> IsNestingSoFar(ts, from, n + 1, depth - 1, maximum)
    ensures ts[n].value == "}" && depth == 0 ==> Nesting(ts, from, n + 1) < 0
    ensures ts[n].value != "{" && ts[n].value != "}" ==> IsNestingSoFar(ts, from, n + 1, depth, maximum)
  {
    var next := Nesting(ts, from, n + 1);
    assert next == depth + if ts[n].value == "{" then 1 else if ts[n].value == "}" then -1 else 0;
    assert Nesting(ts, from, n) <= maximum;
    MaximumExtended(ts, from, n, maximum, if next > maximum then next else maximum);
  }

  lemma MaximumExtended(ts: seq<Token>, from: nat, to: nat, before: int, after: int)
    requires from <= to < |ts| && IsMaximumNesting(ts, from, to, before)
    requires after == if Nesting(ts, from, to + 1) > before then Nesting(ts, from, to + 1) else before
    ensures IsMaximumNesting(ts, from, to + 1, after)
  {
    var m :| from <= m <= to && Nesting(ts, from, m) == before;
    if after == before { assert Nesting(ts, from, m) == after; } else { assert Nesting(ts, from, to + 1) == after; }
  }

  /** Between matched braces neither error of the depth computation can occur. */
  lemma BodyIsSelfContained(ts: seq<Token>, opening: nat, closing: nat)
    requires Matched(ts, Brace, opening, closing)
    ensures SelfContained(ts, opening + 1, closing)
  {
    assert Depth(ts, Brace, opening + 1) == Depth(ts, Brace, opening) + 1;
    assert Depth(ts, Brace, closing + 1) == Depth(ts, Brace, closing) - 1;
    var from := opening + 1;
    forall m | from <= m <= closing ensures Nesting(ts, from, m) >= 0 {
      assert Depth(ts, Brace, m) > Depth(ts, Brace, opening);
    }
  }

  // ----- the signature scan -----

  /** The end of a declaration, with its body when it has one. */
  datatype Extent =
    Extent(parameterOpen: nat, terminator: nat, bodyOpen: Option<nat>, blockDepth: nat, positionalParameters: nat)

  predicate EndsDeclaration(t: Token) {
    t.value == ";" || t.value == "{" || t.value == "}"
  }

  /** No round bracket comes before the place where the declaration or the file ends. */
  ghost predicate NoParameterList(ts: seq<Token>, from: nat) {
    exists end :: EndsWithoutRound(ts, from, end)
  }

  ghost predicate EndsWithoutRound(ts: seq<Token>, from: nat, end: nat) {
    from <= end <= |ts| && (forall m :: from <= m < end ==> ts[m].value != "(") && (end < |ts| ==> EndsDeclaration(ts[end]))
  }

  /** The first round bracket, with no end of a declaration before it. */
  ghost predicate OpensParameterList(ts: seq<Token>, from: nat, open: nat) {
    from <= open < |ts| && ts[open].value == "(" && forall m :: from <= m < open ==> ts[m].value != "(" && !EndsDeclaration(ts[m])
  }

  /** The first round bracket, unless a semicolon or brace comes before it. */
  method FindParameterList(ts: seq<Token>, from: nat) returns (r: Option<nat>)
    requires from <= |ts|
    ensures r.Some? ==> OpensParameterList(ts, from, r.value)
    ensures r.None? ==> NoParameterList(ts, from)
  {
    var cursor := from;
    while cursor < |ts|
      invariant from <= cursor <= |ts|
      invariant forall m :: from <= m < cursor ==> ts[m].value != "(" && !EndsDeclaration(ts[m])
      decreases |ts| - cursor
    {
      var value := ts[cursor].value;
      if value == "(" {
        return Some(cursor);
      }
      if value == ";" || value == "{" || value == "}" {
        break;
      }
      cursor := cursor + 1;
    }
    assert EndsWithoutRound(ts, from, cursor);
    return None;
  }

  /** Where the scan goes after position `i`: past a whole block, or one token on. */
  function Successor(ts: seq<Token>, pairs: map<nat, nat>, i: nat): nat
    requires i < |ts|
  {
    if ts[i].value == "{" && i in pairs then pairs[i] + 1 else i + 1
  }

  /** `path` lists the positions examined, starting at `from`. */
  ghost predicate IsWalk(ts: seq<Token>, pairs: map<nat, nat>, from: nat, path: seq<nat>) {
    && (forall n :: 0 <= n < |path| ==> path[n] < |ts|)
    && (path != [] ==> path[0] == from)
    && forall n :: 0 < n < |path| ==> path[n] == Successor(ts, pairs, path[n - 1])
  }

  ghost function WalkEnd(ts: seq<Token>, pairs: map<nat, nat>, from: nat, path: seq<nat>): nat
    requires IsWalk(ts, pairs, from, path)
  {
    if path == [] then from else Successor(ts, pairs, path[|path| - 1])
  }

  /** Openings less closings among the tokens examined. */
  ghost function Excess(ts: seq<Token>, path: seq<nat>, k: Bracket): int
    requires forall n :: 0 <= n < |path| ==> path[n] < |ts|
  {
    if path == [] then 0
    else
      var t := ts[path[|path| - 1]];
      Excess(ts, path[..|path| - 1], k)
      + (if Opening(t) == Some(k) then 1 else if Closing(t) == Some(k) then -1 else 0)
  }

  /** Angle brackets open; a closing one with none open, as in an arrow, counts nothing. */
  ghost function AngleDepth(ts: seq<Token>, path: seq<nat>): nat
    requires forall n :: 0 <= n < |path| ==> path[n] < |ts|
  {
    if path == [] then 0
    else
      var value, before := ts[path[|path| - 1]].value, AngleDepth(ts, path[..|path| - 1]);
      if value == "<" then before + 1 else if value == ">" && before > 0 then before - 1 else before
  }

  ghost predicate AtTopLevel(ts: seq<Token>, path: seq<nat>)
    requires forall n :: 0 <= n < |path| ==> path[n] < |ts|
  {
    Excess(ts, path, Round) == 0 && Excess(ts, path, Square) == 0 && AngleDepth(ts, path) == 0
  }

  ghost predicate ClosesTooMuch(ts: seq<Token>, path: seq<nat>)
    requires forall n :: 0 <= n < |path| ==> path[n] < |ts|
  {
    Excess(ts, path, Round) < 0 || Excess(ts, path, Square) < 0
  }

  /** The scan ends on the last position of `path`: a bracket closes too much, or the declaration ends at top level. */
  ghost predicate Decides(ts: seq<Token>, path: seq<nat>)
    requires forall n :: 0 <= n < |path| ==> path[n] < |ts|
  {
    path != [] && (ClosesTooMuch(ts, path) || (AtTopLevel(ts, path) && EndsDeclaration(ts[path[|path| - 1]])))
  }

  ghost predicate Undecided(ts: seq<Token>, path: seq<nat>)
    requires forall n :: 0 <= n < |path| ==> path[n] < |ts|
  {
    forall n :: 0 <= n <= |path| ==> !Decides(ts, path[..n])
  }

  lemma UndecidedExtends(ts: seq<Token>, path: seq<nat>, i: nat)
    requires i < |ts| && (forall n :: 0 <= n < |path| ==> path[n] < |ts|)
    requires Undecided(ts, path) && !Decides(ts, path + [i])
    ensures Undecided(ts, path + [i])
  {
    var longer := path + [i];
    forall n | 0 <= n <= |longer| ensures !Decides(ts, longer[..n]) {
      if n <= |path| { assert longer[..n] == path[..n]; } else { assert longer[..n] == longer; }
    }
  }

  /** The three depth counters of the scan; `After` fails where the source reports an unmatched bracket. */
  datatype SignatureDepth = SignatureDepth(round: nat, square: nat, angle: nat) {
    function After(value: string): Option<SignatureDepth> {
      if value == "(" then Some(this.(round := round + 1))
      else if value == ")" then if round == 0 then None else Some(this.(round := round - 1))
      else if value == "[" then Some(this.(square := square + 1))
      else if value == "]" then if square == 0 then None else Some(this.(square := square - 1))
      else if value == "<" then Some(this.(angle := angle + 1))
      else if value == ">" && angle > 0 then Some(this.(angle := angle - 1))
      else Some(this)
    }

    predicate IsTopLevel() {
      round == 0 && square == 0 && angle == 0
    }

    ghost predicate Counts(ts: seq<Token>, path: seq<nat>)
      requires forall n :: 0 <= n < |path| ==> path[n] < |ts|
    {
      round == Excess(ts, path, Round) && square == Excess(ts, path, Square) && angle == AngleDepth(ts, path)
    }
  }

  /** The counters track the openings less closings of the walk, and fail exactly where a bracket closes too much. */
  lemma CountersTrack(ts: seq<Token>, path: seq<nat>, i: nat, depth: SignatureDepth)
    requires i < |ts| && (forall n :: 0 <= n < |path| ==> path[n] < |ts|) && depth.Counts(ts, path)
    ensures (path + [i])[..|path|] == path
    ensures var next := depth.After(ts[i].value);
            if ClosesTooMuch(ts, path + [i]) then next == None else next.Some? && next.value.Counts(ts, path + [i])
  {
    assert (path + [i])[..|path|] == path;
  }

  lemma WalkExtends(ts: seq<Token>, pairs: map<nat, nat>, from: nat, path: seq<nat>, i: nat)
    requires IsWalk(ts, pairs, from, path) && i == WalkEnd(ts, pairs, from, path) && i < |ts|
    ensures IsWalk(ts, pairs, from, path + [i]) && WalkEnd(ts, pairs, from, path + [i]) == Successor(ts, pairs, i)
  {
  }

  /** The walk goes on exactly to its first decisive position or, when there is none, past the last token. */
  ghost predicate WalkStops(ts: seq<Token>, pairs: map<nat, nat>, from: nat, path: seq<nat>) {
    && IsWalk(ts, pairs, from, path)
    && if Undecided(ts, path) then WalkEnd(ts, pairs, from, path) >= |ts|
       else path != [] && Undecided(ts, path[..|path| - 1])
  }

  /** What the last position examined calls for. */
  ghost function Verdict(ts: seq<Token>, pairs: map<nat, nat>, path: seq<nat>, name: nat): Result<(nat, Option<nat>), DelimiterError>
    requires forall n :: 0 <= n < |path| ==> path[n] < |ts|
  {
    if !Decides(ts, path) then Err(LacksBody(name))
    else if ClosesTooMuch(ts, path) then Err(UnmatchedInSignature(name))
    else
      var last := path[|path| - 1];
      if ts[last].value == ";" then Ok((last, None))
      else if ts[last].value == "{" && last in pairs then Ok((pairs[last], Some(last)))
      else Err(LacksBody(name))
  }

  /** The walk so far, undecided, with the cursor and counters it leads to. */
  ghost predicate Scanning(ts: seq<Token>, pairs: map<nat, nat>, from: nat, path: seq<nat>, cursor: nat, depth: SignatureDepth) {
    && IsWalk(ts, pairs, from, path) && cursor == WalkEnd(ts, pairs, from, path)
    && depth.Counts(ts, path) && Undecided(ts, path)
  }

  /** A stopped walk calls for `r`. */
  ghost predicate IsVerdict(
    ts: seq<Token>, pairs: map<nat, nat>, from: nat, name: nat, r: Result<(nat, Option<nat>), DelimiterError>)
  {
    exists path :: WalkStops(ts, pairs, from, path) && Verdict(ts, pairs, path, name) == r
  }

  lemma {:induction false} WalksAgree(ts: seq<Token>, pairs: map<nat, nat>, from: nat, p: seq<nat>, q: seq<nat>, n: nat)
    requires IsWalk(ts, pairs, from, p) && IsWalk(ts, pairs, from, q) && n < |p| && n < |q|
    ensures p[n] == q[n]
  {
    if n > 0 { WalksAgree(ts, pairs, from, p, q, n - 1); }
  }

  lemma UndecidedBefore(ts: seq<Token>, pairs: map<nat, nat>, from: nat, path: seq<nat>, m: nat)
    requires WalkStops(ts, pairs, from, path) && m < |path|
    ensures Undecided(ts, path[..m])
  {
    var shorter := path[..|path| - 1];
    forall n | 0 <= n <= m ensures !Decides(ts, path[..m][..n]) {
      assert path[..m][..n] == path[..n] == shorter[..n];
    }
  }

  lemma WalkGoesOn(ts: seq<Token>, pairs: map<nat, nat>, from: nat, path: seq<nat>, m: nat)
    requires IsWalk(ts, pairs, from, path) && m < |path|
    ensures IsWalk(ts, pairs, from, path[..m]) && WalkEnd(ts, pairs, from, path[..m]) == path[m] < |ts|
  {
  }

  lemma LongerWalkStopsToo(ts: seq<Token>, pairs: map<nat, nat>, from: nat, p: seq<nat>, q: seq<nat>)
    requires WalkStops(ts, pairs, from, p) && WalkStops(ts, pairs, from, q) && |p| <= |q|
    ensures p == q
  {
    forall n | 0 <= n < |p| ensures p[n] == q[n] { WalksAgree(ts, pairs, from, p, q, n); }
    if |p| < |q| {
      assert p == q[..|p|];
      WalkGoesOn(ts, pairs, from, q, |p|);
      UndecidedBefore(ts, pairs, from, q, |p|);
    }
  }

  /** The walk stops in one place only, so the scan has one possible result. */
  lemma TerminatorUnique(ts: seq<Token>, pairs: map<nat, nat>, from: nat, name: nat,
                         r: Result<(nat, Option<nat>), DelimiterError>, r': Result<(nat, Option<nat>), DelimiterError>)
    requires IsVerdict(ts, pairs, from, name, r) && IsVerdict(ts, pairs, from, name, r')
    ensures r == r'
  {
    var p :| WalkStops(ts, pairs, from, p) && Verdict(ts, pairs, p, name) == r;
    var q :| WalkStops(ts, pairs, from, q) && Verdict(ts, pairs, q, name) == r';
    if |p| <= |q| { LongerWalkStopsToo(ts, pairs, from, p, q); } else { LongerWalkStopsToo(ts, pairs, from, q, p); }
  }

  lemma TerminatorMeans(ts: seq<Token>, pairs: map<nat, nat>, from: nat, name: nat, r: Result<(nat, Option<nat>), DelimiterError>)
    requires r.Ok? && IsVerdict(ts, pairs, from, name, r)
    ensures r == Ok((r.value.0, r.value.1))
    ensures match r.value.1
            case None => r.value.0 < |ts| && ts[r.value.0].value == ";"
            case Some(open) => open < |ts| && ts[open].value == "{" && open in pairs && pairs[open] == r.value.0
  {
    var path :| WalkStops(ts, pairs, from, path) && Verdict(ts, pairs, path, name) == r;
  }

  /** What the token at the cursor calls for when it decides. */
  function Decision(ts: seq<Token>, pairs: map<nat, nat>, cursor: nat, depth: SignatureDepth, name: nat)
    : Result<(nat, Option<nat>), DelimiterError>
    requires cursor < |ts|
  {
    if depth.After(ts[cursor].value).None? then Err(UnmatchedInSignature(name))
    else if ts[cursor].value == ";" then Ok((cursor, None))
    else if ts[cursor].value == "{" && cursor in pairs then Ok((pairs[cursor], Some(cursor)))
    else Err(LacksBody(name))
  }

  lemma DecisionIsVerdict(ts: seq<Token>, pairs: map<nat, nat>, path: seq<nat>, cursor: nat, depth: SignatureDepth, name: nat)
    requires cursor < |ts| && (forall n :: 0 <= n < |path| ==> path[n] < |ts|) && depth.Counts(ts, path)
    requires var next := depth.After(ts[cursor].value);
             next.Some? ==> next.value.IsTopLevel() && EndsDeclaration(ts[cursor])
    ensures Decides(ts, path + [cursor]) && Verdict(ts, pairs, path + [cursor], name) == Decision(ts, pairs, cursor, depth, name)
  {
    CountersTrack(ts, path, cursor, depth);
  }

  lemma DecidedWalkStops(ts: seq<Token>, pairs: map<nat, nat>, from: nat, path: seq<nat>, cursor: nat)
    requires cursor < |ts| && IsWalk(ts, pairs, from, path) && cursor == WalkEnd(ts, pairs, from, path)
    requires Undecided(ts, path) && Decides(ts, path + [cursor])
    ensures WalkStops(ts, pairs, from, path + [cursor])
  {
    var longer := path + [cursor];
    WalkExtends(ts, pairs, from, path, cursor);
    assert longer[..|longer|] == longer && longer[..|longer| - 1] == path;
  }

  lemma DecisionStops(ts: seq<Token>, pairs: map<nat, nat>, from: nat, path: seq<nat>, cursor: nat, depth: SignatureDepth, name: nat)
    requires cursor < |ts| && Scanning(ts, pairs, from, path, cursor, depth)
    requires var next := depth.After(ts[cursor].value);
             next.Some? ==> next.value.IsTopLevel() && EndsDeclaration(ts[cursor])
    ensures IsVerdict(ts, pairs, from, name, Decision(ts, pairs, cursor, depth, name))
  {
    DecisionIsVerdict(ts, pairs, path, cursor, depth, name);
    DecidedWalkStops(ts, pairs, from, path, cursor);
  }

  lemma ScanGoesOn(ts: seq<Token>, pairs: map<nat, nat>, from: nat, path: seq<nat>, cursor: nat, depth: SignatureDepth)
    requires cursor < |ts| && Scanning(ts, pairs, from, path, cursor, depth)
    requires var next := depth.After(ts[cursor].value);
             next.Some? && !(next.value.IsTopLevel() && EndsDeclaration(ts[cursor]))
    ensures Scanning(ts, pairs, from, path + [cursor], Successor(ts, pairs, cursor), depth.After(ts[cursor].value).value)
  {
    CountersTrack(ts, path, cursor, depth);
    WalkExtends(ts, pairs, from, path, cursor);
    UndecidedExtends(ts, path, cursor);
  }

  lemma EndStops(ts: seq<Token>, pairs: map<nat, nat>, from: nat, path: seq<nat>, cursor: nat, depth: SignatureDepth, name: nat)
    requires cursor >= |ts| && Scanning(ts, pairs, from, path, cursor, depth)
    ensures IsVerdict(ts, pairs, from, name, Err(LacksBody(name)))
  {
    assert path[..|path|] == path;
    assert WalkStops(ts, pairs, from, path);
  }

  /** Scans from the end of the parameter list to the semicolon or body; no lookup misses. */
  method FindTerminator(ts: seq<Token>, pairs: map<nat, nat>, name: nat, parameterClose: nat)
    returns (r: Result<(nat, Option<nat>), DelimiterError>)
    requires ExactPairs(ts, pairs) && AllBalanced(ts) && parameterClose < |ts|
    ensures IsVerdict(ts, pairs, parameterClose + 1, name, r)
  {
    ghost var from := parameterClose + 1;
    var cursor := parameterClose + 1;
    var depth := SignatureDepth(0, 0, 0);
    ghost var path: seq<nat> := [];
    while cursor < |ts|
      invariant Scanning(ts, pairs, from, path, cursor, depth)
      decreases |ts| - cursor
    {
      var value := ts[cursor].value;
      var next := depth.After(value);
      if next.None? || (next.value.IsTopLevel() && EndsDeclaration(ts[cursor])) {
        DecisionStops(ts, pairs, from, path, cursor, depth, name);
      } else {
        ScanGoesOn(ts, pairs, from, path, cursor, depth);
      }
      path := path + [cursor];
      if next.None? {
        return Err(UnmatchedInSignature(name));
      }
      depth := next.value;
      if value == ";" && depth.IsTopLevel() {
        return Ok((cursor, None));
      }
      if value == "{" {
        BlockIsPaired(ts, pairs, cursor);
        if depth.IsTopLevel() {
          return Ok((pairs[cursor], Some(cursor)));
        }
        cursor := pairs[cursor] + 1;
        continue;
      }
      if value == "}" && depth.IsTopLevel() {
        return Err(LacksBody(name));
      }
      cursor := cursor + 1;
    }
    EndStops(ts, pairs, from, path, cursor, depth, name);
    return Err(LacksBody(name));
  }

  lemma BlockIsPaired(ts: seq<Token>, pairs: map<nat, nat>, i: nat)
    requires ExactPairs(ts, pairs) && AllBalanced(ts) && i < |ts| && Opening(ts[i]).Some?
    ensures i in pairs && Matched(ts, Opening(ts[i]).value, i, pairs[i])
  {
    PairsAreAnInvolution(ts, pairs);
    var k :| Matched(ts, k, i, pairs[i]) || Matched(ts, k, pairs[i], i);
  }

  lemma BracketIsKnown(ts: seq<Token>, pairs: map<nat, nat>, i: nat)
    requires ExactPairs(ts, pairs) && AllBalanced(ts) && i < |ts| && Opening(ts[i]).Some?
    ensures i in pairs && i < pairs[i] < |ts|
  {
    BlockIsPaired(ts, pairs, i);
  }

  /** The depth of the body opened at `bodyOpen`; the depth computation cannot fail on it. */
  method BodyDepth(ts: seq<Token>, pairs: map<nat, nat>, bodyOpen: nat) returns (blockDepth: nat)
    requires ExactPairs(ts, pairs) && AllBalanced(ts) && bodyOpen < |ts| && ts[bodyOpen].value == "{"
    ensures bodyOpen in pairs && BodyMeasured(ts, bodyOpen, pairs[bodyOpen], blockDepth)
  {
    BlockIsPaired(ts, pairs, bodyOpen);
    BodyIsSelfContained(ts, bodyOpen, pairs[bodyOpen]);
    var depth := FunctionBlockDepth(ts, bodyOpen, pairs[bodyOpen]);
    return depth.value;
  }

  ghost predicate BodyMeasured(ts: seq<Token>, bodyOpen: nat, terminator: nat, blockDepth: nat) {
    Matched(ts, Brace, bodyOpen, terminator) && IsMaximumNesting(ts, bodyOpen + 1, terminator, blockDepth)
  }

  /** The block depth of a declaration: zero without a body, else the maximum nesting of the body. */
  ghost predicate IsDepth(ts: seq<Token>, bodyOpen: Option<nat>, terminator: nat, depth: nat) {
    match bodyOpen
    case None => depth == 0
    case Some(open) => BodyMeasured(ts, open, terminator, depth)
  }

  /** The parameter count and block depth are those of the tokens between the ends of the extent. */
  ghost predicate IsMeasured(ts: seq<Token>, pairs: map<nat, nat>, extent: Extent)
    requires extent.parameterOpen in pairs && extent.parameterOpen < pairs[extent.parameterOpen] <= |ts|
  {
    && extent.positionalParameters == Parameters.PositionalParameters(ts[extent.parameterOpen + 1..pairs[extent.parameterOpen]])
    && IsDepth(ts, extent.bodyOpen, extent.terminator, extent.blockDepth)
  }

  ghost predicate IsBody(ts: seq<Token>, pairs: map<nat, nat>, open: nat, terminator: nat) {
    open < |ts| && ts[open].value == "{" && open in pairs && pairs[open] == terminator
  }

  method DeclarationDepth(ts: seq<Token>, pairs: map<nat, nat>, bodyOpen: Option<nat>, ghost terminator: nat)
    returns (depth: nat)
    requires ExactPairs(ts, pairs) && AllBalanced(ts)
    requires bodyOpen.Some? ==> IsBody(ts, pairs, bodyOpen.value, terminator)
    ensures IsDepth(ts, bodyOpen, terminator, depth)
  {
    if bodyOpen.None? {
      return 0;
    }
    depth := BodyDepth(ts, pairs, bodyOpen.value);
  }

  method Measure(ts: seq<Token>, pairs: map<nat, nat>, parameterOpen: nat, terminator: nat, bodyOpen: Option<nat>, depth: nat)
    returns (extent: Extent)
    requires parameterOpen in pairs && parameterOpen < pairs[parameterOpen] <= |ts|
    requires IsDepth(ts, bodyOpen, terminator, depth)
    ensures extent.parameterOpen == parameterOpen && extent.terminator == terminator && extent.bodyOpen == bodyOpen
    ensures IsMeasured(ts, pairs, extent)
  {
    var count := Parameters.PositionalParameterCount(ts[parameterOpen + 1..pairs[parameterOpen]]);
    return Extent(parameterOpen, terminator, bodyOpen, depth, count);
  }

  /** The scan after a parameter list, sought from `from` on, stops with the error. */
  ghost predicate IsSignatureError(ts: seq<Token>, pairs: map<nat, nat>, from: nat, name: nat, error: DelimiterError) {
    exists open :: open in pairs && OpensParameterList(ts, from, open) && IsVerdict(ts, pairs, pairs[open] + 1, name, Err(error))
  }

  /** What is wrong with the declaration: no parameter list, or a scan after it that stops with the error. */
  ghost predicate IsDefect(ts: seq<Token>, pairs: map<nat, nat>, index: nat, error: DelimiterError) {
    || (error == LacksParameterList(index + 1) && NoParameterList(ts, index + 2))
    || IsSignatureError(ts, pairs, index + 2, index + 1, error)
  }

  /** The parameter list opens, and the scan after it stops, where the extent says. */
  ghost predicate IsSigned(ts: seq<Token>, pairs: map<nat, nat>, from: nat, name: nat, extent: Extent) {
    && OpensParameterList(ts, from, extent.parameterOpen) && extent.parameterOpen in pairs
    && IsVerdict(ts, pairs, pairs[extent.parameterOpen] + 1, name, Ok((extent.terminator, extent.bodyOpen)))
  }

  /** The extent of a declaration from its parameter list on. */
  ghost predicate IsExtentFrom(ts: seq<Token>, pairs: map<nat, nat>, name: nat, extent: Extent)
    requires extent.parameterOpen in pairs && extent.parameterOpen < pairs[extent.parameterOpen] <= |ts|
  {
    && IsVerdict(ts, pairs, pairs[extent.parameterOpen] + 1, name, Ok((extent.terminator, extent.bodyOpen)))
    && IsMeasured(ts, pairs, extent)
  }

  /** The extent of the declaration whose `fn` token is at `index`. */
  ghost predicate IsDeclaration(ts: seq<Token>, pairs: map<nat, nat>, index: nat, extent: Extent) {
    && IsSigned(ts, pairs, index + 2, index + 1, extent)
    && extent.parameterOpen < pairs[extent.parameterOpen] <= |ts| && IsMeasured(ts, pairs, extent)
  }

  /** The end of the declaration, with the body a terminator belongs to. */
  method FindEnd(ts: seq<Token>, pairs: map<nat, nat>, name: nat, parameterClose: nat)
    returns (r: Result<(nat, Option<nat>), DelimiterError>)
    requires ExactPairs(ts, pairs) && AllBalanced(ts) && parameterClose < |ts|
    ensures IsVerdict(ts, pairs, parameterClose + 1, name, r)
    ensures r.Ok? ==> r == Ok((r.value.0, r.value.1))
    ensures r.Ok? && r.value.1.Some? ==> IsBody(ts, pairs, r.value.1.value, r.value.0)
  {
    r := FindTerminator(ts, pairs, name, parameterClose);
    if r.Ok? { TerminatorMeans(ts, pairs, parameterClose + 1, name, r); }
  }

  /** What follows the parameter list that opens at `parameterOpen`. */
  method ExtractFrom(ts: seq<Token>, pairs: map<nat, nat>, name: nat, parameterOpen: nat)
    returns (r: Result<Extent, DelimiterError>)
    requires ExactPairs(ts, pairs) && AllBalanced(ts)
    requires parameterOpen in pairs && parameterOpen < pairs[parameterOpen] < |ts|
    ensures r.Err? ==> IsVerdict(ts, pairs, pairs[parameterOpen] + 1, name, Err(r.error))
    ensures r.Ok? ==> r.value.parameterOpen == parameterOpen && IsExtentFrom(ts, pairs, name, r.value)
  {
    var found := FindEnd(ts, pairs, name, pairs[parameterOpen]);
    if found.Err? {
      return Err(found.error);
    }
    var depth := DeclarationDepth(ts, pairs, found.value.1, found.value.0);
    var extent := Measure(ts, pairs, parameterOpen, found.value.0, found.value.1, depth);
    return Ok(extent);
  }

  /** The declaration whose `fn` token is at `index`: no lookup misses, and the depth is the true maximum nesting of the body. */
  method ExtractFunction(ts: seq<Token>, pairs: map<nat, nat>, index: nat)
    returns (r: Result<Extent, DelimiterError>)
    requires ExactPairs(ts, pairs) && AllBalanced(ts) && index + 1 < |ts|
    ensures r.Err? ==> IsDefect(ts, pairs, index, r.error)
    ensures r.Ok? ==> IsDeclaration(ts, pairs, index, r.value)
  {
    var parameterOpen := FindParameterList(ts, index + 2);
    if parameterOpen.None? {
      return Err(LacksParameterList(index + 1));
    }
    BracketIsKnown(ts, pairs, parameterOpen.value);
    r := ExtractFrom(ts, pairs, index + 1, parameterOpen.value);
  }

  // ----- all declarations -----

  /** An `fn` token with an identifier after it. */
  predicate BeginsFunction(ts: seq<Token>, index: nat)
    requires index < |ts|
  {
    ts[index].value == "fn" && index + 1 < |ts| && ts[index + 1].isIdentifier
  }

  /** Where functions begin among the first `n` tokens, in order. */
  function FunctionSites(ts: seq<Token>, n: nat): (sites: seq<nat>)
    requires n <= |ts|
    ensures forall k :: 0 <= k < |sites| ==> sites[k] < n
  {
    if n == 0 then []
    else if BeginsFunction(ts, n - 1) then FunctionSites(ts, n - 1) + [n - 1]
    else FunctionSites(ts, n - 1)
  }

  lemma {:induction false} SitesBegin(ts: seq<Token>, n: nat)
    requires n <= |ts|
    ensures forall index: nat :: index in FunctionSites(ts, n) <==> index < n && BeginsFunction(ts, index)
    ensures forall j, k :: 0 <= j < k < |FunctionSites(ts, n)| ==> FunctionSites(ts, n)[j] < FunctionSites(ts, n)[k]
  {
    if n > 0 { SitesBegin(ts, n - 1); }
  }

  /** The sites are exactly the positions of `fn` tokens that an identifier follows, ascending. */
  lemma SitesExact(ts: seq<Token>, n: nat)
    requires n <= |ts|
    ensures forall index: nat :: index in FunctionSites(ts, n)
                                 <==> index < n && index + 1 < |ts| && ts[index].value == "fn" && ts[index + 1].isIdentifier
    ensures forall j, k :: 0 <= j < k < |FunctionSites(ts, n)| ==> FunctionSites(ts, n)[j] < FunctionSites(ts, n)[k]
  {
    SitesBegin(ts, n);
  }

  /** One extent for each site, in order. */
  ghost predicate Extracted(ts: seq<Token>, pairs: map<nat, nat>, sites: seq<nat>, extents: seq<Extent>) {
    |extents| == |sites| && forall k :: 0 <= k < |sites| ==> IsDeclaration(ts, pairs, sites[k], extents[k])
  }

  lemma ExtractedOneMore(ts: seq<Token>, pairs: map<nat, nat>, sites: seq<nat>, extents: seq<Extent>, index: nat, extent: Extent)
    requires Extracted(ts, pairs, sites, extents) && IsDeclaration(ts, pairs, index, extent)
    ensures Extracted(ts, pairs, sites + [index], extents + [extent])
  {
  }

  /** The function at `index` is defective in the way `error` says, and every function before it is sound. */
  ghost predicate FirstDefective(ts: seq<Token>, pairs: map<nat, nat>, index: nat, error: DelimiterError) {
    && index < |ts| && BeginsFunction(ts, index) && IsDefect(ts, pairs, index, error)
    && exists extents :: Extracted(ts, pairs, FunctionSites(ts, index), extents)
  }

  /** Every function of the file in order, or the error of the first defective one. */
  method ExtractFunctions(ts: seq<Token>, pairs: map<nat, nat>) returns (r: Result<seq<Extent>, DelimiterError>)
    requires ExactPairs(ts, pairs) && AllBalanced(ts)
    ensures r.Ok? ==> Extracted(ts, pairs, FunctionSites(ts, |ts|), r.value)
    ensures r.Err? ==> exists index :: FirstDefective(ts, pairs, index, r.error)
  {
    var functions: seq<Extent> := [];
    for index := 0 to |ts|
      invariant Extracted(ts, pairs, FunctionSites(ts, index), functions)
    {
      if ts[index].value != "fn" || index + 1 >= |ts| || !ts[index + 1].isIdentifier {
        continue;
      }
      var extent := ExtractFunction(ts, pairs, index);
      if extent.Err? {
        assert FirstDefective(ts, pairs, index, extent.error);
        return Err(extent.error);
      }
      ExtractedOneMore(ts, pairs, FunctionSites(ts, index), functions, index, extent.value);
      functions := functions + [extent.value];
    }
    return Ok(functions);
  }

  /** Matching and extraction together: the pairs that matching yields are all that extraction asks for. */
  method MeasureFunctions(ts: seq<Token>) returns (r: Result<seq<Extent>, DelimiterError>)
    ensures r.Ok? ==> AllBalanced(ts) && exists pairs :: ExactPairs(ts, pairs) && Extracted(ts, pairs, FunctionSites(ts, |ts|), r.value)
    ensures r.Err? && AllBalanced(ts) ==>
              exists pairs, index :: ExactPairs(ts, pairs) && FirstDefective(ts, pairs, index, r.error)
    ensures !AllBalanced(ts) ==> r.Err? && (r.error.UnmatchedClosing? || r.error.Unclosed?)
  {
    var pairs := DelimiterPairs(ts);
    if pairs.Err? {
      return Err(pairs.error);
    }
    r := ExtractFunctions(ts, pairs.value);
  }

  // ----- the extent is unique -----

  lemma MaximumUnique(ts: seq<Token>, from: nat, to: nat, a: int, b: int)
    requires from <= to <= |ts| && IsMaximumNesting(ts, from, to, a) && IsMaximumNesting(ts, from, to, b)
    ensures a == b
  {
  }

  lemma SameParameterList(ts: seq<Token>, from: nat, open: nat, open': nat)
    requires OpensParameterList(ts, from, open) && OpensParameterList(ts, from, open')
    ensures open == open'
  {
  }

  lemma SameEnds(ts: seq<Token>, pairs: map<nat, nat>, from: nat, name: nat, a: Extent, b: Extent)
    requires IsVerdict(ts, pairs, from, name, Ok((a.terminator, a.bodyOpen)))
    requires IsVerdict(ts, pairs, from, name, Ok((b.terminator, b.bodyOpen)))
    ensures a.terminator == b.terminator && a.bodyOpen == b.bodyOpen
  {
    TerminatorUnique(ts, pairs, from, name, Ok((a.terminator, a.bodyOpen)), Ok((b.terminator, b.bodyOpen)));
  }

  lemma SameSignature(ts: seq<Token>, pairs: map<nat, nat>, from: nat, name: nat, a: Extent, b: Extent)
    requires IsSigned(ts, pairs, from, name, a) && IsSigned(ts, pairs, from, name, b)
    ensures a.parameterOpen == b.parameterOpen && a.terminator == b.terminator && a.bodyOpen == b.bodyOpen
  {
    SameParameterList(ts, from, a.parameterOpen, b.parameterOpen);
    SameEnds(ts, pairs, pairs[a.parameterOpen] + 1, name, a, b);
  }

  lemma SameDepth(ts: seq<Token>, bodyOpen: Option<nat>, terminator: nat, a: nat, b: nat)
    requires IsDepth(ts, bodyOpen, terminator, a) && IsDepth(ts, bodyOpen, terminator, b)
    ensures a == b
  {
    if bodyOpen.Some? { MaximumUnique(ts, bodyOpen.value + 1, terminator, a, b); }
  }

  lemma SameMeasures(ts: seq<Token>, pairs: map<nat, nat>, a: Extent, b: Extent)
    requires a.parameterOpen == b.parameterOpen && a.terminator == b.terminator && a.bodyOpen == b.bodyOpen
    requires a.parameterOpen in pairs && a.parameterOpen < pairs[a.parameterOpen] <= |ts|
    requires IsMeasured(ts, pairs, a) && IsMeasured(ts, pairs, b)
    ensures a == b
  {
    SameDepth(ts, a.bodyOpen, a.terminator, a.blockDepth, b.blockDepth);
  }

  /** A function has one extent at most, so the postconditions of extraction fix its result. */
  lemma ExtentUnique(ts: seq<Token>, pairs: map<nat, nat>, index: nat, a: Extent, b: Extent)
    requires IsDeclaration(ts, pairs, index, a) && IsDeclaration(ts, pairs, index, b)
    ensures a == b
  {
    SameSignature(ts, pairs, index + 2, index + 1, a, b);
    SameMeasures(ts, pairs, a, b);
  }

  lemma ListOrNone(ts: seq<Token>, from: nat, open: nat)
    requires OpensParameterList(ts, from, open)
    ensures !NoParameterList(ts, from)
  {
  }

  lemma NoErrorVerdict(ts: seq<Token>, pairs: map<nat, nat>, from: nat, name: nat, end: (nat, Option<nat>), error: DelimiterError)
    requires IsVerdict(ts, pairs, from, name, Ok(end))
    ensures !IsVerdict(ts, pairs, from, name, Err(error))
  {
    if IsVerdict(ts, pairs, from, name, Err(error)) { TerminatorUnique(ts, pairs, from, name, Ok(end), Err(error)); }
  }

  lemma OneSignature(ts: seq<Token>, pairs: map<nat, nat>, from: nat, name: nat, open: nat, error: DelimiterError)
    requires OpensParameterList(ts, from, open) && open in pairs && !IsVerdict(ts, pairs, pairs[open] + 1, name, Err(error))
    ensures !IsSignatureError(ts, pairs, from, name, error)
  {
    forall open' | OpensParameterList(ts, from, open') ensures open' == open { SameParameterList(ts, from, open, open'); }
  }

  lemma SignedIsNoError(ts: seq<Token>, pairs: map<nat, nat>, from: nat, name: nat, extent: Extent, error: DelimiterError)
    requires IsSigned(ts, pairs, from, name, extent)
    ensures !NoParameterList(ts, from) && !IsSignatureError(ts, pairs, from, name, error)
  {
    var open := extent.parameterOpen;
    ListOrNone(ts, from, open);
    NoErrorVerdict(ts, pairs, pairs[open] + 1, name, (extent.terminator, extent.bodyOpen), error);
    OneSignature(ts, pairs, from, name, open, error);
  }

  /** A function whose signature is sound, as that of every declaration is, has no defect. */
  lemma SoundIsNotDefective(ts: seq<Token>, pairs: map<nat, nat>, index: nat, extent: Extent, error: DelimiterError)
    requires IsSigned(ts, pairs, index + 2, index + 1, extent)
    ensures !IsDefect(ts, pairs, index, error)
  {
    SignedIsNoError(ts, pairs, index + 2, index + 1, extent, error);
  }
}
