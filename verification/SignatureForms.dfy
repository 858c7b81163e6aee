/**
 The signature scan in the texts of the tokens: which tokens it examines, where it stops, what it
 then returns, and what the parts of a function's extent are.
 */
module SignatureForms {
  import opened Outcomes
  import opened Delimiters
  import opened BracketCounts
  import opened FunctionBodies
  import Parameters

  // ----- the tokens examined -----

  ghost predicate WithinTokens(ts: seq<Token>, path: seq<nat>) {
    forall n :: 0 <= n < |path| ==> path[n] < |ts|
  }

  /** The tokens at the positions of `path`, in order. */
  ghost function Examined(ts: seq<Token>, path: seq<nat>): (tokens: seq<Token>)
    requires WithinTokens(ts, path)
    ensures |tokens| == |path| && forall n :: 0 <= n < |path| ==> tokens[n] == ts[path[n]]
  {
    seq(|path|, n requires 0 <= n < |path| => ts[path[n]])
  }

  /** Among the first `n` tokens a round or square bracket closes that was not opened. */
  ghost predicate Overclosed(e: seq<Token>, n: nat)
    requires n <= |e|
  {
    Surplus(e, "(", ")", 0, n) < 0 || Surplus(e, "[", "]", 0, n) < 0
  }

  /** Round and square brackets balance, and no stretch ending here opens more angle brackets than it closes. */
  ghost predicate Outside(e: seq<Token>, n: nat)
    requires n <= |e|
  {
    Surplus(e, "(", ")", 0, n) == 0 && Surplus(e, "[", "]", 0, n) == 0 && NoneOpen(e, "<", ">", n)
  }

  ghost predicate StopsAfter(e: seq<Token>, n: nat)
    requires n <= |e|
  {
    n > 0 && (Overclosed(e, n) || (Outside(e, n) && (e[n - 1].value == ";" || e[n - 1].value == "{" || e[n - 1].value == "}")))
  }

  lemma PathShortened(path: seq<nat>, n: nat)
    requires 0 < n <= |path|
    ensures path[..n][..n - 1] == path[..n - 1] && path[..n][n - 1] == path[n - 1]
  {
  }

  lemma {:induction false} ExcessExact(ts: seq<Token>, path: seq<nat>, n: nat)
    requires WithinTokens(ts, path) && n <= |path|
    ensures Excess(ts, path[..n], Round) == Surplus(Examined(ts, path), "(", ")", 0, n)
    ensures Excess(ts, path[..n], Square) == Surplus(Examined(ts, path), "[", "]", 0, n)
  {
    if n > 0 {
      ExcessExact(ts, path, n - 1);
      PathShortened(path, n);
    }
  }

  lemma AngleNext(ts: seq<Token>, path: seq<nat>, n: nat)
    requires WithinTokens(ts, path) && 0 < n <= |path|
    requires IsLargestSurplus(Examined(ts, path), "<", ">", n - 1, AngleDepth(ts, path[..n - 1]))
    ensures IsLargestSurplus(Examined(ts, path), "<", ">", n, AngleDepth(ts, path[..n]))
  {
    PathShortened(path, n);
    LargestSurplusNext(Examined(ts, path), "<", ">", n, AngleDepth(ts, path[..n - 1]));
  }

  lemma {:induction false} AngleExact(ts: seq<Token>, path: seq<nat>, n: nat)
    requires WithinTokens(ts, path) && n <= |path|
    ensures IsLargestSurplus(Examined(ts, path), "<", ">", n, AngleDepth(ts, path[..n]))
  {
    if n > 0 {
      AngleExact(ts, path, n - 1);
      AngleNext(ts, path, n);
    } else {
      LargestSurplusStart(Examined(ts, path), "<", ">");
    }
  }

  lemma TopLevelExact(ts: seq<Token>, path: seq<nat>, n: nat)
    requires WithinTokens(ts, path) && n <= |path|
    ensures ClosesTooMuch(ts, path[..n]) <==> Overclosed(Examined(ts, path), n)
    ensures AtTopLevel(ts, path[..n]) <==> Outside(Examined(ts, path), n)
  {
    ExcessExact(ts, path, n);
    AngleExact(ts, path, n);
    NoneOpenIsZero(Examined(ts, path), "<", ">", n, AngleDepth(ts, path[..n]));
  }

  /** The scan is decided by a token iff its text and the bracket counts up to it say so. */
  lemma DecidesExact(ts: seq<Token>, path: seq<nat>, n: nat)
    requires WithinTokens(ts, path) && n <= |path|
    ensures Decides(ts, path[..n]) <==> StopsAfter(Examined(ts, path), n)
  {
    TopLevelExact(ts, path, n);
    if n > 0 { PathShortened(path, n); }
  }

  // ----- where the scan stops -----

  /** The next position examined after `i`: just past the block that opens there, or the next token. */
  ghost predicate Follows(ts: seq<Token>, i: nat, next: nat)
    requires i < |ts|
  {
    if ts[i].value == "{" then next > 0 && Matched(ts, Brace, i, next - 1) else next == i + 1
  }

  ghost predicate Steps(ts: seq<Token>, from: nat, path: seq<nat>) {
    && WithinTokens(ts, path) && (path != [] ==> path[0] == from)
    && forall n :: 0 < n < |path| ==> Follows(ts, path[n - 1], path[n])
  }

  /** The position examined after `i` would be past the last token. */
  ghost predicate IsLast(ts: seq<Token>, i: nat)
    requires i < |ts|
  {
    exists next: nat :: next >= |ts| && Follows(ts, i, next)
  }

  ghost predicate RunsOut(ts: seq<Token>, from: nat, path: seq<nat>)
    requires WithinTokens(ts, path)
  {
    if path == [] then from >= |ts| else IsLast(ts, path[|path| - 1])
  }

  /** The scan examines exactly `path`: nothing before its last token stops it, and that does, or no token is left. */
  ghost predicate Scans(ts: seq<Token>, from: nat, path: seq<nat>) {
    && Steps(ts, from, path)
    && (forall n: nat :: n < |path| ==> !StopsAfter(Examined(ts, path), n))
    && (StopsAfter(Examined(ts, path), |path|) || RunsOut(ts, from, path))
  }

  /** What a scan of exactly `path` returns. */
  ghost predicate Returns(ts: seq<Token>, path: seq<nat>, name: nat, r: Result<(nat, Option<nat>), DelimiterError>)
    requires WithinTokens(ts, path)
  {
    var e := Examined(ts, path);
    if Overclosed(e, |path|) then r == Err(UnmatchedInSignature(name))
    else if !StopsAfter(e, |path|) || e[|path| - 1].value == "}" then r == Err(LacksBody(name))
    else
      var last := path[|path| - 1];
      if e[|path| - 1].value == ";" then r == Ok((last, None))
      else r.Ok? && r.value.1 == Some(last) && Matched(ts, Brace, last, r.value.0)
  }

  /** Every opening brace has its closing partner in the map. */
  ghost predicate BlocksKnown(ts: seq<Token>, pairs: map<nat, nat>) {
    forall i: nat :: i < |ts| && ts[i].value == "{" ==> i in pairs && Matched(ts, Brace, i, pairs[i])
  }

  lemma BlocksAreKnown(ts: seq<Token>, pairs: map<nat, nat>)
    requires ExactPairs(ts, pairs) && AllBalanced(ts)
    ensures BlocksKnown(ts, pairs)
  {
    forall i: nat | i < |ts| && ts[i].value == "{" ensures i in pairs && Matched(ts, Brace, i, pairs[i]) {
      BlockIsPaired(ts, pairs, i);
    }
  }

  lemma SuccessorExact(ts: seq<Token>, pairs: map<nat, nat>, i: nat, next: nat)
    requires BlocksKnown(ts, pairs) && i < |ts|
    ensures next == Successor(ts, pairs, i) <==> Follows(ts, i, next)
  {
    if ts[i].value == "{" && next > 0 && Matched(ts, Brace, i, next - 1) {
      SameCloser(ts, Brace, i, next - 1, pairs[i]);
    }
  }

  lemma WalkExact(ts: seq<Token>, pairs: map<nat, nat>, from: nat, path: seq<nat>)
    requires BlocksKnown(ts, pairs)
    ensures IsWalk(ts, pairs, from, path) <==> Steps(ts, from, path)
  {
    if WithinTokens(ts, path) {
      forall n | 0 < n < |path| ensures path[n] == Successor(ts, pairs, path[n - 1]) <==> Follows(ts, path[n - 1], path[n]) {
        SuccessorExact(ts, pairs, path[n - 1], path[n]);
      }
    }
  }

  lemma EndExact(ts: seq<Token>, pairs: map<nat, nat>, from: nat, path: seq<nat>)
    requires BlocksKnown(ts, pairs) && IsWalk(ts, pairs, from, path)
    ensures WalkEnd(ts, pairs, from, path) >= |ts| <==> RunsOut(ts, from, path)
  {
    if path != [] {
      var last := path[|path| - 1];
      SuccessorExact(ts, pairs, last, Successor(ts, pairs, last));
      if next: nat :| next >= |ts| && Follows(ts, last, next) { SuccessorExact(ts, pairs, last, next); }
    }
  }

  lemma UndecidedExact(ts: seq<Token>, path: seq<nat>, m: nat)
    requires WithinTokens(ts, path) && m <= |path|
    ensures Undecided(ts, path[..m]) <==> forall n: nat :: n <= m ==> !StopsAfter(Examined(ts, path), n)
  {
    forall n: nat | n <= m ensures Decides(ts, path[..m][..n]) <==> StopsAfter(Examined(ts, path), n) {
      assert path[..m][..n] == path[..n];
      DecidesExact(ts, path, n);
    }
  }

  lemma StopExact(ts: seq<Token>, pairs: map<nat, nat>, from: nat, path: seq<nat>)
    requires BlocksKnown(ts, pairs)
    ensures WalkStops(ts, pairs, from, path) <==> Scans(ts, from, path)
  {
    WalkExact(ts, pairs, from, path);
    if IsWalk(ts, pairs, from, path) {
      EndExact(ts, pairs, from, path);
      assert path[..|path|] == path;
      UndecidedExact(ts, path, |path|);
      if path != [] { UndecidedExact(ts, path, |path| - 1); }
    }
  }

  lemma VerdictExact(ts: seq<Token>, pairs: map<nat, nat>, path: seq<nat>, name: nat, r: Result<(nat, Option<nat>), DelimiterError>)
    requires BlocksKnown(ts, pairs) && WithinTokens(ts, path)
    ensures Verdict(ts, pairs, path, name) == r <==> Returns(ts, path, name, r)
  {
    assert path[..|path|] == path;
    DecidesExact(ts, path, |path|);
    TopLevelExact(ts, path, |path|);
    if path != [] && r.Ok? && ts[path[|path| - 1]].value == "{" {
      var last := path[|path| - 1];
      if Matched(ts, Brace, last, r.value.0) { SameCloser(ts, Brace, last, r.value.0, pairs[last]); }
    }
  }

  ghost predicate ScanReturns(ts: seq<Token>, from: nat, name: nat, r: Result<(nat, Option<nat>), DelimiterError>) {
    exists path :: Scans(ts, from, path) && Returns(ts, path, name, r)
  }

  /** Over exact pairs, what the scan returns is what its texts call for, errors included. */
  lemma TerminatorExact(ts: seq<Token>, pairs: map<nat, nat>, from: nat, name: nat, r: Result<(nat, Option<nat>), DelimiterError>)
    requires ExactPairs(ts, pairs) && AllBalanced(ts)
    ensures IsVerdict(ts, pairs, from, name, r) <==> ScanReturns(ts, from, name, r)
  {
    BlocksAreKnown(ts, pairs);
    VerdictReads(ts, pairs, from, name, r);
  }

  lemma VerdictReads(ts: seq<Token>, pairs: map<nat, nat>, from: nat, name: nat, r: Result<(nat, Option<nat>), DelimiterError>)
    requires BlocksKnown(ts, pairs)
    ensures IsVerdict(ts, pairs, from, name, r) <==> ScanReturns(ts, from, name, r)
  {
    if IsVerdict(ts, pairs, from, name, r) {
      var path :| WalkStops(ts, pairs, from, path) && Verdict(ts, pairs, path, name) == r;
      StopExact(ts, pairs, from, path);
      VerdictExact(ts, pairs, path, name, r);
    }
    if ScanReturns(ts, from, name, r) {
      var path :| Scans(ts, from, path) && Returns(ts, path, name, r);
      StopExact(ts, pairs, from, path);
      VerdictExact(ts, pairs, path, name, r);
    }
  }

  // ----- declarations -----

  /** None of the four texts that end the search for a parameter list stands from `from` up to `to`. */
  ghost predicate NothingEnds(ts: seq<Token>, from: nat, to: nat)
    requires to <= |ts|
  {
    forall m :: from <= m < to ==> ts[m].value != "(" && ts[m].value != ";" && ts[m].value != "{" && ts[m].value != "}"
  }

  ghost predicate ListOpens(ts: seq<Token>, from: nat, open: nat) {
    from <= open < |ts| && ts[open].value == "(" && NothingEnds(ts, from, open)
  }

  /** The search runs into a semicolon, a brace or the last token. */
  ghost predicate ListMissing(ts: seq<Token>, from: nat) {
    exists end: nat :: from <= end <= |ts| && NothingEnds(ts, from, end)
                       && (end < |ts| ==> ts[end].value == ";" || ts[end].value == "{" || ts[end].value == "}")
  }

  lemma ListExact(ts: seq<Token>, from: nat, open: nat)
    ensures OpensParameterList(ts, from, open) <==> ListOpens(ts, from, open)
  {
  }

  lemma MissingExact(ts: seq<Token>, from: nat)
    ensures NoParameterList(ts, from) <==> ListMissing(ts, from)
  {
    if NoParameterList(ts, from) {
      var end :| EndsWithoutRound(ts, from, end);
      MissingBy(ts, from, end);
    }
    if ListMissing(ts, from) {
      var end: nat :| from <= end <= |ts| && NothingEnds(ts, from, end)
                      && (end < |ts| ==> ts[end].value == ";" || ts[end].value == "{" || ts[end].value == "}");
      assert EndsWithoutRound(ts, from, end);
    }
  }

  /** The first end of the declaration, at or before `end`, is where the search runs into it. */
  lemma {:induction false} MissingBy(ts: seq<Token>, from: nat, end: nat)
    requires EndsWithoutRound(ts, from, end)
    ensures ListMissing(ts, from)
    decreases end
  {
    if m: nat :| from <= m < end && EndsDeclaration(ts[m]) {
      MissingBy(ts, from, m);
    } else {
      assert NothingEnds(ts, from, end);
    }
  }

  /** The nesting of braces between `from` and `to`, counted from `from`, is largest at `depth`. */
  ghost predicate IsDeepest(ts: seq<Token>, from: nat, to: nat, depth: int)
    requires from <= to <= |ts|
  {
    && (forall m: nat :: from <= m <= to ==> Surplus(ts, "{", "}", 0, m) - Surplus(ts, "{", "}", 0, from) <= depth)
    && exists m: nat :: from <= m <= to && Surplus(ts, "{", "}", 0, m) - Surplus(ts, "{", "}", 0, from) == depth
  }

  lemma DeepestExact(ts: seq<Token>, from: nat, to: nat, depth: int)
    requires from <= to <= |ts|
    ensures IsMaximumNesting(ts, from, to, depth) <==> IsDeepest(ts, from, to, depth)
  {
    forall m: nat | from <= m <= to
      ensures Nesting(ts, from, m) == Surplus(ts, "{", "}", 0, m) - Surplus(ts, "{", "}", 0, from)
    {
      DepthExact(ts, m);
      DepthExact(ts, from);
    }
  }

  ghost predicate DepthReads(ts: seq<Token>, bodyOpen: Option<nat>, terminator: nat, depth: nat) {
    match bodyOpen
    case None => depth == 0
    case Some(open) => Matched(ts, Brace, open, terminator) && IsDeepest(ts, open + 1, terminator, depth)
  }

  lemma DepthReadsExact(ts: seq<Token>, bodyOpen: Option<nat>, terminator: nat, depth: nat)
    ensures IsDepth(ts, bodyOpen, terminator, depth) <==> DepthReads(ts, bodyOpen, terminator, depth)
  {
    if bodyOpen.Some? && Matched(ts, Brace, bodyOpen.value, terminator) {
      DeepestExact(ts, bodyOpen.value + 1, terminator, depth);
    }
  }

  /** The depth and count parts of an extent whose list closes at `close`. */
  ghost predicate MeasuresRead(ts: seq<Token>, extent: Extent, close: nat)
    requires extent.parameterOpen < close <= |ts|
  {
    && extent.positionalParameters == Parameters.PositionalParameters(ts[extent.parameterOpen + 1..close])
    && DepthReads(ts, extent.bodyOpen, extent.terminator, extent.blockDepth)
  }

  /** The extent of the function whose `fn` token is at `index`, its parameter list closing at `close`. */
  ghost predicate ExtentReads(ts: seq<Token>, index: nat, extent: Extent, close: nat) {
    var open := extent.parameterOpen;
    && ListOpens(ts, index + 2, open) && Matched(ts, Round, open, close)
    && ScanReturns(ts, close + 1, index + 1, Ok((extent.terminator, extent.bodyOpen)))
    && MeasuresRead(ts, extent, close)
  }

  ghost predicate DeclarationReads(ts: seq<Token>, index: nat, extent: Extent) {
    exists close :: ExtentReads(ts, index, extent, close)
  }

  /** Every opening round bracket has its closing partner in the map. */
  ghost predicate ListsKnown(ts: seq<Token>, pairs: map<nat, nat>) {
    forall i: nat :: i < |ts| && ts[i].value == "(" ==> i in pairs && Matched(ts, Round, i, pairs[i])
  }

  lemma ListsAreKnown(ts: seq<Token>, pairs: map<nat, nat>)
    requires ExactPairs(ts, pairs) && AllBalanced(ts)
    ensures ListsKnown(ts, pairs)
  {
    forall i: nat | i < |ts| && ts[i].value == "(" ensures i in pairs && Matched(ts, Round, i, pairs[i]) {
      BlockIsPaired(ts, pairs, i);
    }
  }

  lemma MeasuresExact(ts: seq<Token>, pairs: map<nat, nat>, extent: Extent)
    requires extent.parameterOpen in pairs && extent.parameterOpen < pairs[extent.parameterOpen] <= |ts|
    ensures IsMeasured(ts, pairs, extent) <==> MeasuresRead(ts, extent, pairs[extent.parameterOpen])
  {
    DepthReadsExact(ts, extent.bodyOpen, extent.terminator, extent.blockDepth);
  }

  lemma SignedExact(ts: seq<Token>, pairs: map<nat, nat>, from: nat, name: nat, extent: Extent)
    requires BlocksKnown(ts, pairs) && extent.parameterOpen in pairs && OpensParameterList(ts, from, extent.parameterOpen)
    ensures IsSigned(ts, pairs, from, name, extent)
            <==> ScanReturns(ts, pairs[extent.parameterOpen] + 1, name, Ok((extent.terminator, extent.bodyOpen)))
  {
    VerdictReads(ts, pairs, pairs[extent.parameterOpen] + 1, name, Ok((extent.terminator, extent.bodyOpen)));
  }

  lemma ExtentExact(ts: seq<Token>, pairs: map<nat, nat>, index: nat, extent: Extent, close: nat)
    requires BlocksKnown(ts, pairs) && OpensParameterList(ts, index + 2, extent.parameterOpen)
    requires extent.parameterOpen in pairs && pairs[extent.parameterOpen] == close && extent.parameterOpen < close <= |ts|
    ensures IsDeclaration(ts, pairs, index, extent)
            <==> ScanReturns(ts, close + 1, index + 1, Ok((extent.terminator, extent.bodyOpen))) && MeasuresRead(ts, extent, close)
  {
    SignedExact(ts, pairs, index + 2, index + 1, extent);
    MeasuresExact(ts, pairs, extent);
  }

  lemma DeclarationKnown(ts: seq<Token>, pairs: map<nat, nat>, index: nat, extent: Extent)
    requires BlocksKnown(ts, pairs) && ListsKnown(ts, pairs)
    ensures IsDeclaration(ts, pairs, index, extent) <==> DeclarationReads(ts, index, extent)
  {
    var open := extent.parameterOpen;
    ListExact(ts, index + 2, open);
    if ListOpens(ts, index + 2, open) {
      ExtentExact(ts, pairs, index, extent, pairs[open]);
      if IsDeclaration(ts, pairs, index, extent) { assert ExtentReads(ts, index, extent, pairs[open]); }
      if close :| ExtentReads(ts, index, extent, close) { SameCloser(ts, Round, open, close, pairs[open]); }
    }
  }

  /** Over exact pairs a function has the extent iff the token texts read so. */
  lemma DeclarationExact(ts: seq<Token>, pairs: map<nat, nat>, index: nat, extent: Extent)
    requires ExactPairs(ts, pairs) && AllBalanced(ts)
    ensures IsDeclaration(ts, pairs, index, extent) <==> DeclarationReads(ts, index, extent)
  {
    BlocksAreKnown(ts, pairs);
    ListsAreKnown(ts, pairs);
    DeclarationKnown(ts, pairs, index, extent);
  }

  ghost predicate ScanFails(ts: seq<Token>, index: nat, open: nat, close: nat, error: DelimiterError) {
    ListOpens(ts, index + 2, open) && Matched(ts, Round, open, close) && ScanReturns(ts, close + 1, index + 1, Err(error))
  }

  ghost predicate ScanReadsError(ts: seq<Token>, index: nat, error: DelimiterError) {
    exists open: nat, close: nat :: ScanFails(ts, index, open, close, error)
  }

  /** No parameter list is found, or the scan after it fails with the error. */
  ghost predicate DefectReads(ts: seq<Token>, index: nat, error: DelimiterError) {
    || (error == LacksParameterList(index + 1) && ListMissing(ts, index + 2))
    || ScanReadsError(ts, index, error)
  }

  lemma ErrorReads(ts: seq<Token>, pairs: map<nat, nat>, index: nat, open: nat, error: DelimiterError)
    requires BlocksKnown(ts, pairs) && ListsKnown(ts, pairs) && ListOpens(ts, index + 2, open)
    ensures open in pairs
    ensures IsVerdict(ts, pairs, pairs[open] + 1, index + 1, Err(error)) <==> ScanFails(ts, index, open, pairs[open], error)
  {
    VerdictReads(ts, pairs, pairs[open] + 1, index + 1, Err(error));
  }

  lemma SignatureErrorReads(ts: seq<Token>, pairs: map<nat, nat>, index: nat, error: DelimiterError)
    requires BlocksKnown(ts, pairs) && ListsKnown(ts, pairs) && IsSignatureError(ts, pairs, index + 2, index + 1, error)
    ensures ScanReadsError(ts, index, error)
  {
    var open :| open in pairs && OpensParameterList(ts, index + 2, open) && IsVerdict(ts, pairs, pairs[open] + 1, index + 1, Err(error));
    ListExact(ts, index + 2, open);
    ErrorReads(ts, pairs, index, open, error);
  }

  lemma SignatureErrorStands(ts: seq<Token>, pairs: map<nat, nat>, index: nat, error: DelimiterError)
    requires BlocksKnown(ts, pairs) && ListsKnown(ts, pairs) && ScanReadsError(ts, index, error)
    ensures IsSignatureError(ts, pairs, index + 2, index + 1, error)
  {
    var open: nat, close: nat :| ScanFails(ts, index, open, close, error);
    ListExact(ts, index + 2, open);
    SameCloser(ts, Round, open, close, pairs[open]);
    ErrorReads(ts, pairs, index, open, error);
  }

  lemma DefectKnown(ts: seq<Token>, pairs: map<nat, nat>, index: nat, error: DelimiterError)
    requires BlocksKnown(ts, pairs) && ListsKnown(ts, pairs)
    ensures IsDefect(ts, pairs, index, error) <==> DefectReads(ts, index, error)
  {
    MissingExact(ts, index + 2);
    if IsSignatureError(ts, pairs, index + 2, index + 1, error) { SignatureErrorReads(ts, pairs, index, error); }
    if ScanReadsError(ts, index, error) { SignatureErrorStands(ts, pairs, index, error); }
  }

  /** Over exact pairs a function is defective in a way iff the token texts read so. */
  lemma DefectExact(ts: seq<Token>, pairs: map<nat, nat>, index: nat, error: DelimiterError)
    requires ExactPairs(ts, pairs) && AllBalanced(ts)
    ensures IsDefect(ts, pairs, index, error) <==> DefectReads(ts, index, error)
  {
    BlocksAreKnown(ts, pairs);
    ListsAreKnown(ts, pairs);
    DefectKnown(ts, pairs, index, error);
  }
}
