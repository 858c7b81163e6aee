/**
 Splitting a parameter list on its top-level commas, and counting the explicit parameters. The
 pieces are characterised without the scan, as the only pieces that read on their own are free of
 top-level commas, end at top level where a comma follows, and rejoined give back the list.
 */
module Parameters {
  import opened Outcomes
  import opened Delimiters
  import opened BracketCounts

  /** The four counters of the scan; a closing bracket with none open counts nothing. */
  datatype SegmentDepth = SegmentDepth(round: nat, square: nat, brace: nat, angle: nat) {
    function After(value: string): SegmentDepth {
      if value == "(" then this.(round := round + 1)
      else if value == ")" && round > 0 then this.(round := round - 1)
      else if value == "[" then this.(square := square + 1)
      else if value == "]" && square > 0 then this.(square := square - 1)
      else if value == "{" then this.(brace := brace + 1)
      else if value == "}" && brace > 0 then this.(brace := brace - 1)
      else if value == "<" then this.(angle := angle + 1)
      else if value == ">" && angle > 0 then this.(angle := angle - 1)
      else this
    }
  }

  const TOP_LEVEL := SegmentDepth(0, 0, 0, 0)

  /** The counters after the first `n` tokens. */
  function DepthAfter(ts: seq<Token>, n: nat): SegmentDepth
    requires n <= |ts|
  {
    if n == 0 then TOP_LEVEL else DepthAfter(ts, n - 1).After(ts[n - 1].value)
  }

  /** Token `i` is a comma outside all brackets. */
  predicate SeparatesAt(ts: seq<Token>, i: nat)
    requires i < |ts|
  {
    ts[i].value == "," && DepthAfter(ts, i) == TOP_LEVEL
  }

  /** All pieces of the first `n` tokens, empty ones included; the last one is still open. */
  function Pieces(ts: seq<Token>, n: nat): (pieces: seq<seq<Token>>)
    requires n <= |ts|
    ensures pieces != []
  {
    if n == 0 then [[]]
    else
      var before := Pieces(ts, n - 1);
      if SeparatesAt(ts, n - 1) then before + [[]]
      else before[..|before| - 1] + [before[|before| - 1] + [ts[n - 1]]]
  }

  /** The top-level commas among the first `n` tokens. */
  function Separators(ts: seq<Token>, n: nat): seq<Token>
    requires n <= |ts|
  {
    if n == 0 then []
    else if SeparatesAt(ts, n - 1) then Separators(ts, n - 1) + [ts[n - 1]]
    else Separators(ts, n - 1)
  }

  function Nonempty(pieces: seq<seq<Token>>): seq<seq<Token>> {
    if pieces == [] then []
    else
      var n := |pieces| - 1;
      if pieces[n] == [] then Nonempty(pieces[..n]) else Nonempty(pieces[..n]) + [pieces[n]]
  }

  /** What the scan holds after `n` tokens: the closed nonempty pieces, the open piece and the depth. */
  ghost predicate Collected(ts: seq<Token>, n: nat, segments: seq<seq<Token>>, current: seq<Token>, depth: SegmentDepth)
    requires n <= |ts|
  {
    var pieces := Pieces(ts, n);
    segments == Nonempty(pieces[..|pieces| - 1]) && current == pieces[|pieces| - 1] && depth == DepthAfter(ts, n)
  }

  lemma CollectedNext(ts: seq<Token>, n: nat, segments: seq<seq<Token>>, current: seq<Token>, depth: SegmentDepth)
    requires n < |ts| && Collected(ts, n, segments, current, depth)
    ensures var next := depth.After(ts[n].value);
            if ts[n].value == "," && next == TOP_LEVEL
            then Collected(ts, n + 1, if current == [] then segments else segments + [current], [], next)
            else Collected(ts, n + 1, segments, current + [ts[n]], next)
  {
    var pieces := Pieces(ts, n);
    assert (pieces + [[]])[..|pieces|] == pieces;
    var front := pieces[..|pieces| - 1];
    assert (front + [current + [ts[n]]])[..|front|] == front;
  }

  /** The nonempty pieces between top-level commas, in order. */
  method ParameterSegments(ts: seq<Token>) returns (segments: seq<seq<Token>>)
    ensures segments == Nonempty(Pieces(ts, |ts|))
  {
    segments := [];
    var current: seq<Token> := [];
    var depth := TOP_LEVEL;
    for index := 0 to |ts|
      invariant Collected(ts, index, segments, current, depth)
    {
      CollectedNext(ts, index, segments, current, depth);
      var value := ts[index].value;
      depth := depth.After(value);
      if value == "," && depth == TOP_LEVEL {
        if current != [] {
          segments := segments + [current];
          current := [];
        }
      } else {
        current := current + [ts[index]];
      }
    }
    if current != [] {
      segments := segments + [current];
    }
  }

  // ----- what the pieces are -----

  /** Pieces with separators put back between them. */
  function Rejoined(pieces: seq<seq<Token>>, separators: seq<Token>): seq<Token>
    requires |pieces| == |separators| + 1
  {
    var n := |separators|;
    if n == 0 then pieces[0] else Rejoined(pieces[..n], separators[..n - 1]) + [separators[n - 1]] + pieces[n]
  }

  predicate SeparatorFree(piece: seq<Token>) {
    forall i :: 0 <= i < |piece| ==> !SeparatesAt(piece, i)
  }

  ghost predicate AllFree(pieces: seq<seq<Token>>) {
    forall i :: 0 <= i < |pieces| ==> SeparatorFree(pieces[i])
  }

  lemma SameStep(ts: seq<Token>, n: nat, us: seq<Token>, m: nat)
    requires n < |ts| && m < |us| && ts[n] == us[m] && DepthAfter(ts, n) == DepthAfter(us, m)
    ensures DepthAfter(ts, n + 1) == DepthAfter(us, m + 1)
  {
  }

  /** A stretch begun at top level has the same depths read on its own. */
  lemma {:induction false} DepthRestarts(ts: seq<Token>, from: nat, to: nat, n: nat)
    requires from + n <= to <= |ts| && DepthAfter(ts, from) == TOP_LEVEL
    ensures DepthAfter(ts[from..to], n) == DepthAfter(ts, from + n)
  {
    if n > 0 {
      DepthRestarts(ts, from, to, n - 1);
      SameStep(ts, from + n - 1, ts[from..to], n - 1);
    }
  }

  lemma SeparatesAlike(ts: seq<Token>, from: nat, to: nat, i: nat)
    requires from + i < to <= |ts| && DepthAfter(ts, from) == TOP_LEVEL
    ensures SeparatesAt(ts[from..to], i) <==> SeparatesAt(ts, from + i)
  {
    DepthRestarts(ts, from, to, i);
  }

  /** Where the open piece begins. */
  ghost function OpenFrom(ts: seq<Token>, n: nat): (start: nat)
    requires n <= |ts|
    ensures start <= n
  {
    if n == 0 then 0 else if SeparatesAt(ts, n - 1) then n else OpenFrom(ts, n - 1)
  }

  lemma {:induction false} OpenFromDepth(ts: seq<Token>, n: nat)
    requires n <= |ts|
    ensures DepthAfter(ts, OpenFrom(ts, n)) == TOP_LEVEL
  {
    if n > 0 {
      if SeparatesAt(ts, n - 1) { CommaKeepsDepth(DepthAfter(ts, n - 1)); } else { OpenFromDepth(ts, n - 1); }
    }
  }

  lemma {:induction false} OpenWithoutSeparator(ts: seq<Token>, n: nat, i: nat)
    requires n <= |ts| && OpenFrom(ts, n) <= i < n
    ensures !SeparatesAt(ts, i)
  {
    if i < n - 1 { OpenWithoutSeparator(ts, n - 1, i); }
  }

  lemma CommaKeepsDepth(depth: SegmentDepth)
    ensures depth.After(",") == depth
  {
  }

  lemma {:induction false} OpenPiece(ts: seq<Token>, n: nat)
    requires n <= |ts|
    ensures var pieces := Pieces(ts, n); pieces[|pieces| - 1] == ts[OpenFrom(ts, n)..n]
  {
    if n > 0 && !SeparatesAt(ts, n - 1) {
      OpenPiece(ts, n - 1);
      SliceGrows(ts, OpenFrom(ts, n - 1), n - 1);
    }
  }

  lemma SliceGrows(ts: seq<Token>, from: nat, n: nat)
    requires from <= n < |ts|
    ensures ts[from..n + 1] == ts[from..n] + [ts[n]]
  {
  }

  lemma FreeInSlice(ts: seq<Token>, from: nat, to: nat)
    requires from <= to <= |ts| && DepthAfter(ts, from) == TOP_LEVEL
    requires forall i :: from <= i < to ==> !SeparatesAt(ts, i)
    ensures SeparatorFree(ts[from..to])
  {
    forall i | 0 <= i < to - from ensures !SeparatesAt(ts[from..to], i) { SeparatesAlike(ts, from, to, i); }
  }

  lemma OpenPieceIsFree(ts: seq<Token>, n: nat)
    requires n <= |ts|
    ensures var pieces := Pieces(ts, n); SeparatorFree(pieces[|pieces| - 1])
  {
    var start := OpenFrom(ts, n);
    OpenPiece(ts, n);
    OpenFromDepth(ts, n);
    forall i | start <= i < n ensures !SeparatesAt(ts, i) { OpenWithoutSeparator(ts, n, i); }
    FreeInSlice(ts, start, n);
  }

  lemma {:induction false} PiecesAreFree(ts: seq<Token>, n: nat)
    requires n <= |ts|
    ensures AllFree(Pieces(ts, n))
  {
    if n > 0 { PiecesAreFree(ts, n - 1); }
    OpenPieceIsFree(ts, n);
  }

  lemma {:induction false} SeparatorsAreCommas(ts: seq<Token>, n: nat)
    requires n <= |ts|
    ensures forall i :: 0 <= i < |Separators(ts, n)| ==> Separators(ts, n)[i].value == ","
  {
    if n > 0 { SeparatorsAreCommas(ts, n - 1); }
  }

  lemma {:induction false} PiecesRejoin(ts: seq<Token>, n: nat)
    requires n <= |ts|
    ensures |Pieces(ts, n)| == |Separators(ts, n)| + 1 && Rejoined(Pieces(ts, n), Separators(ts, n)) == ts[..n]
  {
    if n > 0 {
      PiecesRejoin(ts, n - 1);
      assert ts[..n] == ts[..n - 1] + [ts[n - 1]];
      if SeparatesAt(ts, n - 1) {
        RejoinedClosed(Pieces(ts, n - 1), Separators(ts, n - 1), ts[n - 1]);
      } else {
        RejoinedLonger(Pieces(ts, n - 1), Separators(ts, n - 1), ts[n - 1]);
      }
    }
  }

  lemma RejoinedClosed(pieces: seq<seq<Token>>, separators: seq<Token>, t: Token)
    requires |pieces| == |separators| + 1
    ensures Rejoined(pieces + [[]], separators + [t]) == Rejoined(pieces, separators) + [t]
  {
    assert (pieces + [[]])[..|pieces|] == pieces && (separators + [t])[..|separators|] == separators;
  }

  lemma RejoinedLonger(pieces: seq<seq<Token>>, separators: seq<Token>, t: Token)
    requires |pieces| == |separators| + 1
    ensures Rejoined(pieces[..|pieces| - 1] + [pieces[|pieces| - 1] + [t]], separators) == Rejoined(pieces, separators) + [t]
  {
    var n := |separators|;
    var longer := pieces[..n] + [pieces[n] + [t]];
    assert longer[..n] == pieces[..n];
  }

  /** Read on its own, every piece but the last ends outside all brackets. */
  ghost predicate AllClosed(pieces: seq<seq<Token>>) {
    forall i :: 0 <= i < |pieces| - 1 ==> DepthAfter(pieces[i], |pieces[i]|) == TOP_LEVEL
  }

  ghost predicate AllCommas(separators: seq<Token>) {
    forall i :: 0 <= i < |separators| ==> separators[i].value == ","
  }

  /** A split of the first `n` tokens on top-level commas, without reference to the scan of the list. */
  ghost predicate IsSplit(ts: seq<Token>, n: nat, pieces: seq<seq<Token>>, separators: seq<Token>)
    requires n <= |ts|
  {
    && |pieces| == |separators| + 1 && Rejoined(pieces, separators) == ts[..n]
    && AllFree(pieces) && AllClosed(pieces) && AllCommas(separators)
  }

  lemma DepthOfSlice(ts: seq<Token>, from: nat, to: nat)
    requires from <= to <= |ts| && DepthAfter(ts, from) == TOP_LEVEL
    ensures DepthAfter(ts[from..to], |ts[from..to]|) == DepthAfter(ts, to)
  {
    DepthRestarts(ts, from, to, to - from);
  }

  lemma OpenPieceCloses(ts: seq<Token>, n: nat)
    requires n < |ts| && SeparatesAt(ts, n)
    ensures var pieces := Pieces(ts, n);
            var last := pieces[|pieces| - 1]; DepthAfter(last, |last|) == TOP_LEVEL
  {
    OpenPiece(ts, n);
    OpenFromDepth(ts, n);
    DepthOfSlice(ts, OpenFrom(ts, n), n);
  }

  lemma ClosedBefore(pieces: seq<seq<Token>>, next: seq<seq<Token>>)
    requires AllClosed(pieces) && pieces != [] && |pieces| <= |next| <= |pieces| + 1
    requires next[..|pieces| - 1] == pieces[..|pieces| - 1]
    requires |next| > |pieces| ==>
               next[|pieces| - 1] == pieces[|pieces| - 1] && DepthAfter(next[|pieces| - 1], |next[|pieces| - 1]|) == TOP_LEVEL
    ensures AllClosed(next)
  {
    forall i | 0 <= i < |next| - 1 ensures DepthAfter(next[i], |next[i]|) == TOP_LEVEL {
      if i < |pieces| - 1 { assert next[i] == next[..|pieces| - 1][i] == pieces[i]; }
    }
  }

  lemma ClosedAfterSeparator(ts: seq<Token>, n: nat)
    requires n < |ts| && SeparatesAt(ts, n) && AllClosed(Pieces(ts, n))
    ensures AllClosed(Pieces(ts, n + 1))
  {
    var before, next := Pieces(ts, n), Pieces(ts, n + 1);
    OpenPieceCloses(ts, n);
    assert next == before + [[]] && next[|before| - 1] == before[|before| - 1];
    assert next[..|before| - 1] == before[..|before| - 1];
    ClosedBefore(before, next);
  }

  lemma ClosedAfterToken(ts: seq<Token>, n: nat)
    requires n < |ts| && !SeparatesAt(ts, n) && AllClosed(Pieces(ts, n))
    ensures AllClosed(Pieces(ts, n + 1))
  {
    var before, next := Pieces(ts, n), Pieces(ts, n + 1);
    assert next[..|before| - 1] == before[..|before| - 1];
    ClosedBefore(before, next);
  }

  lemma {:induction false} PiecesAreClosed(ts: seq<Token>, n: nat)
    requires n <= |ts|
    ensures AllClosed(Pieces(ts, n))
  {
    if n > 0 {
      PiecesAreClosed(ts, n - 1);
      if SeparatesAt(ts, n - 1) { ClosedAfterSeparator(ts, n - 1); } else { ClosedAfterToken(ts, n - 1); }
    }
  }

  /** The scan's pieces are such a split. */
  lemma PiecesExact(ts: seq<Token>)
    ensures IsSplit(ts, |ts|, Pieces(ts, |ts|), Separators(ts, |ts|))
  {
    PiecesAreFree(ts, |ts|);
    PiecesAreClosed(ts, |ts|);
    SeparatorsAreCommas(ts, |ts|);
    PiecesRejoin(ts, |ts|);
  }

  // ----- the split is unique -----

  lemma SplitOfFront(ts: seq<Token>, n: nat, pieces: seq<seq<Token>>, separators: seq<Token>) returns (start: nat)
    requires n <= |ts| && separators != [] && IsSplit(ts, n, pieces, separators)
    ensures 0 < start <= n && ts[start - 1] == separators[|separators| - 1]
    ensures pieces[|separators|] == ts[start..n]
    ensures IsSplit(ts, start - 1, pieces[..|separators|], separators[..|separators| - 1])
  {
    var k := |separators|;
    var front, last := Rejoined(pieces[..k], separators[..k - 1]), pieces[k];
    assert ts[..n] == front + [separators[k - 1]] + last;
    start := n - |last|;
    assert ts[start - 1] == ts[..n][|front|];
    assert ts[start..n] == ts[..n][start..] == last;
    assert ts[..start - 1] == ts[..n][..|front|] == front;
  }

  lemma {:induction false} LastPieceStart(ts: seq<Token>, n: nat, pieces: seq<seq<Token>>, separators: seq<Token>)
    returns (start: nat)
    requires n <= |ts| && IsSplit(ts, n, pieces, separators)
    ensures start <= n && pieces[|separators|] == ts[start..n] && DepthAfter(ts, start) == TOP_LEVEL
    decreases |separators|
  {
    if separators == [] {
      start := 0;
    } else {
      var k := |separators|;
      start := SplitOfFront(ts, n, pieces, separators);
      var earlier := LastPieceStart(ts, start - 1, pieces[..k], separators[..k - 1]);
      DepthOfSlice(ts, earlier, start - 1);
      CommaKeepsDepth(TOP_LEVEL);
    }
  }

  lemma SplitShortened(ts: seq<Token>, n: nat, pieces: seq<seq<Token>>, separators: seq<Token>)
    requires n <= |ts| && IsSplit(ts, n, pieces, separators) && pieces[|separators|] != []
    ensures n > 0
    ensures var k := |separators|;
            var last := pieces[k];
            var shorter := pieces[..k] + [last[..|last| - 1]];
            IsSplit(ts, n - 1, shorter, separators) && pieces == shorter[..k] + [shorter[k] + [ts[n - 1]]]
  {
    var k := |separators|;
    var last := pieces[k];
    var shorter := pieces[..k] + [last[..|last| - 1]];
    assert last == last[..|last| - 1] + [last[|last| - 1]];
    assert pieces == shorter[..k] + [shorter[k] + [last[|last| - 1]]];
    RejoinedLonger(shorter, separators, last[|last| - 1]);
    assert ts[n - 1] == ts[..n][n - 1] && ts[..n - 1] == ts[..n][..n - 1];
    FreePrefix(last, |last| - 1);
  }

  lemma FreePrefix(piece: seq<Token>, n: nat)
    requires n <= |piece| && SeparatorFree(piece)
    ensures SeparatorFree(piece[..n])
  {
    FreeInSlice(piece, 0, n);
    assert piece[0..n] == piece[..n];
  }

  lemma SeparatorPrecedes(ts: seq<Token>, n: nat)
    requires 0 < n <= |ts| && ts[n - 1].value == "," && DepthAfter(ts, n) == TOP_LEVEL
    ensures SeparatesAt(ts, n - 1)
  {
    CommaKeepsDepth(DepthAfter(ts, n - 1));
  }

  lemma NoSeparatorLast(ts: seq<Token>, n: nat, pieces: seq<seq<Token>>, separators: seq<Token>)
    requires n <= |ts| && IsSplit(ts, n, pieces, separators) && pieces[|separators|] != []
    ensures n > 0 && !SeparatesAt(ts, n - 1)
  {
    var last := pieces[|separators|];
    var start := LastPieceStart(ts, n, pieces, separators);
    SeparatesAlike(ts, start, n, |last| - 1);
    assert !SeparatesAt(last, |last| - 1);
  }

  lemma SeparatorLast(ts: seq<Token>, n: nat, pieces: seq<seq<Token>>, separators: seq<Token>)
    requires n <= |ts| && IsSplit(ts, n, pieces, separators) && pieces[|separators|] == [] && separators != []
    ensures n > 0 && SeparatesAt(ts, n - 1) && ts[n - 1] == separators[|separators| - 1]
    ensures IsSplit(ts, n - 1, pieces[..|separators|], separators[..|separators| - 1])
  {
    var start := LastPieceStart(ts, n, pieces, separators);
    var front := SplitOfFront(ts, n, pieces, separators);
    SeparatorPrecedes(ts, n);
  }

  lemma OneEmptyPiece(ts: seq<Token>, n: nat, pieces: seq<seq<Token>>, separators: seq<Token>)
    requires n <= |ts| && IsSplit(ts, n, pieces, separators) && pieces[|separators|] == [] && separators == []
    ensures n == 0 && pieces == [[]]
  {
    assert |ts[..n]| == n;
  }

  lemma GrownByToken(ts: seq<Token>, n: nat, pieces: seq<seq<Token>>, separators: seq<Token>, shorter: seq<seq<Token>>)
    requires 0 < n <= |ts| && !SeparatesAt(ts, n - 1)
    requires shorter == Pieces(ts, n - 1) && separators == Separators(ts, n - 1) && |shorter| == |separators| + 1
    requires pieces == shorter[..|separators|] + [shorter[|separators|] + [ts[n - 1]]]
    ensures pieces == Pieces(ts, n) && separators == Separators(ts, n)
  {
  }

  lemma GrownBySeparator(ts: seq<Token>, n: nat, pieces: seq<seq<Token>>, separators: seq<Token>)
    requires 0 < n <= |ts| && SeparatesAt(ts, n - 1) && separators != [] && |pieces| == |separators| + 1
    requires pieces[|separators|] == [] && separators[|separators| - 1] == ts[n - 1]
    requires pieces[..|separators|] == Pieces(ts, n - 1) && separators[..|separators| - 1] == Separators(ts, n - 1)
    ensures pieces == Pieces(ts, n) && separators == Separators(ts, n)
  {
    var k := |separators|;
    assert pieces == pieces[..k] + [[]] && separators == separators[..k - 1] + [separators[k - 1]];
  }

  lemma {:induction false} SplitIsPieces(ts: seq<Token>, n: nat, pieces: seq<seq<Token>>, separators: seq<Token>)
    requires n <= |ts| && IsSplit(ts, n, pieces, separators)
    ensures pieces == Pieces(ts, n) && separators == Separators(ts, n)
    decreases n
  {
    var k := |separators|;
    if pieces[k] != [] {
      NoSeparatorLast(ts, n, pieces, separators);
      SplitShortened(ts, n, pieces, separators);
      var shorter := pieces[..k] + [pieces[k][..|pieces[k]| - 1]];
      SplitIsPieces(ts, n - 1, shorter, separators);
      GrownByToken(ts, n, pieces, separators, shorter);
    } else if separators != [] {
      SeparatorLast(ts, n, pieces, separators);
      SplitIsPieces(ts, n - 1, pieces[..k], separators[..k - 1]);
      GrownBySeparator(ts, n, pieces, separators);
    } else {
      OneEmptyPiece(ts, n, pieces, separators);
    }
  }

  /** A list has exactly one split on its top-level commas, and it is the one the scan makes. */
  lemma SplitUnique(ts: seq<Token>, pieces: seq<seq<Token>>, separators: seq<Token>)
    ensures IsSplit(ts, |ts|, pieces, separators) <==> pieces == Pieces(ts, |ts|) && separators == Separators(ts, |ts|)
  {
    PiecesExact(ts);
    if IsSplit(ts, |ts|, pieces, separators) { SplitIsPieces(ts, |ts|, pieces, separators); }
  }

  // ----- the counters, in the texts of the tokens -----

  /** Every counter is the largest surplus of its own brackets over the stretches that end here. */
  ghost predicate CountsSurpluses(ts: seq<Token>, n: nat, depth: SegmentDepth)
    requires n <= |ts|
  {
    && IsLargestSurplus(ts, "(", ")", n, depth.round) && IsLargestSurplus(ts, "[", "]", n, depth.square)
    && IsLargestSurplus(ts, "{", "}", n, depth.brace) && IsLargestSurplus(ts, "<", ">", n, depth.angle)
  }

  lemma CountersNext(ts: seq<Token>, n: nat, depth: SegmentDepth)
    requires 0 < n <= |ts| && CountsSurpluses(ts, n - 1, depth)
    ensures CountsSurpluses(ts, n, depth.After(ts[n - 1].value))
  {
    LargestSurplusNext(ts, "(", ")", n, depth.round);
    LargestSurplusNext(ts, "[", "]", n, depth.square);
    LargestSurplusNext(ts, "{", "}", n, depth.brace);
    LargestSurplusNext(ts, "<", ">", n, depth.angle);
  }

  /** After `n` tokens each of the four counters is the largest surplus of its brackets over the stretches ending there. */
  lemma {:induction false} CountersExact(ts: seq<Token>, n: nat)
    requires n <= |ts|
    ensures CountsSurpluses(ts, n, DepthAfter(ts, n))
  {
    if n > 0 {
      CountersExact(ts, n - 1);
      CountersNext(ts, n, DepthAfter(ts, n - 1));
    } else {
      LargestSurplusStart(ts, "(", ")");
      LargestSurplusStart(ts, "[", "]");
      LargestSurplusStart(ts, "{", "}");
      LargestSurplusStart(ts, "<", ">");
    }
  }

  /** No bracket of any kind is open before token `n`. */
  ghost predicate OutsideBrackets(ts: seq<Token>, n: nat)
    requires n <= |ts|
  {
    NoneOpen(ts, "(", ")", n) && NoneOpen(ts, "[", "]", n) && NoneOpen(ts, "{", "}", n) && NoneOpen(ts, "<", ">", n)
  }

  /** The scan is at top level iff no stretch ending there opens more of any kind than it closes. */
  lemma TopLevelExact(ts: seq<Token>, n: nat)
    requires n <= |ts|
    ensures DepthAfter(ts, n) == TOP_LEVEL <==> OutsideBrackets(ts, n)
  {
    var depth := DepthAfter(ts, n);
    CountersExact(ts, n);
    NoneOpenIsZero(ts, "(", ")", n, depth.round);
    NoneOpenIsZero(ts, "[", "]", n, depth.square);
    NoneOpenIsZero(ts, "{", "}", n, depth.brace);
    NoneOpenIsZero(ts, "<", ">", n, depth.angle);
  }

  /** A token separates iff it is a comma with no bracket of the four kinds open before it. */
  lemma SeparatesExact(ts: seq<Token>, i: nat)
    requires i < |ts|
    ensures SeparatesAt(ts, i) <==> ts[i].value == "," && OutsideBrackets(ts, i)
  {
    TopLevelExact(ts, i);
  }

  /** Every comma of the piece stands inside some bracket. */
  ghost predicate CommasInside(piece: seq<Token>) {
    forall i :: 0 <= i < |piece| && piece[i].value == "," ==> !OutsideBrackets(piece, i)
  }

  /** The pieces and separators that reading the bracket and comma texts alone allows. */
  ghost predicate ReadsAsSplit(ts: seq<Token>, pieces: seq<seq<Token>>, separators: seq<Token>) {
    && |pieces| == |separators| + 1 && Rejoined(pieces, separators) == ts
    && (forall p :: 0 <= p < |pieces| ==> CommasInside(pieces[p]))
    && (forall p :: 0 <= p < |separators| ==> OutsideBrackets(pieces[p], |pieces[p]|))
    && (forall p :: 0 <= p < |separators| ==> separators[p].value == ",")
  }

  lemma FreeExact(piece: seq<Token>)
    ensures SeparatorFree(piece) <==> CommasInside(piece)
  {
    forall i | 0 <= i < |piece| ensures SeparatesAt(piece, i) <==> piece[i].value == "," && OutsideBrackets(piece, i) {
      SeparatesExact(piece, i);
    }
  }

  lemma ReadingExact(ts: seq<Token>, pieces: seq<seq<Token>>, separators: seq<Token>)
    ensures IsSplit(ts, |ts|, pieces, separators) <==> ReadsAsSplit(ts, pieces, separators)
  {
    assert ts[..|ts|] == ts;
    forall p | 0 <= p < |pieces| ensures SeparatorFree(pieces[p]) <==> CommasInside(pieces[p]) { FreeExact(pieces[p]); }
    forall p | 0 <= p < |pieces|
      ensures DepthAfter(pieces[p], |pieces[p]|) == TOP_LEVEL <==> OutsideBrackets(pieces[p], |pieces[p]|)
    {
      TopLevelExact(pieces[p], |pieces[p]|);
    }
  }

  /** The scan's pieces are the only ones that read as a split. */
  lemma SplitExact(ts: seq<Token>, pieces: seq<seq<Token>>, separators: seq<Token>)
    ensures ReadsAsSplit(ts, pieces, separators) <==> pieces == Pieces(ts, |ts|) && separators == Separators(ts, |ts|)
  {
    ReadingExact(ts, pieces, separators);
    SplitUnique(ts, pieces, separators);
  }

  /** `at` lists, in ascending order, the places of the nonempty pieces, and `kept` holds those pieces. */
  ghost predicate KeepsNonempty(pieces: seq<seq<Token>>, at: seq<nat>, kept: seq<seq<Token>>) {
    && |at| == |kept| && (forall j, k :: 0 <= j < k < |at| ==> at[j] < at[k])
    && (forall i: nat :: i in at <==> i < |pieces| && pieces[i] != [])
    && forall k :: 0 <= k < |at| ==> at[k] < |pieces| && kept[k] == pieces[at[k]]
  }

  /** No nonempty piece is dropped, moved or repeated. */
  lemma {:induction false} NonemptyExact(pieces: seq<seq<Token>>) returns (at: seq<nat>)
    ensures KeepsNonempty(pieces, at, Nonempty(pieces))
  {
    at := [];
    if pieces != [] {
      var n := |pieces| - 1;
      at := NonemptyExact(pieces[..n]);
      KeptOneMore(pieces, n, at, Nonempty(pieces[..n]));
      if pieces[n] != [] { at := at + [n]; }
    }
  }

  lemma KeptOneMore(pieces: seq<seq<Token>>, n: nat, at: seq<nat>, kept: seq<seq<Token>>)
    requires n + 1 == |pieces| && KeepsNonempty(pieces[..n], at, kept)
    ensures if pieces[n] == [] then KeepsNonempty(pieces, at, kept) else KeepsNonempty(pieces, at + [n], kept + [pieces[n]])
  {
    forall k | 0 <= k < |at| ensures at[k] < n && kept[k] == pieces[at[k]] { assert at[k] in at; }
    forall i: nat ensures i in at <==> i < n && pieces[i] != [] { }
  }

  // ----- the round counter between matched brackets -----

  lemma RoundStep(depth: SegmentDepth, t: Token)
    requires Closing(t) == Some(Round) ==> depth.round > 0
    ensures depth.After(t.value).round
            == depth.round + (if Opening(t) == Some(Round) then 1 else if Closing(t) == Some(Round) then -1 else 0)
  {
  }

  /** Inside a matched pair of round brackets the guard on the round counter never fires: it is the true depth. */
  lemma {:induction false} RoundIsTrueDepth(ts: seq<Token>, open: nat, close: nat, n: nat)
    requires Matched(ts, Round, open, close) && open + 1 + n <= close
    ensures DepthAfter(ts[open + 1..close], n).round == Depth(ts, Round, open + 1 + n) - Depth(ts, Round, open + 1)
  {
    if n > 0 {
      RoundIsTrueDepth(ts, open, close, n - 1);
      var region := ts[open + 1..close];
      assert region[n - 1] == ts[open + n];
      assert Depth(ts, Round, open + 1 + n) > Depth(ts, Round, open);
      RoundStep(DepthAfter(region, n - 1), region[n - 1]);
    }
  }

  // ----- receivers -----

  function IndexOf(segment: seq<Token>, value: string): (r: Option<nat>)
    ensures match r
            case Some(i) => i < |segment| && segment[i].value == value && forall j :: 0 <= j < i ==> segment[j].value != value
            case None => forall j :: 0 <= j < |segment| ==> segment[j].value != value
  {
    if segment == [] then None
    else
      match IndexOf(segment[..|segment| - 1], value)
      case Some(i) => Some(i)
      case None => if segment[|segment| - 1].value == value then Some(|segment| - 1) else None
  }

  predicate IsReceiver(segment: seq<Token>) {
    match IndexOf(segment, "self")
    case None => false
    case Some(selfIndex) => IndexOf(segment[..selfIndex], ":").None?
  }

  /** The piece names `self` somewhere with no colon before it. */
  ghost predicate NamesSelf(segment: seq<Token>) {
    exists i :: 0 <= i < |segment| && segment[i].value == "self" && forall j :: 0 <= j < i ==> segment[j].value != ":"
  }

  /** A receiver names `self` somewhere with no colon before it. */
  lemma ReceiverExact(segment: seq<Token>)
    ensures IsReceiver(segment) <==> NamesSelf(segment)
  {
    if i :| 0 <= i < |segment| && segment[i].value == "self" && forall j :: 0 <= j < i ==> segment[j].value != ":" {
      var first := IndexOf(segment, "self").value;
      assert first <= i;
    }
  }

  function Explicit(segments: seq<seq<Token>>): seq<seq<Token>> {
    if segments == [] then []
    else
      var n := |segments| - 1;
      if IsReceiver(segments[n]) then Explicit(segments[..n]) else Explicit(segments[..n]) + [segments[n]]
  }

  /** Nonempty pieces between top-level commas that are not receivers. */
  function PositionalParameters(ts: seq<Token>): nat {
    |Explicit(Nonempty(Pieces(ts, |ts|)))|
  }

  /** The number of nonempty parameters that are not receivers. */
  method PositionalParameterCount(ts: seq<Token>) returns (count: nat)
    ensures count == PositionalParameters(ts)
  {
    var segments := ParameterSegments(ts);
    count := 0;
    for index := 0 to |segments|
      invariant count == |Explicit(segments[..index])|
    {
      assert segments[..index + 1][..index] == segments[..index];
      if !IsReceiver(segments[index]) {
        count := count + 1;
      }
    }
    assert segments[..|segments|] == segments;
  }

  /** The places of the pieces that count: neither empty nor a receiver. */
  ghost function CountedPlaces(pieces: seq<seq<Token>>): set<nat> {
    set i: nat | i < |pieces| && pieces[i] != [] && !NamesSelf(pieces[i])
  }

  lemma CountedOneMore(pieces: seq<seq<Token>>, n: nat)
    requires n + 1 == |pieces|
    ensures CountedPlaces(pieces)
            == CountedPlaces(pieces[..n]) + if pieces[n] != [] && !NamesSelf(pieces[n]) then {n} else {}
  {
    forall i: nat | i < n ensures pieces[..n][i] == pieces[i] { }
  }

  lemma {:induction false} ExplicitCount(pieces: seq<seq<Token>>)
    ensures |Explicit(Nonempty(pieces))| == |CountedPlaces(pieces)|
  {
    if pieces == [] {
      assert CountedPlaces(pieces) == {};
    } else {
      var n := |pieces| - 1;
      ExplicitCount(pieces[..n]);
      CountedOneMore(pieces, n);
      ReceiverExact(pieces[n]);
      ExplicitGrows(Nonempty(pieces[..n]), pieces[n]);
    }
  }

  lemma ExplicitGrows(segments: seq<seq<Token>>, piece: seq<Token>)
    ensures Explicit(segments + [piece]) == if IsReceiver(piece) then Explicit(segments) else Explicit(segments) + [piece]
  {
    assert (segments + [piece])[..|segments|] == segments;
  }

  /** The count is that of the nonempty pieces naming no receiver, for the pieces that read as a split of the list. */
  lemma PositionalExact(ts: seq<Token>, pieces: seq<seq<Token>>, separators: seq<Token>)
    requires ReadsAsSplit(ts, pieces, separators)
    ensures PositionalParameters(ts) == |CountedPlaces(pieces)|
  {
    SplitExact(ts, pieces, separators);
    ExplicitCount(pieces);
  }
}
