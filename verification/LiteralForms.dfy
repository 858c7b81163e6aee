/**
 What the scanner's literals and comments are, independently of how it finds them: strings end at
 the first quote behind an even run of backslashes, raw strings at the first matching terminator,
 and block comments are exactly the printed forms of nested comment trees.
 */
module LiteralForms {
  import opened Outcomes
  import opened LexicalScanner

  // ----- strings -----

  /** The run of backslashes that ends just before `at`, looking back no further than `from`, has `n` of them. */
  ghost predicate IsRun(s: string, from: nat, at: nat, n: nat) {
    && n <= at <= |s| && (n == 0 || from <= at - n)
    && (forall i :: at - n <= i < at ==> s[i] == '\\')
    && (at <= from + n || s[at - n - 1] != '\\')
  }

  lemma {:induction false} RunExact(s: string, from: nat, at: nat, n: nat)
    requires at <= |s|
    ensures BackslashRun(s, from, at) == n <==> IsRun(s, from, at, n)
    decreases at
  {
    if from < at && s[at - 1] == '\\' && n > 0 { RunExact(s, from, at - 1, n - 1); }
  }

  /** A double quote behind an even run of backslashes. */
  ghost predicate ClosingQuote(s: string, from: nat, at: nat) {
    at < |s| && s[at] == '"' && exists n: nat :: IsRun(s, from, at, n) && n % 2 == 0
  }

  lemma ClosingQuoteExact(s: string, from: nat, at: nat)
    ensures ClosesString(s, from, at) <==> ClosingQuote(s, from, at)
  {
    if at < |s| {
      RunExact(s, from, at, BackslashRun(s, from, at));
      if n: nat :| IsRun(s, from, at, n) && n % 2 == 0 { RunExact(s, from, at, n); }
    }
  }

  ghost predicate FirstCloses(s: string, from: nat, at: nat) {
    from <= at && ClosingQuote(s, from, at) && forall i: nat :: from <= i < at ==> !ClosingQuote(s, from, i)
  }

  /** A string ends just past its first closing quote, and is unterminated iff it has none. */
  lemma QuotedEndExact(s: string, start: nat, at: nat)
    ensures QuotedEnd(s, start) == Ok(at + 1) <==> FirstCloses(s, start + 1, at)
    ensures QuotedEnd(s, start).Err? ==> !ClosingQuote(s, start + 1, at) || at <= start
  {
    FirstClosingExact(s, start + 1, at);
  }

  lemma FirstClosingExact(s: string, from: nat, at: nat)
    ensures FirstClosing(s, from, from) == Some(at) <==> FirstCloses(s, from, at)
    ensures FirstClosing(s, from, from).None? && from <= at ==> !ClosingQuote(s, from, at)
  {
    forall i: nat ensures ClosesString(s, from, i) <==> ClosingQuote(s, from, i) { ClosingQuoteExact(s, from, i); }
    forall i: nat | from <= i && ClosesString(s, from, i)
      ensures FirstClosing(s, from, from).Some? && FirstClosing(s, from, from).value <= i
    {
      FirstClosingIsFirst(s, from, from, i);
    }
  }

  // ----- raw strings -----

  /** Hashes alone between `at` and `end`, and something else, or nothing, at `end`. */
  ghost predicate HashesUpTo(s: string, at: nat, end: nat) {
    at <= end <= |s| && (forall i :: at <= i < end ==> s[i] == '#') && (end < |s| ==> s[end] != '#')
  }

  lemma {:induction false} SkipHashesExact(s: string, at: nat, end: nat)
    requires at <= |s|
    ensures SkipHashes(s, at) == end <==> HashesUpTo(s, at, end)
    decreases |s| - at
  {
    if at < |s| && s[at] == '#' { SkipHashesExact(s, at + 1, end); }
  }

  /** A raw string opens: where no identifier continues, r, br or cr, then hashes alone, then a quote. */
  ghost predicate RawOpens(s: string, start: nat, alnum: char -> bool, hashStart: nat, quote: nat) {
    && start <= hashStart <= quote < |s|
    && (start == 0 || !(alnum(s[start - 1]) || s[start - 1] == '_'))
    && (s[start..hashStart] == "r" || s[start..hashStart] == "br" || s[start..hashStart] == "cr")
    && (forall i :: hashStart <= i < quote ==> s[i] == '#') && s[quote] == '"'
  }

  /** A quote at `at` and `n` hashes behind it. */
  ghost predicate QuoteAndHashes(s: string, n: nat, at: nat) {
    at + n < |s| && s[at] == '"' && forall i :: at < i <= at + n ==> s[i] == '#'
  }

  /** The first later quote that as many hashes follow ends the string there. */
  ghost predicate RawCloses(s: string, hashCount: nat, quote: nat, end: nat) {
    && end > quote + 1 + hashCount && QuoteAndHashes(s, hashCount, end - 1 - hashCount)
    && forall i: nat :: quote < i < end - 1 - hashCount ==> !QuoteAndHashes(s, hashCount, i)
  }

  /** No later quote has as many hashes behind it. */
  ghost predicate RawStaysOpen(s: string, hashCount: nat, quote: nat) {
    forall i: nat :: quote < i ==> !QuoteAndHashes(s, hashCount, i)
  }

  lemma TerminatorStands(s: string, n: nat, at: nat)
    ensures StartsWith(s, RawTerminator(n), at) <==> QuoteAndHashes(s, n, at)
  {
    var text := RawTerminator(n);
    if StartsWith(s, text, at) {
      assert forall k :: 0 <= k <= n ==> s[at + k] == text[k];
      assert forall i :: at < i <= at + n ==> s[i] == text[i - at] == '#';
    }
    if QuoteAndHashes(s, n, at) { assert s[at..at + |text|] == text; }
  }

  lemma PrefixExact(s: string, start: nat, alnum: char -> bool, hashStart: nat, quote: nat)
    requires RawOpens(s, start, alnum, hashStart, quote)
    ensures RawPrefix(s, start) == Some(hashStart) && !ContinuesIdentifier(s, start, alnum)
    ensures SkipHashes(s, hashStart) == quote
  {
    var letters := s[start..hashStart];
    assert s[start] == letters[0];
    if |letters| == 2 { assert s[start + 1] == letters[1]; }
    SkipHashesExact(s, hashStart, quote);
  }

  lemma PrefixOpens(s: string, start: nat, alnum: char -> bool)
    requires start < |s| && RawEnd(s, start, alnum) != Ok(None)
    ensures RawPrefix(s, start).Some?
    ensures var h := RawPrefix(s, start).value; RawOpens(s, start, alnum, h, SkipHashes(s, h))
  {
    var h := RawPrefix(s, start).value;
    SkipHashesExact(s, h, SkipHashes(s, h));
    assert s[start..start + 1] == [s[start]];
    if h == start + 2 { assert s[start..h] == [s[start], s[start + 1]]; }
  }

  /** All three outcomes: no raw string opens; one opens and ends; one opens and no terminator follows. */
  lemma RawStringExact(s: string, start: nat, alnum: char -> bool, hashStart: nat, quote: nat)
    requires start < |s|
    ensures RawOpens(s, start, alnum, hashStart, quote) ==>
              match RawEnd(s, start, alnum)
              case Ok(Some(end)) => RawCloses(s, quote - hashStart, quote, end)
              case Ok(None) => false
              case Err(_) => RawStaysOpen(s, quote - hashStart, quote)
    ensures RawEnd(s, start, alnum) != Ok(None) ==> exists h, q :: RawOpens(s, start, alnum, h, q)
  {
    if RawEnd(s, start, alnum) != Ok(None) { PrefixOpens(s, start, alnum); }
    if RawOpens(s, start, alnum, hashStart, quote) {
      PrefixExact(s, start, alnum, hashStart, quote);
      RawTailExact(s, hashStart, quote);
    }
  }

  lemma RawTailExact(s: string, hashStart: nat, quote: nat)
    requires hashStart <= quote < |s| && s[quote] == '"'
    ensures match RawTail(s, hashStart, quote)
            case Ok(Some(end)) => RawCloses(s, quote - hashStart, quote, end)
            case Ok(None) => false
            case Err(_) => RawStaysOpen(s, quote - hashStart, quote)
  {
    var n := quote - hashStart;
    var terminator := RawTerminator(n);
    forall i: nat ensures StartsWith(s, terminator, i) <==> QuoteAndHashes(s, n, i) { TerminatorStands(s, n, i); }
    forall i: nat | quote < i && StartsWith(s, terminator, i)
      ensures Find(s, terminator, quote + 1).Some? && Find(s, terminator, quote + 1).value <= i
    {
      FindIsFirst(s, terminator, quote + 1, i);
    }
  }

  // ----- character literals -----

  /** The four shapes the scanner takes for a character literal; escapes are not checked for meaning. */
  datatype Character = Single(c: char) | HexEscape(high: char, low: char) | UnicodeEscape(digits: string) | SimpleEscape(c: char)
  {
    predicate Allowed() {
      match this
      case Single(c) => c != '\\' && c != '\'' && c != '\r' && c != '\n'
      case HexEscape(_, _) => true
      case UnicodeEscape(digits) => '}' !in digits && '\n' !in digits
      case SimpleEscape(c) => c != 'x'
    }

    function Printed(): (text: string)
      ensures |text| >= 3 && text[0] == '\'' && text[|text| - 1] == '\''
    {
      match this
      case Single(c) => ['\'', c, '\'']
      case HexEscape(high, low) => ['\'', '\\', 'x', high, low, '\'']
      case UnicodeEscape(digits) => ['\'', '\\', 'u', '{'] + digits + ['}', '\'']
      case SimpleEscape(c) => ['\'', '\\', c, '\'']
    }
  }

  /** Some allowed character is printed between `start` and `end`. */
  ghost predicate IsCharacter(s: string, start: nat, end: nat) {
    start <= end <= |s| && exists l: Character :: l.Allowed() && s[start..end] == l.Printed()
  }

  lemma PrintedCharacterEnds(s: string, start: nat, l: Character)
    requires l.Allowed() && StartsWith(s, l.Printed(), start)
    ensures CharacterLiteralEnd(s, start) == Some(start + |l.Printed()|)
  {
    var text := l.Printed();
    assert s[start + 1] == text[1] && s[start + 2] == text[2];
    match l
    case Single(_) =>
    case HexEscape(_, _) => assert s[start + 5] == text[5];
    case UnicodeEscape(digits) => PrintedUnicodeEnds(s, start, digits);
    case SimpleEscape(_) => assert s[start + 3] == text[3];
  }

  lemma PrintedUnicodeEnds(s: string, start: nat, digits: string)
    requires '}' !in digits && '\n' !in digits && StartsWith(s, UnicodeEscape(digits).Printed(), start)
    ensures CharacterLiteralEnd(s, start) == Some(start + 6 + |digits|)
  {
    var text := UnicodeEscape(digits).Printed();
    var brace := start + 4 + |digits|;
    assert s[start + 1] == text[1] && s[start + 2] == text[2] && s[start + 3] == text[3];
    assert s[brace] == text[4 + |digits|] && s[brace + 1] == text[5 + |digits|];
    forall i | start + 4 <= i < brace ensures s[i] != '}' && s[i] != '\n' {
      assert s[start + (i - start)] == text[i - start] == digits[i - start - 4];
    }
    BraceFound(s, start + 4, brace);
    assert EscapeClosing(s, start + 2) == Some(brace + 1);
  }

  lemma BraceFound(s: string, from: nat, brace: nat)
    requires from <= brace < |s| && s[brace] == '}' && forall i :: from <= i < brace ==> s[i] != '}'
    ensures FindChar(s, '}', from) == Some(brace)
  {
    FindCharIsFirst(s, '}', from, brace);
  }

  lemma CharacterEndIsPrinted(s: string, start: nat, end: nat) returns (l: Character)
    requires start < |s| && s[start] == '\'' && CharacterLiteralEnd(s, start) == Some(end)
    ensures end <= |s| && l.Allowed() && s[start..end] == l.Printed()
  {
    if s[start + 1] != '\\' {
      l := Single(s[start + 1]);
    } else if s[start + 2] == 'u' && s[start + 3] == '{' {
      l := UnicodeEndIsPrinted(s, start, end);
    } else if s[start + 2] == 'x' {
      l := HexEscape(s[start + 3], s[start + 4]);
    } else {
      l := SimpleEscape(s[start + 2]);
    }
  }

  lemma UnicodeEndIsPrinted(s: string, start: nat, end: nat) returns (l: Character)
    requires start + 3 < |s| && s[start] == '\'' && s[start + 1] == '\\' && s[start + 2] == 'u' && s[start + 3] == '{'
    requires CharacterLiteralEnd(s, start) == Some(end)
    ensures end <= |s| && l.Allowed() && s[start..end] == l.Printed()
  {
    var brace := FindChar(s, '}', start + 4).value;
    NoEarlierBrace(s, start + 4, brace);
    var digits := s[start + 4..brace];
    assert '\n' !in s[start + 2..brace];
    forall i | 0 <= i < |digits| ensures digits[i] != '\n' { assert digits[i] == s[start + 2..brace][i + 2]; }
    l := UnicodeEscape(digits);
    assert s[start..end] == ['\'', '\\', 'u', '{'] + digits + ['}', '\''];
  }

  lemma NoEarlierBrace(s: string, from: nat, brace: nat)
    requires FindChar(s, '}', from) == Some(brace)
    ensures '}' !in s[from..brace]
  {
    forall i | from <= i < brace ensures s[i] != '}' {
      if s[i] == '}' { FindCharIsFirst(s, '}', from, i); }
    }
  }

  lemma RecognisedIsCharacter(s: string, start: nat, end: nat)
    requires start < |s| && s[start] == '\'' && CharacterLiteralEnd(s, start) == Some(end)
    ensures IsCharacter(s, start, end)
  {
    var l := CharacterEndIsPrinted(s, start, end);
    assert start <= end;
  }

  lemma CharacterIsRecognised(s: string, start: nat, end: nat)
    requires IsCharacter(s, start, end)
    ensures CharacterLiteralEnd(s, start) == Some(end)
  {
    var l: Character :| l.Allowed() && s[start..end] == l.Printed();
    assert end == start + |l.Printed()|;
    PrintedCharacterEnds(s, start, l);
  }

  /** A tick begins a character literal ending at `end` iff the text up to there prints one of the four shapes. */
  lemma CharacterLiteralExact(s: string, start: nat, end: nat)
    requires start < |s| && s[start] == '\''
    ensures CharacterLiteralEnd(s, start) == Some(end) <==> IsCharacter(s, start, end)
  {
    if CharacterLiteralEnd(s, start) == Some(end) { RecognisedIsCharacter(s, start, end); }
    if IsCharacter(s, start, end) { CharacterIsRecognised(s, start, end); }
  }

  // ----- nested block comments -----

  /** The inside of a block comment. */
  datatype Body = Done | Text(c: char, rest: Body) | Nested(inner: Body, rest: Body)

  /** A body as text, with its closing delimiter and whatever comes after. */
  function Closed(b: Body, more: string): (text: string)
    ensures |text| >= |more| + 2
  {
    match b
    case Done => ['*', '/'] + more
    case Text(c, rest) => [c] + Closed(rest, more)
    case Nested(inner, rest) => ['/', '*'] + Closed(inner, Closed(rest, more))
  }

  /** No plain character begins a delimiter together with the character after it. */
  ghost predicate Plain(b: Body, more: string) {
    match b
    case Done => true
    case Text(_, rest) => !BlockOpensAt(Closed(b, more), 0) && !BlockClosesAt(Closed(b, more), 0) && Plain(rest, more)
    case Nested(inner, rest) => Plain(inner, Closed(rest, more)) && Plain(rest, more)
  }

  /** The text from `at` on is a well-formed body, closed, and then `more`. */
  ghost predicate ReadsAs(s: string, at: nat, b: Body, more: string) {
    at <= |s| && s[at..] == Closed(b, more) && Plain(b, more)
  }

  lemma SuffixHead(s: string, at: nat)
    requires at <= |s|
    ensures BlockOpensAt(s, at) <==> BlockOpensAt(s[at..], 0)
    ensures BlockClosesAt(s, at) <==> BlockClosesAt(s[at..], 0)
  {
  }

  lemma DropFront(s: string, at: nat, front: string, back: string)
    requires at <= |s| && s[at..] == front + back
    ensures at + |front| <= |s| && s[at + |front|..] == back
  {
    assert |s[at..]| == |front| + |back|;
    assert s[at + |front|..] == s[at..][|front|..];
  }

  lemma TakeTwo(s: string, at: nat, first: char, second: char)
    requires TwoAt(s, first, second, at)
    ensures s[at..] == [first, second] + s[at + 2..]
  {
  }

  lemma CrossOpening(s: string, at: nat, depth: nat, back: string)
    requires at <= |s| && s[at..] == ['/', '*'] + back
    ensures at + 2 <= |s| && s[at + 2..] == back
    ensures BlockEnd(s, at, depth + 1) == BlockEnd(s, at + 2, depth + 2)
  {
    SuffixHead(s, at);
    DropFront(s, at, ['/', '*'], back);
  }

  lemma CrossClosing(s: string, at: nat, depth: nat, back: string)
    requires at <= |s| && s[at..] == ['*', '/'] + back
    ensures at + 2 == |s| - |back| && s[at + 2..] == back
    ensures BlockEnd(s, at, depth + 1) == BlockEnd(s, at + 2, depth)
  {
    SuffixHead(s, at);
    DropFront(s, at, ['*', '/'], back);
  }

  lemma CrossText(s: string, at: nat, depth: nat, c: char, back: string)
    requires at <= |s| && s[at..] == [c] + back && !BlockOpensAt([c] + back, 0) && !BlockClosesAt([c] + back, 0)
    ensures at + 1 <= |s| && s[at + 1..] == back
    ensures BlockEnd(s, at, depth + 1) == BlockEnd(s, at + 1, depth + 1)
  {
    SuffixHead(s, at);
    DropFront(s, at, [c], back);
  }

  lemma {:induction false} ClosedSplits(b: Body, more: string) returns (front: string)
    ensures Closed(b, more) == front + more
    decreases b
  {
    match b
    case Done =>
      front := ['*', '/'];
    case Text(c, rest) =>
      var tail := ClosedSplits(rest, more);
      front := [c] + tail;
    case Nested(inner, rest) =>
      var middle := ClosedSplits(inner, Closed(rest, more));
      var tail := ClosedSplits(rest, more);
      front := ['/', '*'] + middle + tail;
      assert ['/', '*'] + (middle + (tail + more)) == front + more;
  }

  lemma MoreFollows(s: string, at: nat, b: Body, more: string)
    requires ReadsAs(s, at, b, more)
    ensures at + |more| + 2 <= |s| && s[|s| - |more|..] == more
  {
    var front := ClosedSplits(b, more);
    DropFront(s, at, front, more);
  }

  lemma ReadsNext(s: string, at: nat, depth: nat, c: char, rest: Body, more: string)
    requires ReadsAs(s, at, Text(c, rest), more)
    ensures ReadsAs(s, at + 1, rest, more)
    ensures BlockEnd(s, at, depth + 1) == BlockEnd(s, at + 1, depth + 1)
  {
    CrossText(s, at, depth, c, Closed(rest, more));
  }

  lemma ReadsInner(s: string, at: nat, depth: nat, inner: Body, rest: Body, more: string)
    requires ReadsAs(s, at, Nested(inner, rest), more)
    ensures ReadsAs(s, at + 2, inner, Closed(rest, more)) && |Closed(rest, more)| <= |s|
    ensures ReadsAs(s, |s| - |Closed(rest, more)|, rest, more)
    ensures BlockEnd(s, at, depth + 1) == BlockEnd(s, at + 2, depth + 2)
  {
    CrossOpening(s, at, depth, Closed(inner, Closed(rest, more)));
    MoreFollows(s, at + 2, inner, Closed(rest, more));
  }

  /** Completeness: a well-formed body is crossed whole, and leaves the scan one level shallower. */
  lemma {:induction false} PrintedBodyCloses(s: string, at: nat, depth: nat, b: Body, more: string)
    requires ReadsAs(s, at, b, more)
    ensures at + |more| + 2 <= |s| && BlockEnd(s, at, depth + 1) == BlockEnd(s, |s| - |more|, depth)
    decreases b, 1
  {
    MoreFollows(s, at, b, more);
    match b
    case Done => CrossClosing(s, at, depth, more);
    case Text(c, rest) =>
      ReadsNext(s, at, depth, c, rest, more);
      PrintedBodyCloses(s, at + 1, depth, rest, more);
    case Nested(inner, rest) => NestedBodyCloses(s, at, depth, inner, rest, more);
  }

  lemma {:induction false} NestedBodyCloses(s: string, at: nat, depth: nat, inner: Body, rest: Body, more: string)
    requires ReadsAs(s, at, Nested(inner, rest), more) && |more| <= |s|
    ensures BlockEnd(s, at, depth + 1) == BlockEnd(s, |s| - |more|, depth)
    decreases Nested(inner, rest), 0
  {
    ReadsInner(s, at, depth, inner, rest, more);
    PrintedBodyCloses(s, at + 2, depth + 1, inner, Closed(rest, more));
    PrintedBodyCloses(s, |s| - |Closed(rest, more)|, depth, rest, more);
  }

  /** Soundness: whatever the scan crosses to get one level up is a well-formed body. */
  lemma {:induction false} ClosedTextIsPrinted(s: string, at: nat, depth: nat) returns (b: Body, more: string)
    requires at <= |s| && BlockEnd(s, at, depth + 1).Some?
    ensures ReadsAs(s, at, b, more)
    ensures at + |more| + 2 <= |s| && BlockEnd(s, |s| - |more|, depth) == BlockEnd(s, at, depth + 1)
    decreases |s| - at
  {
    SuffixHead(s, at);
    if BlockOpensAt(s, at) {
      var inner, after := ClosedTextIsPrinted(s, at + 2, depth + 1);
      PrintedBodyCloses(s, at + 2, depth + 1, inner, after);
      MoreFollows(s, at + 2, inner, after);
      var rest;
      rest, more := ClosedTextIsPrinted(s, |s| - |after|, depth);
      b := Nested(inner, rest);
      TakeTwo(s, at, '/', '*');
    } else if BlockClosesAt(s, at) {
      b, more := Done, s[at + 2..];
      TakeTwo(s, at, '*', '/');
    } else {
      var rest;
      rest, more := ClosedTextIsPrinted(s, at + 1, depth);
      b := Text(s[at], rest);
      assert s[at..] == [s[at]] + s[at + 1..];
    }
  }

  /** Some well-formed body stands at `at` and is closed just before `end`. */
  ghost predicate BodyCloses(s: string, at: nat, end: nat) {
    end <= |s| && exists b :: ReadsAs(s, at, b, s[end..])
  }

  /** A block comment ends at `end` iff its inside, up to the outer closing delimiter, is a well-formed nested body. */
  lemma BlockCommentExact(s: string, start: nat, end: nat)
    requires BlockOpensAt(s, start)
    ensures BlockEnd(s, start + 2, 1) == Some(end) <==> BodyCloses(s, start + 2, end)
  {
    if BlockEnd(s, start + 2, 1) == Some(end) {
      var b, more := ClosedTextIsPrinted(s, start + 2, 0);
      PrintedBodyCloses(s, start + 2, 0, b, more);
      MoreFollows(s, start + 2, b, more);
    }
    if BodyCloses(s, start + 2, end) {
      var b :| ReadsAs(s, start + 2, b, s[end..]);
      PrintedBodyCloses(s, start + 2, 0, b, s[end..]);
    }
  }

  // ----- when stripping fails -----

  ghost predicate NoBodyCloses(s: string, from: nat) {
    forall end: nat :: !BodyCloses(s, from, end)
  }

  /** A block comment opens at `p` and no well-formed nested body follows it. */
  ghost predicate CommentNeverEnds(s: string, p: nat) {
    p + 2 <= |s| && s[p..p + 2] == "/*" && NoBodyCloses(s, p + 2)
  }

  /** A raw string opens at `p` and its terminator never follows. */
  ghost predicate RawNeverEnds(s: string, p: nat, alnum: char -> bool)
    requires p < |s|
  {
    exists hashStart: nat, quote: nat ::
      RawOpens(s, p, alnum, hashStart, quote) && RawStaysOpen(s, quote - hashStart, quote)
  }

  ghost predicate NoQuoteCloses(s: string, from: nat) {
    forall at: nat :: from <= at ==> !ClosingQuote(s, from, at)
  }

  /** A string opens at `p` and no later quote closes it. */
  ghost predicate StringNeverEnds(s: string, p: nat)
    requires p < |s|
  {
    s[p] == '"' && NoQuoteCloses(s, p + 1)
  }

  /** What `error` says is true of the text at `p`. */
  ghost predicate Unterminated(s: string, p: nat, alnum: char -> bool, error: ScanError)
    requires p < |s|
  {
    match error
    case UnterminatedBlockComment => CommentNeverEnds(s, p)
    case UnterminatedRawString => RawNeverEnds(s, p, alnum)
    case UnterminatedString => StringNeverEnds(s, p)
  }

  lemma CommentOpener(s: string, p: nat)
    ensures BlockOpensAt(s, p) <==> p + 2 <= |s| && s[p..p + 2] == "/*"
    ensures LineCommentAt(s, p) <==> p + 2 <= |s| && s[p..p + 2] == "//"
  {
    if p + 2 <= |s| { assert s[p..p + 2] == [s[p], s[p + 1]]; }
  }

  lemma CommentFailure(s: string, p: nat)
    requires BlockOpensAt(s, p)
    ensures BlockEnd(s, p + 2, 1).None? <==> CommentNeverEnds(s, p)
  {
    CommentOpener(s, p);
    if BlockEnd(s, p + 2, 1).None? {
      var from := p + 2;
      forall end: nat ensures !BodyCloses(s, from, end) { BlockCommentExact(s, p, end); }
    } else {
      BlockCommentExact(s, p, BlockEnd(s, p + 2, 1).value);
    }
  }

  lemma RawFailureIsUnterminated(s: string, p: nat, alnum: char -> bool)
    requires p < |s| && RawEnd(s, p, alnum).Err?
    ensures RawNeverEnds(s, p, alnum)
  {
    RawStringExact(s, p, alnum, 0, 0);
    var hashStart: nat, quote: nat :| RawOpens(s, p, alnum, hashStart, quote);
    RawStringExact(s, p, alnum, hashStart, quote);
  }

  lemma UnterminatedRawFails(s: string, p: nat, alnum: char -> bool, hashStart: nat, quote: nat)
    requires p < |s| && RawOpens(s, p, alnum, hashStart, quote)
    requires RawStaysOpen(s, quote - hashStart, quote)
    ensures RawEnd(s, p, alnum).Err?
  {
    RawStringExact(s, p, alnum, hashStart, quote);
  }

  lemma RawFailure(s: string, p: nat, alnum: char -> bool)
    requires p < |s|
    ensures RawEnd(s, p, alnum).Err? <==> RawNeverEnds(s, p, alnum)
  {
    if RawEnd(s, p, alnum).Err? { RawFailureIsUnterminated(s, p, alnum); }
    if RawNeverEnds(s, p, alnum) {
      var hashStart: nat, quote: nat :|
        RawOpens(s, p, alnum, hashStart, quote) && RawStaysOpen(s, quote - hashStart, quote);
      UnterminatedRawFails(s, p, alnum, hashStart, quote);
    }
  }

  lemma StringFailure(s: string, p: nat)
    requires p < |s| && s[p] == '"'
    ensures QuotedEnd(s, p).Err? <==> StringNeverEnds(s, p)
  {
    if QuotedEnd(s, p).Err? {
      var from := p + 1;
      forall at: nat | from <= at ensures !ClosingQuote(s, from, at) { QuotedEndExact(s, p, at); }
    } else {
      var end := QuotedEnd(s, p).value;
      QuotedEndExact(s, p, end - 1);
    }
  }

  lemma RawBeginsWithLetter(s: string, p: nat, alnum: char -> bool)
    requires p < |s| && !RawEnd(s, p, alnum).Ok?
    ensures s[p] == 'r' || s[p] == 'b' || s[p] == 'c'
  {
  }

  /** Reading a segment fails with an error iff what the error says is true of the text there. */
  lemma SegmentFailure(s: string, p: nat, alnum: char -> bool, error: ScanError)
    requires p < |s|
    ensures Next(s, p, alnum) == Err(error) <==> Unterminated(s, p, alnum, error)
  {
    CommentOpener(s, p);
    if BlockOpensAt(s, p) { CommentFailure(s, p); }
    RawFailure(s, p, alnum);
    if s[p] == '"' { StringFailure(s, p); }
    if RawEnd(s, p, alnum).Err? { RawBeginsWithLetter(s, p, alnum); }
  }

  /** The walk reaches a comment, raw string or string that never ends. */
  ghost predicate ReachesUnterminated(s: string, alnum: char -> bool, error: ScanError) {
    exists p: nat :: p < |s| && StandsAt(s, 0, p, alnum) && Unterminated(s, p, alnum, error)
  }

  /** Either scanner fails with an error iff the walk reaches something unterminated of that sort. */
  lemma StrippingFailsExactly(s: string, alnum: char -> bool, blanks: Kind -> bool, error: ScanError)
    ensures Stripped(s, alnum, blanks) == Err(error) <==> ReachesUnterminated(s, alnum, error)
  {
    FailureExact(s, 0, alnum, error);
    forall p: nat | p < |s| ensures Next(s, p, alnum) == Err(error) <==> Unterminated(s, p, alnum, error) {
      SegmentFailure(s, p, alnum, error);
    }
    if Walk(s, 0, alnum) == Err(error) {
      var p: nat :| StopsAt(s, 0, p, error, alnum);
      assert Unterminated(s, p, alnum, error);
    }
    if ReachesUnterminated(s, alnum, error) {
      var p: nat :| p < |s| && StandsAt(s, 0, p, alnum) && Unterminated(s, p, alnum, error);
      assert StopsAt(s, 0, p, error, alnum);
    }
  }
}
