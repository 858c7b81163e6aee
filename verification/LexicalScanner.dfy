/**
 The lexical scanner that blanks comments and literals of Rust source while keeping offsets and
 line breaks. Both scanners walk the same segments; `Walk` gives the kind of every character.
 Whether a character continues an identifier is a parameter, as it depends on Unicode tables.
 */
module LexicalScanner {
  import opened Outcomes

  datatype ScanError = UnterminatedBlockComment | UnterminatedRawString | UnterminatedString

  datatype Kind = Code | Comment | Literal

  datatype Segment = Segment(kind: Kind, end: nat)

  // ----- text primitives -----

  predicate StartsWith(s: string, prefix: string, at: nat) {
    at + |prefix| <= |s| && s[at..at + |prefix|] == prefix
  }

  /** The two characters `first second` stand at `at`. */
  predicate TwoAt(s: string, first: char, second: char, at: nat) {
    at + 1 < |s| && s[at] == first && s[at + 1] == second
  }

  predicate LineCommentAt(s: string, at: nat) { TwoAt(s, '/', '/', at) }

  predicate BlockOpensAt(s: string, at: nat) { TwoAt(s, '/', '*', at) }

  predicate BlockClosesAt(s: string, at: nat) { TwoAt(s, '*', '/', at) }

  function FindChar(s: string, c: char, from: nat): (r: Option<nat>)
    ensures r.Some? ==> from <= r.value < |s| && s[r.value] == c
    decreases |s| - from
  {
    if from >= |s| then None else if s[from] == c then Some(from) else FindChar(s, c, from + 1)
  }

  lemma {:induction false} FindCharIsFirst(s: string, c: char, from: nat, i: nat)
    requires from <= i < |s| && s[i] == c
    ensures FindChar(s, c, from).Some? && FindChar(s, c, from).value <= i
    decreases |s| - from
  {
    if s[from] != c { FindCharIsFirst(s, c, from + 1, i); }
  }

  /** The first occurrence at or after `from`. */
  function Find(s: string, needle: string, from: nat): (r: Option<nat>)
    ensures r.Some? ==> from <= r.value && StartsWith(s, needle, r.value)
    decreases |s| - from
  {
    if from > |s| then None
    else if StartsWith(s, needle, from) then Some(from)
    else if from == |s| then None
    else Find(s, needle, from + 1)
  }

  lemma {:induction false} FindIsFirst(s: string, needle: string, from: nat, i: nat)
    requires from <= i && StartsWith(s, needle, i)
    ensures Find(s, needle, from).Some? && Find(s, needle, from).value <= i
    decreases |s| - from
  {
    if !StartsWith(s, needle, from) { FindIsFirst(s, needle, from + 1, i); }
  }

  // ----- raw strings -----

  function SkipHashes(s: string, at: nat): (end: nat)
    ensures at <= end && (at <= |s| ==> end <= |s|)
    decreases |s| - at
  {
    if at < |s| && s[at] == '#' then SkipHashes(s, at + 1) else at
  }

  function Hashes(n: nat): (r: string)
    ensures |r| == n && forall i :: 0 <= i < n ==> r[i] == '#'
  {
    seq(n, _ => '#')
  }

  function RawPrefix(s: string, start: nat): Option<nat> {
    if TwoAt(s, 'b', 'r', start) || TwoAt(s, 'c', 'r', start) then Some(start + 2)
    else if start < |s| && s[start] == 'r' then Some(start + 1)
    else None
  }

  function RawTerminator(hashCount: nat): (r: string)
    ensures |r| == 1 + hashCount
  {
    "\"" + Hashes(hashCount)
  }

  /** The end of a raw string whose hashes begin at `hashStart` and whose opening quote should be at `quote`. */
  function RawTail(s: string, hashStart: nat, quote: nat): Result<Option<nat>, ScanError>
    requires hashStart <= quote
  {
    if quote >= |s| || s[quote] != '"' then Ok(None)
    else match Find(s, RawTerminator(quote - hashStart), quote + 1)
      case None => Err(UnterminatedRawString)
      case Some(at) => Ok(Some(at + |RawTerminator(quote - hashStart)|))
  }

  predicate ContinuesIdentifier(s: string, start: nat, alnum: char -> bool)
    requires start < |s|
  {
    start > 0 && (alnum(s[start - 1]) || s[start - 1] == '_')
  }

  /** The exclusive end of the raw string beginning at `start`, if one begins there. */
  function RawEnd(s: string, start: nat, alnum: char -> bool): Result<Option<nat>, ScanError>
    requires start < |s|
  {
    if ContinuesIdentifier(s, start, alnum) then Ok(None)
    else match RawPrefix(s, start)
      case None => Ok(None)
      case Some(hashStart) => RawTail(s, hashStart, SkipHashes(s, hashStart))
  }

  method RawStringEnd(s: string, start: nat, alnum: char -> bool) returns (r: Result<Option<nat>, ScanError>)
    requires start < |s|
    ensures r == RawEnd(s, start, alnum)
  {
    if ContinuesIdentifier(s, start, alnum) {
      return Ok(None);
    }
    var prefix := RawPrefix(s, start);
    if prefix.None? {
      return Ok(None);
    }
    var hashStart := prefix.value;
    var cursor := hashStart;
    while cursor < |s| && s[cursor] == '#'
      invariant hashStart <= cursor
      invariant SkipHashes(s, hashStart) == SkipHashes(s, cursor)
      decreases |s| - cursor
    {
      cursor := cursor + 1;
    }
    assert SkipHashes(s, hashStart) == cursor;
    if cursor >= |s| || s[cursor] != '"' {
      return Ok(None);
    }
    var terminator := RawTerminator(cursor - hashStart);
    var endStart := Find(s, terminator, cursor + 1);
    if endStart.None? {
      return Err(UnterminatedRawString);
    }
    return Ok(Some(endStart.value + |terminator|));
  }

  // ----- quoted strings -----

  /** The number of consecutive backslashes that end just before `at`, not looking before `from`. */
  function BackslashRun(s: string, from: nat, at: nat): nat
    requires at <= |s|
  {
    if from < at && s[at - 1] == '\\' then 1 + BackslashRun(s, from, at - 1) else 0
  }

  /** A double quote preceded by an even run of backslashes. */
  predicate ClosesString(s: string, from: nat, at: nat) {
    at < |s| && s[at] == '"' && BackslashRun(s, from, at) % 2 == 0
  }

  function FirstClosing(s: string, from: nat, at: nat): (r: Option<nat>)
    requires from <= at
    ensures r.Some? ==> at <= r.value && ClosesString(s, from, r.value)
    decreases |s| - at
  {
    if at >= |s| then None
    else if ClosesString(s, from, at) then Some(at)
    else FirstClosing(s, from, at + 1)
  }

  lemma {:induction false} FirstClosingIsFirst(s: string, from: nat, at: nat, i: nat)
    requires from <= at <= i && ClosesString(s, from, i)
    ensures FirstClosing(s, from, at).Some? && FirstClosing(s, from, at).value <= i
    decreases |s| - at
  {
    if !ClosesString(s, from, at) { FirstClosingIsFirst(s, from, at + 1, i); }
  }

  /** The exclusive end of the ordinary string beginning at `start`: past its first closing quote. */
  function QuotedEnd(s: string, start: nat): Result<nat, ScanError> {
    match FirstClosing(s, start + 1, start + 1)
    case None => Err(UnterminatedString)
    case Some(at) => Ok(at + 1)
  }

  method QuotedStringEnd(s: string, start: nat) returns (r: Result<nat, ScanError>)
    requires start < |s|
    ensures r == QuotedEnd(s, start)
  {
    var cursor := start + 1;
    var escaped := false;
    while cursor < |s|
      invariant start + 1 <= cursor <= |s|
      invariant escaped <==> BackslashRun(s, start + 1, cursor) % 2 == 1
      invariant FirstClosing(s, start + 1, start + 1) == FirstClosing(s, start + 1, cursor)
      decreases |s| - cursor
    {
      var character := s[cursor];
      if escaped {
        escaped := false;
      } else if character == '\\' {
        escaped := true;
      } else if character == '"' {
        return Ok(cursor + 1);
      }
      cursor := cursor + 1;
    }
    return Err(UnterminatedString);
  }

  // ----- character literals -----

  /** The exclusive end of the character literal beginning at `start`, or `None` for a lifetime tick. */
  function CharacterLiteralEnd(s: string, start: nat): (r: Option<nat>)
    ensures r.Some? ==> start + 3 <= r.value <= |s| && s[r.value - 1] == '\''
  {
    var value := start + 1;
    if value >= |s| || s[value] == '\r' || s[value] == '\n' || s[value] == '\'' then None
    else if s[value] != '\\' then
      if value + 1 < |s| && s[value + 1] == '\'' then Some(value + 2) else None
    else
      var escape := value + 1;
      if escape >= |s| then None
      else match EscapeClosing(s, escape)
        case None => None
        case Some(closing) => if closing < |s| && s[closing] == '\'' then Some(closing + 1) else None
  }

  /** Where the closing tick of an escape must stand. */
  function EscapeClosing(s: string, escape: nat): (r: Option<nat>)
    requires escape < |s|
    ensures r.Some? ==> escape < r.value
  {
    if s[escape] == 'x' then Some(escape + 3)
    else if s[escape] == 'u' && escape + 1 < |s| && s[escape + 1] == '{' then
      match FindChar(s, '}', escape + 2)
      case None => None
      case Some(brace) => if '\n' in s[escape..brace] then None else Some(brace + 1)
    else Some(escape + 1)
  }

  // ----- block comments -----

  /** The end of a block comment that is `depth` levels deep at `at`. */
  function BlockEnd(s: string, at: nat, depth: nat): (r: Option<nat>)
    ensures r.Some? ==> at <= r.value && (at <= |s| ==> r.value <= |s|)
    decreases |s| - at
  {
    if depth == 0 then Some(at)
    else if at >= |s| then None
    else if BlockOpensAt(s, at) then BlockEnd(s, at + 2, depth + 1)
    else if BlockClosesAt(s, at) then BlockEnd(s, at + 2, depth - 1)
    else BlockEnd(s, at + 1, depth)
  }

  method BlockCommentEnd(s: string, start: nat) returns (r: Result<nat, ScanError>)
    requires BlockOpensAt(s, start)
    ensures r == match BlockEnd(s, start + 2, 1) case None => Err(UnterminatedBlockComment) case Some(end) => Ok(end)
  {
    var depth: nat := 1;
    var end := start + 2;
    while end < |s| && depth > 0
      invariant end <= |s|
      invariant BlockEnd(s, start + 2, 1) == BlockEnd(s, end, depth)
      decreases |s| - end
    {
      if BlockOpensAt(s, end) {
        depth := depth + 1;
        end := end + 2;
      } else if BlockClosesAt(s, end) {
        depth := depth - 1;
        end := end + 2;
      } else {
        end := end + 1;
      }
    }
    if depth != 0 {
      return Err(UnterminatedBlockComment);
    }
    return Ok(end);
  }

  // ----- segments -----

  function LineEnd(s: string, from: nat): nat {
    match FindChar(s, '\n', from) case None => |s| case Some(at) => at
  }

  /** The segment beginning at `at`. */
  function Next(s: string, at: nat, alnum: char -> bool): (r: Result<Segment, ScanError>)
    requires at < |s|
    ensures r.Ok? ==> at < r.value.end <= |s|
  {
    if LineCommentAt(s, at) then Ok(Segment(Comment, LineEnd(s, at + 2)))
    else if BlockOpensAt(s, at) then
      match BlockEnd(s, at + 2, 1)
      case None => Err(UnterminatedBlockComment)
      case Some(end) => Ok(Segment(Comment, end))
    else
      var raw :- RawEnd(s, at, alnum);
      if raw.Some? then Ok(Segment(Literal, raw.value))
      else if s[at] == '"' then
        var end :- QuotedEnd(s, at);
        Ok(Segment(Literal, end))
      else if s[at] == '\'' && CharacterLiteralEnd(s, at).Some? then Ok(Segment(Literal, CharacterLiteralEnd(s, at).value))
      else Ok(Segment(Code, at + 1))
  }

  function Run(kind: Kind, n: nat): (r: seq<Kind>)
    ensures |r| == n && forall i :: 0 <= i < n ==> r[i] == kind
  {
    seq(n, _ => kind)
  }

  /** The kind of every character from `at` on. */
  function Walk(s: string, at: nat, alnum: char -> bool): (r: Result<seq<Kind>, ScanError>)
    requires at <= |s|
    ensures r.Ok? ==> |r.value| == |s| - at
    decreases |s| - at
  {
    if at == |s| then Ok([])
    else
      var segment :- Next(s, at, alnum);
      var rest :- Walk(s, segment.end, alnum);
      Ok(Run(segment.kind, segment.end - at) + rest)
  }

  predicate BlanksNonCode(kind: Kind) {
    kind != Code
  }

  predicate BlanksComments(kind: Kind) {
    kind == Comment
  }

  function Rendered(c: char, kind: Kind, blanks: Kind -> bool): char {
    if blanks(kind) && c != '\n' then ' ' else c
  }

  function Render(s: string, kinds: seq<Kind>, blanks: Kind -> bool): (r: string)
    requires |kinds| == |s|
    ensures |r| == |s| && forall i :: 0 <= i < |s| ==> r[i] == Rendered(s[i], kinds[i], blanks)
  {
    seq(|s|, i requires 0 <= i < |s| => Rendered(s[i], kinds[i], blanks))
  }

  /** The result of a scanner that blanks the kinds in `blanks`. */
  function Stripped(s: string, alnum: char -> bool, blanks: Kind -> bool): Result<string, ScanError> {
    var kinds :- Walk(s, 0, alnum);
    Ok(Render(s, kinds, blanks))
  }

  // ----- the scanners -----

  function Blanked(out: string, source: string, start: nat, end: nat): (r: string)
    requires |out| == |source| && start <= end <= |source|
    ensures |r| == |out|
    ensures forall i :: 0 <= i < |out| ==> r[i] == if start <= i < end && source[i] != '\n' then ' ' else out[i]
  {
    seq(|out|, i requires 0 <= i < |out| => if start <= i < end && source[i] != '\n' then ' ' else out[i])
  }

  method BlankNonNewlines(output: array<char>, source: string, start: nat, end: nat)
    requires output.Length == |source| && start <= end <= |source|
    modifies output
    ensures output[..] == Blanked(old(output[..]), source, start, end)
  {
    for index := start to end
      invariant forall i :: 0 <= i < |source| ==>
                  output[i] == if start <= i < index && source[i] != '\n' then ' ' else old(output[i])
    {
      if source[index] != '\n' {
        output[index] := ' ';
      }
    }
  }

  function Resumed(done: seq<Kind>, rest: Result<seq<Kind>, ScanError>): Result<seq<Kind>, ScanError> {
    match rest case Err(e) => Err(e) case Ok(kinds) => Ok(done + kinds)
  }

  /** `done` are the kinds of the characters before `cursor`, and `out` shows them so far. */
  ghost predicate Progress(s: string, out: string, cursor: nat, done: seq<Kind>, alnum: char -> bool, blanks: Kind -> bool) {
    && |out| == |s| && cursor <= |s| && |done| == cursor
    && Walk(s, 0, alnum) == Resumed(done, Walk(s, cursor, alnum))
    && (forall i :: 0 <= i < cursor ==> out[i] == Rendered(s[i], done[i], blanks))
    && (forall i :: cursor <= i < |s| ==> out[i] == s[i])
  }

  lemma Begin(s: string, alnum: char -> bool, blanks: Kind -> bool)
    ensures Progress(s, s, 0, [], alnum, blanks)
  {
    if Walk(s, 0, alnum).Ok? { assert [] + Walk(s, 0, alnum).value == Walk(s, 0, alnum).value; }
  }

  lemma Finish(s: string, out: string, done: seq<Kind>, alnum: char -> bool, blanks: Kind -> bool)
    requires Progress(s, out, |s|, done, alnum, blanks)
    ensures Stripped(s, alnum, blanks) == Ok(out)
  {
    assert done + [] == done;
    assert out == Render(s, done, blanks);
  }

  lemma WalkStep(s: string, cursor: nat, alnum: char -> bool, g: Segment)
    requires cursor < |s| && Next(s, cursor, alnum) == Ok(g)
    ensures Walk(s, cursor, alnum) == Resumed(Run(g.kind, g.end - cursor), Walk(s, g.end, alnum))
  {
  }

  lemma ResumedTwice(a: seq<Kind>, b: seq<Kind>, rest: Result<seq<Kind>, ScanError>)
    ensures Resumed(a, Resumed(b, rest)) == Resumed(a + b, rest)
  {
    if rest.Ok? { assert a + (b + rest.value) == a + b + rest.value; }
  }

  /** One segment further, blanked or kept. */
  lemma Advance(s: string, out: string, cursor: nat, done: seq<Kind>, g: Segment, next: string, alnum: char -> bool, blanks: Kind -> bool)
    requires Progress(s, out, cursor, done, alnum, blanks)
    requires cursor < |s| && Next(s, cursor, alnum) == Ok(g)
    requires next == if blanks(g.kind) then Blanked(out, s, cursor, g.end) else out
    ensures Progress(s, next, g.end, done + Run(g.kind, g.end - cursor), alnum, blanks)
  {
    WalkStep(s, cursor, alnum, g);
    ResumedTwice(done, Run(g.kind, g.end - cursor), Walk(s, g.end, alnum));
  }

  lemma Fail(s: string, out: string, cursor: nat, done: seq<Kind>, alnum: char -> bool, blanks: Kind -> bool)
    requires Progress(s, out, cursor, done, alnum, blanks)
    requires cursor < |s| && Next(s, cursor, alnum).Err?
    ensures Stripped(s, alnum, blanks) == Err(Next(s, cursor, alnum).error)
  {
  }

  /** What one turn of a scanner's loop does to the output, and where it leaves the cursor. */
  ghost predicate Turned(r: Result<nat, ScanError>, source: string, before: string, after: string, cursor: nat,
                         alnum: char -> bool, blanks: Kind -> bool)
    requires cursor < |source| && |before| == |source|
  {
    match Next(source, cursor, alnum)
    case Err(e) => r == Err(e)
    case Ok(g) => r == Ok(g.end) && after == if blanks(g.kind) then Blanked(before, source, cursor, g.end) else before
  }

  /** One turn of the full scanner: everything but code is blanked. */
  method BlankNext(output: array<char>, source: string, cursor: nat, alnum: char -> bool) returns (r: Result<nat, ScanError>)
    requires output.Length == |source| && cursor < |source|
    modifies output
    ensures Turned(r, source, old(output[..]), output[..], cursor, alnum, BlanksNonCode)
  {
    if LineCommentAt(source, cursor) {
      var end := LineEnd(source, cursor + 2);
      BlankNonNewlines(output, source, cursor, end);
      return Ok(end);
    }
    if BlockOpensAt(source, cursor) {
      var end :- BlockCommentEnd(source, cursor);
      BlankNonNewlines(output, source, cursor, end);
      return Ok(end);
    }
    var rawEnd :- RawStringEnd(source, cursor, alnum);
    if rawEnd.Some? {
      BlankNonNewlines(output, source, cursor, rawEnd.value);
      return Ok(rawEnd.value);
    }
    if source[cursor] == '"' {
      var end :- QuotedStringEnd(source, cursor);
      BlankNonNewlines(output, source, cursor, end);
      return Ok(end);
    }
    if source[cursor] == '\'' {
      var end := CharacterLiteralEnd(source, cursor);
      if end.Some? {
        BlankNonNewlines(output, source, cursor, end.value);
        return Ok(end.value);
      }
    }
    return Ok(cursor + 1);
  }

  /** One turn of the comment scanner: literals are stepped over, only comments are blanked. */
  method BlankNextComment(output: array<char>, source: string, cursor: nat, alnum: char -> bool) returns (r: Result<nat, ScanError>)
    requires output.Length == |source| && cursor < |source|
    modifies output
    ensures Turned(r, source, old(output[..]), output[..], cursor, alnum, BlanksComments)
  {
    if LineCommentAt(source, cursor) {
      var end := LineEnd(source, cursor + 2);
      BlankNonNewlines(output, source, cursor, end);
      return Ok(end);
    }
    if BlockOpensAt(source, cursor) {
      var end :- BlockCommentEnd(source, cursor);
      BlankNonNewlines(output, source, cursor, end);
      return Ok(end);
    }
    var rawEnd :- RawStringEnd(source, cursor, alnum);
    if rawEnd.Some? {
      return Ok(rawEnd.value);
    }
    if source[cursor] == '"' {
      var end :- QuotedStringEnd(source, cursor);
      return Ok(end);
    }
    if source[cursor] == '\'' {
      var end := CharacterLiteralEnd(source, cursor);
      if end.Some? {
        return Ok(end.value);
      }
    }
    return Ok(cursor + 1);
  }

  lemma TurnStep(s: string, out: string, cursor: nat, done: seq<Kind>,
                 r: Result<nat, ScanError>, next: string, alnum: char -> bool, blanks: Kind -> bool)
    requires cursor < |s| && Progress(s, out, cursor, done, alnum, blanks)
    requires Turned(r, s, out, next, cursor, alnum, blanks)
    ensures r.Err? ==> Stripped(s, alnum, blanks) == Err(r.error)
    ensures r.Ok? ==> cursor < r.value && Next(s, cursor, alnum).Ok?
                      && Progress(s, next, r.value, done + Run(Next(s, cursor, alnum).value.kind, r.value - cursor), alnum, blanks)
  {
    if r.Ok? {
      Advance(s, out, cursor, done, Next(s, cursor, alnum).value, next, alnum, blanks);
    } else {
      Fail(s, out, cursor, done, alnum, blanks);
    }
  }

  method StripNonCode(source: string, alnum: char -> bool) returns (r: Result<string, ScanError>)
    ensures r == Stripped(source, alnum, BlanksNonCode)
  {
    var output := new char[|source|](i requires 0 <= i < |source| => source[i]);
    assert output[..] == source;
    var cursor: nat := 0;
    ghost var done: seq<Kind> := [];
    Begin(source, alnum, BlanksNonCode);
    while cursor < |source|
      invariant output.Length == |source|
      invariant Progress(source, output[..], cursor, done, alnum, BlanksNonCode)
      decreases |source| - cursor
    {
      ghost var out := output[..];
      var end := BlankNext(output, source, cursor, alnum);
      TurnStep(source, out, cursor, done, end, output[..], alnum, BlanksNonCode);
      if end.Err? {
        return Err(end.error);
      }
      done := done + Run(Next(source, cursor, alnum).value.kind, end.value - cursor);
      cursor := end.value;
    }
    Finish(source, output[..], done, alnum, BlanksNonCode);
    return Ok(output[..]);
  }

  method StripRustComments(source: string, alnum: char -> bool) returns (r: Result<string, ScanError>)
    ensures r == Stripped(source, alnum, BlanksComments)
  {
    var output := new char[|source|](i requires 0 <= i < |source| => source[i]);
    assert output[..] == source;
    var cursor: nat := 0;
    ghost var done: seq<Kind> := [];
    Begin(source, alnum, BlanksComments);
    while cursor < |source|
      invariant output.Length == |source|
      invariant Progress(source, output[..], cursor, done, alnum, BlanksComments)
      decreases |source| - cursor
    {
      ghost var out := output[..];
      var end := BlankNextComment(output, source, cursor, alnum);
      TurnStep(source, out, cursor, done, end, output[..], alnum, BlanksComments);
      if end.Err? {
        return Err(end.error);
      }
      done := done + Run(Next(source, cursor, alnum).value.kind, end.value - cursor);
      cursor := end.value;
    }
    Finish(source, output[..], done, alnum, BlanksComments);
    return Ok(output[..]);
  }

  // ----- what stripping guarantees -----

  /** Same length, same line breaks; every other character is kept or becomes a space. */
  lemma StrippingKeepsShape(s: string, alnum: char -> bool, blanks: Kind -> bool)
    requires Stripped(s, alnum, blanks).Ok?
    ensures var out := Stripped(s, alnum, blanks).value;
            |out| == |s| && forall i :: 0 <= i < |s| ==> (out[i] == '\n' <==> s[i] == '\n') && (out[i] == s[i] || out[i] == ' ')
  {
  }

  /** The walk begun at `at` stands at `p`. */
  ghost predicate StandsAt(s: string, at: nat, p: nat, alnum: char -> bool)
    requires at <= |s|
    decreases |s| - at
  {
    at == p || (at < |s| && Next(s, at, alnum).Ok? && StandsAt(s, Next(s, at, alnum).value.end, p, alnum))
  }

  /** The segment that `Next` gives at `p` contains `i` and is of the kind `kind`. */
  ghost predicate SegmentHolds(s: string, p: nat, i: nat, kind: Kind, alnum: char -> bool) {
    p <= i < |s| && Next(s, p, alnum).Ok? && i < Next(s, p, alnum).value.end && Next(s, p, alnum).value.kind == kind
  }

  /** The kind of a character of the first segment, or of one that the rest of the walk covers. */
  lemma WalkSplits(s: string, at: nat, alnum: char -> bool, i: nat)
    requires at <= i < |s| && Walk(s, at, alnum).Ok?
    ensures Next(s, at, alnum).Ok?
    ensures var g := Next(s, at, alnum).value;
            && Walk(s, g.end, alnum).Ok?
            && Walk(s, at, alnum).value[i - at] == if i < g.end then g.kind else Walk(s, g.end, alnum).value[i - g.end]
  {
    WalkStep(s, at, alnum, Next(s, at, alnum).value);
  }

  lemma {:induction false} KindOfSegment(s: string, at: nat, alnum: char -> bool, p: nat, i: nat, kind: Kind)
    requires at <= p && at <= |s| && Walk(s, at, alnum).Ok?
    requires StandsAt(s, at, p, alnum) && SegmentHolds(s, p, i, kind, alnum)
    ensures Walk(s, at, alnum).value[i - at] == kind
    decreases |s| - at
  {
    WalkSplits(s, at, alnum, i);
    if at != p {
      var next := Next(s, at, alnum).value.end;
      StandsBeyond(s, next, p, alnum);
      KindOfSegment(s, next, alnum, p, i, kind);
    }
  }

  lemma {:induction false} StandsBeyond(s: string, at: nat, p: nat, alnum: char -> bool)
    requires at <= |s| && StandsAt(s, at, p, alnum)
    ensures at <= p <= |s|
    decreases |s| - at
  {
    if at != p { StandsBeyond(s, Next(s, at, alnum).value.end, p, alnum); }
  }

  lemma {:induction false} SegmentOfKind(s: string, at: nat, alnum: char -> bool, i: nat) returns (p: nat)
    requires at <= i < |s| && Walk(s, at, alnum).Ok?
    ensures at <= p && StandsAt(s, at, p, alnum) && SegmentHolds(s, p, i, Walk(s, at, alnum).value[i - at], alnum)
    decreases |s| - at
  {
    WalkSplits(s, at, alnum, i);
    var next := Next(s, at, alnum).value.end;
    p := at;
    if i >= next { p := SegmentOfKind(s, next, alnum, i); }
  }

  /** The walk begun at `at` reaches a place where no segment can be read, for the reason `error`. */
  ghost predicate StopsAt(s: string, at: nat, p: nat, error: ScanError, alnum: char -> bool)
    requires at <= |s|
  {
    at <= p < |s| && StandsAt(s, at, p, alnum) && Next(s, p, alnum) == Err(error)
  }

  lemma {:induction false} FailurePlace(s: string, at: nat, alnum: char -> bool) returns (p: nat)
    requires at <= |s| && Walk(s, at, alnum).Err?
    ensures StopsAt(s, at, p, Walk(s, at, alnum).error, alnum)
    decreases |s| - at
  {
    p := at;
    if Next(s, at, alnum).Ok? { p := FailurePlace(s, Next(s, at, alnum).value.end, alnum); }
  }

  lemma {:induction false} StopFails(s: string, at: nat, alnum: char -> bool, p: nat, error: ScanError)
    requires at <= |s| && StopsAt(s, at, p, error, alnum)
    ensures Walk(s, at, alnum) == Err(error)
    decreases |s| - at
  {
    if at != p {
      var next := Next(s, at, alnum).value.end;
      StandsBeyond(s, next, p, alnum);
      StopFails(s, next, alnum, p, error);
    }
  }

  /** The walk fails with an error iff it stands at a place where reading a segment fails with that error. */
  lemma FailureExact(s: string, at: nat, alnum: char -> bool, error: ScanError)
    requires at <= |s|
    ensures Walk(s, at, alnum) == Err(error) <==> exists p: nat :: StopsAt(s, at, p, error, alnum)
  {
    if Walk(s, at, alnum) == Err(error) {
      var p := FailurePlace(s, at, alnum);
    }
    if p: nat :| StopsAt(s, at, p, error, alnum) { StopFails(s, at, alnum, p, error); }
  }

  /** Some segment of the kind `kind` contains `i` and opens where the walk begun at `at` stood. */
  ghost predicate InSegment(s: string, at: nat, i: nat, kind: Kind, alnum: char -> bool)
    requires at <= |s|
  {
    exists p: nat :: at <= p && StandsAt(s, at, p, alnum) && SegmentHolds(s, p, i, kind, alnum)
  }

  lemma KindHasSegment(s: string, at: nat, alnum: char -> bool, i: nat)
    requires at <= i < |s| && Walk(s, at, alnum).Ok?
    ensures InSegment(s, at, i, Walk(s, at, alnum).value[i - at], alnum)
  {
    var p := SegmentOfKind(s, at, alnum, i);
  }

  lemma SegmentGivesKind(s: string, at: nat, alnum: char -> bool, i: nat, kind: Kind)
    requires at <= i < |s| && Walk(s, at, alnum).Ok? && InSegment(s, at, i, kind, alnum)
    ensures Walk(s, at, alnum).value[i - at] == kind
  {
    var p: nat :| at <= p && StandsAt(s, at, p, alnum) && SegmentHolds(s, p, i, kind, alnum);
    KindOfSegment(s, at, alnum, p, i, kind);
  }

  /**
   A character is of a kind iff it lies in a segment of that kind which opens where the walk stood;
   in particular nothing is blanked that is not inside a comment or literal beginning there.
   */
  lemma KindsExact(s: string, at: nat, alnum: char -> bool, i: nat, kind: Kind)
    requires at <= i < |s| && Walk(s, at, alnum).Ok?
    ensures Walk(s, at, alnum).value[i - at] == kind <==> InSegment(s, at, i, kind, alnum)
  {
    KindHasSegment(s, at, alnum, i);
    if InSegment(s, at, i, kind, alnum) { SegmentGivesKind(s, at, alnum, i, kind); }
  }

  /** A character is blanked iff it is no line break or space and lies in a comment or literal. */
  lemma BlankedIsNotCode(s: string, alnum: char -> bool, i: nat)
    requires i < |s| && Stripped(s, alnum, BlanksNonCode).Ok?
    ensures Stripped(s, alnum, BlanksNonCode).value[i] != s[i]
            <==> s[i] != '\n' && s[i] != ' ' && (InSegment(s, 0, i, Comment, alnum) || InSegment(s, 0, i, Literal, alnum))
  {
    var kind := Walk(s, 0, alnum).value[i];
    assert Stripped(s, alnum, BlanksNonCode).value[i] == Rendered(s[i], kind, BlanksNonCode);
    KindsExact(s, 0, alnum, i, Comment);
    KindsExact(s, 0, alnum, i, Literal);
  }

  /** A character of kind code is one at which the walk stood and found nothing else to begin. */
  lemma CodeStandsAlone(s: string, at: nat, alnum: char -> bool, i: nat)
    requires at <= i < |s| && Walk(s, at, alnum).Ok? && Walk(s, at, alnum).value[i - at] == Code
    ensures StandsAt(s, at, i, alnum) && Next(s, i, alnum) == Ok(Segment(Code, i + 1))
  {
    var p := SegmentOfKind(s, at, alnum, i);
    CodeIsOneLong(s, p, alnum);
  }

  lemma CodeIsOneLong(s: string, at: nat, alnum: char -> bool)
    requires at < |s|
    ensures Next(s, at, alnum).Ok? && Next(s, at, alnum).value.kind == Code ==>
              && Next(s, at, alnum).value.end == at + 1
              && s[at] != '"' && !LineCommentAt(s, at) && !BlockOpensAt(s, at)
  {
  }

  /** Blanked source contains no double quote and no comment opener. */
  lemma NoQuotesOrCommentsRemain(s: string, alnum: char -> bool)
    requires Stripped(s, alnum, BlanksNonCode).Ok?
    ensures var out := Stripped(s, alnum, BlanksNonCode).value;
            && '"' !in out
            && forall i: nat :: !LineCommentAt(out, i) && !BlockOpensAt(out, i)
  {
    var kinds := Walk(s, 0, alnum).value;
    var out := Stripped(s, alnum, BlanksNonCode).value;
    forall i: nat | i < |out| && out[i] != ' ' && out[i] != '\n'
      ensures kinds[i] == Code && out[i] == s[i] != '"' && !LineCommentAt(s, i) && !BlockOpensAt(s, i)
    {
      CodeStandsAlone(s, 0, alnum, i);
      CodeIsOneLong(s, i, alnum);
    }
  }

  /**
   The two scanners agree: they fail on the same inputs with the same error, every character the
   full scanner left as code is left by the comment scanner too, and whatever the comment
   scanner changed the full scanner blanked.
   */
  lemma ScannersAgree(s: string, alnum: char -> bool)
    ensures Stripped(s, alnum, BlanksNonCode).Err? <==> Stripped(s, alnum, BlanksComments).Err?
    ensures Stripped(s, alnum, BlanksNonCode).Err? ==> Stripped(s, alnum, BlanksNonCode) == Stripped(s, alnum, BlanksComments)
    ensures Stripped(s, alnum, BlanksNonCode).Ok? ==>
              var full, comments := Stripped(s, alnum, BlanksNonCode).value, Stripped(s, alnum, BlanksComments).value;
              forall i :: 0 <= i < |s| ==>
                (full[i] != ' ' ==> comments[i] == full[i] == s[i])
                && (comments[i] != s[i] ==> comments[i] == full[i] == ' ')
  {
  }
}
