/**
 The scanners read as forms of text: what a segment of each kind looks like, that one turn of the
 walk takes a segment iff it has that form, and that the stripped text is the tiling of the source
 by such segments with the blanked kinds turned to spaces.
 */
module SegmentForms {
  import opened Outcomes
  import opened LexicalScanner
  import opened LiteralForms

  // ----- one segment -----

  /** Two slashes and everything up to the next line break, or to the end of the text. */
  ghost predicate IsLineComment(s: string, at: nat, end: nat) {
    && at + 2 <= end <= |s| && s[at..at + 2] == "//"
    && (forall i :: at + 2 <= i < end ==> s[i] != '\n') && (end < |s| ==> s[end] == '\n')
  }

  ghost predicate IsBlockComment(s: string, at: nat, end: nat) {
    at + 2 <= |s| && s[at..at + 2] == "/*" && BodyCloses(s, at + 2, end)
  }

  ghost predicate IsRawString(s: string, at: nat, alnum: char -> bool, end: nat) {
    exists h: nat, q: nat :: RawOpens(s, at, alnum, h, q) && RawCloses(s, q - h, q, end)
  }

  ghost predicate IsString(s: string, at: nat, end: nat) {
    at < |s| && s[at] == '"' && end > at + 1 && FirstCloses(s, at + 1, end - 1)
  }

  ghost predicate RawBegins(s: string, at: nat, alnum: char -> bool) {
    exists h: nat, q: nat :: RawOpens(s, at, alnum, h, q)
  }

  ghost predicate CharacterBegins(s: string, at: nat) {
    exists end: nat :: IsCharacter(s, at, end)
  }

  /** No comment, raw string, string or character literal begins here. */
  ghost predicate NothingBegins(s: string, at: nat, alnum: char -> bool) {
    && at < |s| && s[at] != '"'
    && (at + 2 <= |s| ==> s[at..at + 2] != "//" && s[at..at + 2] != "/*")
    && !RawBegins(s, at, alnum) && !CharacterBegins(s, at)
  }

  /** The text from `at` to `end` is a segment of the kind `kind`. */
  ghost predicate IsSegment(s: string, at: nat, alnum: char -> bool, kind: Kind, end: nat) {
    match kind
    case Comment => IsLineComment(s, at, end) || IsBlockComment(s, at, end)
    case Literal => IsRawString(s, at, alnum, end) || IsString(s, at, end) || IsCharacter(s, at, end)
    case Code => NothingBegins(s, at, alnum) && end == at + 1
  }

  lemma LineEndExact(s: string, at: nat, end: nat)
    requires at + 2 <= |s| && s[at..at + 2] == "//"
    ensures LineEnd(s, at + 2) == end <==> IsLineComment(s, at, end)
  {
    match FindChar(s, '\n', at + 2)
    case None =>
      forall i | at + 2 <= i < |s| ensures s[i] != '\n' {
        if s[i] == '\n' { FindCharIsFirst(s, '\n', at + 2, i); }
      }
    case Some(first) =>
      forall i | at + 2 <= i < first ensures s[i] != '\n' {
        if s[i] == '\n' { FindCharIsFirst(s, '\n', at + 2, i); }
      }
  }

  /** A line comment ends exactly at the next line break, or at the end of the text. */
  lemma LineCommentExact(s: string, at: nat, alnum: char -> bool, end: nat)
    requires at + 2 <= |s| && s[at..at + 2] == "//"
    ensures Next(s, at, alnum) == Ok(Segment(Comment, end)) <==> IsLineComment(s, at, end)
  {
    CommentOpener(s, at);
    LineEndExact(s, at, end);
  }

  lemma BlockSegment(s: string, at: nat, alnum: char -> bool, end: nat)
    requires at + 2 <= |s| && s[at..at + 2] == "/*"
    ensures Next(s, at, alnum) == Ok(Segment(Comment, end)) <==> IsBlockComment(s, at, end)
  {
    CommentOpener(s, at);
    BlockCommentExact(s, at, end);
  }

  lemma RawUnique(s: string, at: nat, alnum: char -> bool, h: nat, q: nat, end: nat)
    requires at < |s| && RawOpens(s, at, alnum, h, q)
    ensures RawEnd(s, at, alnum) == Ok(Some(end)) <==> RawCloses(s, q - h, q, end)
  {
    RawStringExact(s, at, alnum, h, q);
  }

  lemma RawSegment(s: string, at: nat, alnum: char -> bool, end: nat)
    requires at < |s|
    ensures RawEnd(s, at, alnum) == Ok(Some(end)) <==> IsRawString(s, at, alnum, end)
    ensures RawEnd(s, at, alnum) == Ok(None) <==> !RawBegins(s, at, alnum)
  {
    RawStringExact(s, at, alnum, at, at);
    if h: nat, q: nat :| RawOpens(s, at, alnum, h, q) {
      RawUnique(s, at, alnum, h, q, end);
      RawStringExact(s, at, alnum, h, q);
    }
    if h: nat, q: nat :| RawOpens(s, at, alnum, h, q) && RawCloses(s, q - h, q, end) {
      RawUnique(s, at, alnum, h, q, end);
    }
  }

  lemma RawLetters(s: string, at: nat, alnum: char -> bool)
    requires RawBegins(s, at, alnum)
    ensures s[at] == 'r' || s[at] == 'b' || s[at] == 'c'
  {
    var h: nat, q: nat :| RawOpens(s, at, alnum, h, q);
    assert s[at..h][0] == s[at];
  }

  lemma CharacterSegment(s: string, at: nat, end: nat)
    requires at < |s| && s[at] == '\''
    ensures CharacterLiteralEnd(s, at) == Some(end) <==> IsCharacter(s, at, end)
    ensures CharacterLiteralEnd(s, at).Some? <==> CharacterBegins(s, at)
  {
    CharacterLiteralExact(s, at, end);
    if CharacterLiteralEnd(s, at).Some? { CharacterLiteralExact(s, at, CharacterLiteralEnd(s, at).value); }
    if e: nat :| IsCharacter(s, at, e) { CharacterLiteralExact(s, at, e); }
  }

  lemma CharacterTick(s: string, at: nat, end: nat)
    requires IsCharacter(s, at, end)
    ensures at < |s| && s[at] == '\''
  {
    var l: Character :| l.Allowed() && s[at..end] == l.Printed();
    assert s[at..end][0] == s[at];
  }

  lemma StringSegment(s: string, at: nat, end: nat)
    requires at < |s| && s[at] == '"'
    ensures QuotedEnd(s, at) == Ok(end) <==> IsString(s, at, end)
  {
    if end > at + 1 { QuotedEndExact(s, at, end - 1); }
  }

  /** Nothing but comments begins with a comment opener. */
  lemma CommentSegment(s: string, at: nat, alnum: char -> bool, kind: Kind, end: nat)
    requires at + 2 <= |s| && (s[at..at + 2] == "//" || s[at..at + 2] == "/*")
    ensures Next(s, at, alnum) == Ok(Segment(kind, end)) <==> IsSegment(s, at, alnum, kind, end)
  {
    assert s[at..at + 2][0] == s[at];
    CommentOpener(s, at);
    if s[at..at + 2] == "//" { LineCommentExact(s, at, alnum, end); } else { BlockSegment(s, at, alnum, end); }
    NotLiteral(s, at, alnum, end);
  }

  lemma NotLiteral(s: string, at: nat, alnum: char -> bool, end: nat)
    requires at < |s| && s[at] == '/'
    ensures !IsSegment(s, at, alnum, Literal, end)
  {
    if IsRawString(s, at, alnum, end) {
      var h: nat, q: nat :| RawOpens(s, at, alnum, h, q) && RawCloses(s, q - h, q, end);
      RawLetters(s, at, alnum);
    }
    if IsCharacter(s, at, end) { CharacterTick(s, at, end); }
  }

  /** One turn of the walk takes a segment of a kind up to `end` iff the text there has that form. */
  lemma SegmentExact(s: string, at: nat, alnum: char -> bool, kind: Kind, end: nat)
    requires at < |s|
    ensures Next(s, at, alnum) == Ok(Segment(kind, end)) <==> IsSegment(s, at, alnum, kind, end)
  {
    if at + 2 <= |s| && (s[at..at + 2] == "//" || s[at..at + 2] == "/*") {
      CommentSegment(s, at, alnum, kind, end);
    } else {
      CommentOpener(s, at);
      RawSegment(s, at, alnum, end);
      if RawBegins(s, at, alnum) { RawLetters(s, at, alnum); }
      if IsCharacter(s, at, end) { CharacterTick(s, at, end); }
      if s[at] == '"' {
        StringSegment(s, at, end);
      } else if s[at] == '\'' {
        CharacterSegment(s, at, end);
      } else if e: nat :| IsCharacter(s, at, e) {
        CharacterTick(s, at, e);
      }
    }
  }

  // ----- the whole text -----

  /** Between `at` and `end`, `out` shows spaces for everything but line breaks, or else the source itself. */
  ghost predicate Shows(s: string, out: string, at: nat, end: nat, blank: bool) {
    |out| == |s| && forall i :: at <= i < end <= |s| ==> out[i] == if blank && s[i] != '\n' then ' ' else s[i]
  }

  /** From `at` on the source is a row of segments, and `out` shows them with the kinds in `blanked` blanked. */
  ghost predicate StripsTo(s: string, at: nat, alnum: char -> bool, blanked: set<Kind>, out: string)
    decreases |s| - at
  {
    |out| == |s|
    && (at == |s| || exists kind, end: nat ::
          && at < end <= |s| && IsSegment(s, at, alnum, kind, end)
          && Shows(s, out, at, end, kind in blanked) && StripsTo(s, end, alnum, blanked, out))
  }

  /** At `i`, `out` shows the kind that the walk begun at `at` gives there. */
  ghost predicate ShownAt(s: string, at: nat, alnum: char -> bool, blanks: Kind -> bool, out: string, i: nat)
    requires at <= i < |s| == |out| && Walk(s, at, alnum).Ok?
  {
    out[i] == Rendered(s[i], Walk(s, at, alnum).value[i - at], blanks)
  }

  ghost predicate Agrees(s: string, at: nat, alnum: char -> bool, blanks: Kind -> bool, out: string)
    requires at <= |s|
  {
    |out| == |s| && Walk(s, at, alnum).Ok? && forall i: nat :: at <= i < |s| ==> ShownAt(s, at, alnum, blanks, out, i)
  }

  lemma ShownStep(s: string, at: nat, alnum: char -> bool, blanks: Kind -> bool, out: string, g: Segment, i: nat)
    requires at <= i < |s| == |out| && Next(s, at, alnum) == Ok(g) && Walk(s, at, alnum).Ok? && Walk(s, g.end, alnum).Ok?
    ensures ShownAt(s, at, alnum, blanks, out, i)
            <==> if i < g.end then out[i] == Rendered(s[i], g.kind, blanks) else ShownAt(s, g.end, alnum, blanks, out, i)
  {
    WalkSplits(s, at, alnum, i);
  }

  lemma AgreesStep(s: string, at: nat, alnum: char -> bool, blanks: Kind -> bool, out: string, g: Segment)
    requires at < |s| && Next(s, at, alnum) == Ok(g)
    ensures Agrees(s, at, alnum, blanks, out)
            <==> Shows(s, out, at, g.end, blanks(g.kind)) && Agrees(s, g.end, alnum, blanks, out)
  {
    WalkStep(s, at, alnum, g);
    if Walk(s, g.end, alnum).Ok? && |out| == |s| {
      forall i: nat | at <= i < |s|
        ensures ShownAt(s, at, alnum, blanks, out, i)
                <==> if i < g.end then out[i] == Rendered(s[i], g.kind, blanks) else ShownAt(s, g.end, alnum, blanks, out, i)
      {
        ShownStep(s, at, alnum, blanks, out, g, i);
      }
      AgreesSplit(s, at, alnum, blanks, out, g);
    }
  }

  lemma AgreesSplit(s: string, at: nat, alnum: char -> bool, blanks: Kind -> bool, out: string, g: Segment)
    requires at < g.end <= |s| == |out| && Walk(s, at, alnum).Ok? && Walk(s, g.end, alnum).Ok?
    requires forall i: nat :: at <= i < |s| ==>
               (ShownAt(s, at, alnum, blanks, out, i)
                <==> if i < g.end then out[i] == Rendered(s[i], g.kind, blanks) else ShownAt(s, g.end, alnum, blanks, out, i))
    ensures Agrees(s, at, alnum, blanks, out)
            <==> Shows(s, out, at, g.end, blanks(g.kind)) && Agrees(s, g.end, alnum, blanks, out)
  {
    if Agrees(s, at, alnum, blanks, out) {
      forall i: nat | at <= i < g.end ensures out[i] == Rendered(s[i], g.kind, blanks) {
        assert ShownAt(s, at, alnum, blanks, out, i);
      }
    }
  }

  lemma {:induction false} AgreementExact(s: string, at: nat, alnum: char -> bool, blanks: Kind -> bool, blanked: set<Kind>, out: string)
    requires at <= |s| && forall kind :: blanks(kind) <==> kind in blanked
    ensures Agrees(s, at, alnum, blanks, out) <==> StripsTo(s, at, alnum, blanked, out)
    decreases |s| - at
  {
    if at < |s| {
      forall kind, end: nat ensures IsSegment(s, at, alnum, kind, end) <==> Next(s, at, alnum) == Ok(Segment(kind, end)) {
        SegmentExact(s, at, alnum, kind, end);
      }
      if Next(s, at, alnum).Ok? {
        var g := Next(s, at, alnum).value;
        assert IsSegment(s, at, alnum, g.kind, g.end);
        AgreesStep(s, at, alnum, blanks, out, g);
        AgreementExact(s, g.end, alnum, blanks, blanked, out);
      }
    }
  }

  lemma RenderAgrees(s: string, at: nat, alnum: char -> bool, blanks: Kind -> bool, out: string)
    requires at == 0 && Walk(s, at, alnum).Ok?
    ensures Agrees(s, at, alnum, blanks, out) <==> out == Render(s, Walk(s, at, alnum).value, blanks)
  {
    var kinds := Walk(s, at, alnum).value;
    if |out| == |s| {
      forall i: nat | i < |s| ensures ShownAt(s, at, alnum, blanks, out, i) <==> out[i] == Render(s, kinds, blanks)[i] {
      }
    }
  }

  lemma StrippedExact(s: string, at: nat, alnum: char -> bool, blanks: Kind -> bool, blanked: set<Kind>, out: string)
    requires at == 0 && forall kind :: blanks(kind) <==> kind in blanked
    ensures Stripped(s, alnum, blanks) == Ok(out) <==> StripsTo(s, at, alnum, blanked, out)
  {
    AgreementExact(s, at, alnum, blanks, blanked, out);
    if Walk(s, at, alnum).Ok? { RenderAgrees(s, at, alnum, blanks, out); }
  }

  /** The full scanner returns exactly the text in which every comment and literal of the tiling is blanked. */
  lemma NonCodeStripped(s: string, alnum: char -> bool, out: string)
    ensures Stripped(s, alnum, BlanksNonCode) == Ok(out) <==> StripsTo(s, 0, alnum, {Comment, Literal}, out)
  {
    StrippedExact(s, 0, alnum, BlanksNonCode, {Comment, Literal}, out);
  }

  /** The comment scanner returns exactly the text in which the comments alone are blanked. */
  lemma CommentsStripped(s: string, alnum: char -> bool, out: string)
    ensures Stripped(s, alnum, BlanksComments) == Ok(out) <==> StripsTo(s, 0, alnum, {Comment}, out)
  {
    StrippedExact(s, 0, alnum, BlanksComments, {Comment}, out);
  }
}
