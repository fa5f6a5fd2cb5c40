// Which brackets of a text the scan of cdup/src/parse.py finds: those of its code pieces,
// but for the braces of initialisers.  A text is described as pieces, without the scan.
module BracePieces {
  import opened Wrappers
  import opened Braces

  // ---- Texts as pieces -----------------------------------------------------------------------

  // What a piece is; a comment or literal without its closing mark runs to the end.
  datatype Kind = CodeText | LineNote | BlockNote | StringText | CharText
  datatype Piece = Piece(kind: Kind, text: string, closed: bool)

  function Opening(k: Kind): string {
    match k
    case CodeText => ""
    case LineNote => "//"
    case BlockNote => "/*"
    case StringText => "\""
    case CharText => "'"
  }

  function Closing(k: Kind): string {
    match k
    case CodeText => ""
    case LineNote => "\n"
    case BlockNote => "*/"
    case StringText => "\""
    case CharText => "'"
  }

  // The text behind the opening mark.
  function Inside(p: Piece): string { p.text + if p.closed then Closing(p.kind) else "" }

  function Shown(p: Piece): string { Opening(p.kind) + Inside(p) }

  // The two characters of w stand at place k.
  predicate Pair(s: string, k: int, w: string)
    requires |w| == 2
  {
    0 <= k && k + 1 < |s| && s[k] == w[0] && s[k + 1] == w[1]
  }

  ghost predicate NoPair(s: string, from: int, end: int, w: string)
    requires |w| == 2
  {
    forall k :: from <= k < end ==> !Pair(s, k, w)
  }

  // Read from place i with every backslash taking the next character with it, the first
  // bare quote stands at `end`, or there is none before the end of the text.
  ghost predicate QuoteFirst(s: string, i: nat, end: nat, quote: char)
    decreases |s| - i
  {
    if i >= |s| then end == |s|
    else if s[i] == quote then end == i
    else QuoteFirst(s, if s[i] == '\\' then i + 2 else i + 1, end, quote)
  }

  // Read from place i inside a piece, its closing mark first stands at `end`, or nowhere.
  ghost predicate ClosesFirst(s: string, kind: Kind, i: nat, end: nat) {
    match kind
    case CodeText => false
    case LineNote =>
      i <= end <= |s| && (end < |s| ==> s[end] == '\n') && forall k :: i <= k < end ==> s[k] != '\n'
    case BlockNote => i <= end <= |s| && (end < |s| ==> Pair(s, end, "*/")) && NoPair(s, i, end, "*/")
    case StringText => QuoteFirst(s, i, end, '"')
    case CharText => QuoteFirst(s, i, end, '\'')
  }

  ghost predicate GoodPiece(p: Piece) {
    if p.kind == CodeText then
      p.text != [] && NoPair(p.text, 0, |p.text|, "//") && NoPair(p.text, 0, |p.text|, "/*")
      && forall k :: 0 <= k < |p.text| ==> p.text[k] !in {'"', '\''}
    else ClosesFirst(Inside(p), p.kind, 0, |p.text|)
  }

  // Only the last piece may lack its closing mark, and behind code that ends in a slash
  // comes a literal or nothing.
  ghost predicate GoodPieces(ps: seq<Piece>) {
    (forall x :: 0 <= x < |ps| ==> GoodPiece(ps[x]))
    && forall x :: 0 <= x < |ps| - 1 ==> Joins(ps[x], ps[x + 1])
  }

  ghost predicate Joins(p: Piece, q: Piece) {
    if p.kind == CodeText then
      q.kind != CodeText
      && (p.text != [] && p.text[|p.text| - 1] == '/' ==> q.kind == StringText || q.kind == CharText)
    else p.closed
  }

  function Rendered(ps: seq<Piece>): string {
    if ps == [] then [] else Shown(ps[0]) + Rendered(ps[1..])
  }

  // Place q of the rendered text belongs to a code piece.
  predicate IsCode(ps: seq<Piece>, q: int) {
    ps != [] && 0 <= q
    && if q < |Shown(ps[0])| then ps[0].kind == CodeText else IsCode(ps[1..], q - |Shown(ps[0])|)
  }

  // ---- Skipping a piece ------------------------------------------------------------------------

  // The scan finds the same from both places, whatever initialisers are open.
  ghost predicate Same(text: string, i: nat, mode: Mode, i': nat, mode': Mode) {
    Parens(text, i, mode) == Parens(text, i', mode')
    && forall d: nat :: BlockBraces(text, i, mode, d) == BlockBraces(text, i', mode', d)
  }

  lemma SameTwice(text: string, i: nat, m: Mode, i': nat, m': Mode, i'': nat, m'': Mode)
    requires Same(text, i, m, i', m') && Same(text, i', m', i'', m'')
    ensures Same(text, i, m, i'', m'')
  {}

  lemma AtEnd(text: string, i: nat, m: Mode)
    requires i >= |text|
    ensures Same(text, i, m, |text|, Code)
  {}

  lemma ModeStep(text: string, i: nat, m: Mode)
    requires i < |text| && NextMode(text, i, m).Some?
    ensures Same(text, i, m, NextMode(text, i, m).value.1, NextMode(text, i, m).value.0)
  {
    hide NextMode;
  }

  lemma StartsIsPair(text: string, i: nat, w: string)
    requires |w| == 2
    ensures StartsAt(text, i, w) <==> Pair(text, i, w)
  {
    if i + 2 <= |text| {
      assert text[i..i + 2] == [text[i], text[i + 1]] && w == [w[0], w[1]];
    }
  }

  function ModeOf(kind: Kind): Mode {
    match kind
    case CodeText => Code
    case LineNote => LineComment
    case BlockNote => BlockComment
    case StringText => InString
    case CharText => InChar
  }

  // The scan comes out of a comment or literal behind its closing mark.
  lemma {:induction false} ModeCloses(text: string, kind: Kind, i: nat, end: nat)
    requires ClosesFirst(text, kind, i, end)
    ensures Same(text, i, ModeOf(kind), if end < |text| then end + |Closing(kind)| else |text|, Code)
    decreases |text| - i
  {
    hide Same;
    var m := ModeOf(kind);
    if i >= |text| {
      AtEnd(text, i, m);
    } else {
      ModeStep(text, i, m);
      StartsIsPair(text, i, "*/");
      var next := NextMode(text, i, m).value;
      if next.0 == m {
        ModeCloses(text, kind, next.1, end);
        SameTwice(text, i, m, next.1, m, if end < |text| then end + |Closing(kind)| else |text|, Code);
      }
    }
  }

  // The piece s stands in the text from place i on.
  predicate StandsIn(text: string, i: nat, s: string) { i + |s| <= |text| && text[i..i + |s|] == s }

  lemma StandsAt(text: string, i: nat, s: string, k: nat)
    requires StandsIn(text, i, s) && k < |s|
    ensures text[i + k] == s[k]
  {
    assert text[i..i + |s|][k] == s[k];
  }

  lemma {:induction false} QuoteShifts(text: string, i: nat, s: string, k: nat, end: nat, quote: char)
    requires StandsIn(text, i, s) && QuoteFirst(s, k, end, quote) && (end == |s| ==> i + |s| == |text|)
    ensures QuoteFirst(text, i + k, i + end, quote)
    decreases |s| - k
  {
    if k < |s| {
      StandsAt(text, i, s, k);
      if s[k] != quote { QuoteShifts(text, i, s, if s[k] == '\\' then k + 2 else k + 1, end, quote); }
    }
  }

  lemma ClosesShifts(text: string, i: nat, s: string, kind: Kind, end: nat)
    requires StandsIn(text, i, s) && ClosesFirst(s, kind, 0, end) && (end == |s| ==> i + |s| == |text|)
    ensures ClosesFirst(text, kind, i, i + end)
  {
    forall k: nat | k < |s| ensures text[i + k] == s[k] { StandsAt(text, i, s, k); }
    match kind
    case StringText => QuoteShifts(text, i, s, 0, end, '"');
    case CharText => QuoteShifts(text, i, s, 0, end, '\'');
    case LineNote =>
      forall k | i <= k < i + end ensures text[k] != '\n' { assert s[k - i] != '\n' && text[i + (k - i)] == s[k - i]; }
    case BlockNote =>
      forall k | i <= k < i + end ensures !Pair(text, k, "*/") {
        assert !Pair(s, k - i, "*/") && text[i + (k - i)] == s[k - i];
        if k + 1 < i + |s| { assert text[i + (k + 1 - i)] == s[k + 1 - i]; }
      }
    case _ =>
  }

  // A comment or literal is passed over whole.
  lemma PieceSkips(text: string, i: nat, p: Piece)
    requires StandsIn(text, i, Shown(p)) && GoodPiece(p) && p.kind != CodeText
    requires !p.closed ==> i + |Shown(p)| == |text|
    ensures Same(text, i, Code, i + |Shown(p)|, Code)
  {
    hide Same, ClosesFirst, NextMode;
    var o := |Opening(p.kind)|;
    OpensMode(text, i, p);
    ModeStep(text, i, Code);
    assert StandsIn(text, i + o, Inside(p)) by { StandsBehind(text, i, Opening(p.kind), Inside(p)); }
    ClosesShifts(text, i + o, Inside(p), p.kind, |p.text|);
    ModeCloses(text, p.kind, i + o, i + o + |p.text|);
    SameTwice(text, i, Code, i + o, ModeOf(p.kind), i + |Shown(p)|, Code);
  }

  lemma StandsBehind(text: string, i: nat, a: string, b: string)
    requires StandsIn(text, i, a + b)
    ensures StandsIn(text, i, a) && StandsIn(text, i + |a|, b)
  {
    assert text[i..i + |a|] == text[i..i + |a + b|][..|a|] == a;
    assert text[i + |a|..i + |a| + |b|] == text[i..i + |a + b|][|a|..] == b;
  }

  // An opening mark in code starts the piece it announces.
  lemma OpensMode(text: string, i: nat, p: Piece)
    requires StandsIn(text, i, Shown(p)) && p.kind != CodeText
    ensures i < |text| && NextMode(text, i, Code) == Some((ModeOf(p.kind), i + |Opening(p.kind)|))
  {
    StandsBehind(text, i, Opening(p.kind), Inside(p));
    StandsAt(text, i, Opening(p.kind), 0);
    StartsIsPair(text, i, "//");
    StartsIsPair(text, i, "/*");
    if |Opening(p.kind)| == 2 { StandsAt(text, i, Opening(p.kind), 1); }
  }

  // ---- Code --------------------------------------------------------------------------------------

  // A place of code: nothing opens here.
  predicate Plain(text: string, i: nat)
    requires i < |text|
  {
    text[i] !in {'"', '\''} && !Pair(text, i, "//") && !Pair(text, i, "/*")
  }

  lemma PlainStays(text: string, i: nat)
    requires i < |text| && Plain(text, i)
    ensures NextMode(text, i, Code) == None
  {
    StartsIsPair(text, i, "//");
    StartsIsPair(text, i, "/*");
  }

  lemma GoodFirst(ps: seq<Piece>)
    requires GoodPieces(ps) && ps != []
    ensures GoodPiece(ps[0]) && (|ps| > 1 ==> Joins(ps[0], ps[1]))
    ensures Rendered(ps) == Shown(ps[0]) + Rendered(ps[1..])
    ensures |ps| > 1 ==> Rendered(ps[1..]) == Shown(ps[1]) + Rendered(ps[1..][1..])
    ensures |ps| == 1 ==> Rendered(ps[1..]) == []
  {}

  // A place of code that is not the last of its piece.
  lemma InnerIsPlain(text: string, i: nat, p: Piece, k: nat)
    requires GoodPiece(p) && p.kind == CodeText && StandsIn(text, i, p.text) && k + 1 < |p.text|
    ensures Plain(text, i + k)
  {
    StandsAt(text, i, p.text, k);
    StandsAt(text, i, p.text, k + 1);
    assert !Pair(p.text, k, "//") && !Pair(p.text, k, "/*");
  }

  lemma LastIsPlain(text: string, i: nat, p: Piece, k: nat)
    requires GoodPiece(p) && p.kind == CodeText && StandsIn(text, i, p.text) && k + 1 == |p.text|
    requires i + |p.text| == |text| || p.text[k] != '/' || text[i + |p.text|] !in {'/', '*'}
    ensures Plain(text, i + k)
  {
    StandsAt(text, i, p.text, k);
  }

  // Every place of a code piece is one, whatever good piece follows.
  lemma CodeIsPlain(text: string, i: nat, ps: seq<Piece>, k: nat)
    requires GoodPieces(ps) && ps != [] && StandsIn(text, i, Rendered(ps)) && i + |Rendered(ps)| == |text|
    requires ps[0].kind == CodeText && k < |Shown(ps[0])|
    ensures i + k < |text| && Plain(text, i + k)
  {
    hide GoodPieces, GoodPiece, Plain, Rendered, StandsIn;
    GoodFirst(ps);
    CodeShown(ps[0]);
    StandsBehind(text, i, ps[0].text, Rendered(ps[1..]));
    if k + 1 < |ps[0].text| {
      InnerIsPlain(text, i, ps[0], k);
    } else {
      if |ps| > 1 { NextStarts(text, i + |ps[0].text|, ps[1], Rendered(ps[1..][1..])); }
      LastIsPlain(text, i, ps[0], k);
    }
  }

  lemma CodeShown(p: Piece)
    requires p.kind == CodeText
    ensures Shown(p) == p.text
  {}

  lemma NextStarts(text: string, i: nat, q: Piece, rest: string)
    requires StandsIn(text, i, Shown(q) + rest) && q.kind != CodeText
    ensures i < |text| && text[i] == Opening(q.kind)[0]
  {
    StandsBehind(text, i, Shown(q), rest);
    StandsBehind(text, i, Opening(q.kind), Inside(q));
    StandsAt(text, i, Opening(q.kind), 0);
  }

  // The places in from..end that hold one of the two characters.
  function Marks(text: string, from: nat, end: nat, a: char, b: char): seq<nat>
    requires end <= |text|
    decreases end - from
  {
    if from >= end then []
    else (if text[from] == a || text[from] == b then [from] else []) + Marks(text, from + 1, end, a, b)
  }

  // The braces among the given places that the scan keeps, and the initialiser depth
  // behind them.
  function Kept(text: string, cb: seq<nat>, d: nat): seq<nat>
    requires forall e :: 0 <= e < |cb| ==> cb[e] < |text|
  {
    if cb == [] then []
    else (if IsBlockBrace(text, cb[0], d) then [cb[0]] else []) + Kept(text, cb[1..], DepthAfter(text, cb[0], d))
  }

  function DepthOver(text: string, cb: seq<nat>, d: nat): nat
    requires forall e :: 0 <= e < |cb| ==> cb[e] < |text|
  {
    if cb == [] then d else DepthOver(text, cb[1..], DepthAfter(text, cb[0], d))
  }

  lemma {:induction false} MarksFit(text: string, from: nat, end: nat, a: char, b: char)
    requires end <= |text|
    ensures Within(Marks(text, from, end, a, b), from, end)
    decreases end - from
  {
    if from < end { MarksFit(text, from + 1, end, a, b); }
  }

  lemma CodeStep(text: string, i: nat, d: nat)
    requires i < |text| && Plain(text, i)
    ensures Parens(text, i, Code) == (if text[i] in {'(', ')'} then [i] else []) + Parens(text, i + 1, Code)
    ensures BlockBraces(text, i, Code, d) ==
            (if IsBlockBrace(text, i, d) then [i] else []) + BlockBraces(text, i + 1, Code, DepthAfter(text, i, d))
    ensures text[i] !in {'{', '}'} ==> !IsBlockBrace(text, i, d) && DepthAfter(text, i, d) == d
  {
    hide NextMode, Plain, AfterEquals;
    PlainStays(text, i);
    OtherIsNoBrace(text, i, d);
  }

  lemma {:induction false} CodeRuns(text: string, i: nat, j: nat, d: nat)
    requires i <= j <= |text| && forall k: nat :: i <= k < j ==> Plain(text, k)
    ensures Parens(text, i, Code) == Marks(text, i, j, '(', ')') + Parens(text, j, Code)
    ensures var cb := Marks(text, i, j, '{', '}');
            (forall e :: 0 <= e < |cb| ==> cb[e] < |text|)
            && BlockBraces(text, i, Code, d) == Kept(text, cb, d) + BlockBraces(text, j, Code, DepthOver(text, cb, d))
    decreases j - i
  {
    hide IsBlockBrace, DepthAfter, Plain, BlockBraces, Parens, Kept, DepthOver;
    MarksFit(text, i, j, '{', '}');
    if i == j {
      KeptNone(text, d);
    } else {
      CodeStep(text, i, d);
      CodeRuns(text, i + 1, j, DepthAfter(text, i, d));
      MarksFit(text, i + 1, j, '{', '}');
      var cb, rest := Marks(text, i, j, '{', '}'), Marks(text, i + 1, j, '{', '}');
      KeptFirst(text, i, rest, d);
      if text[i] == '{' || text[i] == '}' {
        assert cb == [i] + rest;
      } else {
        assert cb == rest;
      }
    }
  }

  lemma KeptNone(text: string, d: nat)
    ensures Kept(text, [], d) == [] && DepthOver(text, [], d) == d
  {}

  lemma KeptFirst(text: string, i: nat, rest: seq<nat>, d: nat)
    requires i < |text| && forall e :: 0 <= e < |rest| ==> rest[e] < |text|
    ensures forall e :: 0 <= e < |[i] + rest| ==> ([i] + rest)[e] < |text|
    ensures Kept(text, [i] + rest, d) ==
            (if IsBlockBrace(text, i, d) then [i] else []) + Kept(text, rest, DepthAfter(text, i, d))
    ensures DepthOver(text, [i] + rest, d) == DepthOver(text, rest, DepthAfter(text, i, d))
  {
    assert ([i] + rest)[1..] == rest;
  }

  // ---- The whole text ------------------------------------------------------------------------------

  // The places of code that hold one of the two characters, in order.
  function CodeMarks(text: string, ps: seq<Piece>, i: nat, a: char, b: char): seq<nat>
    requires i + |Rendered(ps)| <= |text|
    decreases |ps|
  {
    if ps == [] then []
    else
      var next := i + |Shown(ps[0])|;
      (if ps[0].kind == CodeText then Marks(text, i, next, a, b) else []) + CodeMarks(text, ps[1..], next, a, b)
  }

  ghost predicate Within(xs: seq<nat>, from: nat, end: nat) { forall e :: 0 <= e < |xs| ==> from <= xs[e] < end }

  lemma FitTogether(x: seq<nat>, y: seq<nat>, i: nat, next: nat, end: nat)
    requires i <= next <= end && Within(x, i, next) && Within(y, next, end)
    ensures Within(x + y, i, end) && Within([] + y, i, end)
  {}

  lemma {:induction false} CodeMarksFit(text: string, ps: seq<Piece>, i: nat, a: char, b: char)
    requires i + |Rendered(ps)| <= |text|
    ensures Within(CodeMarks(text, ps, i, a, b), i, |text|)
    decreases |ps|
  {
    hide Within;
    if ps == [] {
      assert Within([], i, |text|) by { NoneWithin(i, |text|); }
    } else {
      var next := i + |Shown(ps[0])|;
      MarksFit(text, i, next, a, b);
      CodeMarksFit(text, ps[1..], next, a, b);
      FitTogether(Marks(text, i, next, a, b), CodeMarks(text, ps[1..], next, a, b), i, next, |text|);
    }
  }

  lemma NoneWithin(from: nat, end: nat)
    ensures Within([], from, end)
  {}

  lemma {:induction false} KeptAppend(text: string, x: seq<nat>, y: seq<nat>, d: nat)
    requires (forall e :: 0 <= e < |x| ==> x[e] < |text|) && forall e :: 0 <= e < |y| ==> y[e] < |text|
    ensures forall e :: 0 <= e < |x + y| ==> (x + y)[e] < |text|
    ensures Kept(text, x + y, d) == Kept(text, x, d) + Kept(text, y, DepthOver(text, x, d))
  {
    hide IsBlockBrace, DepthAfter, Kept, DepthOver;
    if x == [] {
      assert x + y == y;
      KeptNone(text, d);
    } else {
      assert x == [x[0]] + x[1..] && x + y == [x[0]] + (x[1..] + y);
      KeptFirst(text, x[0], x[1..], d);
      KeptFirst(text, x[0], x[1..] + y, d);
      KeptAppend(text, x[1..], y, DepthAfter(text, x[0], d));
    }
  }

  lemma CodePieceRuns(text: string, ps: seq<Piece>, i: nat, d: nat)
    requires GoodPieces(ps) && StandsIn(text, i, Rendered(ps)) && i + |Rendered(ps)| == |text|
    requires ps != [] && ps[0].kind == CodeText
    ensures var next := i + |Shown(ps[0])|;
            next <= |text| && Parens(text, i, Code) == Marks(text, i, next, '(', ')') + Parens(text, next, Code)
            && var cb := Marks(text, i, next, '{', '}');
               (forall e :: 0 <= e < |cb| ==> cb[e] < |text|)
               && BlockBraces(text, i, Code, d) ==
                  Kept(text, cb, d) + BlockBraces(text, next, Code, DepthOver(text, cb, d))
  {
    hide Kept, DepthOver, Marks, BlockBraces, Parens, Plain, GoodPieces;
    var next := i + |Shown(ps[0])|;
    forall k: nat | i <= k < next ensures k < |text| && Plain(text, k) { CodeIsPlain(text, i, ps, k - i); }
    CodeRuns(text, i, next, d);
  }

  lemma {:induction false} PiecesAreScanned(text: string, ps: seq<Piece>, i: nat, d: nat)
    requires GoodPieces(ps) && StandsIn(text, i, Rendered(ps)) && i + |Rendered(ps)| == |text|
    ensures Parens(text, i, Code) == CodeMarks(text, ps, i, '(', ')')
    ensures var cb := CodeMarks(text, ps, i, '{', '}');
            (forall e :: 0 <= e < |cb| ==> cb[e] < |text|) && BlockBraces(text, i, Code, d) == Kept(text, cb, d)
    decreases |ps|
  {
    hide GoodPieces, Kept, DepthOver, Marks, Shown, BlockBraces, Parens, CodeMarks, StandsIn;
    CodeMarksFit(text, ps, i, '{', '}');
    CodeMarksIs(text, ps, i, '(', ')');
    CodeMarksIs(text, ps, i, '{', '}');
    if ps == [] {
      KeptNone(text, d);
      NothingLeft(text, i, d);
    } else {
      var next := i + |Shown(ps[0])|;
      StandsBehind(text, i, Shown(ps[0]), Rendered(ps[1..]));
      GoodTail(ps);
      CodeMarksFit(text, ps[1..], next, '{', '}');
      if ps[0].kind == CodeText {
        CodePieceRuns(text, ps, i, d);
        var cb := Marks(text, i, next, '{', '}');
        PiecesAreScanned(text, ps[1..], next, DepthOver(text, cb, d));
        KeptAppend(text, cb, CodeMarks(text, ps[1..], next, '{', '}'), d);
      } else {
        PieceSkips(text, i, ps[0]);
        PiecesAreScanned(text, ps[1..], next, d);
      }
    }
  }

  lemma NothingLeft(text: string, i: nat, d: nat)
    requires i == |text|
    ensures Parens(text, i, Code) == [] && BlockBraces(text, i, Code, d) == []
  {}

  lemma CodeMarksIs(text: string, ps: seq<Piece>, i: nat, a: char, b: char)
    requires i + |Rendered(ps)| <= |text|
    ensures ps == [] ==> CodeMarks(text, ps, i, a, b) == []
    ensures ps != [] ==>
              var next := i + |Shown(ps[0])|;
              next + |Rendered(ps[1..])| <= |text|
              && var rest := CodeMarks(text, ps[1..], next, a, b);
                 CodeMarks(text, ps, i, a, b) ==
                 if ps[0].kind == CodeText then Marks(text, i, next, a, b) + rest else rest
  {
    if ps != [] {
      var rest := CodeMarks(text, ps[1..], i + |Shown(ps[0])|, a, b);
      assert [] + rest == rest;
    }
  }

  lemma GoodTail(ps: seq<Piece>)
    requires GoodPieces(ps) && ps != []
    ensures GoodPieces(ps[1..]) && GoodPiece(ps[0])
    ensures ps[0].kind != CodeText && !ps[0].closed ==> Rendered(ps[1..]) == []
  {
    forall x | 0 <= x < |ps[1..]| - 1 ensures Joins(ps[1..][x], ps[1..][x + 1]) {
      assert Joins(ps[x + 1], ps[x + 2]);
    }
    if |ps| > 1 { assert Joins(ps[0], ps[1]); }
  }

  // ---- Initialisers --------------------------------------------------------------------------------

  // The brace opens a list: a "=" stands before it, with blanks alone between them.
  predicate OpensList(text: string, q: nat)
    requires q < |text|
  {
    text[q] == '{'
    && exists j :: 0 <= j < q && text[j] == '=' && forall k :: j < k < q ==> text[k] in {' ', '\t', '\n', '\r'}
  }

  // Opening less closing braces among the marks from the s-th up to the r-th.
  function Excess(text: string, cb: seq<nat>, s: int, r: int): int
    requires 0 <= s <= r <= |cb| && forall e :: 0 <= e < |cb| ==> cb[e] < |text|
    decreases r - s
  {
    if s == r then 0 else Excess(text, cb, s, r - 1) + if text[cb[r - 1]] == '{' then 1 else -1
  }

  // The list opened at mark s is still open before mark e.
  ghost predicate OpenUpTo(text: string, cb: seq<nat>, s: int, e: int)
    requires 0 <= s <= e <= |cb| && forall e :: 0 <= e < |cb| ==> cb[e] < |text|
  {
    s < e && OpensList(text, cb[s]) && forall r :: s < r <= e ==> Excess(text, cb, s, r) >= 1
  }

  // Mark e belongs to an initialiser: it opens a list, or stands in one still open.
  ghost predicate InList(text: string, cb: seq<nat>, e: int)
    requires 0 <= e < |cb| && forall e :: 0 <= e < |cb| ==> cb[e] < |text|
  {
    OpensList(text, cb[e]) || exists s :: 0 <= s < e && OpenUpTo(text, cb, s, e)
  }

  lemma {:induction false} ExcessSplits(text: string, cb: seq<nat>, s: int, m: int, r: int)
    requires 0 <= s <= m <= r <= |cb| && forall e :: 0 <= e < |cb| ==> cb[e] < |text|
    ensures Excess(text, cb, s, r) == Excess(text, cb, s, m) + Excess(text, cb, m, r)
    decreases r - m
  {
    if m < r { ExcessSplits(text, cb, s, m, r - 1); }
  }

  ghost predicate Marked(text: string, cb: seq<nat>) {
    forall e :: 0 <= e < |cb| ==> cb[e] < |text| && (text[cb[e]] == '{' || text[cb[e]] == '}')
  }

  // The depth before mark e is that of the outermost list open there; s is its mark.
  ghost predicate Outermost(text: string, cb: seq<nat>, e: int, d: nat, s: int)
    requires 0 <= e <= |cb| && Marked(text, cb)
  {
    if d == 0 then forall x :: 0 <= x < e ==> !OpenUpTo(text, cb, x, e)
    else
      0 <= s < e && OpenUpTo(text, cb, s, e) && Excess(text, cb, s, e) == d
      && forall x :: 0 <= x < s ==> !OpenUpTo(text, cb, x, s)
  }

  lemma OpensListIs(text: string, q: nat)
    requires q < |text|
    ensures OpensList(text, q) <==> text[q] == '{' && AfterEquals(text, q)
  {}

  lemma ClosedStays(text: string, cb: seq<nat>, x: int, s: int, e: int)
    requires 0 <= x < s <= e <= |cb| && Marked(text, cb) && !OpenUpTo(text, cb, x, s)
    ensures !OpenUpTo(text, cb, x, e)
  {}

  lemma OutermostStep(text: string, cb: seq<nat>, e: int, d: nat, s: int) returns (s': int)
    requires 0 <= e < |cb| && Marked(text, cb) && Outermost(text, cb, e, d, s)
    ensures Outermost(text, cb, e + 1, DepthAfter(text, cb[e], d), s')
    ensures IsBlockBrace(text, cb[e], d) <==> !InList(text, cb, e)
  {
    hide AfterEquals, OpensList;
    OpensListIs(text, cb[e]);
    var e' := e + 1;
    var d' := DepthAfter(text, cb[e], d);
    s' := if d == 0 && d' > 0 then e else s;
    if d == 0 && d' == 0 {
      forall x | 0 <= x < e' ensures !OpenUpTo(text, cb, x, e') {
        if x < e { ClosedStays(text, cb, x, e, e + 1); } else { ClosingIsNotOpen(text, cb, e); }
      }
    } else if d == 0 {
      assert Excess(text, cb, e, e) == 0;
      assert Excess(text, cb, e, e + 1) == 1;
    } else if d' == 0 {
      forall x | 0 <= x < e' ensures !OpenUpTo(text, cb, x, e') {
        if x < s {
          ClosedStays(text, cb, x, s, e + 1);
        } else {
          ExcessSplits(text, cb, s, x, e + 1);
          if x > s { assert Excess(text, cb, s, x) >= 1; }
        }
      }
    }
  }

  lemma ClosingIsNotOpen(text: string, cb: seq<nat>, e: int)
    requires 0 <= e < |cb| && Marked(text, cb) && !OpensList(text, cb[e])
    ensures !OpenUpTo(text, cb, e, e + 1)
  {}

  // The scan keeps exactly the marks that belong to no initialiser.
  lemma {:induction false} KeptIs(text: string, cb: seq<nat>, e: int, d: nat, s: int)
    requires 0 <= e <= |cb| && Marked(text, cb) && Outermost(text, cb, e, d, s)
    ensures forall q: nat :: q in Kept(text, cb[e..], d) <==>
              exists x :: e <= x < |cb| && cb[x] == q && !InList(text, cb, x)
    decreases |cb| - e
  {
    hide Outermost, InList, IsBlockBrace, DepthAfter;
    if e < |cb| {
      var s' := OutermostStep(text, cb, e, d, s);
      KeptIs(text, cb, e + 1, DepthAfter(text, cb[e], d), s');
      assert cb[e..][1..] == cb[e + 1..];
    }
  }

  // ---- The brackets the scan finds -------------------------------------------------------------------

  lemma {:induction false} MarksAre(text: string, from: nat, end: nat, a: char, b: char)
    requires end <= |text|
    ensures forall q: nat :: q in Marks(text, from, end, a, b) <==> from <= q < end && (text[q] == a || text[q] == b)
    decreases end - from
  {
    if from < end { MarksAre(text, from + 1, end, a, b); }
  }

  lemma {:induction false} CodeMarksAre(text: string, ps: seq<Piece>, i: nat, a: char, b: char)
    requires i + |Rendered(ps)| <= |text|
    ensures forall q: nat :: q in CodeMarks(text, ps, i, a, b) <==>
              q < |text| && IsCode(ps, q - i) && (text[q] == a || text[q] == b)
    decreases |ps|
  {
    hide Marks, Shown;
    if ps != [] {
      var next := i + |Shown(ps[0])|;
      MarksAre(text, i, next, a, b);
      CodeMarksAre(text, ps[1..], next, a, b);
      CodeInside(ps[1..]);
    }
  }

  lemma {:induction false} CodeInside(ps: seq<Piece>)
    ensures forall q :: IsCode(ps, q) ==> 0 <= q < |Rendered(ps)|
  {
    if ps != [] { CodeInside(ps[1..]); }
  }

  ghost predicate Rising(xs: seq<nat>) { forall e, f :: 0 <= e < f < |xs| ==> xs[e] < xs[f] }

  // The braces of the code pieces, in order.
  ghost predicate AreBraces(text: string, ps: seq<Piece>, cb: seq<nat>) {
    Rising(cb) && forall q: nat :: q in cb <==> q < |text| && IsCode(ps, q) && text[q] in {'{', '}'}
  }

  lemma {:induction false} MarksRise(text: string, from: nat, end: nat, a: char, b: char)
    requires end <= |text|
    ensures Rising(Marks(text, from, end, a, b))
    decreases end - from
  {
    if from < end {
      MarksRise(text, from + 1, end, a, b);
      MarksFit(text, from + 1, end, a, b);
    }
  }

  lemma {:induction false} CodeMarksRise(text: string, ps: seq<Piece>, i: nat, a: char, b: char)
    requires i + |Rendered(ps)| <= |text|
    ensures Rising(CodeMarks(text, ps, i, a, b))
    decreases |ps|
  {
    hide Marks, Shown;
    if ps != [] {
      var next := i + |Shown(ps[0])|;
      MarksRise(text, i, next, a, b);
      MarksFit(text, i, next, a, b);
      CodeMarksRise(text, ps[1..], next, a, b);
      CodeMarksFit(text, ps[1..], next, a, b);
      RiseTogether(Marks(text, i, next, a, b), CodeMarks(text, ps[1..], next, a, b), i, next, |text|);
    }
  }

  lemma RiseTogether(x: seq<nat>, y: seq<nat>, from: nat, at: nat, end: nat)
    requires Rising(x) && Rising(y) && Within(x, from, at) && Within(y, at, end)
    ensures Rising(x + y)
    ensures Rising([] + y)
  {
    assert [] + y == y;
    var z := x + y;
    forall e, f | 0 <= e < f < |z| ensures z[e] < z[f] {
      assert z[e] == if e < |x| then x[e] else y[e - |x|];
      assert z[f] == if f < |x| then x[f] else y[f - |x|];
    }
  }

  // The brackets found are those of the code pieces: every parenthesis, and every brace
  // that belongs to no initialiser.  None stands in a comment or a literal.
  lemma BracketsOfCode(ps: seq<Piece>, cb: seq<nat>)
    requires GoodPieces(ps) && AreBraces(Rendered(ps), ps, cb)
    ensures forall e :: 0 <= e < |cb| ==> cb[e] < |Rendered(ps)|
    ensures var text := Rendered(ps);
            forall q: nat :: q in Parens(text, 0, Code) <==> q < |text| && IsCode(ps, q) && text[q] in {'(', ')'}
    ensures var text := Rendered(ps);
            forall q: nat :: q in BlockBraces(text, 0, Code, 0) <==>
              exists x :: 0 <= x < |cb| && cb[x] == q && !InList(text, cb, x)
  {
    hide Kept, InList, IsCode, GoodPieces, CodeMarks, BlockBraces, Parens;
    var text := Rendered(ps);
    assert text[0..|text|] == text;
    PiecesAreScanned(text, ps, 0, 0);
    CodeMarksAre(text, ps, 0, '(', ')');
    BracesAre(ps, cb);
    KeptFromStart(text, cb);
  }

  lemma BracesAre(ps: seq<Piece>, cb: seq<nat>)
    requires AreBraces(Rendered(ps), ps, cb)
    ensures cb == CodeMarks(Rendered(ps), ps, 0, '{', '}') && Marked(Rendered(ps), cb)
  {
    hide IsCode, CodeMarks;
    var text := Rendered(ps);
    var marks := CodeMarks(text, ps, 0, '{', '}');
    CodeMarksAre(text, ps, 0, '{', '}');
    CodeMarksRise(text, ps, 0, '{', '}');
    forall q: nat ensures q in marks <==> q in cb {
      assert q in marks <==> q < |text| && IsCode(ps, q - 0) && (text[q] == '{' || text[q] == '}');
    }
    RisingIsUnique(marks, cb);
    forall e | 0 <= e < |cb| ensures cb[e] < |text| && (text[cb[e]] == '{' || text[cb[e]] == '}') {
      assert cb[e] in cb;
    }
  }

  lemma KeptFromStart(text: string, cb: seq<nat>)
    requires Marked(text, cb)
    ensures forall q: nat :: q in Kept(text, cb, 0) <==> exists x :: 0 <= x < |cb| && cb[x] == q && !InList(text, cb, x)
  {
    hide Kept, InList;
    assert cb[0..] == cb;
    KeptIs(text, cb, 0, 0, 0);
  }

  lemma {:induction false} RisingIsUnique(a: seq<nat>, b: seq<nat>)
    requires Rising(a) && Rising(b) && forall q: nat :: q in a <==> q in b
    ensures a == b
  {
    FirstIsIn(a);
    FirstIsIn(b);
    if a != [] {
      FirstIsLeast(a, b[0]);
      FirstIsLeast(b, a[0]);
      forall q: nat ensures q in a[1..] <==> q in b[1..] {
        TailWithout(a, q);
        TailWithout(b, q);
      }
      RisingIsUnique(a[1..], b[1..]);
      assert a == [a[0]] + a[1..] && b == [b[0]] + b[1..];
    }
  }

  lemma FirstIsIn(a: seq<nat>)
    ensures a != [] ==> a[0] in a
  {}

  lemma FirstIsLeast(a: seq<nat>, q: nat)
    requires Rising(a) && q in a
    ensures a != [] && a[0] <= q
  {}

  lemma TailWithout(a: seq<nat>, q: nat)
    requires Rising(a) && a != []
    ensures q in a[1..] <==> q in a && q != a[0]
  {
    assert a == [a[0]] + a[1..];
    if q in a[1..] {
      var k :| 0 <= k < |a[1..]| && a[1..][k] == q;
      assert a[k + 1] == q;
    }
  }

  // ---- Every text has pieces ---------------------------------------------------------------------------

  lemma RunEnd(s: string) returns (j: nat)
    ensures j <= |s| && (forall k: nat :: k < j ==> Plain(s, k)) && (j < |s| ==> !Plain(s, j))
  {
    j := 0;
    while j < |s| && Plain(s, j)
      invariant j <= |s| && forall k: nat :: k < j ==> Plain(s, k)
    {
      j := j + 1;
    }
  }

  lemma {:induction false} QuoteEnd(s: string, i: nat, quote: char) returns (end: nat)
    ensures QuoteFirst(s, i, end, quote) && end <= |s| && (i < |s| ==> i <= end) && (end < |s| ==> s[end] == quote)
    decreases |s| - i
  {
    if i >= |s| {
      end := |s|;
    } else if s[i] == quote {
      end := i;
    } else {
      end := QuoteEnd(s, if s[i] == '\\' then i + 2 else i + 1, quote);
    }
  }

  lemma PieceEnd(s: string, kind: Kind) returns (end: nat)
    requires kind != CodeText
    ensures ClosesFirst(s, kind, 0, end) && end <= |s| && (end < |s| ==> StandsIn(s, end, Closing(kind)))
  {
    match kind
    case LineNote =>
      end := 0;
      while end < |s| && s[end] != '\n'
        invariant end <= |s| && forall k :: 0 <= k < end ==> s[k] != '\n'
      {
        end := end + 1;
      }
      if end < |s| { assert s[end..end + 1] == "\n"; }
    case BlockNote =>
      end := 0;
      while end < |s| && !Pair(s, end, "*/")
        invariant end <= |s| && NoPair(s, 0, end, "*/")
      {
        end := end + 1;
      }
      if end < |s| { assert s[end..end + 2] == "*/"; }
    case StringText =>
      end := QuoteEnd(s, 0, '"');
      if end < |s| { assert s[end..end + 1] == "\""; }
    case CharText =>
      end := QuoteEnd(s, 0, '\'');
      if end < |s| { assert s[end..end + 1] == "'"; }
  }

  lemma {:induction false} QuotePrefix(s: string, i: nat, end: nat, quote: char)
    requires QuoteFirst(s, i, end, quote) && end < |s| && i <= end
    ensures QuoteFirst(s[..end + 1], i, end, quote)
    decreases |s| - i
  {
    if s[i] != quote {
      QuoteBehind(s, if s[i] == '\\' then i + 2 else i + 1, end, quote);
      QuotePrefix(s, if s[i] == '\\' then i + 2 else i + 1, end, quote);
    }
  }

  lemma QuoteBehind(s: string, i: nat, end: nat, quote: char)
    requires QuoteFirst(s, i, end, quote) && end < |s|
    ensures i <= end
    decreases |s| - i
  {}

  // The piece that begins s with its opening mark, and what follows it.
  lemma FirstPiece(s: string, kind: Kind) returns (p: Piece, rest: string)
    requires kind != CodeText && StandsIn(s, 0, Opening(kind))
    ensures p.kind == kind && GoodPiece(p) && Shown(p) + rest == s && (!p.closed ==> rest == [])
  {
    hide ClosesFirst, StandsIn, Opening, Closing;
    OpensWith(s, Opening(kind));
    var body := s[|Opening(kind)|..];
    var end := PieceEnd(body, kind);
    if end < |body| {
      p, rest := Piece(kind, body[..end], true), body[end + |Closing(kind)|..];
      ClosedPiece(body, kind, end);
      assert Shown(p) + rest == Opening(kind) + (Inside(p) + rest);
    } else {
      p, rest := Piece(kind, body, false), [];
      OpenPiece(body, kind);
      assert Shown(p) + rest == Opening(kind) + body;
    }
  }

  lemma OpensWith(s: string, w: string)
    requires StandsIn(s, 0, w)
    ensures |w| <= |s| && s == w + s[|w|..]
  {
    assert s[0..|w|] == w;
  }

  lemma ClosedPiece(body: string, kind: Kind, end: nat)
    requires kind != CodeText && ClosesFirst(body, kind, 0, end) && end < |body| && StandsIn(body, end, Closing(kind))
    ensures var p := Piece(kind, body[..end], true);
            GoodPiece(p) && end + |Closing(kind)| <= |body| && Inside(p) + body[end + |Closing(kind)|..] == body
  {
    hide ClosesFirst;
    var p, c := Piece(kind, body[..end], true), |Closing(kind)|;
    assert body[..end + c] == body[..end] + body[end..end + c];
    assert Inside(p) == body[..end + c];
    ClosesPrefix(body, kind, end);
    assert body == body[..end + c] + body[end + c..];
  }

  lemma OpenPiece(body: string, kind: Kind)
    requires kind != CodeText && ClosesFirst(body, kind, 0, |body|)
    ensures GoodPiece(Piece(kind, body, false)) && Inside(Piece(kind, body, false)) == body
  {
    hide ClosesFirst;
    assert body + "" == body;
  }

  lemma ClosesPrefix(s: string, kind: Kind, end: nat)
    requires kind != CodeText && ClosesFirst(s, kind, 0, end) && end < |s| && end + |Closing(kind)| <= |s|
    ensures ClosesFirst(s[..end + |Closing(kind)|], kind, 0, end)
  {
    var t := s[..end + |Closing(kind)|];
    match kind
    case StringText => QuotePrefix(s, 0, end, '"');
    case CharText => QuotePrefix(s, 0, end, '\'');
    case BlockNote =>
      forall k | 0 <= k < end ensures !Pair(t, k, "*/") { assert !Pair(s, k, "*/"); }
    case _ =>
  }

  lemma CodePiece(s: string, j: nat)
    requires 0 < j <= |s| && forall k: nat :: k < j ==> Plain(s, k)
    ensures GoodPiece(Piece(CodeText, s[..j], false)) && Shown(Piece(CodeText, s[..j], false)) == s[..j]
  {
    var c := s[..j];
    forall k | 0 <= k < |c| ensures !Pair(c, k, "//") && !Pair(c, k, "/*") && c[k] !in {'"', '\''} {
      assert Plain(s, k);
    }
    assert c + "" == c;
  }

  // What opens at the start of a text that does not begin with plain code.
  lemma OpensKind(s: string) returns (kind: Kind)
    requires s != [] && !Plain(s, 0)
    ensures kind != CodeText && StandsIn(s, 0, Opening(kind))
  {
    if Pair(s, 0, "//") {
      kind := LineNote;
      assert s[0..2] == "//";
    } else if Pair(s, 0, "/*") {
      kind := BlockNote;
      assert s[0..2] == "/*";
    } else if s[0] == '"' {
      kind := StringText;
      assert s[0..1] == "\"";
    } else {
      kind := CharText;
      assert s[0..1] == "'";
    }
  }

  // Every text is the text of a list of good pieces.
  lemma {:induction false} EveryTextHasPieces(s: string) returns (ps: seq<Piece>)
    ensures GoodPieces(ps) && Rendered(ps) == s
    ensures ps == [] <==> s == []
    ensures s != [] ==> (ps[0].kind == CodeText <==> Plain(s, 0))
    decreases |s|
  {
    hide GoodPiece, Plain;
    if s == [] {
      ps := [];
    } else {
      var j := RunEnd(s);
      if j > 0 {
        var rest := EveryTextHasPieces(s[j..]);
        CodePiece(s, j);
        var p := Piece(CodeText, s[..j], false);
        ps := [p] + rest;
        assert s == s[..j] + s[j..];
        if j < |s| {
          SlashThenQuote(s, j, rest);
          GoodFront(p, rest);
        }
      } else {
        var kind := OpensKind(s);
        var p, tail := FirstPiece(s, kind);
        var rest := EveryTextHasPieces(tail);
        ps := [p] + rest;
        if rest != [] { GoodFront(p, rest); }
      }
    }
  }

  lemma GoodFront(p: Piece, rest: seq<Piece>)
    requires GoodPiece(p) && GoodPieces(rest) && rest != [] && Joins(p, rest[0])
    ensures GoodPieces([p] + rest)
  {
    hide GoodPiece, Joins;
    var ps := [p] + rest;
    forall x | 0 <= x < |ps| - 1 ensures Joins(ps[x], ps[x + 1]) {
      if x > 0 { assert Joins(rest[x - 1], rest[x]); }
    }
  }

  lemma SlashThenQuote(s: string, j: nat, rest: seq<Piece>)
    requires 0 < j < |s| && Plain(s, j - 1) && !Plain(s, j)
    requires GoodPieces(rest) && rest != [] && Rendered(rest) == s[j..]
    requires rest[0].kind == CodeText <==> Plain(s[j..], 0)
    ensures Joins(Piece(CodeText, s[..j], false), rest[0])
  {
    hide GoodPieces;
    var r := s[j..];
    assert forall w: string :: |w| == 2 ==> (Pair(r, 0, w) <==> Pair(s, j, w));
    assert rest[0].kind != CodeText;
    assert Shown(rest[0]) + Rendered(rest[1..]) == r;
    assert StandsIn(r, 0, Shown(rest[0]) + Rendered(rest[1..])) by { assert r[0..|r|] == r; }
    NextStarts(r, 0, rest[0], Rendered(rest[1..]));
    assert s[j] == Opening(rest[0].kind)[0];
    assert !Pair(s, j - 1, "//") && !Pair(s, j - 1, "/*");
  }
}
