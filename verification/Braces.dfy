// Brace scanning and pairing of cdup/src/parse.py.
module Braces {
  import opened Wrappers

  // ---- The brace scan ------------------------------------------------------------------------

  // The source positions of the k-th "{" and "}" events: one past an opening brace,
  // and at a closing one.
  function OpensOf(bits: seq<bool>, at: seq<nat>): seq<nat>
    requires |bits| == |at|
  {
    if bits == [] then []
    else
      var m := |bits| - 1;
      OpensOf(bits[..m], at[..m]) + if bits[m] then [at[m] + 1] else []
  }

  function ClosesOf(bits: seq<bool>, at: seq<nat>): seq<nat>
    requires |bits| == |at|
  {
    if bits == [] then []
    else
      var m := |bits| - 1;
      ClosesOf(bits[..m], at[..m]) + if bits[m] then [] else [at[m]]
  }

  // Events at ascending positions of the text.
  ghost predicate InOrder(text: string, bits: seq<bool>, at: seq<nat>, limit: nat) {
    |bits| == |at| && (forall e :: 0 <= e < |at| ==> at[e] < limit && at[e] < |text|)
    && forall e, f :: 0 <= e < f < |at| ==> at[e] < at[f]
  }

  // The recorded braces are characters of the text, in order.
  ghost predicate Located(text: string, bits: seq<bool>, at: seq<nat>, limit: nat) {
    InOrder(text, bits, at, limit)
    && forall e :: 0 <= e < |at| ==> text[at[e]] == if bits[e] then '{' else '}'
  }

  ghost predicate Scanned(text: string, bits: seq<bool>, opens: seq<nat>, closes: seq<nat>, at: seq<nat>, i: nat) {
    Located(text, bits, at, i) && opens == OpensOf(bits, at) && closes == ClosesOf(bits, at)
  }

  lemma ScannedBrace(text: string, bits: seq<bool>, opens: seq<nat>, closes: seq<nat>, at: seq<nat>, i: nat)
    requires Scanned(text, bits, opens, closes, at, i) && i < |text| && text[i] in {'{', '}'}
    ensures var b := text[i] == '{';
            Scanned(text, bits + [b], opens + if b then [i + 1] else [], closes + if b then [] else [i],
                    at + [i], i + 1)
  {
    hide Located;
    var b := text[i] == '{';
    LocatedBrace(text, bits, at, i);
    SplitLast(bits, b);
    SplitLast(at, i);
  }

  lemma SplitLast<T>(xs: seq<T>, x: T)
    ensures (xs + [x])[..|xs + [x]| - 1] == xs
  {}

  lemma LocatedBrace(text: string, bits: seq<bool>, at: seq<nat>, i: nat)
    requires Located(text, bits, at, i) && i < |text| && text[i] in {'{', '}'}
    ensures |bits| == |at| && Located(text, bits + [text[i] == '{'], at + [i], i + 1)
  {}

  datatype Mode = Code | LineComment | BlockComment | InString | InChar

  predicate Blank(c: char) { c in {' ', '\t', '\n', '\r'} }

  // Last position before i that is no white space.
  method SkipSpacesBack(text: string, i: nat) returns (j: int)
    requires i <= |text|
    ensures -1 <= j < i && (j >= 0 ==> !Blank(text[j])) && forall k :: j < k < i ==> Blank(text[k])
  {
    j := i - 1;
    while j >= 0 && Blank(text[j])
      invariant -1 <= j < i && forall k :: j < k < i ==> Blank(text[k])
    {
      j := j - 1;
    }
  }

  predicate StartsAt(text: string, i: nat, w: string) {
    i + |w| <= |text| && text[i..i + |w|] == w
  }

  // Only white space stands between a "=" and position i.
  predicate AfterEquals(text: string, i: nat)
    requires i <= |text|
  {
    exists j :: 0 <= j < i && text[j] == '=' && forall k :: j < k < i ==> Blank(text[k])
  }

  // A brace of the program's block structure: outside every initialiser, and not the
  // opening brace of one.
  predicate IsBlockBrace(text: string, i: nat, initDepth: nat)
    requires i < |text|
  {
    initDepth == 0 && (text[i] == '}' || (text[i] == '{' && !AfterEquals(text, i)))
  }

  // Initialiser braces count up and down; other characters leave the depth alone.
  function DepthAfter(text: string, i: nat, initDepth: nat): nat
    requires i < |text|
  {
    if text[i] == '{' && !IsBlockBrace(text, i, initDepth) then initDepth + 1
    else if text[i] == '}' && initDepth > 0 then initDepth - 1
    else initDepth
  }

  // Code mode at a character that opens no comment and no literal: whether it is a
  // kept brace, and the initialiser depth after it.
  method ClassifyBrace(text: string, i: nat, initDepth: nat) returns (keep: bool, initDepth': nat)
    requires i < |text|
    ensures keep == IsBlockBrace(text, i, initDepth) && initDepth' == DepthAfter(text, i, initDepth)
  {
    keep, initDepth' := false, initDepth;
    if text[i] == '{' {
      var j := SkipSpacesBack(text, i);
      if j >= 0 && text[j] == '=' {
        initDepth' := initDepth + 1;
      } else if initDepth > 0 {
        initDepth' := initDepth + 1;
      } else {
        keep := true;
      }
    } else if text[i] == '}' {
      if initDepth > 0 { initDepth' := initDepth - 1; } else { keep := true; }
    }
  }

  // The modes other than code, and the openings of comments and literals: the new
  // mode and position, or None when the character is plain code.
  function NextMode(text: string, i: nat, mode: Mode): (r: Option<(Mode, nat)>)
    requires i < |text|
    ensures r.Some? ==> i < r.value.1
    ensures r.None? ==> mode == Code
  {
    var c := text[i];
    match mode
    case LineComment => Some((if c == '\n' then Code else LineComment, i + 1))
    case BlockComment => Some(if StartsAt(text, i, "*/") then (Code, i + 2) else (BlockComment, i + 1))
    case InString => Some(if c == '\\' then (InString, i + 2) else (if c == '"' then Code else InString, i + 1))
    case InChar => Some(if c == '\\' then (InChar, i + 2) else (if c == '\'' then Code else InChar, i + 1))
    case Code =>
      if StartsAt(text, i, "//") then Some((LineComment, i + 2))
      else if StartsAt(text, i, "/*") then Some((BlockComment, i + 2))
      else if c == '"' then Some((InString, i + 1))
      else if c == '\'' then Some((InChar, i + 1))
      else None
  }

  // The positions of the block braces from i on.
  function BlockBraces(text: string, i: nat, mode: Mode, initDepth: nat): seq<nat>
    decreases |text| - i
  {
    if i >= |text| then []
    else
      match NextMode(text, i, mode)
      case Some((m, n)) => BlockBraces(text, n, m, initDepth)
      case None =>
        (if IsBlockBrace(text, i, initDepth) then [i] else [])
        + BlockBraces(text, i + 1, Code, DepthAfter(text, i, initDepth))
  }

  lemma StartsWithFirst(text: string, i: nat, w: string)
    requires i < |text| && w != []
    ensures StartsAt(text, i, w) ==> text[i] == w[0]
  {
    if StartsAt(text, i, w) {
      assert text[i] == text[i..i + |w|][0];
    }
  }

  // A block comment is passed over to its first "*/", whatever braces it holds.
  lemma {:induction false} CommentIsSkipped(text: string, i: nat, end: nat, initDepth: nat)
    requires i <= end && StartsAt(text, end, "*/") && forall k: nat :: i <= k < end ==> !StartsAt(text, k, "*/")
    ensures BlockBraces(text, i, BlockComment, initDepth) == BlockBraces(text, end + 2, Code, initDepth)
    decreases end - i
  {
    if i < end {
      CommentIsSkipped(text, i + 1, end, initDepth);
    }
  }

  // A line comment is passed over to the end of its line.
  lemma {:induction false} LineCommentIsSkipped(text: string, i: nat, end: nat, initDepth: nat)
    requires i <= end < |text| && text[end] == '\n' && forall k :: i <= k < end ==> text[k] != '\n'
    ensures BlockBraces(text, i, LineComment, initDepth) == BlockBraces(text, end + 1, Code, initDepth)
    decreases end - i
  {
    if i < end {
      LineCommentIsSkipped(text, i + 1, end, initDepth);
    }
  }

  // The first quote reached from i when every backslash takes the next character with it.
  predicate ClosesAt(text: string, i: nat, end: nat, quote: char)
    requires end < |text|
    decreases end - i
  {
    i <= end
    && if i == end then text[i] == quote
       else text[i] != quote && ClosesAt(text, if text[i] == '\\' then i + 2 else i + 1, end, quote)
  }

  // A string or character literal is passed over to its first unescaped quote.
  lemma {:induction false} LiteralIsSkipped(text: string, i: nat, end: nat, inChar: bool, initDepth: nat)
    requires end < |text| && ClosesAt(text, i, end, if inChar then '\'' else '"')
    ensures BlockBraces(text, i, if inChar then InChar else InString, initDepth) ==
              BlockBraces(text, end + 1, Code, initDepth)
    decreases end - i
  {
    if i < end {
      LiteralIsSkipped(text, if text[i] == '\\' then i + 2 else i + 1, end, inChar, initDepth);
    }
  }

  // A quote is the closing one when an even number of backslashes stands before it.
  lemma {:induction false} EvenBackslashesClose(text: string, i: nat, end: nat, quote: char)
    requires i <= end < |text| && text[end] == quote && quote != '\\'
    requires forall k :: i <= k < end ==> text[k] == '\\'
    ensures ClosesAt(text, i, end, quote) <==> (end - i) % 2 == 0
    decreases end - i
  {
    if i + 1 < end {
      EvenBackslashesClose(text, i + 2, end, quote);
    }
  }

  // In text without comments, literals and "=" every brace is a block brace.
  lemma {:induction false} PlainTextKeepsAll(text: string, i: nat)
    requires forall k :: 0 <= k < |text| ==> text[k] !in {'/', '"', '\'', '='}
    ensures forall q: nat :: q in BlockBraces(text, i, Code, 0) <==> i <= q < |text| && text[q] in {'{', '}'}
    decreases |text| - i
  {
    if i < |text| {
      StartsWithFirst(text, i, "//");
      StartsWithFirst(text, i, "/*");
      PlainTextKeepsAll(text, i + 1);
    }
  }

  lemma CodeFromHere(text: string, i: nat, mode: Mode)
    requires i < |text|
    ensures NextMode(text, i, mode) == None ==> mode == Code
  {}

  // ---- Parentheses --------------------------------------------------------------------------------

  // The positions of the parentheses outside comments and literals.
  function Parens(text: string, i: nat, mode: Mode): seq<nat>
    decreases |text| - i
  {
    if i >= |text| then []
    else
      match NextMode(text, i, mode)
      case Some((m, n)) => Parens(text, n, m)
      case None => (if text[i] in {'(', ')'} then [i] else []) + Parens(text, i + 1, Code)
  }

  ghost predicate ScannedParens(text: string, bits: seq<bool>, opens: seq<nat>, closes: seq<nat>, at: seq<nat>,
                                i: nat)
  {
    InOrder(text, bits, at, i) && opens == OpensOf(bits, at) && closes == ClosesOf(bits, at)
    && forall e :: 0 <= e < |bits| ==> (bits[e] <==> text[at[e]] == '(')
  }

  lemma ScannedParen(text: string, bits: seq<bool>, opens: seq<nat>, closes: seq<nat>, at: seq<nat>, i: nat)
    requires ScannedParens(text, bits, opens, closes, at, i) && i < |text|
    ensures var b := text[i] == '(';
            ScannedParens(text, bits + [b], opens + if b then [i + 1] else [], closes + if b then [] else [i],
                          at + [i], i + 1)
  {
    hide InOrder;
    InOrderMore(text, bits, at, i, text[i] == '(');
    SplitLast(bits, text[i] == '(');
    SplitLast(at, i);
  }

  lemma InOrderMore(text: string, bits: seq<bool>, at: seq<nat>, i: nat, b: bool)
    requires InOrder(text, bits, at, i) && i < |text|
    ensures |bits| == |at| && InOrder(text, bits + [b], at + [i], i + 1)
  {}

  // ---- The scan -----------------------------------------------------------------------------------

  // What a scan collects of one kind of bracket: the opening and closing events, and
  // their positions apart.
  datatype Found = Found(bits: seq<bool>, opens: seq<nat>, closes: seq<nat>)

  function Add(f: Found, opening: bool, i: nat): Found {
    if opening then Found(f.bits + [true], f.opens + [i + 1], f.closes)
    else Found(f.bits + [false], f.opens, f.closes + [i])
  }

  ghost predicate BracesSoFar(text: string, f: Found, at: seq<nat>, i: nat) {
    Scanned(text, f.bits, f.opens, f.closes, at, i)
  }

  ghost predicate ParensSoFar(text: string, f: Found, at: seq<nat>, i: nat) {
    ScannedParens(text, f.bits, f.opens, f.closes, at, i)
  }

  lemma NothingFound(text: string)
    ensures BracesSoFar(text, Found([], [], []), [], 0) && ParensSoFar(text, Found([], [], []), [], 0)
  {}

  lemma BraceFound(text: string, f: Found, at: seq<nat>, i: nat)
    requires BracesSoFar(text, f, at, i) && i < |text| && text[i] in {'{', '}'}
    ensures BracesSoFar(text, Add(f, text[i] == '{', i), at + [i], i + 1)
  {
    hide Scanned;
    ScannedBrace(text, f.bits, f.opens, f.closes, at, i);
    assert f.opens + [] == f.opens && f.closes + [] == f.closes;
  }

  lemma ParenFound(text: string, f: Found, at: seq<nat>, i: nat)
    requires ParensSoFar(text, f, at, i) && i < |text|
    ensures ParensSoFar(text, Add(f, text[i] == '(', i), at + [i], i + 1)
  {
    hide ScannedParens;
    ScannedParen(text, f.bits, f.opens, f.closes, at, i);
    assert f.opens + [] == f.opens && f.closes + [] == f.closes;
  }

  // Positions passed over without an event.
  lemma PassedOver(text: string, braces: Found, at: seq<nat>, parens: Found, pat: seq<nat>, i: nat, i': nat)
    requires i <= i' || (i >= |text| && i' == |text|)
    ensures BracesSoFar(text, braces, at, i) ==> BracesSoFar(text, braces, at, i')
    ensures ParensSoFar(text, parens, pat, i) ==> ParensSoFar(text, parens, pat, i')
  {}

  // The scanning loop of parse_c_file: comments and literals are skipped, and braces of
  // initialisers.
  method ScanBrackets(text: string) returns (braces: Found, parens: Found, ghost at: seq<nat>, ghost pat: seq<nat>)
    ensures BracesSoFar(text, braces, at, |text|) && ParensSoFar(text, parens, pat, |text|)
    ensures at == BlockBraces(text, 0, Code, 0) && pat == Parens(text, 0, Code)
    ensures var b := BlockBraces(text, 0, Code, 0);
            |braces.bits| == |b| && braces.opens == OpensOf(braces.bits, b) && braces.closes == ClosesOf(braces.bits, b)
            && forall e :: 0 <= e < |b| ==> b[e] < |text| && (braces.bits[e] <==> text[b[e]] == '{')
    ensures var p := Parens(text, 0, Code);
            |parens.bits| == |p| && parens.opens == OpensOf(parens.bits, p) && parens.closes == ClosesOf(parens.bits, p)
            && forall e :: 0 <= e < |p| ==> p[e] < |text| && (parens.bits[e] <==> text[p[e]] == '(')
  {
    hide BracesSoFar, ParensSoFar, AfterEquals, DepthAfter, NextMode, IsBlockBrace, StartsAt, Blank, OpensOf, ClosesOf;
    braces, parens, at, pat := Found([], [], []), Found([], [], []), [], [];
    var i: nat, mode, initDepth: nat := 0, Code, 0;
    NothingFound(text);
    while i < |text|
      invariant BracesSoFar(text, braces, at, i) && ParensSoFar(text, parens, pat, i)
      invariant at + BlockBraces(text, i, mode, initDepth) == BlockBraces(text, 0, Code, 0)
      invariant pat + Parens(text, i, mode) == Parens(text, 0, Code)
      decreases |text| - i
    {
      var next := NextMode(text, i, mode);
      if next.Some? {
        PassedOver(text, braces, at, parens, pat, i, next.value.1);
        mode, i := next.value.0, next.value.1;
        continue;
      }
      CodeFromHere(text, i, mode);
      PassedOver(text, braces, at, parens, pat, i, i + 1);
      if text[i] in {'{', '}'} {
        var keep: bool;
        keep, initDepth := ClassifyBrace(text, i, initDepth);
        if keep {
          BraceFound(text, braces, at, i);
          braces, at := Add(braces, text[i] == '{', i), at + [i];
        }
      } else if text[i] in {'(', ')'} {
        ParenFound(text, parens, pat, i);
        parens, pat := Add(parens, text[i] == '(', i), pat + [i];
      }
      OtherIsNoBrace(text, i, initDepth);
      i := i + 1;
    }
    PassedOver(text, braces, at, parens, pat, i, |text|);
    FoundIs(text, braces, at, parens, pat);
  }

  lemma OtherIsNoBrace(text: string, i: nat, initDepth: nat)
    requires i < |text|
    ensures text[i] !in {'{', '}'} ==> !IsBlockBrace(text, i, initDepth) && DepthAfter(text, i, initDepth) == initDepth
  {}

  lemma FoundIs(text: string, braces: Found, at: seq<nat>, parens: Found, pat: seq<nat>)
    requires BracesSoFar(text, braces, at, |text|) && ParensSoFar(text, parens, pat, |text|)
    ensures |braces.bits| == |at| && braces.opens == OpensOf(braces.bits, at)
            && braces.closes == ClosesOf(braces.bits, at)
    ensures forall e :: 0 <= e < |at| ==> at[e] < |text| && (braces.bits[e] <==> text[at[e]] == '{')
    ensures |parens.bits| == |pat| && parens.opens == OpensOf(parens.bits, pat)
            && parens.closes == ClosesOf(parens.bits, pat)
    ensures forall e :: 0 <= e < |pat| ==> pat[e] < |text| && (parens.bits[e] <==> text[pat[e]] == '(')
  {}

  // ---- The two stack passes ----------------------------------------------------------------------

  // Opening braces are numbered in source order, closing braces too.
  datatype Link = Link(open: int, close: int)
  datatype Pass = Pass(stack: seq<nat>, nOpen: nat, nClose: nat, links: seq<Link>, parents: seq<nat>)

  function Push(s: Pass): Pass {
    var p := if s.stack == [] then s.nOpen else s.stack[|s.stack| - 1];
    s.(stack := s.stack + [s.nOpen], nOpen := s.nOpen + 1, parents := s.parents + [p])
  }

  function Pop(s: Pass): Pass
    requires s.stack != []
  {
    var top := |s.stack| - 1;
    s.(stack := s.stack[..top], nClose := s.nClose + 1, links := s.links + [Link(s.stack[top], s.nClose)])
  }

  // Both passes after all events; None is a pop from an empty stack.
  function Run(bits: seq<bool>): Option<Pass> {
    if bits == [] then Some(Pass([], 0, 0, [], []))
    else
      var m := |bits| - 1;
      match Run(bits[..m])
      case None => None
      case Some(s) => if bits[m] then Some(Push(s)) else if s.stack == [] then None else Some(Pop(s))
  }

  // Nesting depth after the first k events.
  function Depth(bits: seq<bool>, k: nat): int
    requires k <= |bits|
  {
    if k == 0 then 0 else Depth(bits, k - 1) + if bits[k - 1] then 1 else -1
  }

  lemma {:induction false} DepthOfPrefix(bits: seq<bool>, m: nat, k: nat)
    requires k <= m <= |bits|
    ensures Depth(bits[..m], k) == Depth(bits, k)
  {
    if k > 0 { DepthOfPrefix(bits, m, k - 1); }
  }

  lemma {:induction false} StackIsDepth(bits: seq<bool>)
    requires Run(bits).Some?
    ensures |Run(bits).value.stack| == Depth(bits, |bits|)
  {
    if bits != [] {
      StackIsDepth(bits[..|bits| - 1]);
      DepthOfPrefix(bits, |bits| - 1, |bits| - 1);
    }
  }

  // Some prefix closes more than it opens.
  predicate Overclosed(bits: seq<bool>) {
    exists k: nat :: k <= |bits| && Depth(bits, k) < 0
  }

  // The passes fail exactly then.
  lemma {:induction false} RunFailsWhenNegative(bits: seq<bool>)
    ensures Run(bits).None? <==> Overclosed(bits)
  {
    if bits != [] {
      var m := |bits| - 1;
      RunFailsWhenNegative(bits[..m]);
      OverclosedStep(bits);
      if Run(bits[..m]).Some? { StackIsDepth(bits[..m]); }
    }
  }

  lemma OverclosedStep(bits: seq<bool>)
    requires bits != []
    ensures var m := |bits| - 1;
            Overclosed(bits) <==> Overclosed(bits[..m]) || Depth(bits[..m], m) + (if bits[m] then 1 else -1) < 0
  {
    var m := |bits| - 1;
    forall k: nat | k <= m ensures Depth(bits[..m], k) == Depth(bits, k) {
      DepthOfPrefix(bits, m, k);
    }
    assert Depth(bits, |bits|) == Depth(bits[..m], m) + if bits[m] then 1 else -1;
    if k: nat :| k <= m && Depth(bits[..m], k) < 0 {
      assert Depth(bits, k) < 0;
    }
    if k: nat :| k <= |bits| && Depth(bits, k) < 0 && k < |bits| {
      assert Depth(bits[..m], k) < 0;
    }
  }

  predicate WellNested(bits: seq<bool>) {
    Run(bits).Some? && Run(bits).value.stack == []
  }

  // ---- What the passes establish -------------------------------------------------------------------

  predicate ClosedAs(s: Pass, i: int, c: int) { Link(i, c) in s.links }

  // Block i is closed before block j is opened.
  predicate Before(s: Pass, opens: seq<nat>, closes: seq<nat>, i: int, j: int) {
    0 <= j < |opens| && exists c :: 0 <= c < |closes| && ClosedAs(s, i, c) && closes[c] < opens[j]
  }

  // The parent recorded for block j: open when j opens, with every block between them
  // already closed; j itself when every earlier block is closed.
  ghost predicate ParentFits(s: Pass, opens: seq<nat>, closes: seq<nat>, j: int, p: int) {
    0 <= p <= j < |opens|
    && (p < j ==> p in s.stack || exists c :: 0 <= c < |closes| && ClosedAs(s, p, c) && opens[j] <= closes[c])
    && forall i :: 0 <= i < j && (p < j ==> p < i) ==> Before(s, opens, closes, i, j)
  }

  ghost predicate StackFits(s: Pass, opens: seq<nat>, closes: seq<nat>) {
    s.nOpen == |opens| == |s.parents| && s.nClose == |closes| == |s.links|
    && (forall x, y :: 0 <= x < y < |s.stack| ==> s.stack[x] < s.stack[y])
    && (forall i :: i in s.stack ==> i < s.nOpen)
    && (forall i :: 0 <= i < s.nOpen ==> (i in s.stack <==> forall c :: !ClosedAs(s, i, c)))
    && (forall i, c :: ClosedAs(s, i, c) ==> 0 <= i < |opens| && 0 <= c < |closes| && opens[i] <= closes[c])
    && (forall i, c, d :: ClosedAs(s, i, c) && ClosedAs(s, i, d) ==> c == d)
    && (forall x, y :: 0 <= x < y < |s.links| ==> s.links[x].open != s.links[y].open)
  }

  ghost predicate LinksNest(s: Pass, opens: seq<nat>, closes: seq<nat>)
    requires StackFits(s, opens, closes)
  {
    forall i, j, c :: 0 <= i < j < s.nOpen && ClosedAs(s, i, c) ==>
      closes[c] < opens[j] || exists d :: ClosedAs(s, j, d) && closes[d] < closes[c]
  }

  ghost predicate ParentsFit(s: Pass, opens: seq<nat>, closes: seq<nat>)
  {
    |s.parents| == |opens| && forall j :: 0 <= j < |opens| ==> ParentFits(s, opens, closes, j, s.parents[j])
  }

  ghost predicate Fits(s: Pass, opens: seq<nat>, closes: seq<nat>, limit: nat) {
    StackFits(s, opens, closes) && LinksNest(s, opens, closes) && ParentsFit(s, opens, closes)
    && (forall k :: 0 <= k < |opens| ==> opens[k] <= limit)
    && (forall k :: 0 <= k < |closes| ==> closes[k] < limit)
    && (forall x, y :: 0 <= x < y < |opens| ==> opens[x] < opens[y])
  }

  lemma PushFits(s: Pass, opens: seq<nat>, closes: seq<nat>, limit: nat, at: nat)
    requires Fits(s, opens, closes, limit) && limit <= at
    ensures Fits(Push(s), opens + [at + 1], closes, at + 1)
  {
    var s', opens' := Push(s), opens + [at + 1];
    PushStack(s, opens, closes, limit, at);
    forall i, c | ClosedAs(s', i, c) ensures ClosedAs(s, i, c) && opens'[i] == opens[i] {}
    forall j | 0 <= j < |opens'| ensures ParentFits(s', opens', closes, j, s'.parents[j]) {
      if j < |opens| {
        assert ParentFits(s, opens, closes, j, s.parents[j]);
        assert forall i :: Before(s, opens, closes, i, j) ==> Before(s', opens', closes, i, j);
      } else {
        PushParent(s, opens, closes, limit, at);
      }
    }
  }

  lemma PushStack(s: Pass, opens: seq<nat>, closes: seq<nat>, limit: nat, at: nat)
    requires Fits(s, opens, closes, limit) && limit <= at
    ensures StackFits(Push(s), opens + [at + 1], closes)
    ensures LinksNest(Push(s), opens + [at + 1], closes)
  {
    var s', opens' := Push(s), opens + [at + 1];
    assert forall i, c :: ClosedAs(s', i, c) <==> ClosedAs(s, i, c);
    assert forall i :: i in s'.stack <==> i in s.stack || i == s.nOpen;
    assert forall x :: 0 <= x < |s.stack| ==> s.stack[x] in s.stack;
    forall i, c | ClosedAs(s', i, c) ensures opens'[i] == opens[i] {}
    forall i, j, c | 0 <= i < j < s'.nOpen && ClosedAs(s', i, c)
      ensures closes[c] < opens'[j] || exists d :: ClosedAs(s', j, d) && closes[d] < closes[c]
    {
      assert ClosedAs(s, i, c);
      if j < s.nOpen {
        assert closes[c] < opens[j] || exists d :: ClosedAs(s, j, d) && closes[d] < closes[c];
        if d :| ClosedAs(s, j, d) && closes[d] < closes[c] { assert ClosedAs(s', j, d); }
      }
    }
  }

  lemma PushParent(s: Pass, opens: seq<nat>, closes: seq<nat>, limit: nat, at: nat)
    requires Fits(s, opens, closes, limit) && limit <= at
    ensures ParentFits(Push(s), opens + [at + 1], closes, s.nOpen, Push(s).parents[s.nOpen])
  {
    var s', opens', j := Push(s), opens + [at + 1], s.nOpen;
    var p := s'.parents[j];
    assert s.stack != [] ==> p in s.stack;
    assert forall x :: 0 <= x < |s.stack| ==> s.stack[x] <= p;
    forall i | 0 <= i < j && (p < j ==> p < i) ensures Before(s', opens', closes, i, j) {
      assert i !in s.stack;
      var c :| ClosedAs(s, i, c);
      assert ClosedAs(s', i, c) && closes[c] < opens'[j];
    }
  }

  lemma PopFits(s: Pass, opens: seq<nat>, closes: seq<nat>, limit: nat, at: nat)
    requires Fits(s, opens, closes, limit) && limit <= at && s.stack != []
    ensures Fits(Pop(s), opens, closes + [at], at + 1)
  {
    var s', closes' := Pop(s), closes + [at];
    PopStack(s, opens, closes, limit, at);
    PopLinks(s, opens, closes, limit, at);
    forall j | 0 <= j < |opens| ensures ParentFits(s', opens, closes', j, s'.parents[j]) {
      PopParent(s, opens, closes, limit, at, j);
    }
  }

  lemma PopClosed(s: Pass, i: int, c: int)
    requires s.stack != []
    ensures ClosedAs(Pop(s), i, c) <==> ClosedAs(s, i, c) || (i == s.stack[|s.stack| - 1] && c == s.nClose)
  {}

  lemma PopStack(s: Pass, opens: seq<nat>, closes: seq<nat>, limit: nat, at: nat)
    requires Fits(s, opens, closes, limit) && limit <= at && s.stack != []
    ensures StackFits(Pop(s), opens, closes + [at])
  {
    var s', closes', top := Pop(s), closes + [at], s.stack[|s.stack| - 1];
    forall i, c ensures ClosedAs(s', i, c) <==> ClosedAs(s, i, c) || (i == top && c == s.nClose) {
      PopClosed(s, i, c);
    }
    assert s.stack == s'.stack + [top];
    assert top in s.stack;
    forall i ensures i in s'.stack <==> i in s.stack && i != top {}
    assert forall x :: 0 <= x < |s.links| ==>
             ClosedAs(s, s.links[x].open, s.links[x].close) && s.links[x].open != top by {
      forall x | 0 <= x < |s.links| ensures ClosedAs(s, s.links[x].open, s.links[x].close) && s.links[x].open != top {
        assert s.links[x] in s.links && s.links[x] == Link(s.links[x].open, s.links[x].close);
        assert ClosedAs(s, s.links[x].open, s.links[x].close);
      }
    }
    forall i | 0 <= i < s.nOpen ensures i in s'.stack <==> forall c :: !ClosedAs(s', i, c) {
      if i == top { assert ClosedAs(s', i, s.nClose); }
    }
  }

  lemma PopLinks(s: Pass, opens: seq<nat>, closes: seq<nat>, limit: nat, at: nat)
    requires Fits(s, opens, closes, limit) && limit <= at && s.stack != []
    requires StackFits(Pop(s), opens, closes + [at])
    ensures LinksNest(Pop(s), opens, closes + [at])
  {
    var s', closes', top := Pop(s), closes + [at], s.stack[|s.stack| - 1];
    forall i, j, c | 0 <= i < j < s'.nOpen && ClosedAs(s', i, c)
      ensures closes'[c] < opens[j] || exists d :: ClosedAs(s', j, d) && closes'[d] < closes'[c]
    {
      PopClosed(s, i, c);
      if i == top && c == s.nClose {
        assert forall x :: 0 <= x < |s.stack| ==> s.stack[x] <= top;
        assert j !in s.stack;
        var d :| ClosedAs(s, j, d);
        PopClosed(s, j, d);
        assert closes'[d] < closes'[c];
      } else {
        assert closes[c] < opens[j] || exists d :: ClosedAs(s, j, d) && closes[d] < closes[c];
        if d :| ClosedAs(s, j, d) && closes[d] < closes[c] { PopClosed(s, j, d); }
      }
    }
  }

  lemma PopParent(s: Pass, opens: seq<nat>, closes: seq<nat>, limit: nat, at: nat, j: nat)
    requires Fits(s, opens, closes, limit) && limit <= at && s.stack != [] && j < |opens|
    ensures ParentFits(Pop(s), opens, closes + [at], j, s.parents[j])
  {
    var s', closes', p, top := Pop(s), closes + [at], s.parents[j], s.stack[|s.stack| - 1];
    assert ParentFits(s, opens, closes, j, p);
    if p < j && p == top {
      PopClosed(s, p, s.nClose);
      assert ClosedAs(s', p, s.nClose) && opens[j] <= closes'[s.nClose];
    } else if p < j && p in s.stack {
      assert s.stack == s'.stack + [top];
    } else if p < j {
      var c :| 0 <= c < |closes| && ClosedAs(s, p, c) && opens[j] <= closes[c];
      PopClosed(s, p, c);
      assert ClosedAs(s', p, c) && opens[j] <= closes'[c];
    }
    forall i | 0 <= i < j && (p < j ==> p < i) ensures Before(s', opens, closes', i, j) {
      assert Before(s, opens, closes, i, j);
      var c :| 0 <= c < |closes| && ClosedAs(s, i, c) && closes[c] < opens[j];
      PopClosed(s, i, c);
      assert ClosedAs(s', i, c) && closes'[c] < opens[j];
    }
  }

  lemma OrderedPrefix(text: string, bits: seq<bool>, at: seq<nat>, limit: nat)
    requires InOrder(text, bits, at, limit) && bits != []
    ensures var m := |bits| - 1; |at| == |bits| && at[m] < limit && InOrder(text, bits[..m], at[..m], at[m])
  {}

  lemma FitsWider(s: Pass, opens: seq<nat>, closes: seq<nat>, limit: nat, limit': nat)
    requires Fits(s, opens, closes, limit) && limit <= limit'
    ensures Fits(s, opens, closes, limit')
  {}

  lemma NothingFits(limit: nat)
    ensures Fits(Pass([], 0, 0, [], []), [], [], limit)
  {}

  // The invariants hold after every prefix of brackets in order.
  lemma {:induction false} RunFits(text: string, bits: seq<bool>, at: seq<nat>, limit: nat)
    requires InOrder(text, bits, at, limit) && Run(bits).Some?
    ensures |bits| == |at| && Fits(Run(bits).value, OpensOf(bits, at), ClosesOf(bits, at), limit)
  {
    hide Fits, Push, Pop, InOrder;
    if bits == [] {
      NothingFits(limit);
      OrderedIsAligned(text, bits, at, limit);
    } else {
      var m := |bits| - 1;
      var s := Run(bits[..m]).value;
      OrderedPrefix(text, bits, at, limit);
      RunFits(text, bits[..m], at[..m], at[m]);
      var opens, closes := OpensOf(bits[..m], at[..m]), ClosesOf(bits[..m], at[..m]);
      if bits[m] {
        PushFits(s, opens, closes, at[m], at[m]);
        assert closes + [] == closes;
      } else {
        PopFits(s, opens, closes, at[m], at[m]);
        assert opens + [] == opens;
      }
      FitsWider(Run(bits).value, OpensOf(bits, at), ClosesOf(bits, at), at[m] + 1, limit);
    }
  }

  lemma OrderedIsAligned(text: string, bits: seq<bool>, at: seq<nat>, limit: nat)
    requires InOrder(text, bits, at, limit)
    ensures |bits| == |at|
  {}
}
