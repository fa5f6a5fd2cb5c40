// The parser and the grammar of ExprGrammar agree, in both directions.
module ExprExact {
  import opened Wrappers
  import opened ExprSyntax
  import opened ExprParser
  import opened ExprGrammar

  // ---- One turn of the loop -----------------------------------------------------

  lemma ParseIsNudThenLoop(ts: seq<Token>, pos: nat, min: nat, left: Expr, next: nat)
    requires NudAt(ts, pos) == Ok(left, next)
    ensures ParseAt(ts, pos, min) == LoopAt(ts, next, left, min)
  {}

  lemma LoopTurns(ts: seq<Token>, pos: nat, left: Expr, min: nat, e: Expr, next: nat)
    requires pos < |ts| && min < Power(ts[pos])
    requires LedAt(ts, pos, left) == Ok(e, next)
    ensures LoopAt(ts, pos, left, min) == LoopAt(ts, next, e, min)
  {}

  lemma LoopStops(ts: seq<Token>, pos: nat, left: Expr, min: nat)
    requires pos < |ts| && Power(ts[pos]) <= min
    ensures LoopAt(ts, pos, left, min) == Ok(left, pos)
  {}

  lemma LedInfix(ts: seq<Token>, pos: nat, left: Expr, s: Sym, right: Expr, next: nat)
    requires pos < |ts| && ts[pos] == Op(s) && BinaryOp(s).Some?
    requires ParseAt(ts, pos + 1, LeftPower(s)) == Ok(right, next)
    ensures LedAt(ts, pos, left) == Ok(Apply2(BinaryOp(s).value, left, right), next)
  {
    hide ParseAt;
  }

  lemma LedIndex(ts: seq<Token>, pos: nat, left: Expr, idx: Expr, next: nat)
    requires pos < next < |ts| && ts[pos] == Op(LBrack) && ts[next] == Op(RBrack)
    requires ParseAt(ts, pos + 1, 0) == Ok(idx, next)
    ensures LedAt(ts, pos, left) == Ok(Index(left, idx), next + 1)
  {
    hide ParseAt;
  }

  lemma LedCall(ts: seq<Token>, pos: nat, left: Expr, args: seq<Expr>, next: nat)
    requires pos < next < |ts| && ts[pos] == Op(LPar) && ts[next] == Op(RPar)
    requires ArgsAt(ts, pos + 1) == Ok(args, next)
    ensures LedAt(ts, pos, left) == Ok(Call(CalleeName(left), args), next + 1)
  {
    hide ArgsAt;
  }

  lemma NudCast(ts: seq<Token>, pos: nat, parts: seq<Token>, p: nat, x: Expr, next: nat)
    requires pos < |ts| && ts[pos] == Op(LPar) && TryCast(ts, pos + 1) == Ok(Some(parts), p)
    requires ParseAt(ts, p, 99) == Ok(x, next) && pos < p
    ensures NudAt(ts, pos) == Ok(Cast(parts, x), next)
  {
    hide ParseAt, TryCast;
  }

  lemma NudPrefix(ts: seq<Token>, pos: nat, s: Sym, x: Expr, next: nat)
    requires pos < |ts| && ts[pos] == Op(s) && PrefixOp(s).Some?
    requires ParseAt(ts, pos + 1, 99) == Ok(x, next)
    ensures NudAt(ts, pos) == Ok(Apply1(PrefixOp(s).value, x), next)
  {
    hide ParseAt, TryCast;
  }

  lemma NudSizeof(ts: seq<Token>, pos: nat, x: Expr, next: nat)
    requires pos + 1 < |ts| && ts[pos] == Ident("sizeof") && ts[pos + 1] != Op(LPar)
    requires ParseAt(ts, pos + 1, 100) == Ok(x, next)
    ensures NudAt(ts, pos) == Ok(SizeofExpr(x), next)
  {
    hide ParseAt;
  }

  // ---- Every sentence is parsed to what it denotes -----------------------------

  // c stands at pos and the token after it is not drawn into it.
  predicate StandsAt(ts: seq<Token>, pos: nat, c: Cst) {
    Grammatical(c) && At(ts, pos, Yield(c)) && pos + |Yield(c)| < |ts|
    && Power(ts[pos + |Yield(c)|]) <= Follow(c)
  }

  lemma {:induction false} Complete(ts: seq<Token>, pos: nat, min: nat, c: Cst)
    requires StandsAt(ts, pos, c) && min < Head(c)
    ensures ParseAt(ts, pos, min) == LoopAt(ts, pos + |Yield(c)|, Denote(c), min)
    decreases c, 1
  {
    hide ParseAt, LoopAt, NudAt, At, Yield, Grammatical;
    match c
    case Infix(l, s, r) => InfixComplete(ts, pos, min, l, s, r);
    case IndexOf(a, i) => IndexComplete(ts, pos, min, a, i);
    case FieldOf(a, s, f) => FieldComplete(ts, pos, min, a, s, f);
    case CallOf(f, args) => CallComplete(ts, pos, min, f, args);
    case Postfix(x, s) => PostfixComplete(ts, pos, min, x, s);
    case _ =>
      NudComplete(ts, pos, c);
      ParseIsNudThenLoop(ts, pos, min, Denote(c), pos + |Yield(c)|);
  }

  lemma {:induction false} InfixComplete(ts: seq<Token>, pos: nat, min: nat, l: Cst, s: Sym, r: Cst)
    requires StandsAt(ts, pos, Infix(l, s, r)) && min < Head(Infix(l, s, r))
    ensures var c := Infix(l, s, r);
            ParseAt(ts, pos, min) == LoopAt(ts, pos + |Yield(c)|, Denote(c), min)
    decreases Infix(l, s, r), 0
  {
    hide ParseAt, LoopAt, NudAt, LedAt, At, Yield, BinaryOp, LeftPower;
    InfixPieces(ts, pos, l, s, r);
    BinaryPowers(s);
    var mid := pos + |Yield(l)|;
    var end := mid + 1 + |Yield(r)|;
    Complete(ts, mid + 1, LeftPower(s), r);
    LoopStops(ts, end, Denote(r), LeftPower(s));
    LedInfix(ts, mid, Denote(l), s, Denote(r), end);
    LoopTurns(ts, mid, Denote(l), min, Denote(Infix(l, s, r)), end);
    Complete(ts, pos, min, l);
  }

  lemma {:induction false} IndexComplete(ts: seq<Token>, pos: nat, min: nat, a: Cst, i: Cst)
    requires StandsAt(ts, pos, IndexOf(a, i)) && min < Head(IndexOf(a, i))
    ensures var c := IndexOf(a, i);
            ParseAt(ts, pos, min) == LoopAt(ts, pos + |Yield(c)|, Denote(c), min)
    decreases IndexOf(a, i), 0
  {
    hide ParseAt, LoopAt, NudAt, LedAt, At, Yield;
    IndexPieces(ts, pos, a, i);
    YieldStarts(i);
    var mid := pos + |Yield(a)|;
    var close := mid + 1 + |Yield(i)|;
    Complete(ts, mid + 1, 0, i);
    LoopStops(ts, close, Denote(i), 0);
    LedIndex(ts, mid, Denote(a), Denote(i), close);
    LoopTurns(ts, mid, Denote(a), min, Denote(IndexOf(a, i)), close + 1);
    Complete(ts, pos, min, a);
  }

  lemma {:induction false} FieldComplete(ts: seq<Token>, pos: nat, min: nat, a: Cst, s: Sym, f: string)
    requires StandsAt(ts, pos, FieldOf(a, s, f)) && min < Head(FieldOf(a, s, f))
    ensures var c := FieldOf(a, s, f);
            ParseAt(ts, pos, min) == LoopAt(ts, pos + |Yield(c)|, Denote(c), min)
    decreases FieldOf(a, s, f), 0
  {
    hide ParseAt, LoopAt, NudAt, ArgsAt, At, Yield;
    FieldPieces(ts, pos, a, s, f);
    var mid := pos + |Yield(a)|;
    LoopTurns(ts, mid, Denote(a), min, Denote(FieldOf(a, s, f)), mid + 2);
    Complete(ts, pos, min, a);
  }

  lemma {:induction false} PostfixComplete(ts: seq<Token>, pos: nat, min: nat, x: Cst, s: Sym)
    requires StandsAt(ts, pos, Postfix(x, s)) && min < Head(Postfix(x, s))
    ensures var c := Postfix(x, s);
            ParseAt(ts, pos, min) == LoopAt(ts, pos + |Yield(c)|, Denote(c), min)
    decreases Postfix(x, s), 0
  {
    hide ParseAt, LoopAt, NudAt, ArgsAt, At, Yield;
    PostfixPieces(ts, pos, x, s);
    var mid := pos + |Yield(x)|;
    LoopTurns(ts, mid, Denote(x), min, Denote(Postfix(x, s)), mid + 1);
    Complete(ts, pos, min, x);
  }

  lemma {:induction false} CallComplete(ts: seq<Token>, pos: nat, min: nat, f: Cst, args: seq<Cst>)
    requires StandsAt(ts, pos, CallOf(f, args)) && min < Head(CallOf(f, args))
    ensures var c := CallOf(f, args);
            ParseAt(ts, pos, min) == LoopAt(ts, pos + |Yield(c)|, Denote(c), min)
    decreases CallOf(f, args), 0
  {
    hide ParseAt, LoopAt, NudAt, LedAt, ArgsAt, At, Yield, YieldArgs;
    CallPieces(ts, pos, f, args);
    var mid := pos + |Yield(f)|;
    var close := mid + 1 + |YieldArgs(args)|;
    ArgsComplete(ts, mid + 1, args);
    LedCall(ts, mid, Denote(f), DenoteArgs(args), close);
    LoopTurns(ts, mid, Denote(f), min, Denote(CallOf(f, args)), close + 1);
    Complete(ts, pos, min, f);
  }

  lemma {:induction false} ArgsComplete(ts: seq<Token>, pos: nat, args: seq<Cst>)
    requires GrammaticalArgs(args) && At(ts, pos, YieldArgs(args))
    requires pos + |YieldArgs(args)| < |ts| && ts[pos + |YieldArgs(args)|] == Op(RPar)
    ensures ArgsAt(ts, pos) == Ok(DenoteArgs(args), pos + |YieldArgs(args)|)
    decreases args, 1
  {
    hide ParseAt, LoopAt, MoreArgsAt, At, Yield, Denote, Grammatical;
    if args != [] {
      var first := Yield(args[0]);
      AtSplit(ts, pos, first, YieldMore(args[1..]));
      YieldStarts(args[0]);
      AtFirst(ts, pos, first);
      MoreArgsComplete(ts, pos + |first|, args[1..]);
      Complete(ts, pos, 0, args[0]);
      LoopStops(ts, pos + |first|, Denote(args[0]), 0);
    }
  }

  lemma {:induction false} MoreArgsComplete(ts: seq<Token>, pos: nat, args: seq<Cst>)
    requires GrammaticalArgs(args) && At(ts, pos, YieldMore(args))
    requires pos + |YieldMore(args)| < |ts| && ts[pos + |YieldMore(args)|] == Op(RPar)
    ensures Power(ts[pos]) == 0
    ensures MoreArgsAt(ts, pos) == Ok(DenoteArgs(args), pos + |YieldMore(args)|)
    decreases args, 0
  {
    hide ParseAt, LoopAt, At, Yield, Denote, Grammatical;
    if args != [] {
      var mid := pos + 1 + |Yield(args[0])|;
      MorePieces(ts, pos, args);
      MoreArgsComplete(ts, mid, args[1..]);
      YieldStarts(args[0]);
      Complete(ts, pos + 1, 0, args[0]);
      LoopStops(ts, mid, Denote(args[0]), 0);
    }
  }

  // Syntax that begins with a prefix operator, a parenthesis or a single token.
  predicate IsPrimary(c: Cst) {
    !(c.Infix? || c.IndexOf? || c.FieldOf? || c.CallOf? || c.Postfix?)
  }

  lemma {:induction false} NudComplete(ts: seq<Token>, pos: nat, c: Cst)
    requires StandsAt(ts, pos, c) && IsPrimary(c)
    ensures NudAt(ts, pos) == Ok(Denote(c), pos + |Yield(c)|)
    decreases c, 0, 1
  {
    hide ParseAt, LoopAt, At, Yield, TryCast, SizeofScan, Head, SpellsCast, IsTypePart, TypeEnd;
    match c
    case Atom(t) => AtomPieces(ts, pos, t);
    case Group(b) => GroupComplete(ts, pos, b);
    case Prefix(s, x) => PrefixComplete(ts, pos, s, x);
    case CastTo(parts, x) => CastComplete(ts, pos, parts, x);
    case SizeofOf(x) =>
      SizeofOfComplete(ts, pos, x);
    case SizeofParens(inner, closed) =>
      SizeofParensPieces(ts, pos, inner, closed);
      SizeofScanReads(ts, pos + 2, 1, inner, closed);
  }

  lemma {:induction false} PrefixComplete(ts: seq<Token>, pos: nat, s: Sym, x: Cst)
    requires StandsAt(ts, pos, Prefix(s, x))
    ensures NudAt(ts, pos) == Ok(Denote(Prefix(s, x)), pos + |Yield(Prefix(s, x))|)
    decreases Prefix(s, x), 0, 0
  {
    hide ParseAt, LoopAt, NudAt, At, Yield, PrefixOp;
    PrefixPieces(ts, pos, s, x);
    Complete(ts, pos + 1, 99, x);
    LoopStops(ts, pos + 1 + |Yield(x)|, Denote(x), 99);
    NudPrefix(ts, pos, s, Denote(x), pos + 1 + |Yield(x)|);
  }

  lemma {:induction false} SizeofOfComplete(ts: seq<Token>, pos: nat, x: Cst)
    requires StandsAt(ts, pos, SizeofOf(x))
    ensures NudAt(ts, pos) == Ok(Denote(SizeofOf(x)), pos + |Yield(SizeofOf(x))|)
    decreases SizeofOf(x), 0, 0
  {
    hide ParseAt, LoopAt, NudAt, At, Yield, TryCast, SizeofScan, Head;
    SizeofPieces(ts, pos, x);
    YieldStarts(x);
    AtFirst(ts, pos + 1, Yield(x));
    Complete(ts, pos + 1, 100, x);
    LoopStops(ts, pos + 1 + |Yield(x)|, Denote(x), 100);
    NudSizeof(ts, pos, Denote(x), pos + 1 + |Yield(x)|);
  }

  lemma {:induction false} GroupComplete(ts: seq<Token>, pos: nat, b: Cst)
    requires StandsAt(ts, pos, Group(b))
    ensures NudAt(ts, pos) == Ok(Denote(b), pos + |Yield(Group(b))|)
    decreases Group(b), 0, 0
  {
    hide ParseAt, LoopAt, At, Yield, TryCast, SpellsCast;
    GroupPieces(ts, pos, b);
    CastTest(ts, pos + 1, Yield(b));
    YieldStarts(b);
    Complete(ts, pos + 1, 0, b);
    LoopStops(ts, pos + 1 + |Yield(b)|, Denote(b), 0);
  }

  lemma CastStands(ts: seq<Token>, pos: nat, parts: seq<Token>, x: Cst)
    requires StandsAt(ts, pos, CastTo(parts, x))
    ensures var e := pos + 1 + |parts|;
            ts[pos] == Op(LPar) && TryCast(ts, pos + 1) == Ok(Some(parts), e + 1)
            && StandsAt(ts, e + 1, x) && 99 < Head(x) && e + 1 + |Yield(x)| < |ts|
            && Power(ts[e + 1 + |Yield(x)|]) <= 99
            && |Yield(CastTo(parts, x))| == |parts| + 2 + |Yield(x)|
  {
    hide At, Yield, TryCast, IsTypePart;
    CastPieces(ts, pos, parts, x);
    CastReads(ts, pos + 1, parts);
  }

  lemma {:induction false} CastComplete(ts: seq<Token>, pos: nat, parts: seq<Token>, x: Cst)
    requires StandsAt(ts, pos, CastTo(parts, x))
    ensures NudAt(ts, pos) == Ok(Denote(CastTo(parts, x)), pos + |Yield(CastTo(parts, x))|)
    decreases CastTo(parts, x), 0, 0
  {
    hide ParseAt, LoopAt, NudAt, At, Yield, TryCast, IsTypePart, Grammatical, Follow, StandsAt;
    CastStands(ts, pos, parts, x);
    var e := pos + 1 + |parts|;
    Complete(ts, e + 1, 99, x);
    LoopStops(ts, e + 1 + |Yield(x)|, Denote(x), 99);
    NudCast(ts, pos, parts, e + 1, Denote(x), e + 1 + |Yield(x)|);
  }

  // ---- Everything parsed is a sentence ------------------------------------------

  // c is the syntax a routine read between start and end.
  predicate Reads(ts: seq<Token>, start: nat, end: nat, c: Cst, e: Expr) {
    Grammatical(c) && At(ts, start, Yield(c)) && end == start + |Yield(c)| && Denote(c) == e
    && (end < |ts| ==> Power(ts[end]) <= Follow(c))
  }

  lemma {:induction false} Sound(ts: seq<Token>, pos: nat, min: nat) returns (c: Cst)
    requires ParseAt(ts, pos, min).Ok? && min <= 130
    ensures Reads(ts, pos, ParseAt(ts, pos, min).next, c, ParseAt(ts, pos, min).val) && min < Head(c)
    decreases |ts| - pos, 2
  {
    var left := NudSound(ts, pos);
    c := LoopSound(ts, pos, NudAt(ts, pos).next, min, left);
  }

  lemma {:induction false} LoopSound(ts: seq<Token>, start: nat, pos: nat, min: nat, left: Cst) returns (c: Cst)
    requires start < pos && min < Head(left)
    requires Reads(ts, start, pos, left, Denote(left))
    requires LoopAt(ts, pos, Denote(left), min).Ok?
    ensures var r := LoopAt(ts, pos, Denote(left), min);
            Reads(ts, start, r.next, c, r.val) && min < Head(c)
    decreases |ts| - pos, 1
  {
    if ts[pos] == Eof || Power(ts[pos]) <= min {
      c := left;
    } else {
      var step := LedSound(ts, start, pos, left);
      c := LoopSound(ts, start, LedAt(ts, pos, Denote(left)).next, min, step);
    }
  }

  lemma {:induction false} NudSound(ts: seq<Token>, pos: nat) returns (c: Cst)
    requires NudAt(ts, pos).Ok?
    ensures Reads(ts, pos, NudAt(ts, pos).next, c, NudAt(ts, pos).val) && Head(c) == UNBOUNDED
    decreases |ts| - pos, 0
  {
    hide ParseAt, LoopAt, At, Yield, TryCast, SizeofScan;
    match ts[pos]
    case Lit(l) =>
      c := Atom(ts[pos]);
      AtomPieces(ts, pos, ts[pos]);
    case Ident(t) =>
      if t != "sizeof" {
        c := Atom(ts[pos]);
        AtomPieces(ts, pos, ts[pos]);
      } else {
        c := SizeofSound(ts, pos);
      }
    case Op(s) =>
      if s == LPar {
        if TryCast(ts, pos + 1).val.Some? {
          c := CastSound(ts, pos);
        } else {
          c := GroupSound(ts, pos);
        }
      } else {
        var x := Sound(ts, pos + 1, 99);
        c := Prefix(s, x);
        PrefixPieces(ts, pos, s, x);
      }
  }

  lemma {:induction false} SizeofSound(ts: seq<Token>, pos: nat) returns (c: Cst)
    requires NudAt(ts, pos).Ok? && ts[pos] == Ident("sizeof")
    ensures Reads(ts, pos, NudAt(ts, pos).next, c, NudAt(ts, pos).val) && Head(c) == UNBOUNDED
    decreases |ts| - pos, 0, 0
  {
    hide ParseAt, LoopAt, At, Yield, TryCast, SizeofScan;
    if ts[pos + 1] == Op(LPar) {
      var closed := SizeofScanFinds(ts, pos + 2, 1);
      var inner := SizeofScan(ts, pos + 2, 1).val;
      c := SizeofParens(inner, closed);
      SizeofParensPieces(ts, pos, inner, closed);
    } else {
      var x := Sound(ts, pos + 1, 100);
      c := SizeofOf(x);
      SizeofPieces(ts, pos, x);
      YieldStarts(x);
      AtFirst(ts, pos + 1, Yield(x));
    }
  }

  lemma {:induction false} CastSound(ts: seq<Token>, pos: nat) returns (c: Cst)
    requires NudAt(ts, pos).Ok? && ts[pos] == Op(LPar) && TryCast(ts, pos + 1).val.Some?
    ensures Reads(ts, pos, NudAt(ts, pos).next, c, NudAt(ts, pos).val) && Head(c) == UNBOUNDED
    decreases |ts| - pos, 0, 0
  {
    hide ParseAt, Yield;
    var parts, p := TryCast(ts, pos + 1).val.value, TryCast(ts, pos + 1).next;
    var x := Sound(ts, p, 99);
    c := CastTo(parts, x);
    CastPieces(ts, pos, parts, x);
  }

  lemma {:induction false} GroupSound(ts: seq<Token>, pos: nat) returns (c: Cst)
    requires NudAt(ts, pos).Ok? && ts[pos] == Op(LPar) && TryCast(ts, pos + 1).val.None?
    ensures Reads(ts, pos, NudAt(ts, pos).next, c, NudAt(ts, pos).val) && Head(c) == UNBOUNDED
    decreases |ts| - pos, 0, 0
  {
    hide ParseAt, Yield, At, TryCast, SpellsCast;
    var b := Sound(ts, pos + 1, 0);
    c := Group(b);
    GroupPieces(ts, pos, b);
    CastTest(ts, pos + 1, Yield(b));
  }

  lemma LedClosesIndex(ts: seq<Token>, pos: nat, left: Expr)
    requires pos < |ts| && ts[pos] == Op(LBrack) && LedAt(ts, pos, left).Ok?
    ensures ParseAt(ts, pos + 1, 0).Ok? && ts[ParseAt(ts, pos + 1, 0).next] == Op(RBrack)
  {
    hide ParseAt;
  }

  lemma LedClosesCall(ts: seq<Token>, pos: nat, left: Expr)
    requires pos < |ts| && ts[pos] == Op(LPar) && LedAt(ts, pos, left).Ok?
    ensures ArgsAt(ts, pos + 1).Ok? && ts[ArgsAt(ts, pos + 1).next] == Op(RPar)
  {
    hide ParseAt, ArgsAt;
  }

  lemma LedOpens(ts: seq<Token>, pos: nat, left: Expr)
    requires pos < |ts| && LedAt(ts, pos, left).Ok?
    ensures ts[pos].Op?
    ensures var s := ts[pos].sym;
            if BinaryOp(s).Some? then ParseAt(ts, pos + 1, LeftPower(s)).Ok?
            else if s == LBrack then ParseAt(ts, pos + 1, 0).Ok?
            else if s == Dot || s == Arrow then pos + 1 < |ts| && ts[pos + 1].Ident?
            else true
  {
    hide ParseAt, ArgsAt;
  }

  lemma InfixReads(ts: seq<Token>, start: nat, pos: nat, left: Cst, right: Cst)
    requires start < pos < |ts| && Reads(ts, start, pos, left, Denote(left))
    requires ts[pos].Op? && BinaryOp(ts[pos].sym).Some? && LedAt(ts, pos, Denote(left)).Ok?
    requires var s := ts[pos].sym;
             LeftPower(s) < Head(right) && LeftPower(s) <= 130 && ParseAt(ts, pos + 1, LeftPower(s)).Ok?
             && var r := ParseAt(ts, pos + 1, LeftPower(s)); Reads(ts, pos + 1, r.next, right, r.val)
    ensures var r := LedAt(ts, pos, Denote(left));
            Reads(ts, start, r.next, Infix(left, ts[pos].sym, right), r.val)
  {
    hide ParseAt, LoopAt, LedAt, At, Yield, BinaryOp, LeftPower;
    var s := ts[pos].sym;
    BinaryPowers(s);
    var r := ParseAt(ts, pos + 1, LeftPower(s));
    LedInfix(ts, pos, Denote(left), s, r.val, r.next);
    InfixPieces(ts, start, left, ts[pos].sym, right);
  }

  lemma IndexReads(ts: seq<Token>, start: nat, pos: nat, left: Cst, idx: Cst)
    requires start < pos < |ts| && Reads(ts, start, pos, left, Denote(left))
    requires ts[pos] == Op(LBrack) && LedAt(ts, pos, Denote(left)).Ok? && ParseAt(ts, pos + 1, 0).Ok?
    requires var r := ParseAt(ts, pos + 1, 0); Reads(ts, pos + 1, r.next, idx, r.val)
    ensures var r := LedAt(ts, pos, Denote(left)); Reads(ts, start, r.next, IndexOf(left, idx), r.val)
  {
    hide ParseAt, LoopAt, LedAt, At, Yield;
    var r := ParseAt(ts, pos + 1, 0);
    assert ts[r.next] == Op(RBrack) by { LedClosesIndex(ts, pos, Denote(left)); }
    LedIndex(ts, pos, Denote(left), r.val, r.next);
    IndexPieces(ts, start, left, idx);
  }

  lemma CallReads(ts: seq<Token>, start: nat, pos: nat, left: Cst, args: seq<Cst>)
    requires start < pos < |ts| && Reads(ts, start, pos, left, Denote(left))
    requires ts[pos] == Op(LPar) && LedAt(ts, pos, Denote(left)).Ok?
    requires GrammaticalArgs(args) && At(ts, pos + 1, YieldArgs(args))
    requires ArgsAt(ts, pos + 1) == Ok(DenoteArgs(args), pos + 1 + |YieldArgs(args)|)
    ensures var r := LedAt(ts, pos, Denote(left)); Reads(ts, start, r.next, CallOf(left, args), r.val)
  {
    hide ParseAt, ArgsAt, LedAt, At, Yield, YieldArgs, DenoteArgs;
    var next := pos + 1 + |YieldArgs(args)|;
    assert next < |ts| && ts[next] == Op(RPar) by { LedClosesCall(ts, pos, Denote(left)); }
    LedCall(ts, pos, Denote(left), DenoteArgs(args), next);
    CallPieces(ts, start, left, args);
  }

  // A field access or a postfix operator.
  lemma SuffixReads(ts: seq<Token>, start: nat, pos: nat, left: Cst)
    requires start < pos < |ts| && Reads(ts, start, pos, left, Denote(left))
    requires LedAt(ts, pos, Denote(left)).Ok? && ts[pos].Op? && BinaryOp(ts[pos].sym).None?
    requires ts[pos].sym != LBrack && ts[pos].sym != LPar
    ensures var r, s := LedAt(ts, pos, Denote(left)), ts[pos].sym;
            if s == Dot || s == Arrow
            then pos + 1 < |ts| && ts[pos + 1].Ident?
                 && Reads(ts, start, r.next, FieldOf(left, s, ts[pos + 1].text), r.val)
            else Reads(ts, start, r.next, Postfix(left, s), r.val)
  {
    hide ParseAt, LoopAt, At, Yield, BinaryOp, PostfixOp, LeftPower;
    var s := ts[pos].sym;
    if s == Dot || s == Arrow {
      FieldPieces(ts, start, left, s, ts[pos + 1].text);
    } else {
      PostfixPieces(ts, start, left, s);
    }
  }

  lemma {:induction false} LedSound(ts: seq<Token>, start: nat, pos: nat, left: Cst) returns (c: Cst)
    requires start < pos < |ts| && Reads(ts, start, pos, left, Denote(left))
    requires LedAt(ts, pos, Denote(left)).Ok?
    ensures var r := LedAt(ts, pos, Denote(left));
            Reads(ts, start, r.next, c, r.val) && Head(c) == Min(Power(ts[pos]), Head(left))
    decreases |ts| - pos, 0
  {
    hide ParseAt, LoopAt, NudAt, LedAt, ArgsAt, At, Yield, YieldArgs, BinaryOp, PostfixOp, LeftPower, Denote, Follow,
         Grammatical;
    LedOpens(ts, pos, Denote(left));
    var s := ts[pos].sym;
    if BinaryOp(s).Some? {
      BinaryPowers(s);
      var right := Sound(ts, pos + 1, LeftPower(s));
      c := Infix(left, s, right);
      InfixReads(ts, start, pos, left, right);
    } else if s == LBrack {
      var idx := Sound(ts, pos + 1, 0);
      c := IndexOf(left, idx);
      IndexReads(ts, start, pos, left, idx);
    } else if s == LPar {
      LedClosesCall(ts, pos, Denote(left));
      var args := ArgsSound(ts, pos + 1);
      c := CallOf(left, args);
      CallReads(ts, start, pos, left, args);
    } else {
      c := if s == Dot || s == Arrow then FieldOf(left, s, ts[pos + 1].text) else Postfix(left, s);
      SuffixReads(ts, start, pos, left);
    }
  }

  lemma {:induction false} ArgsSound(ts: seq<Token>, pos: nat) returns (args: seq<Cst>)
    requires ArgsAt(ts, pos).Ok? && ts[ArgsAt(ts, pos).next] == Op(RPar)
    ensures GrammaticalArgs(args) && At(ts, pos, YieldArgs(args))
    ensures ArgsAt(ts, pos) == Ok(DenoteArgs(args), pos + |YieldArgs(args)|)
    decreases |ts| - pos, 3
  {
    if ts[pos] == Op(RPar) {
      args := [];
    } else {
      hide ParseAt, At, Yield, Denote, Grammatical, MoreArgsAt;
      var first := Sound(ts, pos, 0);
      var more := MoreArgsSound(ts, ParseAt(ts, pos, 0).next);
      args := [first] + more;
      assert args[1..] == more;
      AtSplit(ts, pos, Yield(first), YieldMore(more));
    }
  }

  lemma NothingAt(ts: seq<Token>, pos: nat)
    requires pos <= |ts|
    ensures At(ts, pos, [])
  {}

  lemma {:induction false} MoreArgsSound(ts: seq<Token>, pos: nat) returns (args: seq<Cst>)
    requires pos < |ts| && MoreArgsAt(ts, pos).Ok? && ts[MoreArgsAt(ts, pos).next] == Op(RPar)
    ensures Power(ts[pos]) == 0
    ensures GrammaticalArgs(args) && At(ts, pos, YieldMore(args))
    ensures MoreArgsAt(ts, pos) == Ok(DenoteArgs(args), pos + |YieldMore(args)|)
    decreases |ts| - pos, 3
  {
    hide ParseAt, At, Yield, Denote, Grammatical;
    if ts[pos] != Op(Comma) {
      args := [];
      NothingAt(ts, pos);
    } else {
      var first := Sound(ts, pos + 1, 0);
      var more := MoreArgsSound(ts, ParseAt(ts, pos + 1, 0).next);
      args := [first] + more;
      assert args[1..] == more;
      MorePieces(ts, pos, args);
    }
  }
}
