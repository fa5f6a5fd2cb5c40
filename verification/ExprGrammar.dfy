// An operator-precedence grammar written independently of the parser, and what its
// phrases look like to the cast test and the sizeof scan.
module ExprGrammar {
  import opened Wrappers
  import opened ExprSyntax
  import opened ExprParser

  // Concrete syntax: every node remembers its own tokens.
  datatype Cst =
    | Atom(tok: Token)
    | Group(body: Cst)
    | Prefix(sym: Sym, arg: Cst)
    | CastTo(parts: seq<Token>, arg: Cst)
    | SizeofOf(arg: Cst)
    | SizeofParens(inner: seq<Token>, closed: bool)
    | Infix(left: Cst, sym: Sym, right: Cst)
    | IndexOf(base: Cst, idx: Cst)
    | FieldOf(base: Cst, sym: Sym, field: string)
    | CallOf(base: Cst, args: seq<Cst>)
    | Postfix(base: Cst, sym: Sym)

  const UNBOUNDED := 1000

  function Min(a: int, b: int): int { if a <= b then a else b }

  // Tokens in source order.
  function Yield(c: Cst): (ts: seq<Token>)
    decreases c, 0
  {
    match c
    case Atom(t) => [t]
    case Group(b) => [Op(LPar)] + Yield(b) + [Op(RPar)]
    case Prefix(s, x) => [Op(s)] + Yield(x)
    case CastTo(parts, x) => [Op(LPar)] + parts + [Op(RPar)] + Yield(x)
    case SizeofOf(x) => [Ident("sizeof")] + Yield(x)
    case SizeofParens(inner, closed) =>
      [Ident("sizeof"), Op(LPar)] + inner + (if closed then [Op(RPar)] else [])
    case Infix(l, s, r) => Yield(l) + [Op(s)] + Yield(r)
    case IndexOf(a, i) => Yield(a) + [Op(LBrack)] + Yield(i) + [Op(RBrack)]
    case FieldOf(a, s, f) => Yield(a) + [Op(s), Ident(f)]
    case CallOf(f, args) => Yield(f) + [Op(LPar)] + YieldArgs(args) + [Op(RPar)]
    case Postfix(x, s) => Yield(x) + [Op(s)]
  }

  function YieldArgs(args: seq<Cst>): seq<Token>
    decreases args, 1
  {
    if args == [] then [] else Yield(args[0]) + YieldMore(args[1..])
  }

  function YieldMore(args: seq<Cst>): seq<Token>
    decreases args, 0
  {
    if args == [] then [] else [Op(Comma)] + Yield(args[0]) + YieldMore(args[1..])
  }

  // The tree a piece of syntax stands for.
  function Denote(c: Cst): Expr
    decreases c, 0
  {
    match c
    case Atom(t) => if t.Lit? then Const(t.lit) else if t.Ident? then Name(t.text) else Name("")
    case Group(b) => Denote(b)
    case Prefix(s, x) => Apply1(if PrefixOp(s).Some? then PrefixOp(s).value else Neg, Denote(x))
    case CastTo(parts, x) => Cast(parts, Denote(x))
    case SizeofOf(x) => SizeofExpr(Denote(x))
    case SizeofParens(inner, _) => SizeofText(inner)
    case Infix(l, s, r) =>
      Apply2(if BinaryOp(s).Some? then BinaryOp(s).value else AddOp, Denote(l), Denote(r))
    case IndexOf(a, i) => Index(Denote(a), Denote(i))
    case FieldOf(a, _, f) => Field(Denote(a), f)
    case CallOf(f, args) => Call(CalleeName(Denote(f)), DenoteArgs(args))
    case Postfix(x, s) => Apply1(if PostfixOp(s).Some? then PostfixOp(s).value else PostInc, Denote(x))
  }

  function DenoteArgs(args: seq<Cst>): seq<Expr>
    decreases args, 0
  {
    if args == [] then [] else [Denote(args[0])] + DenoteArgs(args[1..])
  }

  // The weakest operator exposed on the left edge: c can stand where every
  // operator must bind tighter than m exactly when m < Head(c).
  function Head(c: Cst): (h: int)
    ensures h <= UNBOUNDED
  {
    match c
    case Infix(l, s, _) => Min(LeftPower(s), Head(l))
    case IndexOf(a, _) => Min(LeftPower(LBrack), Head(a))
    case FieldOf(a, s, _) => Min(LeftPower(s), Head(a))
    case CallOf(f, _) => Min(LeftPower(LPar), Head(f))
    case Postfix(x, s) => Min(LeftPower(s), Head(x))
    case _ => UNBOUNDED
  }

  // The strongest token that may follow c without being drawn into it.  Prefix
  // operators and casts take their operand at 99, below the 100 of * / %.
  function Follow(c: Cst): (f: int)
    ensures -1 <= f <= UNBOUNDED
  {
    match c
    case Infix(_, s, r) => Min(LeftPower(s), Follow(r))
    case Prefix(_, x) => Min(99, Follow(x))
    case CastTo(_, x) => Min(99, Follow(x))
    case SizeofOf(x) => Min(100, Follow(x))
    case SizeofParens(_, closed) => if closed then UNBOUNDED else -1
    case _ => UNBOUNDED
  }

  // "sizeof (" has been read to depth d and the tokens close nothing.
  function DepthAfter(inner: seq<Token>, d: int): int {
    if inner == [] then d else DepthAfter(inner[1..], Deeper(inner[0], d))
  }

  predicate StaysInside(inner: seq<Token>, d: int) {
    inner == [] || (inner[0] != Eof && Deeper(inner[0], d) >= 1 && StaysInside(inner[1..], Deeper(inner[0], d)))
  }

  // "( body )" would be taken for a cast.
  predicate SpellsCast(body: seq<Token>) {
    var e := TypeEnd(body + [Op(RPar)], 0);
    0 < e < |body| + 1 && (body + [Op(RPar)])[e] == Op(RPar)
  }

  // The grammar.
  predicate Grammatical(c: Cst)
    decreases c, 0
  {
    match c
    case Atom(t) => t.Lit? || (t.Ident? && t.text != "sizeof")
    case Group(b) => Grammatical(b) && 0 <= Follow(b) && !SpellsCast(Yield(b))
    case Prefix(s, x) => PrefixOp(s).Some? && Grammatical(x) && 99 < Head(x)
    case CastTo(parts, x) =>
      parts != [] && (forall k :: 0 <= k < |parts| ==> IsTypePart(parts[k])) && Grammatical(x) && 99 < Head(x)
    case SizeofOf(x) => Grammatical(x) && 100 < Head(x) && !([Op(LPar)] <= Yield(x))
    case SizeofParens(inner, closed) => StaysInside(inner, 1) && (closed ==> DepthAfter(inner, 1) == 1)
    case Infix(l, s, r) =>
      BinaryOp(s).Some? && Grammatical(l) && Grammatical(r) && LeftPower(s) <= Follow(l) && LeftPower(s) < Head(r)
    case IndexOf(a, i) => Grammatical(a) && LeftPower(LBrack) <= Follow(a) && Grammatical(i) && 0 <= Follow(i)
    case FieldOf(a, s, _) => (s == Dot || s == Arrow) && Grammatical(a) && LeftPower(s) <= Follow(a)
    case CallOf(f, args) => Grammatical(f) && LeftPower(LPar) <= Follow(f) && GrammaticalArgs(args)
    case Postfix(x, s) => PostfixOp(s).Some? && Grammatical(x) && LeftPower(s) <= Follow(x)
  }

  predicate GrammaticalArgs(args: seq<Cst>)
    decreases args, 0
  {
    args == [] || (Grammatical(args[0]) && 0 <= Follow(args[0]) && GrammaticalArgs(args[1..]))
  }

  // ---- Reading a token list at a cursor ------------------------------------

  predicate At(ts: seq<Token>, pos: nat, w: seq<Token>) {
    pos + |w| <= |ts| && ts[pos..pos + |w|] == w
  }

  lemma AtSplit(ts: seq<Token>, pos: nat, a: seq<Token>, b: seq<Token>)
    ensures At(ts, pos, a + b) <==> At(ts, pos, a) && At(ts, pos + |a|, b)
  {
    if pos + |a| + |b| <= |ts| {
      assert ts[pos..pos + |a + b|] == ts[pos..pos + |a|] + ts[pos + |a|..pos + |a| + |b|];
      if At(ts, pos, a + b) {
        assert a == (a + b)[..|a|] == ts[pos..pos + |a|];
        assert b == (a + b)[|a|..] == ts[pos + |a|..pos + |a| + |b|];
      }
    }
  }

  lemma AtOne(ts: seq<Token>, pos: nat, t: Token)
    ensures At(ts, pos, [t]) <==> pos < |ts| && ts[pos] == t
  {
    if pos < |ts| { assert ts[pos..pos + 1] == [ts[pos]]; }
  }

  lemma AtCons(ts: seq<Token>, pos: nat, t: Token, w: seq<Token>)
    ensures At(ts, pos, [t] + w) <==> pos < |ts| && ts[pos] == t && At(ts, pos + 1, w)
  {
    AtSplit(ts, pos, [t], w);
    AtOne(ts, pos, t);
  }

  lemma AtSnoc(ts: seq<Token>, pos: nat, w: seq<Token>, t: Token)
    ensures At(ts, pos, w + [t]) <==> At(ts, pos, w) && pos + |w| < |ts| && ts[pos + |w|] == t
  {
    AtSplit(ts, pos, w, [t]);
    AtOne(ts, pos + |w|, t);
  }

  // ---- Where the pieces of each form stand -----------------------------------------

  lemma AtomPieces(ts: seq<Token>, pos: nat, t: Token)
    ensures |Yield(Atom(t))| == 1
    ensures At(ts, pos, Yield(Atom(t))) <==> pos < |ts| && ts[pos] == t
  {
    AtOne(ts, pos, t);
  }

  lemma GroupPieces(ts: seq<Token>, pos: nat, b: Cst)
    ensures |Yield(Group(b))| == |Yield(b)| + 2
    ensures At(ts, pos, Yield(Group(b))) <==>
            pos < |ts| && ts[pos] == Op(LPar) && At(ts, pos + 1, Yield(b) + [Op(RPar)])
    ensures At(ts, pos + 1, Yield(b) + [Op(RPar)]) <==>
            At(ts, pos + 1, Yield(b)) && pos + 1 + |Yield(b)| < |ts| && ts[pos + 1 + |Yield(b)|] == Op(RPar)
  {
    var y := Yield(b);
    assert Yield(Group(b)) == [Op(LPar)] + (y + [Op(RPar)]);
    AtCons(ts, pos, Op(LPar), y + [Op(RPar)]);
    AtSnoc(ts, pos + 1, y, Op(RPar));
  }

  lemma PrefixPieces(ts: seq<Token>, pos: nat, s: Sym, x: Cst)
    ensures |Yield(Prefix(s, x))| == 1 + |Yield(x)|
    ensures At(ts, pos, Yield(Prefix(s, x))) <==> pos < |ts| && ts[pos] == Op(s) && At(ts, pos + 1, Yield(x))
  {
    AtCons(ts, pos, Op(s), Yield(x));
  }

  lemma SizeofPieces(ts: seq<Token>, pos: nat, x: Cst)
    ensures |Yield(SizeofOf(x))| == 1 + |Yield(x)|
    ensures At(ts, pos, Yield(SizeofOf(x))) <==>
            pos < |ts| && ts[pos] == Ident("sizeof") && At(ts, pos + 1, Yield(x))
  {
    AtCons(ts, pos, Ident("sizeof"), Yield(x));
  }

  lemma SizeofParensPieces(ts: seq<Token>, pos: nat, inner: seq<Token>, closed: bool)
    ensures |Yield(SizeofParens(inner, closed))| == 2 + |inner| + if closed then 1 else 0
    ensures At(ts, pos, Yield(SizeofParens(inner, closed))) <==>
            pos + 1 < |ts| && ts[pos] == Ident("sizeof") && ts[pos + 1] == Op(LPar) && At(ts, pos + 2, inner)
            && (closed ==> pos + 2 + |inner| < |ts| && ts[pos + 2 + |inner|] == Op(RPar))
  {
    var tail := if closed then inner + [Op(RPar)] else inner;
    assert Yield(SizeofParens(inner, closed)) == [Ident("sizeof")] + ([Op(LPar)] + tail);
    AtCons(ts, pos, Ident("sizeof"), [Op(LPar)] + tail);
    AtCons(ts, pos + 1, Op(LPar), tail);
    AtSnoc(ts, pos + 2, inner, Op(RPar));
  }

  lemma CastPieces(ts: seq<Token>, pos: nat, parts: seq<Token>, x: Cst)
    ensures |Yield(CastTo(parts, x))| == 2 + |parts| + |Yield(x)|
    ensures At(ts, pos, Yield(CastTo(parts, x))) <==>
            pos < |ts| && ts[pos] == Op(LPar) && At(ts, pos + 1, parts)
            && pos + 1 + |parts| < |ts| && ts[pos + 1 + |parts|] == Op(RPar) && At(ts, pos + 2 + |parts|, Yield(x))
  {
    var y := Yield(x);
    assert Yield(CastTo(parts, x)) == [Op(LPar)] + (parts + ([Op(RPar)] + y));
    AtCons(ts, pos, Op(LPar), parts + ([Op(RPar)] + y));
    AtSplit(ts, pos + 1, parts, [Op(RPar)] + y);
    AtCons(ts, pos + 1 + |parts|, Op(RPar), y);
  }

  lemma InfixPieces(ts: seq<Token>, pos: nat, l: Cst, s: Sym, r: Cst)
    ensures |Yield(Infix(l, s, r))| == |Yield(l)| + 1 + |Yield(r)|
    ensures At(ts, pos, Yield(Infix(l, s, r))) <==>
            At(ts, pos, Yield(l)) && pos + |Yield(l)| < |ts| && ts[pos + |Yield(l)|] == Op(s)
            && At(ts, pos + |Yield(l)| + 1, Yield(r))
  {
    var y, z := Yield(l), Yield(r);
    AtSplit(ts, pos, y + [Op(s)], z);
    AtSnoc(ts, pos, y, Op(s));
  }

  lemma IndexPieces(ts: seq<Token>, pos: nat, a: Cst, i: Cst)
    ensures |Yield(IndexOf(a, i))| == |Yield(a)| + |Yield(i)| + 2
    ensures At(ts, pos, Yield(IndexOf(a, i))) <==>
            At(ts, pos, Yield(a)) && pos + |Yield(a)| < |ts| && ts[pos + |Yield(a)|] == Op(LBrack)
            && At(ts, pos + |Yield(a)| + 1, Yield(i))
            && pos + |Yield(a)| + 1 + |Yield(i)| < |ts| && ts[pos + |Yield(a)| + 1 + |Yield(i)|] == Op(RBrack)
  {
    hide At;
    var y, z := Yield(a), Yield(i);
    AtSnoc(ts, pos, y + [Op(LBrack)] + z, Op(RBrack));
    AtSplit(ts, pos, y + [Op(LBrack)], z);
    AtSnoc(ts, pos, y, Op(LBrack));
  }

  lemma FieldPieces(ts: seq<Token>, pos: nat, a: Cst, s: Sym, f: string)
    ensures |Yield(FieldOf(a, s, f))| == |Yield(a)| + 2
    ensures At(ts, pos, Yield(FieldOf(a, s, f))) <==>
            At(ts, pos, Yield(a)) && pos + |Yield(a)| + 1 < |ts|
            && ts[pos + |Yield(a)|] == Op(s) && ts[pos + |Yield(a)| + 1] == Ident(f)
  {
    var y := Yield(a);
    assert Yield(FieldOf(a, s, f)) == y + [Op(s)] + [Ident(f)];
    AtSnoc(ts, pos, y + [Op(s)], Ident(f));
    AtSnoc(ts, pos, y, Op(s));
  }

  lemma CallPieces(ts: seq<Token>, pos: nat, f: Cst, args: seq<Cst>)
    ensures |Yield(CallOf(f, args))| == |Yield(f)| + |YieldArgs(args)| + 2
    ensures At(ts, pos, Yield(CallOf(f, args))) <==>
            At(ts, pos, Yield(f)) && pos + |Yield(f)| < |ts| && ts[pos + |Yield(f)|] == Op(LPar)
            && At(ts, pos + |Yield(f)| + 1, YieldArgs(args))
            && pos + |Yield(f)| + 1 + |YieldArgs(args)| < |ts|
            && ts[pos + |Yield(f)| + 1 + |YieldArgs(args)|] == Op(RPar)
  {
    hide At, YieldArgs;
    var y, z := Yield(f), YieldArgs(args);
    AtSnoc(ts, pos, y + [Op(LPar)] + z, Op(RPar));
    AtSplit(ts, pos, y + [Op(LPar)], z);
    AtSnoc(ts, pos, y, Op(LPar));
  }

  lemma PostfixPieces(ts: seq<Token>, pos: nat, x: Cst, s: Sym)
    ensures |Yield(Postfix(x, s))| == |Yield(x)| + 1
    ensures At(ts, pos, Yield(Postfix(x, s))) <==>
            At(ts, pos, Yield(x)) && pos + |Yield(x)| < |ts| && ts[pos + |Yield(x)|] == Op(s)
  {
    AtSnoc(ts, pos, Yield(x), Op(s));
  }

  lemma MorePieces(ts: seq<Token>, pos: nat, args: seq<Cst>)
    requires args != []
    ensures |YieldMore(args)| == 1 + |Yield(args[0])| + |YieldMore(args[1..])|
    ensures At(ts, pos, YieldMore(args)) <==>
            pos < |ts| && ts[pos] == Op(Comma) && At(ts, pos + 1, Yield(args[0]))
            && At(ts, pos + 1 + |Yield(args[0])|, YieldMore(args[1..]))
  {
    var y, z := Yield(args[0]), YieldMore(args[1..]);
    AtSplit(ts, pos, [Op(Comma)] + y, z);
    AtCons(ts, pos, Op(Comma), y);
  }

  lemma AtFirst(ts: seq<Token>, pos: nat, w: seq<Token>)
    requires At(ts, pos, w) && w != []
    ensures ts[pos] == w[0]
  {
    assert ts[pos] == ts[pos..pos + |w|][0];
  }

  // ---- Facts about the grammar -----------------------------------------------

  lemma {:induction false} YieldBegins(c: Cst)
    requires Grammatical(c)
    ensures Yield(c) != [] && Yield(c)[0] != Op(RPar)
  {
    hide BinaryOp, SpellsCast, YieldArgs, Follow, Head, LeftPower;
    match c
    case Infix(l, _, _) => YieldBegins(l);
    case IndexOf(a, _) => YieldBegins(a);
    case FieldOf(a, _, _) => YieldBegins(a);
    case CallOf(f, _) => YieldBegins(f);
    case Postfix(x, _) => YieldBegins(x);
    case _ =>
  }

  lemma {:induction false} HeadIsPositive(c: Cst)
    requires Grammatical(c)
    ensures 0 < Head(c)
  {
    hide BinaryOp, SpellsCast, Yield, Follow;
    match c
    case Infix(l, s, _) => HeadIsPositive(l); BinaryPowers(s);
    case IndexOf(a, _) => HeadIsPositive(a);
    case FieldOf(a, _, _) => HeadIsPositive(a);
    case CallOf(f, _) => HeadIsPositive(f);
    case Postfix(x, _) => HeadIsPositive(x);
    case _ =>
  }

  lemma YieldStarts(c: Cst)
    requires Grammatical(c)
    ensures Yield(c) != [] && Yield(c)[0] != Op(RPar) && 0 < Head(c)
  {
    YieldBegins(c);
    HeadIsPositive(c);
  }

  // The cast test looks no further than the first token that is no type part.
  lemma {:induction false} TypeEndLocal(ts: seq<Token>, pos: nat, w: seq<Token>, from: nat)
    requires At(ts, pos, w) && from <= |w|
    requires TypeEnd(w, from) < |w|
    ensures TypeEnd(ts, pos + from) == pos + TypeEnd(w, from)
    ensures TypeEnd(w, from) < |w| ==> ts[pos + TypeEnd(w, from)] == w[TypeEnd(w, from)]
    decreases |w| - from
  {
    if from < |w| {
      assert ts[pos + from] == ts[pos..pos + |w|][from];
      if IsTypePart(w[from]) { TypeEndLocal(ts, pos, w, from + 1); }
    }
  }

  // Whether a parenthesis opens a cast depends on the group's own tokens only.
  lemma CastTest(ts: seq<Token>, pos: nat, body: seq<Token>)
    requires At(ts, pos, body + [Op(RPar)])
    ensures TryCast(ts, pos).Ok? && (TryCast(ts, pos).val.Some? <==> SpellsCast(body))
  {
    var w := body + [Op(RPar)];
    TypeEndStops(w, 0, |body|);
    TypeEndLocal(ts, pos, w, 0);
  }

  lemma {:induction false} TypeEndStops(w: seq<Token>, from: nat, stop: nat)
    requires from <= stop < |w| && !IsTypePart(w[stop])
    ensures TypeEnd(w, from) <= stop
    decreases stop - from
  {
    if from < stop && IsTypePart(w[from]) { TypeEndStops(w, from + 1, stop); }
  }

  lemma {:induction false} TypeEndIs(ts: seq<Token>, from: nat, stop: nat)
    requires from <= stop < |ts| && !IsTypePart(ts[stop])
    requires forall k :: from <= k < stop ==> IsTypePart(ts[k])
    ensures TypeEnd(ts, from) == stop
    decreases stop - from
  {
    if from < stop { TypeEndIs(ts, from + 1, stop); }
  }

  lemma CastReads(ts: seq<Token>, pos: nat, parts: seq<Token>)
    requires parts != [] && forall k :: 0 <= k < |parts| ==> IsTypePart(parts[k])
    requires At(ts, pos, parts) && pos + |parts| < |ts| && ts[pos + |parts|] == Op(RPar)
    ensures TryCast(ts, pos) == Ok(Some(parts), pos + |parts| + 1)
  {
    var e := pos + |parts|;
    forall k | pos <= k < e ensures IsTypePart(ts[k]) {
      assert ts[k] == ts[pos..e][k - pos];
    }
    TypeEndIs(ts, pos, e);
  }

  lemma {:induction false} SizeofScanReads(ts: seq<Token>, pos: nat, d: nat, inner: seq<Token>, closed: bool)
    requires d >= 1 && StaysInside(inner, d)
    requires At(ts, pos, inner) && pos + |inner| < |ts|
    requires if closed then DepthAfter(inner, d) == 1 && ts[pos + |inner|] == Op(RPar) else ts[pos + |inner|] == Eof
    ensures SizeofScan(ts, pos, d) == Ok(inner, pos + |inner| + if closed then 1 else 0)
    decreases |inner|
  {
    if inner != [] {
      assert inner == [inner[0]] + inner[1..];
      AtCons(ts, pos, inner[0], inner[1..]);
      SizeofScanReads(ts, pos + 1, Deeper(inner[0], d), inner[1..], closed);
    }
  }

  lemma {:induction false} SizeofScanFinds(ts: seq<Token>, pos: nat, d: nat) returns (closed: bool)
    requires d >= 1 && SizeofScan(ts, pos, d).Ok?
    ensures var r := SizeofScan(ts, pos, d);
            StaysInside(r.val, d) && At(ts, pos, r.val) && pos + |r.val| < |ts|
            && (if closed then DepthAfter(r.val, d) == 1 && ts[pos + |r.val|] == Op(RPar) && r.next == pos + |r.val| + 1
                else ts[pos + |r.val|] == Eof && r.next == pos + |r.val|)
    decreases |ts| - pos
  {
    if ts[pos] == Eof {
      closed := false;
    } else if Deeper(ts[pos], d) == 0 {
      closed := true;
    } else {
      closed := SizeofScanFinds(ts, pos + 1, Deeper(ts[pos], d));
      var rest := SizeofScan(ts, pos + 1, Deeper(ts[pos], d)).val;
      AtCons(ts, pos, ts[pos], rest);
      assert ([ts[pos]] + rest)[1..] == rest;
    }
  }
}
