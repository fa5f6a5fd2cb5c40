// How the parser reads the operators of C: the ten binary levels of sections 6.5.5 to
// 6.5.14 of C11, listed without numbers, and the reading of every other construct.
module ExprReadings {
  import opened Wrappers
  import opened ExprSyntax
  import opened ExprParser
  import opened ExprGrammar
  import opened ExprLaws

  // ---- The binary levels -------------------------------------------------------------------

  datatype Operator = Operator(sym: Sym, op: OpName)

  const LEVELS := 10

  // The operators of level i, the tightest level being 0.
  function Level(i: int): seq<Operator> {
    match i
    case 0 => [Operator(Star, MulOp), Operator(Slash, DivOp), Operator(Percent, ModOp)]
    case 1 => [Operator(Plus, AddOp), Operator(Minus, SubOp)]
    case 2 => [Operator(Shl, ShlOp), Operator(Shr, ShrOp)]
    case 3 => [Operator(Lt, CmpLt), Operator(Gt, CmpGt), Operator(Le, CmpLe), Operator(Ge, CmpGe)]
    case 4 => [Operator(EqEq, CmpEq), Operator(NotEq, CmpNe)]
    case 5 => [Operator(Amp, BitAnd)]
    case 6 => [Operator(Caret, BitXor)]
    case 7 => [Operator(Bar, BitOr)]
    case 8 => [Operator(AndAnd, LogAnd)]
    case 9 => [Operator(OrOr, LogOr)]
    case _ => []
  }

  ghost predicate InLevel(s: Sym, i: int) { exists n :: Operator(s, n) in Level(i) }

  predicate IsOperator(s: Sym, n: OpName) { exists i :: 0 <= i < LEVELS && Operator(s, n) in Level(i) }

  // t stands in a tighter level than s.
  ghost predicate Tighter(t: Sym, s: Sym) { exists i, j :: i < j && InLevel(t, i) && InLevel(s, j) }

  function LevelOf(s: Sym): int {
    match s
    case Star | Slash | Percent => 0
    case Plus | Minus => 1
    case Shl | Shr => 2
    case Lt | Gt | Le | Ge => 3
    case EqEq | NotEq => 4
    case Amp => 5
    case Caret => 6
    case Bar => 7
    case AndAnd => 8
    case OrOr => 9
    case _ => -1
  }

  lemma LooseLevelGives(s: Sym, n: OpName, i: int)
    requires i > 2
    ensures Operator(s, n) in Level(i) ==> BinaryOp(s) == Some(n) && LevelOf(s) == i
  {}

  lemma TightLevelGives(s: Sym, n: OpName, i: int)
    requires i <= 2
    ensures Operator(s, n) in Level(i) ==> BinaryOp(s) == Some(n) && LevelOf(s) == i
  {}

  lemma LevelGives(s: Sym, n: OpName, i: int)
    ensures Operator(s, n) in Level(i) ==> BinaryOp(s) == Some(n) && LevelOf(s) == i
  {
    hide Level, LevelOf, BinaryOp;
    if i > 2 { LooseLevelGives(s, n, i); } else { TightLevelGives(s, n, i); }
  }

  lemma LevelHas(s: Sym)
    ensures BinaryOp(s).Some? ==> Operator(s, BinaryOp(s).value) in Level(LevelOf(s))
  {}

  lemma LevelHolds(s: Sym, n: OpName, i: int)
    ensures Operator(s, n) in Level(i) <==> BinaryOp(s) == Some(n) && LevelOf(s) == i
  {
    hide Level, LevelOf, BinaryOp;
    LevelGives(s, n, i);
    LevelHas(s);
  }

  lemma LevelInRange(s: Sym)
    ensures BinaryOp(s).Some? ==> 0 <= LevelOf(s) < LEVELS
  {}

  lemma LevelIs(s: Sym, i: int)
    ensures InLevel(s, i) <==> BinaryOp(s).Some? && LevelOf(s) == i
  {
    hide Level, LevelOf, BinaryOp;
    forall n ensures Operator(s, n) in Level(i) <==> BinaryOp(s) == Some(n) && LevelOf(s) == i {
      LevelHolds(s, n, i);
    }
    if BinaryOp(s).Some? && LevelOf(s) == i { assert Operator(s, BinaryOp(s).value) in Level(i); }
  }

  // The parser's table of binary operators is that list.
  lemma BinaryOpsAre(s: Sym, n: OpName)
    ensures BinaryOp(s) == Some(n) <==> IsOperator(s, n)
  {
    hide Level, LevelOf, BinaryOp;
    forall i ensures Operator(s, n) in Level(i) <==> BinaryOp(s) == Some(n) && LevelOf(s) == i {
      LevelHolds(s, n, i);
    }
    LevelInRange(s);
    if BinaryOp(s) == Some(n) { assert Operator(s, n) in Level(LevelOf(s)); }
  }

  lemma LevelsByPower(s: Sym, t: Sym)
    requires BinaryOp(s).Some? && BinaryOp(t).Some?
    ensures LevelOf(s) >= 0 && (LeftPower(s) < LeftPower(t) <==> LevelOf(t) < LevelOf(s))
  {}

  // And its powers order the levels.
  lemma PowersFollowLevels(s: Sym, t: Sym)
    requires BinaryOp(s).Some? && BinaryOp(t).Some?
    ensures LeftPower(s) < LeftPower(t) <==> Tighter(t, s)
  {
    hide InLevel, LevelOf, LeftPower, BinaryOp;
    forall i ensures (InLevel(s, i) <==> i == LevelOf(s)) && (InLevel(t, i) <==> i == LevelOf(t)) {
      LevelIs(s, i);
      LevelIs(t, i);
    }
    LevelsByPower(s, t);
    assert InLevel(s, LevelOf(s)) && InLevel(t, LevelOf(t));
  }

  // Left children are in no looser level than their parent, right children in a tighter one.
  ghost predicate FollowsLevels(e: Expr)
    requires IsBinaryTree(e)
  {
    e.Apply2? ==>
      FollowsLevels(e.left) && FollowsLevels(e.right)
      && (e.left.Apply2? ==> !Tighter(BinarySym(e.op).value, BinarySym(e.left.op).value))
      && (e.right.Apply2? ==> Tighter(BinarySym(e.right.op).value, BinarySym(e.op).value))
  }

  lemma {:induction false} TightFollowsLevels(e: Expr)
    requires IsBinaryTree(e)
    ensures IsTight(e) <==> FollowsLevels(e)
  {
    hide BinarySym, BinaryOp, LeftPower, Tighter;
    if e.Apply2? {
      TightFollowsLevels(e.left);
      TightFollowsLevels(e.right);
      BinarySymIsInverse(e.op);
      BinaryPowers(BinarySym(e.op).value);
      if e.left.Apply2? {
        BinarySymIsInverse(e.left.op);
        PowersFollowLevels(BinarySym(e.left.op).value, BinarySym(e.op).value);
      }
      if e.right.Apply2? {
        BinarySymIsInverse(e.right.op);
        PowersFollowLevels(BinarySym(e.op).value, BinarySym(e.right.op).value);
      }
    }
  }

  // Every chain of operands and binary operators is read as the one tree over it that
  // follows the levels, equal levels grouping to the left.
  lemma ChainsFollowLevels(w: seq<Token>, e: Expr)
    requires IsChain(w)
    ensures ParseTokens(w + [Eof]).Some?
    ensures ParseTokens(w + [Eof]) == Some(e) <==> IsBinaryTree(e) && InOrder(e) == w && FollowsLevels(e)
  {
    hide ParseTokens, IsTight, InOrder;
    ChainsHaveOneTree(w, e);
    if IsBinaryTree(e) { TightFollowsLevels(e); }
  }

  // "a s b t c" groups to the right exactly when t is tighter than s.
  lemma ThreeOperands(a: Token, s: Sym, b: Token, t: Sym, c: Token, m: OpName, n: OpName)
    requires IsLeaf(a) && IsLeaf(b) && IsLeaf(c) && IsOperator(s, m) && IsOperator(t, n)
    ensures ParseTokens([a, Op(s), b, Op(t), c, Eof]) ==
            Some(if Tighter(t, s) then Apply2(m, LeafExpr(a), Apply2(n, LeafExpr(b), LeafExpr(c)))
                 else Apply2(n, Apply2(m, LeafExpr(a), LeafExpr(b)), LeafExpr(c)))
  {
    hide ParseTokens, BinarySym, BinaryOp, Tighter, LeafExpr;
    BinaryOpsAre(s, m);
    BinaryOpsAre(t, n);
    BinaryOpIsInverse(s);
    BinaryOpIsInverse(t);
    LeafIsTree(a);
    LeafIsTree(b);
    LeafIsTree(c);
    var w := [a, Op(s), b, Op(t), c];
    assert w[2..] == [b, Op(t), c] && w[2..][2..] == [c];
    assert IsChain([c]) && IsChain([b, Op(t), c]) && IsChain(w);
    var e := if Tighter(t, s) then Apply2(m, LeafExpr(a), Apply2(n, LeafExpr(b), LeafExpr(c)))
             else Apply2(n, Apply2(m, LeafExpr(a), LeafExpr(b)), LeafExpr(c));
    TighterOneWay(s, t);
    SmallTree(m, LeafExpr(a), LeafExpr(b), s);
    SmallTree(n, LeafExpr(b), LeafExpr(c), t);
    assert IsBinaryTree(e) && FollowsLevels(e) && InOrder(e) == w;
    ChainsFollowLevels(w, e);
    assert w + [Eof] == [a, Op(s), b, Op(t), c, Eof];
  }

  lemma SmallTree(op: OpName, l: Expr, r: Expr, s: Sym)
    requires BinarySym(op) == Some(s) && IsBinaryTree(l) && IsBinaryTree(r) && !l.Apply2? && !r.Apply2?
    ensures var e := Apply2(op, l, r);
            IsBinaryTree(e) && FollowsLevels(e) && InOrder(e) == InOrder(l) + [Op(s)] + InOrder(r)
  {}

  lemma TighterOneWay(s: Sym, t: Sym)
    requires BinaryOp(s).Some? && BinaryOp(t).Some?
    ensures Tighter(t, s) ==> !Tighter(s, t)
  {
    PowersFollowLevels(s, t);
    PowersFollowLevels(t, s);
  }

  // ---- Prefix operators, casts and suffixes --------------------------------------------------

  const PREFIXES: seq<Operator> := [
    Operator(Minus, Neg), Operator(Bang, LogNot), Operator(Tilde, BitNot), Operator(Amp, AddrOf),
    Operator(Star, Deref), Operator(PlusPlus, PreInc), Operator(MinusMinus, PreDec)
  ]

  lemma UnaryOpsAre(s: Sym, n: OpName)
    ensures PrefixOp(s) == Some(n) <==> Operator(s, n) in PREFIXES
    ensures PostfixOp(s) == Some(n) <==> Operator(s, n) in [Operator(PlusPlus, PostInc), Operator(MinusMinus, PostDec)]
  {}

  // The words of a cast type: specifiers of section 6.7.2, size_t of section 7.19, and the
  // exact-width types of section 7.20.1.1.
  const SPECIFIERS := ["void", "char", "short", "int", "long", "float", "double", "signed", "unsigned"]
  const EXACT_WIDTH := ["int8_t", "int16_t", "int32_t", "int64_t", "uint8_t", "uint16_t", "uint32_t", "uint64_t"]

  lemma TypeWordsAre(w: string)
    ensures IsTypeWord(w) <==> w in SPECIFIERS || w in EXACT_WIDTH || w == "size_t"
  {}

  // A prefix operator or a cast.
  datatype Unary = Before(op: Operator) | ToType(parts: seq<Token>)

  ghost predicate IsUnary(u: Unary) {
    match u
    case Before(op) => op in PREFIXES
    case ToType(parts) =>
      parts != []
      && forall k :: 0 <= k < |parts| ==> parts[k] == Op(Star) || (parts[k].Ident? && IsTypeWord(parts[k].text))
  }

  function UnaryTokens(u: Unary): seq<Token> {
    match u
    case Before(op) => [Op(op.sym)]
    case ToType(parts) => [Op(LPar)] + parts + [Op(RPar)]
  }

  function ApplyUnary(u: Unary, e: Expr): Expr {
    match u
    case Before(op) => Apply1(op.op, e)
    case ToType(parts) => Cast(parts, e)
  }

  function UnaryCst(u: Unary, x: Cst): Cst {
    match u
    case Before(op) => Prefix(op.sym, x)
    case ToType(parts) => CastTo(parts, x)
  }

  lemma UnaryIsPhrase(u: Unary, x: Cst)
    requires IsUnary(u) && Grammatical(x) && 99 < Head(x)
    ensures var c := UnaryCst(u, x);
            Grammatical(c) && Denote(c) == ApplyUnary(u, Denote(x)) && Yield(c) == UnaryTokens(u) + Yield(x)
            && Head(c) == UNBOUNDED && Follow(c) == Min(99, Follow(x))
  {
    if u.Before? { UnaryOpsAre(u.op.sym, u.op.op); }
  }

  // A suffix after an operand: its operands are single tokens.
  datatype Suffix =
    | OfIndex(idx: Token)
    | OfField(arrow: bool, name: string)
    | OfCall(args: seq<Token>)
    | OfStep(up: bool)

  predicate IsSuffix(u: Suffix) {
    match u
    case OfIndex(i) => IsLeaf(i)
    case OfCall(args) => forall k :: 0 <= k < |args| ==> IsLeaf(args[k])
    case _ => true
  }

  function ArgTokens(args: seq<Token>): seq<Token> {
    if args == [] then [] else [Op(Comma), args[0]] + ArgTokens(args[1..])
  }

  function SuffixTokens(u: Suffix): seq<Token> {
    match u
    case OfIndex(i) => [Op(LBrack), i, Op(RBrack)]
    case OfField(arrow, name) => [Op(if arrow then Arrow else Dot), Ident(name)]
    case OfCall(args) => [Op(LPar)] + (if args == [] then [] else [args[0]] + ArgTokens(args[1..])) + [Op(RPar)]
    case OfStep(up) => [Op(if up then PlusPlus else MinusMinus)]
  }

  // Only a name is called by its own name.
  function ApplySuffix(e: Expr, u: Suffix): Expr
    requires IsSuffix(u)
  {
    match u
    case OfIndex(i) => Index(e, LeafExpr(i))
    case OfField(_, name) => Field(e, name)
    case OfCall(args) =>
      Call(if e.Name? then e.id else "unknown", seq(|args|, k requires 0 <= k < |args| => LeafExpr(args[k])))
    case OfStep(up) => Apply1(if up then PostInc else PostDec, e)
  }

  function SuffixCst(c: Cst, u: Suffix): Cst {
    match u
    case OfIndex(i) => IndexOf(c, Atom(i))
    case OfField(arrow, name) => FieldOf(c, if arrow then Arrow else Dot, name)
    case OfCall(args) => CallOf(c, Atoms(args))
    case OfStep(up) => Postfix(c, if up then PlusPlus else MinusMinus)
  }

  function Atoms(args: seq<Token>): seq<Cst> {
    seq(|args|, k requires 0 <= k < |args| => Atom(args[k]))
  }

  lemma {:induction false} AtomsArePhrases(args: seq<Token>)
    requires forall k :: 0 <= k < |args| ==> IsLeaf(args[k])
    ensures GrammaticalArgs(Atoms(args)) && YieldMore(Atoms(args)) == ArgTokens(args)
    ensures DenoteArgs(Atoms(args)) == seq(|args|, k requires 0 <= k < |args| => LeafExpr(args[k]))
  {
    hide IsLeaf, LeafExpr, Grammatical, Denote, Yield, Follow;
    if args != [] {
      LeafIsPhrase(args[0]);
      AtomsArePhrases(args[1..]);
      assert Atoms(args)[1..] == Atoms(args[1..]);
    }
  }

  // What SuffixIsPhrase says of one suffix.
  ghost predicate SuffixFits(c: Cst, u: Suffix)
    requires IsSuffix(u)
  {
    var r := SuffixCst(c, u);
    Grammatical(r) && Denote(r) == ApplySuffix(Denote(c), u) && Yield(r) == Yield(c) + SuffixTokens(u)
    && Follow(r) == UNBOUNDED && Head(r) >= Min(110, Head(c))
  }

  lemma IndexIsPhrase(c: Cst, i: Token)
    requires IsLeaf(i) && Grammatical(c) && Follow(c) == UNBOUNDED
    ensures SuffixFits(c, OfIndex(i))
  {
    hide IsLeaf, LeafExpr, Yield, Grammatical, Denote, Follow, Head;
    LeafIsPhrase(i);
    IndexYields(c, i);
    IndexParts(c, Atom(i));
  }

  lemma IndexParts(c: Cst, i: Cst)
    requires Grammatical(c) && Follow(c) == UNBOUNDED && Grammatical(i) && Follow(i) == UNBOUNDED
    ensures var r := IndexOf(c, i);
            Grammatical(r) && Follow(r) == UNBOUNDED && Head(r) >= Min(110, Head(c))
            && Denote(r) == Index(Denote(c), Denote(i))
  {
    hide Yield;
  }

  lemma IndexYields(c: Cst, i: Token)
    requires Yield(Atom(i)) == [i]
    ensures Yield(IndexOf(c, Atom(i))) == Yield(c) + SuffixTokens(OfIndex(i))
  {}

  lemma CallIsPhrase(c: Cst, args: seq<Token>)
    requires IsSuffix(OfCall(args)) && Grammatical(c) && Follow(c) == UNBOUNDED
    ensures SuffixFits(c, OfCall(args))
  {
    hide IsLeaf, LeafExpr, Yield, YieldArgs, DenoteArgs, GrammaticalArgs, Grammatical, Denote, Follow, Head, Atoms;
    AtomsArePhrases(args);
    CallYields(c, args);
    CallParts(c, Atoms(args));
  }

  lemma CallParts(c: Cst, args: seq<Cst>)
    requires Grammatical(c) && Follow(c) == UNBOUNDED && GrammaticalArgs(args)
    ensures var r := CallOf(c, args);
            Grammatical(r) && Follow(r) == UNBOUNDED && Head(r) >= Min(110, Head(c))
            && Denote(r) == Call(CalleeName(Denote(c)), DenoteArgs(args))
  {
    hide Yield, YieldArgs, DenoteArgs, GrammaticalArgs;
  }

  lemma CallYields(c: Cst, args: seq<Token>)
    requires IsSuffix(OfCall(args))
    ensures Yield(CallOf(c, Atoms(args))) == Yield(c) + SuffixTokens(OfCall(args))
  {
    hide IsLeaf, Yield, YieldArgs;
    YieldOfCall(c, Atoms(args));
    ArgsYield(args);
  }

  lemma YieldOfCall(c: Cst, args: seq<Cst>)
    ensures Yield(CallOf(c, args)) == Yield(c) + [Op(LPar)] + YieldArgs(args) + [Op(RPar)]
  {}

  lemma ArgsYield(args: seq<Token>)
    requires IsSuffix(OfCall(args))
    ensures YieldArgs(Atoms(args)) == if args == [] then [] else [args[0]] + ArgTokens(args[1..])
  {
    hide IsLeaf, Yield, YieldMore;
    if args != [] {
      AtomsArePhrases(args[1..]);
      LeafIsPhrase(args[0]);
      assert Atoms(args)[1..] == Atoms(args[1..]);
    }
  }

  lemma FieldIsPhrase(c: Cst, arrow: bool, name: string)
    requires Grammatical(c) && Follow(c) == UNBOUNDED
    ensures SuffixFits(c, OfField(arrow, name))
  {
    hide YieldArgs, DenoteArgs, GrammaticalArgs, BinaryOp, PrefixOp;
  }

  lemma StepIsPhrase(c: Cst, up: bool)
    requires Grammatical(c) && Follow(c) == UNBOUNDED
    ensures SuffixFits(c, OfStep(up))
  {
    hide Yield, Grammatical, Denote, Follow, Head;
    var s := if up then PlusPlus else MinusMinus;
    StepParts(c, s, if up then PostInc else PostDec);
    StepYields(c, s);
  }

  lemma StepParts(c: Cst, s: Sym, n: OpName)
    requires Grammatical(c) && Follow(c) == UNBOUNDED && PostfixOp(s) == Some(n) && LeftPower(s) == 130
    ensures var r := Postfix(c, s);
            Grammatical(r) && Follow(r) == UNBOUNDED && Head(r) >= Min(110, Head(c))
            && Denote(r) == Apply1(n, Denote(c))
  {
    hide Yield, PostfixOp, LeftPower;
  }

  lemma StepYields(c: Cst, s: Sym)
    ensures Yield(Postfix(c, s)) == Yield(c) + [Op(s)]
  {}

  lemma SuffixIsPhrase(c: Cst, u: Suffix)
    requires IsSuffix(u) && Grammatical(c) && Follow(c) == UNBOUNDED
    ensures SuffixFits(c, u)
  {
    hide Grammatical, Denote, Yield, SuffixFits;
    match u
    case OfIndex(i) => IndexIsPhrase(c, i);
    case OfCall(args) => CallIsPhrase(c, args);
    case OfField(arrow, name) => FieldIsPhrase(c, arrow, name);
    case OfStep(up) => StepIsPhrase(c, up);
  }

  function SuffixesTokens(us: seq<Suffix>): seq<Token> {
    if us == [] then [] else SuffixesTokens(us[..|us| - 1]) + SuffixTokens(us[|us| - 1])
  }

  function ApplySuffixes(e: Expr, us: seq<Suffix>): Expr
    requires forall k :: 0 <= k < |us| ==> IsSuffix(us[k])
  {
    if us == [] then e else ApplySuffix(ApplySuffixes(e, us[..|us| - 1]), us[|us| - 1])
  }

  function SuffixesCst(c: Cst, us: seq<Suffix>): Cst {
    if us == [] then c else SuffixCst(SuffixesCst(c, us[..|us| - 1]), us[|us| - 1])
  }

  lemma {:induction false} SuffixesArePhrase(c: Cst, us: seq<Suffix>)
    requires (forall k :: 0 <= k < |us| ==> IsSuffix(us[k])) && Grammatical(c) && Follow(c) == UNBOUNDED
    ensures var r := SuffixesCst(c, us);
            Grammatical(r) && Denote(r) == ApplySuffixes(Denote(c), us) && Yield(r) == Yield(c) + SuffixesTokens(us)
            && Follow(r) == UNBOUNDED && Head(r) >= Min(110, Head(c))
  {
    hide Grammatical, Denote, Yield, Follow, Head, SuffixCst, SuffixTokens, ApplySuffix, IsSuffix;
    if us != [] {
      SuffixesArePhrase(c, us[..|us| - 1]);
      SuffixIsPhrase(SuffixesCst(c, us[..|us| - 1]), us[|us| - 1]);
    }
  }

  // An operand with its suffixes, and what it is read as.
  datatype Operand = Operand(leaf: Token, suffixes: seq<Suffix>)

  predicate IsOperand(x: Operand) { IsLeaf(x.leaf) && forall k :: 0 <= k < |x.suffixes| ==> IsSuffix(x.suffixes[k]) }

  function OperandTokens(x: Operand): seq<Token> { [x.leaf] + SuffixesTokens(x.suffixes) }

  function OperandExpr(x: Operand): Expr
    requires IsOperand(x)
  {
    ApplySuffixes(LeafExpr(x.leaf), x.suffixes)
  }

  function OperandCst(x: Operand): Cst { SuffixesCst(Atom(x.leaf), x.suffixes) }

  lemma OperandIsPhrase(x: Operand)
    requires IsOperand(x)
    ensures var c := OperandCst(x);
            Grammatical(c) && Denote(c) == OperandExpr(x) && Yield(c) == OperandTokens(x) && Follow(c) == UNBOUNDED
            && Head(c) >= 110
  {
    LeafIsPhrase(x.leaf);
    SuffixesArePhrase(Atom(x.leaf), x.suffixes);
  }

  // Suffixes go to the operand they follow, in their order.
  lemma OperandIsRead(x: Operand)
    requires IsOperand(x)
    ensures ParseTokens(OperandTokens(x) + [Eof]) == Some(OperandExpr(x))
  {
    hide Grammatical, Denote, Yield;
    OperandIsPhrase(x);
    SentenceIsParsed(OperandTokens(x) + [Eof], OperandCst(x));
  }

  lemma InfixIsPhrase(l: Cst, s: Sym, n: OpName, r: Cst)
    requires IsOperator(s, n) && Grammatical(l) && Grammatical(r)
    requires LeftPower(s) <= Follow(l) && LeftPower(s) < Head(r)
    ensures var c := Infix(l, s, r);
            Grammatical(c) && Denote(c) == Apply2(n, Denote(l), Denote(r)) && Yield(c) == Yield(l) + [Op(s)] + Yield(r)
            && Head(c) == Min(LeftPower(s), Head(l)) && Follow(c) == Min(LeftPower(s), Follow(r))
  {
    BinaryOpsAre(s, n);
  }

  lemma ProductsAre(s: Sym, n: OpName)
    requires IsOperator(s, n)
    ensures 99 < LeftPower(s) <==> s in {Star, Slash, Percent}
    ensures 10 <= LeftPower(s) <= 100
  {
    BinaryOpsAre(s, n);
  }

  // "u x s y": a prefix operator or a cast takes the whole product, unlike section 6.5.3
  // of C11, and every other binary operator is left outside; a suffix never is.
  lemma UnaryTakesProducts(u: Unary, x: Operand, s: Sym, n: OpName, y: Operand)
    requires IsUnary(u) && IsOperand(x) && IsOperand(y) && IsOperator(s, n)
    ensures ParseTokens(UnaryTokens(u) + OperandTokens(x) + [Op(s)] + OperandTokens(y) + [Eof]) ==
            Some(if s in {Star, Slash, Percent} then ApplyUnary(u, Apply2(n, OperandExpr(x), OperandExpr(y)))
                 else Apply2(n, ApplyUnary(u, OperandExpr(x)), OperandExpr(y)))
  {
    hide ParseTokens, IsOperator, IsUnary, OperandTokens, OperandExpr, UnaryTokens, ApplyUnary;
    if s in {Star, Slash, Percent} {
      UnaryTakesProduct(u, x, s, n, y);
    } else {
      UnaryLeavesOthers(u, x, s, n, y);
    }
  }

  lemma UnaryTakesProduct(u: Unary, x: Operand, s: Sym, n: OpName, y: Operand)
    requires IsUnary(u) && IsOperand(x) && IsOperand(y) && IsOperator(s, n) && s in {Star, Slash, Percent}
    ensures ParseTokens(UnaryTokens(u) + OperandTokens(x) + [Op(s)] + OperandTokens(y) + [Eof]) ==
            Some(ApplyUnary(u, Apply2(n, OperandExpr(x), OperandExpr(y))))
  {
    hide Grammatical, Denote, Yield, IsOperator, LeftPower, Head, Follow, IsUnary, OperandTokens, OperandExpr,
         UnaryTokens, ApplyUnary, ParseTokens;
    var ts := UnaryTokens(u) + OperandTokens(x) + [Op(s)] + OperandTokens(y) + [Eof];
    var cx, cy := OperandCst(x), OperandCst(y);
    OperandIsPhrase(x);
    OperandIsPhrase(y);
    ProductsAre(s, n);
    InfixIsPhrase(cx, s, n, cy);
    UnaryIsPhrase(u, Infix(cx, s, cy));
    assert UnaryTokens(u) + (OperandTokens(x) + [Op(s)] + OperandTokens(y)) + [Eof] == ts;
    SentenceIsParsed(ts, UnaryCst(u, Infix(cx, s, cy)));
  }

  lemma UnaryLeavesOthers(u: Unary, x: Operand, s: Sym, n: OpName, y: Operand)
    requires IsUnary(u) && IsOperand(x) && IsOperand(y) && IsOperator(s, n) && s !in {Star, Slash, Percent}
    ensures ParseTokens(UnaryTokens(u) + OperandTokens(x) + [Op(s)] + OperandTokens(y) + [Eof]) ==
            Some(Apply2(n, ApplyUnary(u, OperandExpr(x)), OperandExpr(y)))
  {
    hide Grammatical, Denote, Yield, IsOperator, LeftPower, Head, Follow, IsUnary, OperandTokens, OperandExpr,
         UnaryTokens, ApplyUnary, ParseTokens;
    var ts := UnaryTokens(u) + OperandTokens(x) + [Op(s)] + OperandTokens(y) + [Eof];
    var cx, cy := OperandCst(x), OperandCst(y);
    OperandIsPhrase(x);
    OperandIsPhrase(y);
    ProductsAre(s, n);
    UnaryIsPhrase(u, cx);
    InfixIsPhrase(UnaryCst(u, cx), s, n, cy);
    SentenceIsParsed(ts, Infix(UnaryCst(u, cx), s, cy));
  }

  // "sizeof x s y": sizeof takes its operand alone.
  lemma SizeofTakesOperand(x: Operand, s: Sym, n: OpName, y: Operand)
    requires IsOperand(x) && IsOperand(y) && IsOperator(s, n)
    ensures ParseTokens([Ident("sizeof")] + OperandTokens(x) + [Op(s)] + OperandTokens(y) + [Eof]) ==
            Some(Apply2(n, SizeofExpr(OperandExpr(x)), OperandExpr(y)))
  {
    hide IsOperator, LeftPower, OperandTokens, OperandExpr;
    var ts := [Ident("sizeof")] + OperandTokens(x) + [Op(s)] + OperandTokens(y) + [Eof];
    var cx, cy := OperandCst(x), OperandCst(y);
    OperandIsPhrase(x);
    OperandIsPhrase(y);
    ProductsAre(s, n);
    assert OperandTokens(x)[0] == x.leaf by { OperandStarts(x); }
    InfixIsPhrase(SizeofOf(cx), s, n, cy);
    SentenceIsParsed(ts, Infix(SizeofOf(cx), s, cy));
  }

  lemma OperandStarts(x: Operand)
    ensures OperandTokens(x) != [] && OperandTokens(x)[0] == x.leaf
  {}

  // "( x s y ) t z" and "x s ( y t z )": parentheses group, where the first token inside
  // is no type word.
  lemma ParenthesesGroup(x: Operand, s: Sym, m: OpName, y: Operand, t: Sym, n: OpName, z: Operand)
    requires IsOperand(x) && IsOperand(y) && IsOperand(z) && IsOperator(s, m) && IsOperator(t, n)
    ensures (x.leaf.Ident? ==> !IsTypeWord(x.leaf.text)) ==>
              ParseTokens([Op(LPar)] + OperandTokens(x) + [Op(s)] + OperandTokens(y) + [Op(RPar)] + [Op(t)]
                          + OperandTokens(z) + [Eof]) ==
              Some(Apply2(n, Apply2(m, OperandExpr(x), OperandExpr(y)), OperandExpr(z)))
    ensures (y.leaf.Ident? ==> !IsTypeWord(y.leaf.text)) ==>
              ParseTokens(OperandTokens(x) + [Op(s)] + ([Op(LPar)] + OperandTokens(y) + [Op(t)] + OperandTokens(z)
                          + [Op(RPar)]) + [Eof]) ==
              Some(Apply2(m, OperandExpr(x), Apply2(n, OperandExpr(y), OperandExpr(z))))
  {
    hide IsOperator, LeftPower, OperandTokens, OperandExpr, SpellsCast;
    var cx, cy, cz := OperandCst(x), OperandCst(y), OperandCst(z);
    OperandIsPhrase(x);
    OperandIsPhrase(y);
    OperandIsPhrase(z);
    ProductsAre(s, m);
    ProductsAre(t, n);
    if x.leaf.Ident? ==> !IsTypeWord(x.leaf.text) {
      var g := GroupIsPhrase(x, s, m, y);
      InfixIsPhrase(g, t, n, cz);
      var ts := [Op(LPar)] + OperandTokens(x) + [Op(s)] + OperandTokens(y) + [Op(RPar)] + [Op(t)]
                + OperandTokens(z) + [Eof];
      assert Yield(Infix(g, t, cz)) + [Eof] == ts;
      SentenceIsParsed(ts, Infix(g, t, cz));
    }
    if y.leaf.Ident? ==> !IsTypeWord(y.leaf.text) {
      var g := GroupIsPhrase(y, t, n, z);
      InfixIsPhrase(cx, s, m, g);
      var ts := OperandTokens(x) + [Op(s)] + ([Op(LPar)] + OperandTokens(y) + [Op(t)] + OperandTokens(z)
                + [Op(RPar)]) + [Eof];
      assert Yield(Infix(cx, s, g)) + [Eof] == ts;
      SentenceIsParsed(ts, Infix(cx, s, g));
    }
  }

  lemma GroupIsPhrase(x: Operand, s: Sym, n: OpName, y: Operand) returns (g: Cst)
    requires IsOperand(x) && IsOperand(y) && IsOperator(s, n)
    requires x.leaf.Ident? ==> !IsTypeWord(x.leaf.text)
    ensures Grammatical(g) && Denote(g) == Apply2(n, OperandExpr(x), OperandExpr(y))
    ensures Yield(g) == [Op(LPar)] + OperandTokens(x) + [Op(s)] + OperandTokens(y) + [Op(RPar)]
    ensures Head(g) == UNBOUNDED == Follow(g)
  {
    hide IsOperator, LeftPower, OperandTokens, OperandExpr, SpellsCast;
    OperandIsPhrase(x);
    OperandIsPhrase(y);
    ProductsAre(s, n);
    InfixIsPhrase(OperandCst(x), s, n, OperandCst(y));
    var b := Infix(OperandCst(x), s, OperandCst(y));
    OperandStarts(x);
    NoCast(Yield(b), 0);
    g := Group(b);
  }

  // ---- sizeof ( ... ) --------------------------------------------------------------------------

  function Count(ts: seq<Token>, t: Token): nat { multiset(ts)[t] }

  // No prefix closes more parentheses than it opens, and as many are closed as opened.
  ghost predicate Balanced(ts: seq<Token>) {
    (forall k :: 0 <= k <= |ts| ==> Count(ts[..k], Op(RPar)) <= Count(ts[..k], Op(LPar)))
    && Count(ts, Op(RPar)) == Count(ts, Op(LPar)) && Eof !in ts
  }

  lemma {:induction false} DepthIsCount(ts: seq<Token>, d: int)
    ensures DepthAfter(ts, d) == d + Count(ts, Op(LPar)) - Count(ts, Op(RPar))
  {
    if ts != [] {
      assert ts == [ts[0]] + ts[1..];
      DepthIsCount(ts[1..], Deeper(ts[0], d));
    }
  }

  lemma {:induction false} StaysInsideIs(ts: seq<Token>, d: int)
    requires d >= 1 && Eof !in ts
    requires forall k :: 0 <= k <= |ts| ==> d + Count(ts[..k], Op(LPar)) - Count(ts[..k], Op(RPar)) >= 1
    ensures StaysInside(ts, d)
  {
    if ts != [] {
      var d' := Deeper(ts[0], d);
      assert ts[..1] == [ts[0]];
      forall k | 0 <= k <= |ts| - 1
        ensures d' + Count(ts[1..][..k], Op(LPar)) - Count(ts[1..][..k], Op(RPar)) >= 1
      {
        assert ts[..k + 1] == [ts[0]] + ts[1..][..k];
      }
      assert ts[0] in ts && forall t :: t in ts[1..] ==> t in ts;
      StaysInsideIs(ts[1..], d');
    }
  }

  // "sizeof ( ... ) s y": the text up to the matching parenthesis is kept as it is.
  lemma SizeofTextIsRead(inner: seq<Token>, s: Sym, n: OpName, y: Operand)
    requires Balanced(inner) && IsOperand(y) && IsOperator(s, n)
    ensures ParseTokens([Ident("sizeof"), Op(LPar)] + inner + [Op(RPar)] + [Op(s)] + OperandTokens(y) + [Eof]) ==
            Some(Apply2(n, SizeofText(inner), OperandExpr(y)))
  {
    hide IsOperator, LeftPower, OperandTokens, OperandExpr, StaysInside, DepthAfter;
    var c := SizeofParens(inner, true);
    assert inner[..|inner|] == inner;
    DepthIsCount(inner, 1);
    StaysInsideIs(inner, 1);
    OperandIsPhrase(y);
    ProductsAre(s, n);
    InfixIsPhrase(c, s, n, OperandCst(y));
    SentenceIsParsed([Ident("sizeof"), Op(LPar)] + inner + [Op(RPar)] + [Op(s)] + OperandTokens(y) + [Eof],
                     Infix(c, s, OperandCst(y)));
  }
}
