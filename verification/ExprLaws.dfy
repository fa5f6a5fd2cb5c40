// What the parser guarantees, stated on whole token lists.
module ExprLaws {
  import opened Wrappers
  import opened ExprSyntax
  import opened ExprParser
  import opened ExprGrammar
  import opened ExprExact

  // The token list is a sentence of the grammar, ended by EOF, that stands for e.
  ghost predicate IsSentenceFor(c: Cst, ts: seq<Token>, e: Expr) {
    Grammatical(c) && Denote(c) == e && Yield(c) + [Eof] <= ts
  }

  lemma SentenceIsParsed(ts: seq<Token>, c: Cst)
    requires IsSentenceFor(c, ts, Denote(c))
    ensures ParseTokens(ts) == Some(Denote(c))
  {
    hide ParseAt, LoopAt, Yield;
    var n := |Yield(c)|;
    assert ts[n] == (Yield(c) + [Eof])[n] == Eof;
    assert ts[0..n] == (Yield(c) + [Eof])[..n] == Yield(c);
    YieldStarts(c);
    Complete(ts, 0, 0, c);
    LoopStops(ts, n, Denote(c), 0);
  }

  lemma ParsedIsSentence(ts: seq<Token>) returns (c: Cst)
    requires ParseTokens(ts).Some?
    ensures IsSentenceFor(c, ts, ParseTokens(ts).value)
  {
    hide ParseAt, LoopAt, Yield;
    c := Sound(ts, 0, 0);
    var n := |Yield(c)|;
    assert ts[..n + 1] == ts[0..n] + [ts[n]];
  }

  // The parser accepts exactly the sentences of the grammar, and returns what they denote.
  lemma GrammarIsExact(ts: seq<Token>, e: Expr)
    ensures ParseTokens(ts) == Some(e) <==> exists c :: IsSentenceFor(c, ts, e)
  {
    if ParseTokens(ts) == Some(e) {
      var c := ParsedIsSentence(ts);
      assert IsSentenceFor(c, ts, e);
    }
    if c :| IsSentenceFor(c, ts, e) {
      SentenceIsParsed(ts, c);
    }
  }

  // Two readings of the same tokens stand for the same tree.
  lemma GrammarIsUnambiguous(c1: Cst, c2: Cst)
    requires Grammatical(c1) && Grammatical(c2) && Yield(c1) == Yield(c2)
    ensures Denote(c1) == Denote(c2)
  {
    var ts := Yield(c1) + [Eof];
    SentenceIsParsed(ts, c1);
    SentenceIsParsed(ts, c2);
  }

  // ---- Round trip --------------------------------------------------------------------

  function BinarySym(op: OpName): Option<Sym> {
    match op
    case AddOp => Some(Plus) case SubOp => Some(Minus) case MulOp => Some(Star)
    case DivOp => Some(Slash) case ModOp => Some(Percent)
    case BitAnd => Some(Amp) case BitOr => Some(Bar) case BitXor => Some(Caret)
    case ShlOp => Some(Shl) case ShrOp => Some(Shr)
    case CmpEq => Some(EqEq) case CmpNe => Some(NotEq)
    case CmpLt => Some(Lt) case CmpGt => Some(Gt) case CmpLe => Some(Le) case CmpGe => Some(Ge)
    case LogAnd => Some(AndAnd) case LogOr => Some(OrOr)
    case _ => None
  }

  function PrefixSym(op: OpName): Option<Sym> {
    match op
    case Neg => Some(Minus) case LogNot => Some(Bang) case BitNot => Some(Tilde)
    case AddrOf => Some(Amp) case Deref => Some(Star)
    case PreInc => Some(PlusPlus) case PreDec => Some(MinusMinus)
    case _ => None
  }

  function PostfixSym(op: OpName): Option<Sym> {
    match op
    case PostInc => Some(PlusPlus) case PostDec => Some(MinusMinus)
    case _ => None
  }

  predicate PlainName(s: string) { s != "sizeof" && !IsTypeWord(s) }

  // The trees with a printed form: every operator, cast, index, field and named call.
  predicate Printable(e: Expr)
    decreases e, 0
  {
    match e
    case Name(id) => PlainName(id)
    case Const(_) => true
    case Apply1(op, x) => (PrefixSym(op).Some? || PostfixSym(op).Some?) && Printable(x)
    case Apply2(op, l, r) => BinarySym(op).Some? && Printable(l) && Printable(r)
    case Index(a, i) => Printable(a) && Printable(i)
    case Field(a, _) => Printable(a)
    case Call(f, args) => PlainName(f) && PrintableArgs(args)
    case Cast(ty, x) => ty != [] && (forall k :: 0 <= k < |ty| ==> IsTypePart(ty[k])) && Printable(x)
    case SizeofExpr(_) | SizeofText(_) => false
  }

  predicate PrintableArgs(args: seq<Expr>)
    decreases args, 0
  {
    args == [] || (Printable(args[0]) && PrintableArgs(args[1..]))
  }

  // Fully parenthesised syntax; a bare operator form appears only inside Group.
  function Bracketed(e: Expr): Cst
    requires Printable(e)
    decreases e, 1
  {
    match e
    case Name(id) => Atom(Ident(id))
    case Const(l) => Atom(Lit(l))
    case _ => Group(Bare(e))
  }

  function Bare(e: Expr): Cst
    requires Printable(e)
    decreases e, 0
  {
    match e
    case Name(id) => Atom(Ident(id))
    case Const(l) => Atom(Lit(l))
    case Apply1(op, x) =>
      if PrefixSym(op).Some? then Prefix(PrefixSym(op).value, Bracketed(x))
      else Postfix(Bracketed(x), PostfixSym(op).value)
    case Apply2(op, l, r) => Infix(Bracketed(l), BinarySym(op).value, Bracketed(r))
    case Index(a, i) => IndexOf(Bracketed(a), Bracketed(i))
    case Field(a, f) => FieldOf(Bracketed(a), Dot, f)
    case Call(f, args) => CallOf(Atom(Ident(f)), BracketedArgs(args))
    case Cast(ty, x) => CastTo(ty, Bracketed(x))
  }

  function BracketedArgs(args: seq<Expr>): seq<Cst>
    requires PrintableArgs(args)
    decreases args, 0
  {
    if args == [] then [] else [Bracketed(args[0])] + BracketedArgs(args[1..])
  }

  function Print(e: Expr): seq<Token>
    requires Printable(e)
  {
    Yield(Bracketed(e))
  }

  // A token that is neither a type part nor ")" shows the parentheses hold no type.
  lemma NoCast(body: seq<Token>, k: nat)
    requires k < |body| && !IsTypePart(body[k])
    requires forall j :: 0 <= j <= k ==> body[j] != Op(RPar)
    ensures !SpellsCast(body)
  {
    TypeEndStops(body + [Op(RPar)], 0, k);
  }

  lemma PrintStarts(e: Expr)
    requires Printable(e)
    ensures var ts := Print(e); |ts| >= 1 && !IsTypePart(ts[0]) && ts[0] != Op(RPar)
  {}

  // A prefix "*" is a type part, but the operand after it is not.
  lemma PrefixSpellsNoCast(op: OpName, x: Expr)
    requires Printable(Apply1(op, x))
    ensures !SpellsCast(Yield(Bare(Apply1(op, x))))
  {
    hide SpellsCast;
    PrintStarts(x);
    NoCast(Yield(Bare(Apply1(op, x))), if PrefixSym(op).Some? then 1 else 0);
  }

  lemma CallSpellsNoCast(e: Expr)
    requires Printable(e) && e.Call?
    ensures !SpellsCast(Yield(Bare(e)))
  {
    hide SpellsCast;
    assert Yield(Bare(e))[0] == Ident(e.fn);
    NoCast(Yield(Bare(e)), 0);
  }

  lemma BareSpellsNoCast(e: Expr)
    requires Printable(e) && !e.Name? && !e.Const?
    ensures !SpellsCast(Yield(Bare(e)))
  {
    hide SpellsCast, IsTypePart;
    match e
    case Apply1(op, x) => PrefixSpellsNoCast(op, x);
    case Apply2(op, l, r) => PrintStarts(l); NoCast(Yield(Bare(e)), 0);
    case Index(a, i) => PrintStarts(a); NoCast(Yield(Bare(e)), 0);
    case Field(a, _) => PrintStarts(a); NoCast(Yield(Bare(e)), 0);
    case Call(f, args) => CallSpellsNoCast(e);
    case Cast(ty, x) => CastSpellsNoCast(e);
  }

  lemma CastSpellsNoCast(e: Expr)
    requires Printable(e) && e.Cast?
    ensures !SpellsCast(Yield(Bare(e)))
  {
    hide SpellsCast;
    NoCast(Yield(Bare(e)), 0);
  }

  lemma {:induction false} BracketedIsRight(e: Expr)
    requires Printable(e)
    ensures Grammatical(Bracketed(e)) && Denote(Bracketed(e)) == e
    ensures Head(Bracketed(e)) == UNBOUNDED == Follow(Bracketed(e))
    decreases e, 1
  {
    hide SpellsCast, Yield;
    if !e.Name? && !e.Const? {
      BareIsRight(e);
      BareSpellsNoCast(e);
    }
  }

  // What BracketedIsRight says of one operand.
  predicate IsRight(e: Expr) {
    Printable(e) && Grammatical(Bracketed(e)) && Denote(Bracketed(e)) == e
    && Head(Bracketed(e)) == UNBOUNDED == Follow(Bracketed(e))
  }

  lemma UnarySymIsInverse(op: OpName)
    ensures PrefixSym(op).Some? ==> PrefixOp(PrefixSym(op).value) == Some(op)
    ensures PostfixSym(op).Some? ==> PostfixOp(PostfixSym(op).value) == Some(op)
  {}

  lemma UnaryIsRight(op: OpName, x: Expr)
    requires Printable(Apply1(op, x)) && IsRight(x)
    ensures var b := Bare(Apply1(op, x)); Grammatical(b) && Denote(b) == Apply1(op, x) && 0 <= Follow(b)
  {
    hide SpellsCast, Yield, Bracketed, PrefixSym, PostfixSym, PrefixOp, PostfixOp;
    UnarySymIsInverse(op);
  }

  lemma BinaryIsRight(op: OpName, l: Expr, r: Expr)
    requires Printable(Apply2(op, l, r)) && IsRight(l) && IsRight(r)
    ensures var b := Bare(Apply2(op, l, r)); Grammatical(b) && Denote(b) == Apply2(op, l, r) && 0 <= Follow(b)
  {
    hide SpellsCast, Yield, Bracketed, BinarySym, BinaryOp, LeftPower;
    BinarySymIsInverse(op);
    BinaryPowers(BinarySym(op).value);
  }

  lemma {:induction false} BareIsRight(e: Expr)
    requires Printable(e) && !e.Name? && !e.Const?
    ensures Grammatical(Bare(e)) && Denote(Bare(e)) == e && 0 <= Follow(Bare(e))
    decreases e, 0
  {
    hide SpellsCast, Yield, BinarySym, PrefixSym, PostfixSym, BinaryOp, PrefixOp, PostfixOp;
    match e
    case Apply1(op, x) => BracketedIsRight(x); UnaryIsRight(op, x);
    case Apply2(op, l, r) => BracketedIsRight(l); BracketedIsRight(r); BinaryIsRight(op, l, r);
    case Index(a, i) => BracketedIsRight(a); BracketedIsRight(i);
    case Field(a, _) => BracketedIsRight(a);
    case Call(_, args) => ArgsAreRight(args);
    case Cast(_, x) => BracketedIsRight(x);
  }

  lemma {:induction false} ArgsAreRight(args: seq<Expr>)
    requires PrintableArgs(args)
    ensures GrammaticalArgs(BracketedArgs(args)) && DenoteArgs(BracketedArgs(args)) == args
    decreases args, 0
  {
    if args != [] {
      BracketedIsRight(args[0]);
      ArgsAreRight(args[1..]);
      assert BracketedArgs(args)[1..] == BracketedArgs(args[1..]);
    }
  }

  // Parsing the printed tokens gives the tree back and leaves nothing unread.
  lemma RoundTrip(e: Expr)
    requires Printable(e)
    ensures ParseTokens(Print(e) + [Eof]) == Some(e)
  {
    BracketedIsRight(e);
    SentenceIsParsed(Print(e) + [Eof], Bracketed(e));
  }

  // ---- Operator chains -----------------------------------------------------------------

  predicate IsLeaf(t: Token) {
    t.Lit? || (t.Ident? && t.text != "sizeof")
  }

  // leaf (op leaf)*
  predicate IsChain(w: seq<Token>) {
    |w| >= 1 && IsLeaf(w[0])
    && (|w| == 1 || (|w| >= 3 && w[1].Op? && BinaryOp(w[1].sym).Some? && IsChain(w[2..])))
  }

  // Trees of binary operators over leaves, and their in-order tokens.
  predicate IsBinaryTree(e: Expr) {
    match e
    case Name(id) => id != "sizeof"
    case Const(_) => true
    case Apply2(op, l, r) => BinarySym(op).Some? && IsBinaryTree(l) && IsBinaryTree(r)
    case _ => false
  }

  function InOrder(e: Expr): seq<Token>
    requires IsBinaryTree(e)
  {
    match e
    case Name(id) => [Ident(id)]
    case Const(l) => [Lit(l)]
    case Apply2(op, l, r) => InOrder(l) + [Op(BinarySym(op).value)] + InOrder(r)
  }

  function RootPower(e: Expr): int
    requires IsBinaryTree(e)
  {
    if e.Apply2? then LeftPower(BinarySym(e.op).value) else UNBOUNDED
  }

  // Left children bind at least as tightly as their parent, right children strictly tighter.
  predicate IsTight(e: Expr)
    requires IsBinaryTree(e)
  {
    e.Apply2? ==>
      RootPower(e.left) >= RootPower(e) && RootPower(e.right) > RootPower(e) && IsTight(e.left) && IsTight(e.right)
  }

  function AsCst(e: Expr): Cst
    requires IsBinaryTree(e)
  {
    match e
    case Name(id) => Atom(Ident(id))
    case Const(l) => Atom(Lit(l))
    case Apply2(op, l, r) => Infix(AsCst(l), BinarySym(op).value, AsCst(r))
  }

  lemma BinarySymIsInverse(op: OpName)
    requires BinarySym(op).Some?
    ensures BinaryOp(BinarySym(op).value) == Some(op)
  {}

  lemma BinaryOpIsInverse(s: Sym)
    requires BinaryOp(s).Some?
    ensures BinarySym(BinaryOp(s).value) == Some(s)
  {}

  lemma {:induction false} TightIsGrammatical(e: Expr)
    requires IsBinaryTree(e) && IsTight(e)
    ensures Grammatical(AsCst(e)) && Denote(AsCst(e)) == e && Yield(AsCst(e)) == InOrder(e)
    ensures Head(AsCst(e)) == Follow(AsCst(e)) == RootPower(e)
  {
    if e.Apply2? {
      BinarySymIsInverse(e.op);
      BinaryPowers(BinarySym(e.op).value);
      TightIsGrammatical(e.left);
      TightIsGrammatical(e.right);
    }
  }

  function LeafExpr(t: Token): Expr
    requires IsLeaf(t)
  {
    if t.Lit? then Const(t.lit) else Name(t.text)
  }

  lemma LeafIsTree(t: Token)
    requires IsLeaf(t)
    ensures IsBinaryTree(LeafExpr(t)) && IsTight(LeafExpr(t)) && InOrder(LeafExpr(t)) == [t]
    ensures !LeafExpr(t).Apply2?
  {}

  // The tight tree of a chain, extended on the right by one operator and one leaf.
  function Extend(e: Expr, op: OpName, leaf: Expr): Expr
    requires IsBinaryTree(e) && BinarySym(op).Some?
  {
    if e.Apply2? && RootPower(e) < LeftPower(BinarySym(op).value)
    then Apply2(e.op, e.left, Extend(e.right, op, leaf))
    else Apply2(op, e, leaf)
  }

  lemma {:induction false} ExtendIsTight(e: Expr, op: OpName, leaf: Expr)
    requires IsBinaryTree(e) && IsTight(e) && BinarySym(op).Some?
    requires IsBinaryTree(leaf) && !leaf.Apply2?
    ensures var r := Extend(e, op, leaf);
            IsBinaryTree(r) && IsTight(r) && InOrder(r) == InOrder(e) + [Op(BinarySym(op).value)] + InOrder(leaf)
            && RootPower(r) == Min(RootPower(e), LeftPower(BinarySym(op).value))
  {
    hide BinarySym, LeftPower;
    if e.Apply2? && RootPower(e) < LeftPower(BinarySym(op).value) {
      ExtendIsTight(e.right, op, leaf);
      assert InOrder(e) + [Op(BinarySym(op).value)] + InOrder(leaf) ==
             InOrder(e.left) + [Op(BinarySym(e.op).value)] + InOrder(Extend(e.right, op, leaf));
    }
  }

  lemma {:induction false} ChainHasTightTree(e: Expr, w: seq<Token>) returns (r: Expr)
    requires IsBinaryTree(e) && IsTight(e)
    requires |w| % 2 == 0
    requires forall k :: 0 <= k < |w| ==>
               if k % 2 == 0 then w[k].Op? && BinaryOp(w[k].sym).Some? else IsLeaf(w[k])
    ensures IsBinaryTree(r) && IsTight(r) && InOrder(r) == InOrder(e) + w
    decreases |w|
  {
    hide Extend, InOrder, IsTight, IsBinaryTree, BinarySym;
    if w == [] {
      r := e;
    } else {
      LeafIsTree(w[1]);
      var op := BinaryOp(w[0].sym).value;
      BinaryOpIsInverse(w[0].sym);
      ExtendIsTight(e, op, LeafExpr(w[1]));
      r := ChainHasTightTree(Extend(e, op, LeafExpr(w[1])), w[2..]);
      assert w == [w[0]] + [w[1]] + w[2..];
    }
  }

  lemma {:induction false} ChainShape(w: seq<Token>)
    requires IsChain(w)
    ensures |w| % 2 == 1
    ensures forall k :: 0 <= k < |w| ==>
              if k % 2 == 1 then w[k].Op? && BinaryOp(w[k].sym).Some? else IsLeaf(w[k])
  {
    if |w| > 1 {
      ChainShape(w[2..]);
      forall k | 2 <= k < |w|
        ensures if k % 2 == 1 then w[k].Op? && BinaryOp(w[k].sym).Some? else IsLeaf(w[k])
      {
        assert w[k] == w[2..][k - 2];
      }
    }
  }

  // Every operator chain is parsed whole, to the one tight tree it is the in-order of.
  lemma ChainsHaveOneTree(w: seq<Token>, e: Expr)
    requires IsChain(w)
    ensures ParseTokens(w + [Eof]).Some?
    ensures ParseTokens(w + [Eof]) == Some(e) <==> IsBinaryTree(e) && IsTight(e) && InOrder(e) == w
  {
    hide ParseTokens, Grammatical, Denote, Yield;
    ChainShape(w);
    var r := ChainHasTightTree(LeafExpr(w[0]), w[1..]);
    assert InOrder(r) == [w[0]] + w[1..] == w;
    TightIsGrammatical(r);
    SentenceIsParsed(w + [Eof], AsCst(r));
    if IsBinaryTree(e) && IsTight(e) && InOrder(e) == w {
      TightIsGrammatical(e);
      SentenceIsParsed(w + [Eof], AsCst(e));
    }
  }

  lemma LeafIsPhrase(t: Token)
    requires IsLeaf(t)
    ensures Grammatical(Atom(t)) && Denote(Atom(t)) == LeafExpr(t) && Yield(Atom(t)) == [t]
    ensures Head(Atom(t)) == UNBOUNDED == Follow(Atom(t))
  {}
}
