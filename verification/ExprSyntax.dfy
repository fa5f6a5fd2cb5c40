// Tokens, expression trees and operator tables of the C expression parser
// (cdup/src/expr.py).
module ExprSyntax {
  import opened Wrappers

  // One constructor per operator or punctuation text the tokeniser can emit;
  // texts that occur in no table are kept in Other.
  datatype Sym =
    | OrOr | AndAnd | Bar | Caret | Amp | EqEq | NotEq | Lt | Gt | Le | Ge | Shl | Shr
    | Plus | Minus | Star | Slash | Percent | LBrack | RBrack | Dot | Arrow | LPar | RPar
    | PlusPlus | MinusMinus | Comma | Bang | Tilde | Other(text: string)

  datatype Literal = IntLit(value: nat) | FloatLit(text: string) | StrLit(text: string) | CharLit(text: string)

  // The tokeniser gives a text that starts with a letter, a digit or a quote to
  // NAME, NUM, STR or CHAR, so only an OP token can carry an operator's text.
  datatype Token = Lit(lit: Literal) | Ident(text: string) | Op(sym: Sym) | Eof

  datatype OpName =
    | AddOp | SubOp | MulOp | DivOp | ModOp | BitAnd | BitOr | BitXor | ShlOp | ShrOp
    | CmpEq | CmpNe | CmpLt | CmpGt | CmpLe | CmpGe | LogAnd | LogOr
    | Neg | LogNot | BitNot | AddrOf | Deref | PreInc | PreDec | PostInc | PostDec

  datatype Expr =
    | Name(id: string)
    | Const(lit: Literal)
    | Apply1(op: OpName, arg: Expr)
    | Apply2(op: OpName, left: Expr, right: Expr)
    | Index(arr: Expr, idx: Expr)
    | Field(obj: Expr, field: string)
    | Call(fn: string, args: seq<Expr>)
    | Cast(ty: seq<Token>, operand: Expr)
    | SizeofExpr(arg: Expr)
    | SizeofText(inner: seq<Token>)

  // _LBP, with 0 for every text that is not a key.
  function LeftPower(s: Sym): (p: nat)
    ensures p <= 130
  {
    match s
    case OrOr => 10
    case AndAnd => 20
    case Bar => 30
    case Caret => 40
    case Amp => 50
    case EqEq | NotEq => 60
    case Lt | Gt | Le | Ge => 70
    case Shl | Shr => 80
    case Plus | Minus => 90
    case Star | Slash | Percent => 100
    case LBrack => 110
    case Dot | Arrow | LPar => 120
    case PlusPlus | MinusMinus => 130
    case _ => 0
  }

  // The parse loop stops at EOF whatever the minimum is, hence a power below 0.
  function Power(t: Token): (p: int)
    ensures -1 <= p <= 130
    ensures p == -1 <==> t == Eof
  {
    match t
    case Op(s) => LeftPower(s)
    case Eof => -1
    case _ => 0
  }

  // _BINOP
  function BinaryOp(s: Sym): Option<OpName> {
    match s
    case Plus => Some(AddOp) case Minus => Some(SubOp) case Star => Some(MulOp)
    case Slash => Some(DivOp) case Percent => Some(ModOp)
    case Amp => Some(BitAnd) case Bar => Some(BitOr) case Caret => Some(BitXor)
    case Shl => Some(ShlOp) case Shr => Some(ShrOp)
    case EqEq => Some(CmpEq) case NotEq => Some(CmpNe)
    case Lt => Some(CmpLt) case Gt => Some(CmpGt) case Le => Some(CmpLe) case Ge => Some(CmpGe)
    case AndAnd => Some(LogAnd) case OrOr => Some(LogOr)
    case _ => None
  }

  // _UNOP
  function PrefixOp(s: Sym): Option<OpName> {
    match s
    case Minus => Some(Neg) case Bang => Some(LogNot) case Tilde => Some(BitNot)
    case Amp => Some(AddrOf) case Star => Some(Deref)
    case PlusPlus => Some(PreInc) case MinusMinus => Some(PreDec)
    case _ => None
  }

  // The two postfix tests at the end of _led.
  function PostfixOp(s: Sym): Option<OpName> {
    match s
    case PlusPlus => Some(PostInc) case MinusMinus => Some(PostDec)
    case _ => None
  }

  // _CAST_TYPES
  predicate IsTypeWord(w: string) {
    w in {"int", "long", "short", "char", "unsigned", "signed", "float", "double", "void", "size_t",
          "uint8_t", "uint16_t", "uint32_t", "uint64_t", "int8_t", "int16_t", "int32_t", "int64_t"}
  }

  predicate IsTypePart(t: Token) {
    t == Op(Star) || (t.Ident? && IsTypeWord(t.text))
  }

  // Every binary operator has a power the climbing loop can see, and none of the
  // grouping or postfix texts is a binary operator.
  lemma BinaryPowers(s: Sym)
    requires BinaryOp(s).Some?
    ensures 10 <= LeftPower(s) <= 100
    ensures s !in {LPar, RPar, LBrack, RBrack, Dot, Arrow, PlusPlus, MinusMinus, Comma}
  {}
}
