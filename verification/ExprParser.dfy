// The Pratt parser of cdup/src/expr.py: the recursive specification of what each
// routine returns, and the class whose loops move the cursor.
module ExprParser {
  import opened Wrappers
  import opened ExprSyntax

  datatype Error = ValueError | IndexError

  // A value together with the cursor after it, or the exception raised.
  datatype Outcome<+T> = Ok(val: T, next: nat) | Fail(error: Error) {
    predicate IsFailure() { Fail? }
    function PropagateFailure<U>(): Outcome<U> requires Fail? { Fail(error) }
    function Extract(): (T, nat) requires Ok? { (val, next) }
  }

  function Expect(ts: seq<Token>, pos: nat, s: Sym): (r: Outcome<()>)
    ensures r.Ok? ==> pos < |ts| && ts[pos] == Op(s) && r.next == pos + 1
  {
    if pos >= |ts| then Fail(IndexError)
    else if ts[pos] == Op(s) then Ok((), pos + 1) else Fail(ValueError)
  }

  // First cursor at or after pos whose token is no part of a type.
  function TypeEnd(ts: seq<Token>, pos: nat): (e: nat)
    requires pos <= |ts|
    ensures pos <= e <= |ts|
    ensures forall k :: pos <= k < e ==> IsTypePart(ts[k])
    ensures e < |ts| ==> !IsTypePart(ts[e])
    decreases |ts| - pos
  {
    if pos < |ts| && IsTypePart(ts[pos]) then TypeEnd(ts, pos + 1) else pos
  }

  // _try_parse_cast_type: the type words when "words )" starts at pos.
  function TryCast(ts: seq<Token>, pos: nat): (r: Outcome<Option<seq<Token>>>)
    requires pos <= |ts|
    ensures r.Ok? && r.val.Some? ==> pos + 1 < r.next <= |ts|
  {
    var e := TypeEnd(ts, pos);
    if e >= |ts| then Fail(IndexError)
    else if e > pos && ts[e] == Op(RPar) then Ok(Some(ts[pos..e]), e + 1)
    else Ok(None, e)
  }

  function Deeper(t: Token, depth: int): int {
    if t == Op(LPar) then depth + 1 else if t == Op(RPar) then depth - 1 else depth
  }

  // The token loop after "sizeof (": stops at the matching parenthesis or at EOF.
  function SizeofScan(ts: seq<Token>, pos: nat, depth: nat): (r: Outcome<seq<Token>>)
    requires depth >= 1
    ensures r.Ok? ==> pos <= r.next <= |ts|
    decreases |ts| - pos
  {
    if pos >= |ts| then Fail(IndexError)
    else if ts[pos] == Eof then Ok([], pos)
    else if Deeper(ts[pos], depth) == 0 then Ok([], pos + 1)
    else
      var (rest, p) :- SizeofScan(ts, pos + 1, Deeper(ts[pos], depth));
      Ok([ts[pos]] + rest, p)
  }

  function ParseAt(ts: seq<Token>, pos: nat, min: nat): (r: Outcome<Expr>)
    ensures r.Ok? ==> pos < r.next < |ts| && Power(ts[r.next]) <= min
    decreases |ts| - pos, 2
  {
    var (left, p) :- NudAt(ts, pos);
    LoopAt(ts, p, left, min)
  }

  function LoopAt(ts: seq<Token>, pos: nat, left: Expr, min: nat): (r: Outcome<Expr>)
    ensures r.Ok? ==> pos <= r.next < |ts| && Power(ts[r.next]) <= min
    decreases |ts| - pos, 1
  {
    if pos >= |ts| then Fail(IndexError)
    else if ts[pos] == Eof || Power(ts[pos]) <= min then Ok(left, pos)
    else
      var (left', p) :- LedAt(ts, pos, left);
      LoopAt(ts, p, left', min)
  }

  function NudAt(ts: seq<Token>, pos: nat): (r: Outcome<Expr>)
    ensures r.Ok? ==> pos < r.next <= |ts|
    decreases |ts| - pos, 0
  {
    if pos >= |ts| then Fail(IndexError) else
    match ts[pos]
    case Lit(l) => Ok(Const(l), pos + 1)
    case Ident(t) =>
      if t != "sizeof" then Ok(Name(t), pos + 1)
      else if pos + 1 >= |ts| then Fail(IndexError)
      else if ts[pos + 1] == Op(LPar) then
        var (inner, p) :- SizeofScan(ts, pos + 2, 1);
        Ok(SizeofText(inner), p)
      else
        var (x, p) :- ParseAt(ts, pos + 1, 100);
        Ok(SizeofExpr(x), p)
    case Op(s) =>
      if s == LPar then
        var (ty, p) :- TryCast(ts, pos + 1);
        if ty.Some? then
          var (x, p') :- ParseAt(ts, p, 99);
          Ok(Cast(ty.value, x), p')
        else
          var (x, p') :- ParseAt(ts, pos + 1, 0);
          var (_, p'') :- Expect(ts, p', RPar);
          Ok(x, p'')
      else if PrefixOp(s).Some? then
        var (x, p) :- ParseAt(ts, pos + 1, 99);
        Ok(Apply1(PrefixOp(s).value, x), p)
      else Fail(ValueError)
    case Eof => Fail(ValueError)
  }

  function CalleeName(left: Expr): string {
    if left.Name? then left.id else "unknown"
  }

  function LedAt(ts: seq<Token>, pos: nat, left: Expr): (r: Outcome<Expr>)
    requires pos < |ts|
    ensures r.Ok? ==> pos < r.next <= |ts|
    decreases |ts| - pos, 0
  {
    if !ts[pos].Op? then Fail(ValueError) else
    var s := ts[pos].sym;
    if BinaryOp(s).Some? then
      var (right, p) :- ParseAt(ts, pos + 1, LeftPower(s));
      Ok(Apply2(BinaryOp(s).value, left, right), p)
    else if s == LBrack then
      var (idx, p) :- ParseAt(ts, pos + 1, 0);
      var (_, p') :- Expect(ts, p, RBrack);
      Ok(Index(left, idx), p')
    else if s == Dot || s == Arrow then
      if pos + 1 >= |ts| then Fail(IndexError)
      else if !ts[pos + 1].Ident? then Fail(ValueError)
      else Ok(Field(left, ts[pos + 1].text), pos + 2)
    else if s == LPar then
      var (args, p) :- ArgsAt(ts, pos + 1);
      var (_, p') :- Expect(ts, p, RPar);
      Ok(Call(CalleeName(left), args), p')
    else if PostfixOp(s).Some? then Ok(Apply1(PostfixOp(s).value, left), pos + 1)
    else Fail(ValueError)
  }

  function ArgsAt(ts: seq<Token>, pos: nat): (r: Outcome<seq<Expr>>)
    ensures r.Ok? ==> pos <= r.next < |ts|
    decreases |ts| - pos, 3
  {
    if pos >= |ts| then Fail(IndexError)
    else if ts[pos] == Op(RPar) then Ok([], pos)
    else
      var (x, p) :- ParseAt(ts, pos, 0);
      var (rest, p') :- MoreArgsAt(ts, p);
      Ok([x] + rest, p')
  }

  // The arguments that follow one already parsed.
  function MoreArgsAt(ts: seq<Token>, pos: nat): (r: Outcome<seq<Expr>>)
    requires pos < |ts|
    ensures r.Ok? ==> pos <= r.next < |ts|
    decreases |ts| - pos, 3
  {
    if ts[pos] != Op(Comma) then Ok([], pos)
    else
      var (x, p) :- ParseAt(ts, pos + 1, 0);
      var (rest, p') :- MoreArgsAt(ts, p);
      Ok([x] + rest, p')
  }

  // parse_expr after tokenising: every failure and every leftover token gives None.
  function ParseTokens(ts: seq<Token>): Option<Expr> {
    var r := ParseAt(ts, 0, 0);
    if r.Ok? && ts[r.next] == Eof then Some(r.val) else None
  }

  // The items already collected, put before what a loop still has to collect.
  function Before<T>(done: seq<T>, rest: Outcome<seq<T>>): Outcome<seq<T>> {
    if rest.Ok? then Ok(done + rest.val, rest.next) else rest
  }

  lemma BeforeNothing<T>(rest: Outcome<seq<T>>)
    ensures Before([], rest) == rest
  {
    if rest.Ok? { assert [] + rest.val == rest.val; }
  }

  lemma BeforeMore<T>(done: seq<T>, x: T, rest: Outcome<seq<T>>)
    ensures Before(done, Before([x], rest)) == Before(done + [x], rest)
  {
    if rest.Ok? { assert done + ([x] + rest.val) == done + [x] + rest.val; }
  }

  // A routine's result; the cursor is the parser's own field.
  datatype Result<+T> = Done(val: T) | Raised(error: Error)

  class Parser {
    const tokens: seq<Token>
    var pos: nat

    constructor (ts: seq<Token>)
      ensures tokens == ts && pos == 0
    {
      tokens := ts;
      pos := 0;
    }

    // What a call that started at cursor `start` did, against its specification.
    // After an exception the parser is dropped, so its cursor is not constrained.
    ghost predicate Did<T>(r: Result<T>, spec: Outcome<T>)
      reads this`pos
    {
      match spec
      case Ok(v, next) => r == Done(v) && pos == next
      case Fail(e) => r == Raised(e)
    }

    method ExpectSym(s: Sym) returns (r: Result<()>)
      modifies this`pos
      ensures Did(r, Expect(tokens, old(pos), s))
    {
      if pos >= |tokens| { return Raised(IndexError); }
      var t := tokens[pos];
      pos := pos + 1;
      if t != Op(s) { return Raised(ValueError); }
      return Done(());
    }

    method TryParseCastType() returns (r: Result<Option<seq<Token>>>)
      requires pos <= |tokens|
      modifies this`pos
      ensures Did(r, TryCast(tokens, old(pos)))
    {
      var parts := [];
      ghost var start := pos;
      while pos < |tokens| && IsTypePart(tokens[pos])
        invariant start <= pos <= |tokens|
        invariant parts == tokens[start..pos]
        invariant TypeEnd(tokens, start) == TypeEnd(tokens, pos)
      {
        parts := parts + [tokens[pos]];
        pos := pos + 1;
      }
      if pos >= |tokens| { return Raised(IndexError); }
      if parts != [] && tokens[pos] == Op(RPar) {
        pos := pos + 1;
        return Done(Some(parts));
      }
      return Done(None);
    }

    method ScanSizeof() returns (r: Result<seq<Token>>)
      modifies this`pos
      ensures Did(r, SizeofScan(tokens, old(pos), 1))
    {
      var depth: nat, inner := 1, [];
      ghost var start := pos;
      BeforeNothing(SizeofScan(tokens, start, 1));
      while true
        invariant depth >= 1 && start <= pos
        invariant SizeofScan(tokens, start, 1) == Before(inner, SizeofScan(tokens, pos, depth))
        decreases |tokens| - pos
      {
        if pos >= |tokens| { return Raised(IndexError); }
        var t := tokens[pos];
        if t == Eof { break; }
        pos := pos + 1;
        if t == Op(LPar) {
          depth := depth + 1;
        } else if t == Op(RPar) {
          depth := depth - 1;
          if depth == 0 { break; }
        }
        BeforeMore(inner, t, SizeofScan(tokens, pos, depth));
        inner := inner + [t];
      }
      assert inner + [] == inner;
      return Done(inner);
    }

    method Parse(min: nat) returns (r: Result<Expr>)
      modifies this`pos
      ensures Did(r, ParseAt(tokens, old(pos), min))
      decreases |tokens| - pos, 2
    {
      ghost var start := pos;
      r := Nud();
      if r.Raised? { return; }
      var left := r.val;
      while true
        invariant start < pos
        invariant ParseAt(tokens, start, min) == LoopAt(tokens, pos, left, min)
        decreases |tokens| - pos
      {
        if pos >= |tokens| { return Raised(IndexError); }
        if tokens[pos] == Eof { break; }
        if Power(tokens[pos]) <= min { break; }
        r := Led(left);
        if r.Raised? { return; }
        left := r.val;
      }
      return Done(left);
    }

    method Nud() returns (r: Result<Expr>)
      modifies this`pos
      ensures Did(r, NudAt(tokens, old(pos)))
      decreases |tokens| - pos, 0
    {
      if pos >= |tokens| { return Raised(IndexError); }
      var t := tokens[pos];
      pos := pos + 1;
      if t.Lit? { return Done(Const(t.lit)); }
      if t.Ident? {
        if t.text == "sizeof" {
          if pos >= |tokens| { return Raised(IndexError); }
          if tokens[pos] == Op(LPar) {
            pos := pos + 1;
            var inner := ScanSizeof();
            if inner.Raised? { return Raised(inner.error); }
            return Done(SizeofText(inner.val));
          }
          r := Parse(100);
          if r.Done? { r := Done(SizeofExpr(r.val)); }
          return;
        }
        return Done(Name(t.text));
      }
      if t == Op(LPar) {
        var saved := pos;
        var ty := TryParseCastType();
        if ty.Raised? { return Raised(ty.error); }
        if ty.val.Some? {
          r := Parse(99);
          if r.Done? { r := Done(Cast(ty.val.value, r.val)); }
          return;
        }
        pos := saved;
        r := Parse(0);
        if r.Raised? { return; }
        var close := ExpectSym(RPar);
        if close.Raised? { return Raised(close.error); }
        return;
      }
      if t.Op? && PrefixOp(t.sym).Some? {
        r := Parse(99);
        if r.Done? { r := Done(Apply1(PrefixOp(t.sym).value, r.val)); }
        return;
      }
      return Raised(ValueError);
    }

    method Led(left: Expr) returns (r: Result<Expr>)
      requires pos < |tokens|
      modifies this`pos
      ensures Did(r, LedAt(tokens, old(pos), left))
      decreases |tokens| - pos, 0
    {
      var t := tokens[pos];
      pos := pos + 1;
      if !t.Op? { return Raised(ValueError); }
      var s := t.sym;
      if BinaryOp(s).Some? {
        r := Parse(LeftPower(s));
        if r.Done? { r := Done(Apply2(BinaryOp(s).value, left, r.val)); }
        return;
      }
      if s == LBrack {
        r := Parse(0);
        if r.Raised? { return; }
        var close := ExpectSym(RBrack);
        if close.Raised? { return Raised(close.error); }
        return Done(Index(left, r.val));
      }
      if s == Dot || s == Arrow {
        if pos >= |tokens| { return Raised(IndexError); }
        var name := tokens[pos];
        pos := pos + 1;
        if !name.Ident? { return Raised(ValueError); }
        return Done(Field(left, name.text));
      }
      if s == LPar {
        var args := ParseArgs();
        if args.Raised? { return Raised(args.error); }
        var close := ExpectSym(RPar);
        if close.Raised? { return Raised(close.error); }
        return Done(Call(CalleeName(left), args.val));
      }
      if PostfixOp(s).Some? { return Done(Apply1(PostfixOp(s).value, left)); }
      return Raised(ValueError);
    }

    // The argument list of the call case of _led.
    method ParseArgs() returns (r: Result<seq<Expr>>)
      modifies this`pos
      ensures Did(r, ArgsAt(tokens, old(pos)))
      decreases |tokens| - pos, 3
    {
      ghost var start := pos;
      if pos >= |tokens| { return Raised(IndexError); }
      if tokens[pos] == Op(RPar) { return Done([]); }
      var x := Parse(0);
      if x.Raised? { return Raised(x.error); }
      var args := [x.val];
      while tokens[pos] == Op(Comma)
        invariant start < pos < |tokens|
        invariant ArgsAt(tokens, start) == Before(args, MoreArgsAt(tokens, pos))
        decreases |tokens| - pos
      {
        pos := pos + 1;
        x := Parse(0);
        if x.Raised? { return Raised(x.error); }
        BeforeMore(args, x.val, MoreArgsAt(tokens, pos));
        args := args + [x.val];
      }
      assert args + [] == args;
      return Done(args);
    }
  }

  // parse_expr on a token list.
  method ParseExpr(ts: seq<Token>) returns (r: Option<Expr>)
    ensures r == ParseTokens(ts)
  {
    var parser := new Parser(ts);
    var tree := parser.Parse(0);
    if tree.Done? && parser.tokens[parser.pos] == Eof { return Some(tree.val); }
    return None;
  }
}
