// Segment execution of the tree-walking interpreter (cdup/src/vm.py): statements,
// branches, capped loops and the trace, without user-defined calls.
module Vm {
  import opened Wrappers

  // How a statement leaves: falling through, by one of the three control
  // exceptions, or by any other exception.
  datatype Signal = Normal | Broke | Continued | Returned(value: Option<int>) | Crashed

  // What an expression does to the memory M (frame, heap and output together):
  // None is an exception.
  datatype Eval<M> = Eval(mem: M, result: Option<int>)

  // What a declaration, assignment, call or expression statement does; not every one
  // of them records a row.
  datatype Effect<M> = Effect(mem: M, ok: bool, recorded: bool)

  datatype ControlKind = Return | Break | Continue | OtherControl

  // Statements carry the meaning of their expressions; `update` is None when a loop
  // has no update clause.
  datatype Stmt<!M> =
    | Basic(run: M -> Effect<M>)
    | Control(kind: ControlKind, value: Option<M -> Eval<M>>)
    | Branch(cond: Option<M -> Eval<M>>)
    | Loop(doWhile: bool, init: M -> M, cond: Option<M -> Eval<M>>, update: Option<M -> Eval<M>>)

  datatype Seg<!M> = Seg(id: int, stmts: seq<Stmt<M>>, children: seq<Seg<M>>)

  // A trace row: which statement of which segment, in which iteration, the branch
  // decision, and the memory its read and write snapshots are taken from.
  datatype Row<M> = Row(seg: int, stmt: nat, iteration: Option<int>, taken: Option<bool>, before: M, after: M)

  datatype State<M> = State(mem: M, trace: seq<Row<M>>, capped: bool)
  datatype Out<M> = Out(sig: Signal, st: State<M>)

  function Record<M>(st: State<M>, row: Row<M>): State<M> {
    st.(trace := st.trace + [row])
  }

  predicate TakesChild<M>(s: Stmt<M>) { s.Branch? || s.Loop? }

  // The child cursor after statement i.
  function NextChild<M>(seg: Seg<M>, i: nat, c: nat): (c': nat)
    requires i < |seg.stmts| && c <= |seg.children|
    ensures c <= c' <= |seg.children|
  {
    if TakesChild(seg.stmts[i]) && c < |seg.children| then c + 1 else c
  }

  function ExecSeg<M>(seg: Seg<M>, st: State<M>, iter: Option<int>, cap: int): Out<M>
    decreases seg, 2, 0
  {
    ExecFrom(seg, 0, 0, st, iter, cap)
  }

  function ExecFrom<M>(seg: Seg<M>, i: nat, c: nat, st: State<M>, iter: Option<int>, cap: int): Out<M>
    requires i <= |seg.stmts| && c <= |seg.children|
    decreases seg, 1, |seg.stmts| - i
  {
    if i == |seg.stmts| then Out(Normal, st)
    else
      var r := ExecStmt(seg, i, c, st, iter, cap);
      if r.sig == Normal then ExecFrom(seg, i + 1, NextChild(seg, i, c), r.st, iter, cap) else r
  }

  function ExecStmt<M>(seg: Seg<M>, i: nat, c: nat, st: State<M>, iter: Option<int>, cap: int): Out<M>
    requires i < |seg.stmts| && c <= |seg.children|
    decreases seg, 0, 0
  {
    match seg.stmts[i]
    case Basic(run) =>
      var e := run(st.mem);
      var st' := st.(mem := e.mem);
      if !e.ok then Out(Crashed, st')
      else Out(Normal, if e.recorded then Record(st', Row(seg.id, i, iter, None, st.mem, e.mem)) else st')
    case Control(kind, value) => ExecControl(seg, i, kind, value, st, iter)
    case Branch(cond) =>
      if c == |seg.children| then Out(Normal, st)
      else
        var e := Decide(cond, st.mem, 1);
        var st' := st.(mem := e.mem);
        if e.result.None? then Out(Crashed, st')
        else
          var taken := e.result.value != 0;
          var st'' := Record(st', Row(seg.id, i, iter, Some(taken), e.mem, e.mem));
          if taken then ExecSeg(seg.children[c], st'', iter, cap) else Out(Normal, st'')
    case Loop(_, init, _, _) =>
      if c == |seg.children| then Out(Crashed, st)
      else LoopFrom(seg.stmts[i], seg.children[c], seg.id, i, st.(mem := init(st.mem)), 0, cap)
  }

  // A missing condition counts as true for a branch and as false for a loop.
  function Decide<M>(cond: Option<M -> Eval<M>>, mem: M, default: int): Eval<M> {
    if cond.Some? then cond.value(mem) else Eval(mem, Some(default))
  }

  function ExecControl<M>(seg: Seg<M>, i: nat, kind: ControlKind, value: Option<M -> Eval<M>>, st: State<M>,
                          iter: Option<int>): Out<M>
  {
    var st' := Record(st, Row(seg.id, i, iter, None, st.mem, st.mem));
    match kind
    case Return =>
      if value.None? then Out(Returned(None), st')
      else
        var e := value.value(st.mem);
        Out(if e.result.None? then Crashed else Returned(e.result), st'.(mem := e.mem))
    case Break => Out(Broke, st')
    case Continue => Out(Continued, st')
    case OtherControl => Out(Normal, st')
  }

  // A loop's condition, and its row.
  datatype Tested<M> = Tested(sig: Signal, st: State<M>, go: bool)

  function Test<M>(loop: Stmt<M>, parent: int, at: nat, st: State<M>, iters: int): Tested<M>
    requires loop.Loop?
  {
    var e := Decide(loop.cond, st.mem, 0);
    var st' := st.(mem := e.mem);
    if e.result.None? then Tested(Crashed, st', false)
    else
      var go := e.result.value != 0;
      Tested(Normal, Record(st', Row(parent, at, Some(iters), Some(go), st.mem, e.mem)), go)
  }

  function Update<M>(loop: Stmt<M>, st: State<M>): Out<M>
    requires loop.Loop?
  {
    if loop.update.None? then Out(Normal, st)
    else
      var e := loop.update.value(st.mem);
      Out(if e.result.None? then Crashed else Normal, st.(mem := e.mem))
  }

  // The loop from the test of the unroll cap on; `iters` iterations are done.
  function LoopFrom<M>(loop: Stmt<M>, body: Seg<M>, parent: int, at: nat, st: State<M>, iters: nat, cap: int): Out<M>
    requires loop.Loop?
    decreases body, 3, cap - iters
  {
    if iters >= cap then Out(Normal, st.(capped := true))
    else if loop.doWhile then
      var r := ExecSeg(body, st, Some(iters), cap);
      if r.sig == Broke then Out(Normal, r.st)
      else if r.sig != Normal && r.sig != Continued then r
      else
        var t := Test(loop, parent, at, r.st, iters);
        if t.go then LoopFrom(loop, body, parent, at, t.st, iters + 1, cap) else Out(t.sig, t.st)
    else
      var t := Test(loop, parent, at, st, iters);
      if !t.go then Out(t.sig, t.st)
      else
        var r := ExecSeg(body, t.st, Some(iters), cap);
        if r.sig == Broke then Out(Normal, r.st)
        else if r.sig != Normal && r.sig != Continued then r
        else
          var u := Update(loop, r.st);
          if u.sig == Normal then LoopFrom(loop, body, parent, at, u.st, iters + 1, cap) else u
  }

  // ---- The machine -------------------------------------------------------------------------

  class Machine<M> {
    const maxUnroll: int
    var mem: M
    var trace: seq<Row<M>>
    var unrollCapped: bool

    constructor (maxUnroll: int, mem: M)
      ensures this.maxUnroll == maxUnroll && Now() == State(mem, [], false)
    {
      this.maxUnroll := maxUnroll;
      this.mem := mem;
      trace := [];
      unrollCapped := false;
    }

    function Now(): State<M>
      reads this
    {
      State(mem, trace, unrollCapped)
    }

    method Append(row: Row<M>)
      modifies this`trace
      ensures trace == old(trace) + [row]
    {
      trace := trace + [row];
    }

    method RunSeg(seg: Seg<M>, iter: Option<int>) returns (sig: Signal)
      modifies this
      ensures Out(sig, Now()) == ExecSeg(seg, old(Now()), iter, maxUnroll)
      decreases seg, 2, 0
    {
      var c: nat := 0;
      ghost var start := Now();
      for i := 0 to |seg.stmts|
        invariant c <= |seg.children|
        invariant ExecFrom(seg, i, c, Now(), iter, maxUnroll) == ExecSeg(seg, start, iter, maxUnroll)
      {
        var here := c;
        if TakesChild(seg.stmts[i]) && c < |seg.children| { c := c + 1; }
        sig := RunStmt(seg, i, here, iter);
        if sig != Normal { return; }
      }
      return Normal;
    }

    method RunStmt(seg: Seg<M>, i: nat, c: nat, iter: Option<int>) returns (sig: Signal)
      requires i < |seg.stmts| && c <= |seg.children|
      modifies this
      ensures Out(sig, Now()) == ExecStmt(seg, i, c, old(Now()), iter, maxUnroll)
      decreases seg, 0, 0
    {
      match seg.stmts[i]
      case Basic(run) =>
        var before := mem;
        var e := run(mem);
        mem := e.mem;
        if !e.ok { return Crashed; }
        if e.recorded { Append(Row(seg.id, i, iter, None, before, mem)); }
        return Normal;
      case Control(kind, value) =>
        sig := RunControl(seg, i, kind, value, iter);
      case Branch(cond) =>
        if c == |seg.children| { return Normal; }
        var e := Decide(cond, mem, 1);
        mem := e.mem;
        if e.result.None? { return Crashed; }
        var taken := e.result.value != 0;
        Append(Row(seg.id, i, iter, Some(taken), mem, mem));
        if !taken { return Normal; }
        sig := RunSeg(seg.children[c], iter);
      case Loop(_, _, _, _) =>
        if c == |seg.children| { return Crashed; }
        sig := RunLoop(seg.stmts[i], seg.children[c], seg.id, i);
    }

    method RunControl(seg: Seg<M>, i: nat, kind: ControlKind, value: Option<M -> Eval<M>>, iter: Option<int>)
      returns (sig: Signal)
      modifies this
      ensures Out(sig, Now()) == ExecControl(seg, i, kind, value, old(Now()), iter)
    {
      Append(Row(seg.id, i, iter, None, mem, mem));
      match kind
      case Return =>
        if value.None? { return Returned(None); }
        var e := value.value(mem);
        mem := e.mem;
        return if e.result.None? then Crashed else Returned(e.result);
      case Break => return Broke;
      case Continue => return Continued;
      case OtherControl => return Normal;
    }

    method TestLoop(loop: Stmt<M>, parent: int, at: nat, iters: int) returns (sig: Signal, go: bool)
      requires loop.Loop?
      modifies this
      ensures Tested(sig, Now(), go) == Test(loop, parent, at, old(Now()), iters)
    {
      var before := mem;
      var e := Decide(loop.cond, mem, 0);
      mem := e.mem;
      if e.result.None? { return Crashed, false; }
      go := e.result.value != 0;
      Append(Row(parent, at, Some(iters), Some(go), before, mem));
      return Normal, go;
    }

    method RunLoop(loop: Stmt<M>, body: Seg<M>, parent: int, at: nat) returns (sig: Signal)
      requires loop.Loop?
      modifies this
      ensures var st := old(Now());
              Out(sig, Now()) == LoopFrom(loop, body, parent, at, st.(mem := loop.init(st.mem)), 0, maxUnroll)
      decreases body, 3, 0
    {
      mem := loop.init(mem);
      ghost var start := Now();
      var iters: nat := 0;
      while true
        invariant LoopFrom(loop, body, parent, at, Now(), iters, maxUnroll) ==
                    LoopFrom(loop, body, parent, at, start, 0, maxUnroll)
        decreases maxUnroll - iters
      {
        if iters >= maxUnroll {
          unrollCapped := true;
          break;
        }
        var go: bool;
        if loop.doWhile {
          sig := RunSeg(body, Some(iters));
          if sig == Broke { break; }
          if sig != Normal && sig != Continued { return; }
          iters := iters + 1;
          sig, go := TestLoop(loop, parent, at, iters - 1);
          if sig != Normal { return; }
          if !go { break; }
          continue;
        }
        sig, go := TestLoop(loop, parent, at, iters);
        if sig != Normal { return; }
        if !go { break; }
        sig := RunSeg(body, Some(iters));
        if sig == Broke { break; }
        if sig != Normal && sig != Continued { return; }
        if loop.update.Some? {
          var e := loop.update.value(mem);
          mem := e.mem;
          if e.result.None? { return Crashed; }
        }
        iters := iters + 1;
      }
      return Normal;
    }
  }
}
