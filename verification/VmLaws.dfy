// The unroll cap: a run that never meets it does not depend on it, and every run
// stays within a bound on its trace.
module VmLaws {
  import opened Wrappers
  import opened Vm

  // ---- The cap flag is never cleared and the trace only grows --------------------------------

  predicate Grows<M(==)>(a: State<M>, b: State<M>) {
    (a.capped ==> b.capped) && a.trace <= b.trace
  }

  lemma {:induction false} ExecGrows<M>(seg: Seg<M>, st: State<M>, iter: Option<int>, cap: int)
    ensures Grows(st, ExecSeg(seg, st, iter, cap).st)
    decreases seg, 2, 0
  {
    FromGrows(seg, 0, 0, st, iter, cap);
  }

  lemma {:induction false} FromGrows<M>(seg: Seg<M>, i: nat, c: nat, st: State<M>, iter: Option<int>, cap: int)
    requires i <= |seg.stmts| && c <= |seg.children|
    ensures Grows(st, ExecFrom(seg, i, c, st, iter, cap).st)
    decreases seg, 1, |seg.stmts| - i
  {
    if i < |seg.stmts| {
      StmtGrows(seg, i, c, st, iter, cap);
      var r := ExecStmt(seg, i, c, st, iter, cap);
      if r.sig == Normal { FromGrows(seg, i + 1, NextChild(seg, i, c), r.st, iter, cap); }
    }
  }

  lemma {:induction false} StmtGrows<M>(seg: Seg<M>, i: nat, c: nat, st: State<M>, iter: Option<int>, cap: int)
    requires i < |seg.stmts| && c <= |seg.children|
    ensures Grows(st, ExecStmt(seg, i, c, st, iter, cap).st)
    decreases seg, 0, 0
  {
    match seg.stmts[i]
    case Branch(cond) =>
      if c < |seg.children| {
        var e := Decide(cond, st.mem, 1);
        if e.result.Some? && e.result.value != 0 {
          var st' := Record(st.(mem := e.mem), Row(seg.id, i, iter, Some(true), e.mem, e.mem));
          ExecGrows(seg.children[c], st', iter, cap);
        }
      }
    case Loop(_, init, _, _) =>
      if c < |seg.children| {
        LoopGrows(seg.stmts[i], seg.children[c], seg.id, i, st.(mem := init(st.mem)), 0, cap);
      }
    case _ =>
  }

  lemma {:induction false} LoopGrows<M>(loop: Stmt<M>, body: Seg<M>, parent: int, at: nat, st: State<M>, iters: nat,
                                        cap: int)
    requires loop.Loop?
    ensures Grows(st, LoopFrom(loop, body, parent, at, st, iters, cap).st)
    decreases body, 3, cap - iters
  {
    if iters < cap {
      if loop.doWhile {
        ExecGrows(body, st, Some(iters), cap);
        var r := ExecSeg(body, st, Some(iters), cap);
        if r.sig == Normal || r.sig == Continued {
          var t := Test(loop, parent, at, r.st, iters);
          if t.go { LoopGrows(loop, body, parent, at, t.st, iters + 1, cap); }
        }
      } else {
        var t := Test(loop, parent, at, st, iters);
        if t.go {
          ExecGrows(body, t.st, Some(iters), cap);
          var r := ExecSeg(body, t.st, Some(iters), cap);
          if r.sig == Normal || r.sig == Continued {
            var u := Update(loop, r.st);
            if u.sig == Normal { LoopGrows(loop, body, parent, at, u.st, iters + 1, cap); }
          }
        }
      }
    }
  }

  // ---- A larger cap changes nothing -----------------------------------------------------------

  lemma {:induction false} SegMonotone<M>(seg: Seg<M>, st: State<M>, iter: Option<int>, cap: int, cap': int)
    requires cap <= cap' && !ExecSeg(seg, st, iter, cap).st.capped
    ensures ExecSeg(seg, st, iter, cap') == ExecSeg(seg, st, iter, cap)
    decreases seg, 2, 0
  {
    FromMonotone(seg, 0, 0, st, iter, cap, cap');
  }

  lemma {:induction false} FromMonotone<M>(seg: Seg<M>, i: nat, c: nat, st: State<M>, iter: Option<int>, cap: int,
                                           cap': int)
    requires i <= |seg.stmts| && c <= |seg.children|
    requires cap <= cap' && !ExecFrom(seg, i, c, st, iter, cap).st.capped
    ensures ExecFrom(seg, i, c, st, iter, cap') == ExecFrom(seg, i, c, st, iter, cap)
    decreases seg, 1, |seg.stmts| - i
  {
    if i < |seg.stmts| {
      var r := ExecStmt(seg, i, c, st, iter, cap);
      if r.sig == Normal {
        FromGrows(seg, i + 1, NextChild(seg, i, c), r.st, iter, cap);
        StmtMonotone(seg, i, c, st, iter, cap, cap');
        FromMonotone(seg, i + 1, NextChild(seg, i, c), r.st, iter, cap, cap');
      } else {
        StmtMonotone(seg, i, c, st, iter, cap, cap');
      }
    }
  }

  lemma {:induction false} StmtMonotone<M>(seg: Seg<M>, i: nat, c: nat, st: State<M>, iter: Option<int>, cap: int,
                                           cap': int)
    requires i < |seg.stmts| && c <= |seg.children|
    requires cap <= cap' && !ExecStmt(seg, i, c, st, iter, cap).st.capped
    ensures ExecStmt(seg, i, c, st, iter, cap') == ExecStmt(seg, i, c, st, iter, cap)
    decreases seg, 0, 0
  {
    match seg.stmts[i]
    case Branch(cond) =>
      if c < |seg.children| {
        var e := Decide(cond, st.mem, 1);
        if e.result.Some? && e.result.value != 0 {
          var st' := Record(st.(mem := e.mem), Row(seg.id, i, iter, Some(true), e.mem, e.mem));
          SegMonotone(seg.children[c], st', iter, cap, cap');
        }
      }
    case Loop(_, init, _, _) =>
      if c < |seg.children| {
        LoopMonotone(seg.stmts[i], seg.children[c], seg.id, i, st.(mem := init(st.mem)), 0, cap, cap');
      }
    case _ =>
  }

  lemma {:induction false} LoopMonotone<M>(loop: Stmt<M>, body: Seg<M>, parent: int, at: nat, st: State<M>, iters: nat,
                                           cap: int, cap': int)
    requires loop.Loop?
    requires cap <= cap' && !LoopFrom(loop, body, parent, at, st, iters, cap).st.capped
    ensures LoopFrom(loop, body, parent, at, st, iters, cap') == LoopFrom(loop, body, parent, at, st, iters, cap)
    decreases body, 3, cap - iters
  {
    if loop.doWhile {
      var r := ExecSeg(body, st, Some(iters), cap);
      if r.sig == Normal || r.sig == Continued {
        var t := Test(loop, parent, at, r.st, iters);
        if t.go {
          LoopGrows(loop, body, parent, at, t.st, iters + 1, cap);
          LoopMonotone(loop, body, parent, at, t.st, iters + 1, cap, cap');
        }
      }
      SegMonotone(body, st, Some(iters), cap, cap');
    } else {
      var t := Test(loop, parent, at, st, iters);
      if t.go {
        var r := ExecSeg(body, t.st, Some(iters), cap);
        if r.sig == Normal || r.sig == Continued {
          var u := Update(loop, r.st);
          if u.sig == Normal {
            LoopGrows(loop, body, parent, at, u.st, iters + 1, cap);
            LoopMonotone(loop, body, parent, at, u.st, iters + 1, cap, cap');
          }
        }
        SegMonotone(body, t.st, Some(iters), cap, cap');
      }
    }
  }

  // All caps that are not met give one and the same outcome, memory and trace.
  lemma UncappedRunsAgree<M>(seg: Seg<M>, st: State<M>, cap1: int, cap2: int)
    requires !ExecSeg(seg, st, None, cap1).st.capped && !ExecSeg(seg, st, None, cap2).st.capped
    ensures ExecSeg(seg, st, None, cap1) == ExecSeg(seg, st, None, cap2)
  {
    if cap1 <= cap2 { SegMonotone(seg, st, None, cap1, cap2); } else { SegMonotone(seg, st, None, cap2, cap1); }
  }

  // ---- The bound on the trace -------------------------------------------------------------------

  function MaxIters(cap: int): nat { if cap < 0 then 0 else cap }

  // W: one row per statement, plus a branch's body, plus cap times one row and the
  // body for a loop.
  function Rows<M>(seg: Seg<M>, cap: int): nat
    decreases seg, 1, 0
  {
    RowsFrom(seg, 0, 0, cap)
  }

  function RowsFrom<M>(seg: Seg<M>, i: nat, c: nat, cap: int): nat
    requires i <= |seg.stmts| && c <= |seg.children|
    decreases seg, 0, |seg.stmts| - i
  {
    if i == |seg.stmts| then 0
    else
      RowsFrom(seg, i + 1, NextChild(seg, i, c), cap) +
      match seg.stmts[i]
      case Branch(_) => if c < |seg.children| then 1 + Rows(seg.children[c], cap) else 0
      case Loop(_, _, _, _) => if c < |seg.children| then MaxIters(cap) * (1 + Rows(seg.children[c], cap)) else 0
      case _ => 1
  }

  lemma {:induction false} SegRows<M>(seg: Seg<M>, st: State<M>, iter: Option<int>, cap: int)
    ensures |ExecSeg(seg, st, iter, cap).st.trace| <= |st.trace| + Rows(seg, cap)
    decreases seg, 2, 0
  {
    FromRows(seg, 0, 0, st, iter, cap);
  }

  lemma {:induction false} FromRows<M>(seg: Seg<M>, i: nat, c: nat, st: State<M>, iter: Option<int>, cap: int)
    requires i <= |seg.stmts| && c <= |seg.children|
    ensures |ExecFrom(seg, i, c, st, iter, cap).st.trace| <= |st.trace| + RowsFrom(seg, i, c, cap)
    decreases seg, 1, |seg.stmts| - i
  {
    if i < |seg.stmts| {
      var r := ExecStmt(seg, i, c, st, iter, cap);
      FromRows(seg, i + 1, NextChild(seg, i, c), r.st, iter, cap);
      match seg.stmts[i]
      case Branch(cond) =>
        if c < |seg.children| {
          var e := Decide(cond, st.mem, 1);
          if e.result.Some? && e.result.value != 0 {
            var st' := Record(st.(mem := e.mem), Row(seg.id, i, iter, Some(true), e.mem, e.mem));
            SegRows(seg.children[c], st', iter, cap);
          }
        }
      case Loop(_, init, _, _) =>
        if c < |seg.children| {
          LoopRows(seg.stmts[i], seg.children[c], seg.id, i, st.(mem := init(st.mem)), 0, cap);
        }
      case _ =>
    }
  }

  lemma {:induction false} LoopRows<M>(loop: Stmt<M>, body: Seg<M>, parent: int, at: nat, st: State<M>, iters: nat,
                                       cap: int)
    requires loop.Loop?
    ensures |LoopFrom(loop, body, parent, at, st, iters, cap).st.trace|
            <= |st.trace| + MaxIters(cap - iters) * (1 + Rows(body, cap))
    decreases body, 3, cap - iters
  {
    if iters < cap {
      var w := 1 + Rows(body, cap);
      assert MaxIters(cap - iters) * w == w + MaxIters(cap - (iters + 1)) * w;
      if loop.doWhile {
        SegRows(body, st, Some(iters), cap);
        var r := ExecSeg(body, st, Some(iters), cap);
        if r.sig == Normal || r.sig == Continued {
          var t := Test(loop, parent, at, r.st, iters);
          if t.go { LoopRows(loop, body, parent, at, t.st, iters + 1, cap); }
        }
      } else {
        var t := Test(loop, parent, at, st, iters);
        if t.go {
          SegRows(body, t.st, Some(iters), cap);
          var r := ExecSeg(body, t.st, Some(iters), cap);
          if r.sig == Normal || r.sig == Continued {
            var u := Update(loop, r.st);
            if u.sig == Normal { LoopRows(loop, body, parent, at, u.st, iters + 1, cap); }
          }
        }
      }
    }
  }

  // ---- break, continue and return -----------------------------------------------------------------

  // A loop catches the break and continue of its body: none ever leaves it.
  lemma {:induction false} LoopCatchesBreaks<M>(loop: Stmt<M>, body: Seg<M>, parent: int, at: nat, st: State<M>,
                                                iters: nat, cap: int)
    requires loop.Loop?
    ensures LoopFrom(loop, body, parent, at, st, iters, cap).sig !in {Broke, Continued}
    decreases cap - iters
  {
    hide ExecSeg;
    if iters < cap {
      if loop.doWhile {
        var r := ExecSeg(body, st, Some(iters), cap);
        var t := Test(loop, parent, at, r.st, iters);
        if t.go { LoopCatchesBreaks(loop, body, parent, at, t.st, iters + 1, cap); }
      } else {
        var t := Test(loop, parent, at, st, iters);
        var r := ExecSeg(body, t.st, Some(iters), cap);
        LoopCatchesBreaks(loop, body, parent, at, Update(loop, r.st).st, iters + 1, cap);
      }
    }
  }

  predicate Leaves<M>(s: Stmt<M>) { s.Control? && s.kind != OtherControl }

  // Statements after a break, continue or return are dead: dropping them changes no run.
  lemma DeadCodeIsDropped<M>(seg: Seg<M>, i: nat, st: State<M>, iter: Option<int>, cap: int)
    requires i < |seg.stmts| && Leaves(seg.stmts[i])
    ensures ExecSeg(seg.(stmts := seg.stmts[..i + 1]), st, iter, cap) == ExecSeg(seg, st, iter, cap)
    ensures ExecSeg(seg, st, iter, cap).sig != Normal
  {
    DeadFrom(seg, i, 0, 0, st, iter, cap);
  }

  lemma {:induction false} DeadFrom<M>(seg: Seg<M>, i: nat, j: nat, c: nat, st: State<M>, iter: Option<int>, cap: int)
    requires j <= i < |seg.stmts| && Leaves(seg.stmts[i]) && c <= |seg.children|
    ensures ExecFrom(seg.(stmts := seg.stmts[..i + 1]), j, c, st, iter, cap) == ExecFrom(seg, j, c, st, iter, cap)
    ensures ExecFrom(seg, j, c, st, iter, cap).sig != Normal
    decreases i - j
  {
    hide ExecSeg, LoopFrom;
    var short := seg.(stmts := seg.stmts[..i + 1]);
    var r := ExecStmt(seg, j, c, st, iter, cap);
    assert short.stmts[j] == seg.stmts[j] && ExecStmt(short, j, c, st, iter, cap) == r;
    if j < i {
      DeadFrom(seg, i, j + 1, NextChild(seg, j, c), r.st, iter, cap);
    } else {
      ControlEndsSegment(seg, i, c, st, iter, cap);
    }
  }

  // A break or continue records its row, touches nothing else and ends the segment there.
  lemma ControlEndsSegment<M>(seg: Seg<M>, i: nat, c: nat, st: State<M>, iter: Option<int>, cap: int)
    requires i < |seg.stmts| && c <= |seg.children| && Leaves(seg.stmts[i])
    ensures var r := ExecFrom(seg, i, c, st, iter, cap);
            r.sig != Normal && r.st.capped == st.capped
            && r.st.trace == st.trace + [Row(seg.id, i, iter, None, st.mem, st.mem)]
            && (seg.stmts[i].kind == Break ==> r.sig == Broke && r.st.mem == st.mem)
            && (seg.stmts[i].kind == Continue ==> r.sig == Continued && r.st.mem == st.mem)
  {
    hide ExecSeg, LoopFrom;
  }

  // ---- else --------------------------------------------------------------------------------------

  // "if (c) {A} else {B}" reaches the machine as two branch statements, the second
  // without a condition, with the two bodies as the next two children.
  predicate IsIfElse<M>(seg: Seg<M>, i: nat, c: nat) {
    i + 1 < |seg.stmts| && c + 1 < |seg.children|
    && seg.stmts[i].Branch? && seg.stmts[i].cond.Some? && seg.stmts[i + 1] == Branch(None)
  }

  // The row with which the else body starts, after the then part has ended in state st.
  function ElseRow<M>(seg: Seg<M>, i: nat, st: State<M>, iter: Option<int>): Row<M> {
    Row(seg.id, i + 1, iter, Some(true), st.mem, st.mem)
  }

  // B runs after A wherever the pair stands, and the statements after the pair follow
  // when both end normally.
  lemma ElseAlwaysRuns<M>(seg: Seg<M>, i: nat, c: nat, st: State<M>, iter: Option<int>, cap: int)
    requires IsIfElse(seg, i, c)
    ensures var a := ExecStmt(seg, i, c, st, iter, cap);
            ExecFrom(seg, i, c, st, iter, cap) ==
            if a.sig != Normal then a
            else
              var b := ExecSeg(seg.children[c + 1], Record(a.st, ElseRow(seg, i, a.st, iter)), iter, cap);
              if b.sig != Normal then b else ExecFrom(seg, i + 2, c + 2, b.st, iter, cap)
  {
    hide ExecSeg, LoopFrom;
    var a := ExecStmt(seg, i, c, st, iter, cap);
    if a.sig == Normal {
      var b := ExecStmt(seg, i + 1, c + 1, a.st, iter, cap);
      assert b == ExecSeg(seg.children[c + 1], Record(a.st, ElseRow(seg, i, a.st, iter)), iter, cap);
    }
  }

  // The condition holds in state st.
  predicate Holds<M>(seg: Seg<M>, i: nat, st: State<M>)
    requires i < |seg.stmts| && seg.stmts[i].Branch? && seg.stmts[i].cond.Some?
  {
    var e := seg.stmts[i].cond.value(st.mem);
    e.result.Some? && e.result.value != 0
  }

  // The state in which the then body starts.
  function ThenState<M>(seg: Seg<M>, i: nat, st: State<M>, iter: Option<int>): State<M>
    requires i < |seg.stmts| && seg.stmts[i].Branch? && seg.stmts[i].cond.Some?
  {
    var e := seg.stmts[i].cond.value(st.mem);
    Record(st.(mem := e.mem), Row(seg.id, i, iter, Some(true), e.mem, e.mem))
  }

  // The run from statement i starts the else body when its then part is over.
  ghost predicate EntersElse<M>(seg: Seg<M>, i: nat, c: nat, st: State<M>, iter: Option<int>, cap: int)
    requires i < |seg.stmts| && c <= |seg.children|
  {
    var a := ExecStmt(seg, i, c, st, iter, cap).st;
    a.trace + [ElseRow(seg, i, a, iter)] <= ExecFrom(seg, i, c, st, iter, cap).st.trace
  }

  // The else body runs exactly when the condition is false or the then body ends
  // normally, so the pair is a choice only when the then body leaves.
  lemma ElseRunsIff<M>(seg: Seg<M>, i: nat, c: nat, st: State<M>, iter: Option<int>, cap: int)
    requires IsIfElse(seg, i, c)
    ensures EntersElse(seg, i, c, st, iter, cap) <==>
            seg.stmts[i].cond.value(st.mem).result.Some?
            && (Holds(seg, i, st) ==> ExecSeg(seg.children[c], ThenState(seg, i, st, iter), iter, cap).sig == Normal)
  {
    hide ExecSeg, LoopFrom;
    ElseAlwaysRuns(seg, i, c, st, iter, cap);
    var a := ExecStmt(seg, i, c, st, iter, cap);
    if a.sig == Normal {
      var st' := Record(a.st, ElseRow(seg, i, a.st, iter));
      ExecGrows(seg.children[c + 1], st', iter, cap);
      var b := ExecSeg(seg.children[c + 1], st', iter, cap);
      if b.sig == Normal { FromGrows(seg, i + 2, c + 2, b.st, iter, cap); }
    }
  }
}
