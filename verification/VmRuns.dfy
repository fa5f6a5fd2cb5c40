// How a segment and a loop run, told statement by statement and turn by turn: the
// interpreter of cdup/src/vm.py against the clauses of its statements.
module VmRuns {
  import opened Wrappers
  import opened Vm
  import opened VmLaws

  // ---- Segments ----------------------------------------------------------------------------

  // How many of the first i statements are branches or loops.
  function BlocksBefore<M>(seg: Seg<M>, i: nat): nat
    requires i <= |seg.stmts|
  {
    if i == 0 then 0
    else BlocksBefore(seg, i - 1) + if seg.stmts[i - 1].Branch? || seg.stmts[i - 1].Loop? then 1 else 0
  }

  // The k-th block statement takes the k-th child while there are any.
  function ChildOf<M>(seg: Seg<M>, i: nat): nat
    requires i <= |seg.stmts|
  {
    if BlocksBefore(seg, i) < |seg.children| then BlocksBefore(seg, i) else |seg.children|
  }

  // Statements j..i all end normally, each in the state the one before left.
  ghost predicate FallsThrough<M>(seg: Seg<M>, i: nat, sts: seq<State<M>>, iter: Option<int>, cap: int) {
    i <= |seg.stmts| && |sts| == i + 1
    && forall j :: 0 <= j < i ==> ExecStmt(seg, j, ChildOf(seg, j), sts[j], iter, cap) == Out(Normal, sts[j + 1])
  }

  // A segment runs its statements in order, up to the first that does not end normally.
  lemma {:induction false} SegmentRuns<M>(seg: Seg<M>, i: nat, sts: seq<State<M>>, iter: Option<int>, cap: int)
    requires FallsThrough(seg, i, sts, iter, cap)
    ensures ExecSeg(seg, sts[0], iter, cap) == ExecFrom(seg, i, ChildOf(seg, i), sts[i], iter, cap)
    ensures i == |seg.stmts| ==> ExecSeg(seg, sts[0], iter, cap) == Out(Normal, sts[i])
    ensures i < |seg.stmts| && ExecStmt(seg, i, ChildOf(seg, i), sts[i], iter, cap).sig != Normal ==>
              ExecSeg(seg, sts[0], iter, cap) == ExecStmt(seg, i, ChildOf(seg, i), sts[i], iter, cap)
  {
    hide LoopFrom, ExecStmt;
    if i > 0 {
      assert forall j :: 0 <= j < i ==> sts[..i][j] == sts[j];
      SegmentRuns(seg, i - 1, sts[..i], iter, cap);
    }
  }

  // A statement that is no block records at most one row and keeps the cap flag.
  lemma BasicRuns<M>(seg: Seg<M>, i: nat, c: nat, st: State<M>, iter: Option<int>, cap: int)
    requires i < |seg.stmts| && c <= |seg.children| && seg.stmts[i].Basic?
    ensures var e := seg.stmts[i].run(st.mem);
            ExecStmt(seg, i, c, st, iter, cap) ==
            if !e.ok then Out(Crashed, State(e.mem, st.trace, st.capped))
            else if e.recorded
            then Out(Normal, State(e.mem, st.trace + [Row(seg.id, i, iter, None, st.mem, e.mem)], st.capped))
            else Out(Normal, State(e.mem, st.trace, st.capped))
  {}

  // A return leaves with its value; the row is recorded before the value is computed.
  lemma ReturnRuns<M>(seg: Seg<M>, i: nat, c: nat, st: State<M>, iter: Option<int>, cap: int)
    requires i < |seg.stmts| && c <= |seg.children| && seg.stmts[i].Control? && seg.stmts[i].kind == Return
    ensures var trace := st.trace + [Row(seg.id, i, iter, None, st.mem, st.mem)];
            var value := seg.stmts[i].value;
            ExecStmt(seg, i, c, st, iter, cap) ==
            if value.None? then Out(Returned(None), State(st.mem, trace, st.capped))
            else
              var e := value.value(st.mem);
              Out(if e.result.Some? then Returned(e.result) else Crashed, State(e.mem, trace, st.capped))
  {}

  // A break or a continue leaves, and any other control statement does not; each records
  // its row.
  lemma ControlRuns<M>(seg: Seg<M>, i: nat, c: nat, st: State<M>, iter: Option<int>, cap: int)
    requires i < |seg.stmts| && c <= |seg.children| && seg.stmts[i].Control? && seg.stmts[i].kind != Return
    ensures var st' := State(st.mem, st.trace + [Row(seg.id, i, iter, None, st.mem, st.mem)], st.capped);
            ExecStmt(seg, i, c, st, iter, cap) ==
            match seg.stmts[i].kind
            case Break => Out(Broke, st')
            case Continue => Out(Continued, st')
            case _ => Out(Normal, st')
  {}

  // When no child is left a branch does nothing, and a loop fails.
  lemma ChildlessRuns<M>(seg: Seg<M>, i: nat, st: State<M>, iter: Option<int>, cap: int)
    requires i < |seg.stmts|
    ensures seg.stmts[i].Branch? ==> ExecStmt(seg, i, |seg.children|, st, iter, cap) == Out(Normal, st)
    ensures seg.stmts[i].Loop? ==> ExecStmt(seg, i, |seg.children|, st, iter, cap) == Out(Crashed, st)
  {}

  // A branch with a child runs it exactly when its condition is missing or not zero.
  lemma BranchRuns<M>(seg: Seg<M>, i: nat, c: nat, st: State<M>, iter: Option<int>, cap: int)
    requires i < |seg.stmts| && c < |seg.children| && seg.stmts[i].Branch?
    ensures var e := if seg.stmts[i].cond.Some? then seg.stmts[i].cond.value(st.mem) else Eval(st.mem, Some(1));
            ExecStmt(seg, i, c, st, iter, cap) ==
            if e.result.None? then Out(Crashed, State(e.mem, st.trace, st.capped))
            else if e.result.value == 0
            then Out(Normal, State(e.mem, st.trace + [Row(seg.id, i, iter, Some(false), e.mem, e.mem)], st.capped))
            else
              var trace := st.trace + [Row(seg.id, i, iter, Some(true), e.mem, e.mem)];
              ExecSeg(seg.children[c], State(e.mem, trace, st.capped), iter, cap)
  {
    hide ExecSeg, LoopFrom;
  }

  // ---- Loops -------------------------------------------------------------------------------

  // A loop at statement `at` of segment `id`.
  datatype Site<!M> = Site(loop: Stmt<M>, id: int, at: nat, body: Seg<M>, cap: int)

  // The memory a test leaves; a missing condition leaves it alone.
  function Tested<M>(x: Site<M>, m: M): M
    requires x.loop.Loop?
  {
    if x.loop.cond.Some? then x.loop.cond.value(m).mem else m
  }

  // The condition is there and is not zero.
  predicate Goes<M>(x: Site<M>, m: M)
    requires x.loop.Loop?
  {
    x.loop.cond.Some? && x.loop.cond.value(m).result.Some? && x.loop.cond.value(m).result.value != 0
  }

  // The condition is missing, or zero.
  predicate Stops<M>(x: Site<M>, m: M)
    requires x.loop.Loop?
  {
    x.loop.cond.None? || x.loop.cond.value(m).result == Some(0)
  }

  // The state after a test in turn j that came out as `taken`.
  function Noted<M>(x: Site<M>, j: nat, taken: bool, st: State<M>): State<M>
    requires x.loop.Loop?
  {
    var m := Tested(x, st.mem);
    State(m, st.trace + [Row(x.id, x.at, Some(j), Some(taken), st.mem, m)], st.capped)
  }

  // A test that ends the loop from state st: by its outcome, or by an exception.
  predicate TestEnds<M(==)>(x: Site<M>, j: nat, st: State<M>, out: Out<M>)
    requires x.loop.Loop?
  {
    !Goes(x, st.mem)
    && out == if Stops(x, st.mem) then Out(Normal, Noted(x, j, false, st))
              else Out(Crashed, State(Tested(x, st.mem), st.trace, st.capped))
  }

  // The body's run in turn j.
  function Body<M>(x: Site<M>, j: nat, st: State<M>): Out<M> { ExecSeg(x.body, st, Some(j), x.cap) }

  predicate Passes(sig: Signal) { sig == Normal || sig == Continued }

  // After the body: the update runs after a continue as well.
  predicate TurnsOver<M(==)>(x: Site<M>, r: Out<M>, st': State<M>)
    requires x.loop.Loop?
  {
    Passes(r.sig)
    && if x.loop.update.None? then st' == r.st
       else x.loop.update.value(r.st.mem).result.Some?
            && st' == State(x.loop.update.value(r.st.mem).mem, r.st.trace, r.st.capped)
  }

  // The body leaves the loop, or the update fails: there is no update after a break.
  predicate LeavesIn<M(==)>(x: Site<M>, r: Out<M>, out: Out<M>)
    requires x.loop.Loop?
  {
    if r.sig == Broke then out == Out(Normal, r.st)
    else if !Passes(r.sig) then out == r
    else
      x.loop.update.Some? && x.loop.update.value(r.st.mem).result.None?
      && out == Out(Crashed, State(x.loop.update.value(r.st.mem).mem, r.st.trace, r.st.capped))
  }

  // Turn j of a while or for loop, whole: the test, the body, the update.
  predicate WhileTurn<M(==)>(x: Site<M>, j: nat, st: State<M>, st': State<M>)
    requires x.loop.Loop?
  {
    Goes(x, st.mem) && TurnsOver(x, Body(x, j, Noted(x, j, true, st)), st')
  }

  // How it ends from the start of turn k.
  predicate WhileEnds<M(==)>(x: Site<M>, k: nat, st: State<M>, out: Out<M>)
    requires x.loop.Loop?
  {
    TestEnds(x, k, st, out) || (Goes(x, st.mem) && LeavesIn(x, Body(x, k, Noted(x, k, true, st)), out))
  }

  // Turn j of a do loop: the body, then the test; it has no update.
  predicate DoTurn<M(==)>(x: Site<M>, j: nat, st: State<M>, st': State<M>)
    requires x.loop.Loop?
  {
    var r := Body(x, j, st);
    Passes(r.sig) && Goes(x, r.st.mem) && st' == Noted(x, j, true, r.st)
  }

  predicate DoEnds<M(==)>(x: Site<M>, k: nat, st: State<M>, out: Out<M>)
    requires x.loop.Loop?
  {
    var r := Body(x, k, st);
    if r.sig == Broke then out == Out(Normal, r.st)
    else if !Passes(r.sig) then out == r
    else TestEnds(x, k, r.st, out)
  }

  predicate Turn<M(==)>(x: Site<M>, j: nat, st: State<M>, st': State<M>)
    requires x.loop.Loop?
  {
    j < x.cap && if x.loop.doWhile then DoTurn(x, j, st, st') else WhileTurn(x, j, st, st')
  }

  // At the limit nothing is tested or run any more.
  predicate Ends<M(==)>(x: Site<M>, k: nat, st: State<M>, out: Out<M>)
    requires x.loop.Loop?
  {
    if k >= x.cap then out == Out(Normal, State(st.mem, st.trace, true))
    else if x.loop.doWhile then DoEnds(x, k, st, out)
    else WhileEnds(x, k, st, out)
  }

  // Whole turns k.. lead through the states, and the loop ends from the last.
  ghost predicate IsRun<M>(x: Site<M>, k: nat, sts: seq<State<M>>, out: Out<M>)
    requires x.loop.Loop?
  {
    |sts| > 0 && (forall j :: 0 <= j < |sts| - 1 ==> Turn(x, k + j, sts[j], sts[j + 1]))
    && Ends(x, k + |sts| - 1, sts[|sts| - 1], out)
  }

  // ---- A loop is its turns -------------------------------------------------------------------

  lemma TurnIsStep<M>(x: Site<M>, k: nat, st: State<M>, st': State<M>)
    requires x.loop.Loop? && Turn(x, k, st, st')
    ensures LoopFrom(x.loop, x.body, x.id, x.at, st, k, x.cap) ==
            LoopFrom(x.loop, x.body, x.id, x.at, st', k + 1, x.cap)
  {
    hide ExecSeg;
  }

  lemma EndIsLast<M>(x: Site<M>, k: nat, st: State<M>, out: Out<M>)
    requires x.loop.Loop? && Ends(x, k, st, out)
    ensures LoopFrom(x.loop, x.body, x.id, x.at, st, k, x.cap) == out
  {
    hide ExecSeg;
  }

  lemma {:induction false} RunIsLoop<M>(x: Site<M>, k: nat, sts: seq<State<M>>, out: Out<M>)
    requires x.loop.Loop? && IsRun(x, k, sts, out)
    ensures LoopFrom(x.loop, x.body, x.id, x.at, sts[0], k, x.cap) == out
    decreases |sts|
  {
    hide Turn, Ends, LoopFrom;
    if |sts| == 1 {
      EndIsLast(x, k, sts[0], out);
    } else {
      assert Turn(x, k + 0, sts[0], sts[1]);
      TurnIsStep(x, k, sts[0], sts[1]);
      forall j | 0 <= j < |sts| - 2 ensures Turn(x, k + 1 + j, sts[1..][j], sts[1..][j + 1]) {
        assert Turn(x, k + (j + 1), sts[j + 1], sts[j + 2]);
      }
      RunIsLoop(x, k + 1, sts[1..], out);
    }
  }

  lemma StepOrEnd<M>(x: Site<M>, k: nat, st: State<M>) returns (goes: bool, st': State<M>)
    requires x.loop.Loop?
    ensures if goes then Turn(x, k, st, st') else Ends(x, k, st, LoopFrom(x.loop, x.body, x.id, x.at, st, k, x.cap))
  {
    hide ExecSeg;
    goes, st' := false, st;
    if k < x.cap {
      if x.loop.doWhile {
        var r := Body(x, k, st);
        goes, st' := Passes(r.sig) && Goes(x, r.st.mem), Noted(x, k, true, r.st);
      } else if Goes(x, st.mem) {
        var r := Body(x, k, Noted(x, k, true, st));
        if Passes(r.sig) && (x.loop.update.Some? ==> x.loop.update.value(r.st.mem).result.Some?) {
          goes := true;
          st' := if x.loop.update.None? then r.st
                 else State(x.loop.update.value(r.st.mem).mem, r.st.trace, r.st.capped);
        }
      }
    }
  }

  lemma {:induction false} LoopIsRun<M>(x: Site<M>, k: nat, st: State<M>) returns (sts: seq<State<M>>)
    requires x.loop.Loop?
    ensures IsRun(x, k, sts, LoopFrom(x.loop, x.body, x.id, x.at, st, k, x.cap)) && sts[0] == st
    decreases x.cap - k
  {
    hide Turn, Ends, LoopFrom;
    var goes, st' := StepOrEnd(x, k, st);
    if goes {
      TurnFits(x, k, st, st');
      TurnIsStep(x, k, st, st');
      var rest := LoopIsRun(x, k + 1, st');
      sts := [st] + rest;
      forall j | 0 <= j < |sts| - 1 ensures Turn(x, k + j, sts[j], sts[j + 1]) {
        if j > 0 { assert Turn(x, k + 1 + (j - 1), rest[j - 1], rest[j]); }
      }
    } else {
      sts := [st];
    }
  }

  lemma TurnFits<M>(x: Site<M>, k: nat, st: State<M>, st': State<M>)
    requires x.loop.Loop? && Turn(x, k, st, st')
    ensures k < x.cap
  {}

  // Whole turns lead from the state to one from which the loop ends with `out`.
  ghost predicate Reaches<M(!new)>(x: Site<M>, st: State<M>, out: Out<M>)
    requires x.loop.Loop?
  {
    exists sts :: IsRun(x, 0, sts, out) && sts[0] == st
  }

  // A loop statement ends with `out` exactly when whole turns lead there from the state
  // after its initialisation.
  lemma LoopRuns<M(!new)>(seg: Seg<M>, i: nat, c: nat, st: State<M>, iter: Option<int>, cap: int, out: Out<M>)
    requires i < |seg.stmts| && c < |seg.children| && seg.stmts[i].Loop?
    ensures ExecStmt(seg, i, c, st, iter, cap) == out <==>
            Reaches(Site(seg.stmts[i], seg.id, i, seg.children[c], cap),
                    State(seg.stmts[i].init(st.mem), st.trace, st.capped), out)
  {
    hide LoopFrom, ExecSeg;
    var x := Site(seg.stmts[i], seg.id, i, seg.children[c], cap);
    var first := State(seg.stmts[i].init(st.mem), st.trace, st.capped);
    assert ExecStmt(seg, i, c, st, iter, cap) == LoopFrom(x.loop, x.body, x.id, x.at, first, 0, x.cap);
    var sts := LoopIsRun(x, 0, first);
    if Reaches(x, first, out) {
      var sts' :| IsRun(x, 0, sts', out) && sts'[0] == first;
      RunIsLoop(x, 0, sts', out);
    }
  }

  // ---- Counting ------------------------------------------------------------------------------

  // for (; i < n; update) over a memory that is i alone, whose body or update adds one.
  function Below(n: int): Option<int -> Eval<int>> { Some(i => Eval(i, Some(if i < n then 1 else 0))) }

  function CountingLoop(n: int): Stmt<int> { Loop(false, m => m, Below(n), None) }

  const AddOne: int -> Effect<int> := i => Effect(i + 1, true, true)

  function CountingBody(id: int): Seg<int> { Seg(id, [Basic(AddOne)], []) }

  lemma CountingBodyRuns(id: int, st: State<int>, iter: Option<int>, cap: int)
    ensures ExecSeg(CountingBody(id), st, iter, cap) ==
            Out(Normal, State(st.mem + 1, st.trace + [Row(id, 0, iter, None, st.mem, st.mem + 1)], st.capped))
  {
    var seg := CountingBody(id);
    BasicRuns(seg, 0, 0, st, iter, cap);
    var r := ExecStmt(seg, 0, 0, st, iter, cap);
    assert ExecFrom(seg, 1, NextChild(seg, 0, 0), r.st, iter, cap) == Out(Normal, r.st);
  }

  // "while (i < n) { i = i + 1; }" from k, within the limit, ends at n and records a test
  // and an addition a turn, and the last test.
  lemma {:induction false} CountingStates(x: Site<int>, n: int, k: nat, st: State<int>) returns (sts: seq<State<int>>)
    requires x.loop == CountingLoop(n) && x.body == CountingBody(x.body.id)
    requires st.mem <= n && k + (n - st.mem) < x.cap
    ensures |sts| == n - st.mem + 1 && sts[0] == st
    ensures exists out :: IsRun(x, k, sts, out) && out.sig == Normal && out.st.mem == n && out.st.capped == st.capped
                          && |out.st.trace| == |st.trace| + 2 * (n - st.mem) + 1
    decreases n - st.mem
  {
    hide IsRun, CountingBody;
    if st.mem == n {
      sts := [st];
      CountingEnd(x, n, k, st);
    } else {
      var st' := Body(x, k, Noted(x, k, true, st)).st;
      CountingBodyRuns(x.body.id, Noted(x, k, true, st), Some(k), x.cap);
      var rest := CountingStates(x, n, k + 1, st');
      sts := [st] + rest;
      var out :| IsRun(x, k + 1, rest, out) && out.sig == Normal && out.st.mem == n && out.st.capped == st.capped
                 && |out.st.trace| == |st'.trace| + 2 * (n - st'.mem) + 1;
      RunLonger(x, k, st, rest, out);
    }
  }

  lemma CountingEnd(x: Site<int>, n: int, k: nat, st: State<int>)
    requires x.loop == CountingLoop(n) && st.mem == n && k < x.cap
    ensures IsRun(x, k, [st], Out(Normal, Noted(x, k, false, st)))
    ensures Noted(x, k, false, st).mem == n && Noted(x, k, false, st).capped == st.capped
    ensures |Noted(x, k, false, st).trace| == |st.trace| + 1
  {}

  lemma RunLonger<M>(x: Site<M>, k: nat, st: State<M>, rest: seq<State<M>>, out: Out<M>)
    requires x.loop.Loop? && IsRun(x, k + 1, rest, out) && Turn(x, k, st, rest[0])
    ensures IsRun(x, k, [st] + rest, out)
  {
    hide Turn, Ends;
    var sts := [st] + rest;
    forall j | 0 <= j < |sts| - 1 ensures Turn(x, k + j, sts[j], sts[j + 1]) {
      if j > 0 { assert Turn(x, k + 1 + (j - 1), rest[j - 1], rest[j]); }
    }
  }

  lemma WhileCounts(id: int, bodyId: int, n: int, st: State<int>, iter: Option<int>, cap: int)
    requires st.mem <= n && n - st.mem < cap
    ensures var seg := Seg(id, [CountingLoop(n)], [CountingBody(bodyId)]);
            var r := ExecSeg(seg, st, iter, cap);
            r.sig == Normal && r.st.mem == n && r.st.capped == st.capped
            && |r.st.trace| == |st.trace| + 2 * (n - st.mem) + 1
  {
    hide IsRun, LoopFrom, CountingBody, Below;
    var loop := CountingLoop(n);
    var seg := Seg(id, [loop], [CountingBody(bodyId)]);
    CountingIsLoop(id, bodyId, loop, n, st, cap);
    var out := ExecStmt(seg, 0, 0, st, iter, cap);
    assert out == LoopFrom(loop, CountingBody(bodyId), id, 0, st, 0, cap);
    assert ExecFrom(seg, 1, NextChild(seg, 0, 0), out.st, iter, cap) == Out(Normal, out.st);
  }

  lemma CountingIsLoop(id: int, bodyId: int, loop: Stmt<int>, n: int, st: State<int>, cap: int)
    requires loop == CountingLoop(n) && st.mem <= n && n - st.mem < cap
    ensures var r := LoopFrom(loop, CountingBody(bodyId), id, 0, st, 0, cap);
            r.sig == Normal && r.st.mem == n && r.st.capped == st.capped
            && |r.st.trace| == |st.trace| + 2 * (n - st.mem) + 1
  {
    hide IsRun, LoopFrom;
    var x := Site(loop, id, 0, CountingBody(bodyId), cap);
    var sts := CountingStates(x, n, 0, st);
    var out :| IsRun(x, 0, sts, out) && out.sig == Normal && out.st.mem == n && out.st.capped == st.capped
               && |out.st.trace| == |st.trace| + 2 * (n - st.mem) + 1;
    RunIsLoop(x, 0, sts, out);
  }
}
