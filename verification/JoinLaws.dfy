// Where the join rows of the segment walk stand, and which branches each run of branches
// gives them (cdup/src/matrix.py).
module JoinLaws {
  import opened Matrix
  import opened MatrixLaws

  // ---- Runs of branches --------------------------------------------------------------------

  // Statement i has a block of its own.
  predicate HasBlock(seg: Seg, i: nat)
    requires i < |seg.stmts|
  {
    seg.stmts[i].kind == Branch || seg.stmts[i].kind == LoopHead
  }

  function BlocksBefore(seg: Seg, i: nat): nat
    requires i <= |seg.stmts|
  {
    if i == 0 then 0 else BlocksBefore(seg, i - 1) + if HasBlock(seg, i - 1) then 1 else 0
  }

  // The child that the next block statement from i on takes; the children are taken in
  // order, as long as there are any.
  function ChildNo(seg: Seg, i: nat): (c: nat)
    requires i <= |seg.stmts|
    ensures c <= |seg.children|
  {
    if BlocksBefore(seg, i) < |seg.children| then BlocksBefore(seg, i) else |seg.children|
  }

  predicate Takes(seg: Seg, i: nat)
    requires i < |seg.stmts|
  {
    HasBlock(seg, i) && ChildNo(seg, i) < |seg.children|
  }

  // A run of branches ends before a statement without a block, before the body of a loop,
  // and at the end of the segment.
  predicate ClosesRun(seg: Seg, i: nat)
    requires i <= |seg.stmts|
  {
    i == |seg.stmts| || !HasBlock(seg, i) || (Takes(seg, i) && seg.children[ChildNo(seg, i)].typ != BranchSeg)
  }

  function RunStart(seg: Seg, i: nat): (s: nat)
    requires i <= |seg.stmts|
    ensures s <= i && (forall j :: s <= j < i ==> !ClosesRun(seg, j)) && (s > 0 ==> ClosesRun(seg, s - 1))
  {
    if i == 0 || ClosesRun(seg, i - 1) then i else RunStart(seg, i - 1)
  }

  lemma {:induction false} ChildNoGrows(seg: Seg, i: nat, j: nat)
    requires i <= j <= |seg.stmts|
    ensures ChildNo(seg, i) <= ChildNo(seg, j)
    decreases j - i
  {
    if i < j { ChildNoGrows(seg, i, j - 1); }
  }

  // The branches of the run that ends before statement i: the children its statements take.
  function Run(seg: Seg, i: nat): seq<Seg>
    requires i <= |seg.stmts|
  {
    ChildNoGrows(seg, RunStart(seg, i), i);
    seg.children[ChildNo(seg, RunStart(seg, i))..ChildNo(seg, i)]
  }

  // ---- The joins of a run --------------------------------------------------------------------

  ghost predicate Once<T>(xs: seq<T>) { forall i, j :: 0 <= i < j < |xs| ==> xs[i] != xs[j] }

  // Some join of slot x has source sc.
  ghost predicate HasSource(rows: seq<Row>, x: Slot, sc: string) {
    exists p :: p in rows && p.JoinPhi? && p.slot == x && sc in p.sources
  }

  // A statement of some branch with path sc writes or declares slot x.
  ghost predicate IsWriter(group: seq<Seg>, x: Slot, sc: string) {
    exists g, t :: g in group && g.scope == sc && t in g.stmts && x in t.defs + t.decls
  }

  // One join a slot, with the scopes of exactly the branches that write the slot
  // themselves, each scope once.
  ghost predicate AreJoins(rows: seq<Row>, group: seq<Seg>) {
    (forall p :: p in rows ==> p.JoinPhi? && p.sources != [] && Once(p.sources))
    && (forall i, j :: 0 <= i < j < |rows| ==> rows[i].slot != rows[j].slot)
    && forall x, sc :: HasSource(rows, x, sc) <==> IsWriter(group, x, sc)
  }

  ghost predicate SourcesOnce(rows: seq<Row>) {
    forall p :: p in rows ==> p.JoinPhi? && p.sources != [] && Once(p.sources)
  }

  lemma {:induction false} AddKeepsOnce(phis: seq<Row>, s: Source)
    requires SourcesOnce(phis)
    ensures SourcesOnce(AddSource(phis, s))
  {
    hide Once;
    if phis == [] {
      assert Once([s.scope]) by { OneIsOnce(s.scope); }
    } else {
      assert phis == [phis[0]] + phis[1..] && phis[0] in phis;
      if phis[0].slot == s.slot {
        if s.scope !in phis[0].sources { MoreIsOnce(phis[0].sources, s.scope); }
      } else {
        AddKeepsOnce(phis[1..], s);
      }
    }
  }

  lemma OneIsOnce<T>(x: T)
    ensures Once([x])
  {}

  lemma MoreIsOnce<T>(xs: seq<T>, x: T)
    requires Once(xs) && x !in xs
    ensures Once(xs + [x])
  {}

  lemma {:induction false} JoinPhisAreOnce(sources: seq<Source>)
    ensures SourcesOnce(JoinPhis(sources))
  {
    if sources != [] {
      JoinPhisAreOnce(sources[..|sources| - 1]);
      AddKeepsOnce(JoinPhis(sources[..|sources| - 1]), sources[|sources| - 1]);
    }
  }

  lemma FlushIsJoins(group: seq<Seg>)
    ensures AreJoins(Flush(group), group)
  {
    hide Once, JoinPhis, GroupSources, WritesItself, IsWriter;
    JoinPhisAreOnce(GroupSources(group));
    forall x, sc ensures HasSource(Flush(group), x, sc) <==> IsWriter(group, x, sc) {
      JoinPhisAreExact(group, x, sc);
      WriterIs(group, x, sc);
    }
    JoinPhisAreExact(group, 0, "");
  }

  lemma WriterIs(group: seq<Seg>, x: Slot, sc: string)
    ensures (exists g :: g in group && g.scope == sc && WritesItself(g, x)) <==> IsWriter(group, x, sc)
  {
    if g :| g in group && g.scope == sc && WritesItself(g, x) {
      var t :| t in g.stmts && x in t.defs + t.decls;
    }
    if g, t :| g in group && g.scope == sc && t in g.stmts && x in t.defs + t.decls {
      assert WritesItself(g, x);
    }
  }

  // ---- The rows of a walk ----------------------------------------------------------------------

  function Walks(children: seq<Seg>, n: nat): seq<Row> {
    if children == [] then [] else Walk(children[0], n) + Walks(children[1..], n)
  }

  // The rows of one statement: joins come before a statement without a block, and between
  // the header of a loop and its body.
  function Turn(seg: Seg, n: nat, joins: seq<Row>, i: nat): seq<Row>
    requires i < |seg.stmts|
  {
    var row := [StmtRow(seg.id, seg.scope, seg.stmts[i])];
    if !HasBlock(seg, i) then joins + row
    else if !Takes(seg, i) then row
    else row + (if ClosesRun(seg, i) then joins else []) + Walk(seg.children[ChildNo(seg, i)], n)
  }

  function Turns(seg: Seg, n: nat, joins: seq<seq<Row>>, i: nat): seq<Row>
    requires i <= |seg.stmts| && i <= |joins|
  {
    if i == 0 then [] else Turns(seg, n, joins, i - 1) + Turn(seg, n, joins[i - 1], i - 1)
  }

  // The joins of every run, at the place where the run ends.
  ghost predicate AreRunJoins(seg: Seg, joins: seq<seq<Row>>) {
    |joins| == |seg.stmts| + 1
    && forall i :: 0 <= i <= |seg.stmts| ==> AreJoins(joins[i], if ClosesRun(seg, i) then Run(seg, i) else [])
  }

  lemma RunGoesOn(seg: Seg, i: nat)
    requires i < |seg.stmts|
    ensures Run(seg, i + 1) ==
            if ClosesRun(seg, i) then []
            else if Takes(seg, i) then Run(seg, i) + [seg.children[ChildNo(seg, i)]]
            else Run(seg, i)
  {
    hide ClosesRun;
    ChildNoGrows(seg, RunStart(seg, i), i);
    NextChildNo(seg, i);
    assert RunStart(seg, i + 1) == if ClosesRun(seg, i) then i + 1 else RunStart(seg, i);
  }

  lemma NextChildNo(seg: Seg, i: nat)
    requires i < |seg.stmts|
    ensures ChildNo(seg, i + 1) == ChildNo(seg, i) + if Takes(seg, i) then 1 else 0
  {}

  function JoinsOf(seg: Seg): seq<seq<Row>> {
    seq(|seg.stmts| + 1, i requires 0 <= i <= |seg.stmts| => if ClosesRun(seg, i) then Flush(Run(seg, i)) else [])
  }

  lemma JoinsOfAreRunJoins(seg: Seg)
    ensures AreRunJoins(seg, JoinsOf(seg))
  {
    hide AreJoins, Flush, Run;
    forall i | 0 <= i <= |seg.stmts|
      ensures AreJoins(JoinsOf(seg)[i], if ClosesRun(seg, i) then Run(seg, i) else [])
    {
      FlushIsJoins(if ClosesRun(seg, i) then Run(seg, i) else []);
      FlushNothing();
    }
  }

  lemma FlushNothing()
    ensures Flush([]) == []
  {}

  lemma TurnIsStep(seg: Seg, n: nat, i: nat)
    requires i < |seg.stmts|
    ensures WalkFrom(seg, n, i, ChildNo(seg, i), Run(seg, i)) ==
            Turn(seg, n, JoinsOf(seg)[i], i) + WalkFrom(seg, n, i + 1, ChildNo(seg, i + 1), Run(seg, i + 1))
  {
    hide Walk, Flush, Run, WalkRest, JoinsOf, ChildNo;
    RunGoesOn(seg, i);
    NextChildNo(seg, i);
    JoinAt(seg, i);
  }

  lemma JoinAt(seg: Seg, i: nat)
    requires i <= |seg.stmts|
    ensures |JoinsOf(seg)| == |seg.stmts| + 1
    ensures JoinsOf(seg)[i] == if ClosesRun(seg, i) then Flush(Run(seg, i)) else []
  {}

  lemma {:induction false} TurnsAreWalk(seg: Seg, n: nat, i: nat)
    requires i <= |seg.stmts|
    ensures WalkFrom(seg, n, 0, 0, []) ==
            Turns(seg, n, JoinsOf(seg), i) + WalkFrom(seg, n, i, ChildNo(seg, i), Run(seg, i))
  {
    hide WalkFrom, Turn, JoinsOf;
    if i == 0 {
      assert Run(seg, 0) == [];
    } else {
      TurnsAreWalk(seg, n, i - 1);
      TurnIsStep(seg, n, i - 1);
    }
  }

  lemma {:induction false} RestIsWalks(seg: Seg, n: nat, c: nat)
    requires c <= |seg.children|
    ensures WalkRest(seg, n, c) == Walks(seg.children[c..], n)
    decreases |seg.children| - c
  {
    hide Walk;
    if c < |seg.children| { RestIsWalks(seg, n, c + 1); }
  }

  // The walk of a segment: its loop phis, the rows of its statements with the joins of
  // every run of branches where the run ends, and the children no statement takes.
  lemma WalkIsLaidOut(seg: Seg, n: nat) returns (joins: seq<seq<Row>>)
    ensures AreRunJoins(seg, joins)
    ensures var m := |seg.stmts|;
            Walk(seg, n) ==
            EntryPhis(seg, n) + Turns(seg, n, joins, m) + joins[m] + Walks(seg.children[ChildNo(seg, m)..], n)
  {
    hide Walk, WalkFrom, WalkRest, Turns, EntryPhis, Walks, JoinsOf, Run, ChildNo, AreRunJoins;
    var m := |seg.stmts|;
    joins := JoinsOf(seg);
    JoinsOfAreRunJoins(seg);
    TurnsAreWalk(seg, n, m);
    RestIsWalks(seg, n, ChildNo(seg, m));
    WalkEnds(seg, n);
    WalkIs(seg, n);
    assert |joins| == m + 1 by { JoinsOfSize(seg); }
    Regroup(EntryPhis(seg, n), Turns(seg, n, joins, m), joins[m] + Walks(seg.children[ChildNo(seg, m)..], n));
    Regroup(EntryPhis(seg, n) + Turns(seg, n, joins, m), joins[m], Walks(seg.children[ChildNo(seg, m)..], n));
  }

  lemma WalkIs(seg: Seg, n: nat)
    ensures Walk(seg, n) == EntryPhis(seg, n) + WalkFrom(seg, n, 0, 0, [])
  {}

  lemma JoinsOfSize(seg: Seg)
    ensures |JoinsOf(seg)| == |seg.stmts| + 1
  {}

  lemma WalkEnds(seg: Seg, n: nat)
    ensures var m := |seg.stmts|;
            WalkFrom(seg, n, m, ChildNo(seg, m), Run(seg, m)) == JoinsOf(seg)[m] + WalkRest(seg, n, ChildNo(seg, m))
  {}

  // The matrix: each root's statements, without joins, and the walks of its children.
  function Laid(roots: seq<Seg>, n: nat): seq<Row> {
    if roots == [] then []
    else
      var m := |roots| - 1;
      Laid(roots[..m], n) + StmtRows(roots[m], |roots[m].stmts|) + Walks(roots[m].children, n)
  }

  lemma {:induction false} MatrixIsLaidOut(roots: seq<Seg>, n: nat)
    ensures MatrixRows(roots, n) == Laid(roots, n)
  {
    hide Walk, WalkRest, Walks, StmtRows;
    if roots != [] {
      var m := |roots| - 1;
      MatrixIsLaidOut(roots[..m], n);
      RestIsWalks(roots[m], n, 0);
      assert roots[m].children[0..] == roots[m].children;
    }
  }
}
