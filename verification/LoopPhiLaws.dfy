// Loop phis of the segment walk: exactly the slots written in the loop's subtree,
// each justified by a later row of the loop.
module LoopPhiLaws {
  import opened Matrix
  import opened MatrixLaws

  // What statement classification and scope naming provide: a declared slot is also
  // written, slots are below n, and a child's scope path extends its parent's.
  predicate Formed(seg: Seg, n: nat)
    decreases seg
  {
    (forall t :: t in seg.stmts ==> Elems(t.decls) <= Elems(t.defs) && forall x :: x in t.defs ==> x < n)
    && forall k :: 0 <= k < |seg.children| ==> seg.scope <= seg.children[k].scope && Formed(seg.children[k], n)
  }

  lemma {:induction false} FormedBelow(seg: Seg, n: nat, s: Seg)
    requires Formed(seg, n) && InTree(s, seg)
    ensures Formed(s, n) && seg.scope <= s.scope
    decreases seg
  {
    if s != seg {
      var k :| 0 <= k < |seg.children| && InTree(s, seg.children[k]);
      FormedBelow(seg.children[k], n, s);
    }
  }

  // ---- Where the collected writes come from ---------------------------------------------

  predicate WritesSlot(s: Seg, x: Slot) {
    exists t :: t in s.stmts && x in t.defs
  }

  lemma {:induction false} OwnWritesAre(stmts: seq<Stmt>, x: Slot)
    ensures x in OwnWrites(stmts) <==> exists t :: t in stmts && x in StmtWrites(t)
  {
    if stmts != [] {
      var m := |stmts| - 1;
      OwnWritesAre(stmts[..m], x);
      assert stmts == stmts[..m] + [stmts[m]];
    }
  }

  lemma {:induction false} CollectedIsWritten(seg: Seg, n: nat, x: Slot) returns (s: Seg)
    requires Formed(seg, n) && x in SubtreeWrites(seg)
    ensures InTree(s, seg) && WritesSlot(s, x)
    decreases seg
  {
    if x in OwnWrites(seg.stmts) {
      OwnWritesAre(seg.stmts, x);
      var t :| t in seg.stmts && x in StmtWrites(t);
      assert x in Elems(t.defs);
      s := seg;
    } else {
      var k := ChildThatWrites(seg, |seg.children|, x);
      s := CollectedIsWritten(seg.children[k], n, x);
    }
  }

  lemma {:induction false} ChildThatWrites(seg: Seg, m: nat, x: Slot) returns (k: nat)
    requires m <= |seg.children| && x in ChildWrites(seg, m)
    ensures k < m && x in SubtreeWrites(seg.children[k])
    decreases m
  {
    if x in SubtreeWrites(seg.children[m - 1]) { k := m - 1; } else { k := ChildThatWrites(seg, m - 1, x); }
  }

  lemma {:induction false} WrittenIsCollected(seg: Seg, s: Seg, x: Slot)
    requires InTree(s, seg) && WritesSlot(s, x)
    ensures x in SubtreeWrites(seg)
    decreases seg
  {
    if s == seg {
      OwnWritesAre(seg.stmts, x);
    } else {
      var k :| 0 <= k < |seg.children| && InTree(s, seg.children[k]);
      WrittenIsCollected(seg.children[k], s, x);
      ChildWritesGrow(seg, k, |seg.children|, x);
    }
  }

  lemma {:induction false} ChildWritesGrow(seg: Seg, k: nat, m: nat, x: Slot)
    requires k < m <= |seg.children| && x in SubtreeWrites(seg.children[k])
    ensures x in ChildWrites(seg, m)
    decreases m
  {
    if k < m - 1 { ChildWritesGrow(seg, k, m - 1, x); }
  }

  predicate Increasing(xs: seq<Slot>) {
    forall i, j :: 0 <= i < j < |xs| ==> xs[i] < xs[j]
  }

  lemma {:induction false} AscendingLists(written: set<Slot>, n: nat)
    ensures forall x :: x in Ascending(written, n) <==> x in written && x < n
    ensures Increasing(Ascending(written, n))
  {
    if n > 0 {
      AscendingLists(written, n - 1);
      var xs := Ascending(written, n - 1);
      assert forall i :: 0 <= i < |xs| ==> xs[i] in xs;
      assert Increasing(xs + [n - 1]);
    }
  }

  // ---- Which rows a walk holds ------------------------------------------------------------

  // Row r stands for a statement, or is an entry phi, of a segment below seg.
  predicate Belongs(r: Row, s: Seg) {
    match r
    case StmtRow(id, scope, t) => s.id == id && s.scope == scope && t in s.stmts
    case LoopPhi(id, scope, x) => s.typ == LoopSeg && s.id == id && s.scope == scope && x in SubtreeWrites(s)
    case _ => false
  }

  lemma {:induction false} RowsBelong(seg: Seg, n: nat, r: Row) returns (s: Seg)
    requires r in Walk(seg, n) && (r.StmtRow? || r.LoopPhi?)
    ensures InTree(s, seg) && Belongs(r, s)
    decreases seg, 2, 0
  {
    if r in EntryPhis(seg, n) {
      AscendingLists(SubtreeWrites(seg), n);
      s := seg;
    } else {
      s := FromRowsBelong(seg, n, 0, 0, [], r);
    }
  }

  lemma {:induction false} FromRowsBelong(seg: Seg, n: nat, i: nat, c: nat, group: seq<Seg>, r: Row) returns (s: Seg)
    requires i <= |seg.stmts| && c <= |seg.children|
    requires r in WalkFrom(seg, n, i, c, group) && (r.StmtRow? || r.LoopPhi?)
    ensures InTree(s, seg) && Belongs(r, s)
    decreases seg, 1, |seg.stmts| - i
  {
    hide Walk, SubtreeWrites, Belongs, Flush;
    FlushIsJoins(group);
    if i == |seg.stmts| {
      s := RestRowsBelong(seg, n, c, r);
    } else if r == StmtRow(seg.id, seg.scope, seg.stmts[i]) {
      BelongsStmt(seg, i);
      s := seg;
    } else if !OpensBlock(seg.stmts[i]) {
      s := FromRowsBelong(seg, n, i + 1, c, [], r);
    } else if c == |seg.children| {
      s := FromRowsBelong(seg, n, i + 1, c, group, r);
    } else if r in Walk(seg.children[c], n) {
      s := RowsBelong(seg.children[c], n, r);
    } else {
      var child := seg.children[c];
      s := FromRowsBelong(seg, n, i + 1, c + 1, if child.typ == BranchSeg then group + [child] else [], r);
    }
  }

  lemma FlushIsJoins(group: seq<Seg>)
    ensures forall p :: p in Flush(group) ==> p.JoinPhi?
  {}

  lemma BelongsStmt(seg: Seg, i: nat)
    requires i < |seg.stmts|
    ensures Belongs(StmtRow(seg.id, seg.scope, seg.stmts[i]), seg)
  {}

  lemma {:induction false} RestRowsBelong(seg: Seg, n: nat, c: nat, r: Row) returns (s: Seg)
    requires c <= |seg.children| && r in WalkRest(seg, n, c) && (r.StmtRow? || r.LoopPhi?)
    ensures InTree(s, seg) && Belongs(r, s)
    decreases seg, 0, |seg.children| - c
  {
    hide Walk, SubtreeWrites, Belongs;
    if r in Walk(seg.children[c], n) {
      s := RowsBelong(seg.children[c], n, r);
    } else {
      s := RestRowsBelong(seg, n, c + 1, r);
    }
  }

  lemma {:induction false} BelongingAreRows(seg: Seg, n: nat, s: Seg, r: Row)
    requires Formed(seg, n) && InTree(s, seg) && Belongs(r, s)
    ensures r in Walk(seg, n)
    ensures s != seg || r.StmtRow? ==> r in WalkFrom(seg, n, 0, 0, [])
    decreases seg, 2, 0
  {
    if s == seg {
      if r.StmtRow? {
        var i :| 0 <= i < |seg.stmts| && seg.stmts[i] == r.stmt;
        OwnRowIn(seg, n, 0, 0, [], i);
      } else {
        EntryPhiIn(seg, n, r.slot);
      }
    } else {
      var k :| 0 <= k < |seg.children| && InTree(s, seg.children[k]);
      BelongingAreRows(seg.children[k], n, s, r);
      ChildRowIn(seg, n, 0, 0, [], k, r);
    }
  }

  lemma EntryPhiIn(seg: Seg, n: nat, x: Slot)
    requires Formed(seg, n) && seg.typ == LoopSeg && x in SubtreeWrites(seg)
    ensures LoopPhi(seg.id, seg.scope, x) in EntryPhis(seg, n)
  {
    var s := CollectedIsWritten(seg, n, x);
    FormedBelow(seg, n, s);
    AscendingLists(SubtreeWrites(seg), n);
    var xs := Ascending(SubtreeWrites(seg), n);
    var i :| 0 <= i < |xs| && xs[i] == x;
    assert LoopPhis(seg, xs)[i] == LoopPhi(seg.id, seg.scope, x);
  }

  lemma {:induction false} OwnRowIn(seg: Seg, n: nat, i: nat, c: nat, group: seq<Seg>, k: nat)
    requires i <= k < |seg.stmts| && c <= |seg.children|
    ensures StmtRow(seg.id, seg.scope, seg.stmts[k]) in WalkFrom(seg, n, i, c, group)
    decreases |seg.stmts| - i
  {
    hide Walk, Flush;
    var row := StmtRow(seg.id, seg.scope, seg.stmts[k]);
    assert row in [row];
    if i < k {
      if !OpensBlock(seg.stmts[i]) {
        OwnRowIn(seg, n, i + 1, c, [], k);
      } else if c == |seg.children| {
        OwnRowIn(seg, n, i + 1, c, group, k);
      } else {
        var child := seg.children[c];
        OwnRowIn(seg, n, i + 1, c + 1, if child.typ == BranchSeg then group + [child] else [], k);
      }
    }
  }

  lemma {:induction false} ChildRowIn(seg: Seg, n: nat, i: nat, c: nat, group: seq<Seg>, k: nat, r: Row)
    requires i <= |seg.stmts| && c <= k < |seg.children| && r in Walk(seg.children[k], n)
    ensures r in WalkFrom(seg, n, i, c, group)
    decreases |seg.stmts| - i
  {
    hide Walk, Flush;
    if i == |seg.stmts| {
      RestRowIn(seg, n, c, k, r);
    } else if !OpensBlock(seg.stmts[i]) {
      ChildRowIn(seg, n, i + 1, c, [], k, r);
    } else if c < k {
      var child := seg.children[c];
      ChildRowIn(seg, n, i + 1, c + 1, if child.typ == BranchSeg then group + [child] else [], k, r);
    }
  }

  lemma {:induction false} RestRowIn(seg: Seg, n: nat, c: nat, k: nat, r: Row)
    requires c <= k < |seg.children| && r in Walk(seg.children[k], n)
    ensures r in WalkRest(seg, n, c)
    decreases k - c
  {
    hide Walk;
    if c < k { RestRowIn(seg, n, c + 1, k, r); }
  }

  // A loop has an entry phi for a slot exactly when a statement row emitted in its own
  // subtree writes the slot.
  lemma LoopPhisAreExact(seg: Seg, n: nat, loop: Seg, x: Slot)
    requires Formed(seg, n) && InTree(loop, seg) && loop.typ == LoopSeg
    ensures LoopPhi(loop.id, loop.scope, x) in EntryPhis(loop, n) <==>
            exists r :: r in Walk(loop, n) && r.StmtRow? && x in r.stmt.defs
    ensures LoopPhi(loop.id, loop.scope, x) in EntryPhis(loop, n) ==> LoopPhi(loop.id, loop.scope, x) in Walk(seg, n)
  {
    FormedBelow(seg, n, loop);
    if LoopPhi(loop.id, loop.scope, x) in EntryPhis(loop, n) {
      AscendingLists(SubtreeWrites(loop), n);
      var s := CollectedIsWritten(loop, n, x);
      var t :| t in s.stmts && x in t.defs;
      BelongingAreRows(loop, n, s, StmtRow(s.id, s.scope, t));
      BelongingAreRows(seg, n, loop, LoopPhi(loop.id, loop.scope, x));
    }
    if r :| r in Walk(loop, n) && r.StmtRow? && x in r.stmt.defs {
      var s := RowsBelong(loop, n, r);
      WrittenIsCollected(loop, s, x);
      EntryPhiIn(loop, n, x);
    }
  }

  // ---- Every loop phi is written again later, inside its loop's scope ------------------------

  predicate Rewrites(r: Row, phi: Row)
    requires phi.LoopPhi?
  {
    r.StmtRow? && phi.scope <= r.scope && phi.slot in r.stmt.defs
  }

  ghost predicate Covered(rows: seq<Row>) {
    forall i :: 0 <= i < |rows| && rows[i].LoopPhi? ==> exists j :: i < j < |rows| && Rewrites(rows[j], rows[i])
  }

  lemma CoveredAppend(a: seq<Row>, b: seq<Row>)
    requires Covered(a) && Covered(b)
    ensures Covered(a + b)
  {
    forall i | 0 <= i < |a + b| && (a + b)[i].LoopPhi?
      ensures exists j :: i < j < |a + b| && Rewrites((a + b)[j], (a + b)[i])
    {
      if i < |a| {
        var j :| i < j < |a| && Rewrites(a[j], a[i]);
        assert (a + b)[j] == a[j];
      } else {
        var j :| i - |a| < j < |b| && Rewrites(b[j], b[i - |a|]);
        assert (a + b)[|a| + j] == b[j];
      }
    }
  }

  lemma {:induction false} WalkIsCovered(seg: Seg, n: nat)
    requires Formed(seg, n)
    ensures Covered(Walk(seg, n))
    decreases seg, 2, 0
  {
    var phis, rest := EntryPhis(seg, n), WalkFrom(seg, n, 0, 0, []);
    FromIsCovered(seg, n, 0, 0, []);
    forall i | 0 <= i < |phis| ensures exists j :: 0 <= j < |rest| && Rewrites(rest[j], phis[i]) {
      AscendingLists(SubtreeWrites(seg), n);
      assert phis[i].slot in Ascending(SubtreeWrites(seg), n);
      var s := CollectedIsWritten(seg, n, phis[i].slot);
      FormedBelow(seg, n, s);
      var t :| t in s.stmts && phis[i].slot in t.defs;
      BelongingAreRows(seg, n, s, StmtRow(s.id, s.scope, t));
      var j :| 0 <= j < |rest| && rest[j] == StmtRow(s.id, s.scope, t);
      assert Rewrites(rest[j], phis[i]);
    }
    PhisThenRest(phis, rest);
  }

  lemma PhisThenRest(phis: seq<Row>, rest: seq<Row>)
    requires Covered(rest)
    requires forall i :: 0 <= i < |phis| ==>
               phis[i].LoopPhi? && exists j :: 0 <= j < |rest| && Rewrites(rest[j], phis[i])
    ensures Covered(phis + rest)
  {
    var all := phis + rest;
    forall i | 0 <= i < |all| && all[i].LoopPhi?
      ensures exists j :: i < j < |all| && Rewrites(all[j], all[i])
    {
      if i < |phis| {
        var j :| 0 <= j < |rest| && Rewrites(rest[j], phis[i]);
        assert all[|phis| + j] == rest[j];
      } else {
        var j :| i - |phis| < j < |rest| && Rewrites(rest[j], rest[i - |phis|]);
        assert all[|phis| + j] == rest[j];
      }
    }
  }

  lemma {:induction false} FromIsCovered(seg: Seg, n: nat, i: nat, c: nat, group: seq<Seg>)
    requires Formed(seg, n) && i <= |seg.stmts| && c <= |seg.children|
    ensures Covered(WalkFrom(seg, n, i, c, group))
    decreases seg, 1, |seg.stmts| - i
  {
    hide Walk, Flush, Covered;
    FlushIsCovered(group);
    if i == |seg.stmts| {
      RestIsCovered(seg, n, c);
      CoveredAppend(Flush(group), WalkRest(seg, n, c));
    } else {
      var row := [StmtRow(seg.id, seg.scope, seg.stmts[i])];
      OneRowIsCovered(row);
      if !OpensBlock(seg.stmts[i]) {
        FromIsCovered(seg, n, i + 1, c, []);
        CoveredAppend(Flush(group), row);
        CoveredAppend(Flush(group) + row, WalkFrom(seg, n, i + 1, c, []));
      } else if c == |seg.children| {
        FromIsCovered(seg, n, i + 1, c, group);
        CoveredAppend(row, WalkFrom(seg, n, i + 1, c, group));
      } else {
        var child := seg.children[c];
        var pending := if child.typ == BranchSeg then group + [child] else [];
        var head := if child.typ == BranchSeg then row else row + Flush(group);
        WalkIsCovered(child, n);
        FromIsCovered(seg, n, i + 1, c + 1, pending);
        CoveredAppend(row, Flush(group));
        CoveredAppend(head, Walk(child, n));
        CoveredAppend(head + Walk(child, n), WalkFrom(seg, n, i + 1, c + 1, pending));
      }
    }
  }

  lemma OneRowIsCovered(row: seq<Row>)
    requires |row| == 1 && row[0].StmtRow?
    ensures Covered(row)
  {}

  lemma FlushIsCovered(group: seq<Seg>)
    ensures Covered(Flush(group))
  {
    var phis := Flush(group);
    assert forall i :: 0 <= i < |phis| ==> phis[i] in phis;
  }

  lemma {:induction false} RestIsCovered(seg: Seg, n: nat, c: nat)
    requires Formed(seg, n) && c <= |seg.children|
    ensures Covered(WalkRest(seg, n, c))
    decreases seg, 0, |seg.children| - c
  {
    hide Walk, Covered;
    NoRowIsCovered();
    if c < |seg.children| {
      WalkIsCovered(seg.children[c], n);
      RestIsCovered(seg, n, c + 1);
      CoveredAppend(Walk(seg.children[c], n), WalkRest(seg, n, c + 1));
    }
  }

  lemma NoRowIsCovered()
    ensures Covered([])
  {}

  lemma {:induction false} MatrixIsCovered(roots: seq<Seg>, n: nat)
    requires forall r :: r in roots ==> Formed(r, n)
    ensures Covered(MatrixRows(roots, n))
  {
    if roots != [] {
      var root := roots[|roots| - 1];
      MatrixIsCovered(roots[..|roots| - 1], n);
      RestIsCovered(root, n, 0);
      CoveredAppend(StmtRows(root, |root.stmts|), WalkRest(root, n, 0));
      CoveredAppend(MatrixRows(roots[..|roots| - 1], n), RootRows(root, n));
    }
  }
}
