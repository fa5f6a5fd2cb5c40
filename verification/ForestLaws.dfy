// Segments of a forest: one id a segment, the order of a walk relates any two of them,
// and every row of the matrix belongs to one.
module ForestLaws {
  import opened Matrix
  import opened MatrixLaws
  import opened LoopPhiLaws
  import opened WalkOrder

  // ---- Segments of a forest -----------------------------------------------------------------------------

  // Scope paths are names joined by dots.
  predicate Dotted(seg: Seg)
    decreases seg
  {
    forall k :: 0 <= k < |seg.children| ==> seg.scope + "." <= seg.children[k].scope && Dotted(seg.children[k])
  }

  lemma {:induction false} BelowIsLonger(seg: Seg, s: Seg)
    requires Dotted(seg) && InTree(s, seg)
    ensures seg.scope <= s.scope && (s == seg || |seg.scope| < |s.scope|)
    decreases seg
  {
    if s != seg {
      var k :| 0 <= k < |seg.children| && InTree(s, seg.children[k]);
      BelowIsLonger(seg.children[k], s);
      assert seg.scope <= seg.scope + ".";
    }
  }

  lemma {:induction false} DottedBelow(seg: Seg, s: Seg)
    requires Dotted(seg) && InTree(s, seg)
    ensures Dotted(s)
    decreases seg
  {
    if s != seg {
      var k :| 0 <= k < |seg.children| && InTree(s, seg.children[k]);
      DottedBelow(seg.children[k], s);
    }
  }

  lemma {:induction false} InTreeChain(t: Seg, s: Seg, seg: Seg)
    requires InTree(t, s) && InTree(s, seg)
    ensures InTree(t, seg)
    decreases seg
  {
    if s != seg {
      var k :| 0 <= k < |seg.children| && InTree(s, seg.children[k]);
      InTreeChain(t, s, seg.children[k]);
    }
  }

  lemma {:induction false} SegOf(seg: Seg, id: int) returns (s: Seg)
    requires id in Ids(seg)
    ensures InTree(s, seg) && s.id == id
    decreases seg, 1, 0
  {
    if id == seg.id { s := seg; } else { s := SegOfFrom(seg, 0, id); }
  }

  lemma {:induction false} SegOfFrom(seg: Seg, c: nat, id: int) returns (s: Seg)
    requires c <= |seg.children| && id in IdsFrom(seg, c)
    ensures InTree(s, seg) && s.id == id
    decreases seg, 0, |seg.children| - c
  {
    if id in Ids(seg.children[c]) { s := SegOf(seg.children[c], id); } else { s := SegOfFrom(seg, c + 1, id); }
  }

  // Two segments of one tree: one lies below the other, or one is walked before the other.
  lemma {:induction false} Related(a: Seg, b: Seg, seg: Seg)
    requires InTree(a, seg) && InTree(b, seg)
    ensures InTree(a, b) || InTree(b, a) || WalkedBefore(a, b, seg) || WalkedBefore(b, a, seg)
    decreases seg
  {
    if a != seg && b != seg {
      var p :| 0 <= p < |seg.children| && InTree(a, seg.children[p]);
      var q :| 0 <= q < |seg.children| && InTree(b, seg.children[q]);
      if p == q { Related(a, b, seg.children[p]); }
    }
  }

  lemma ForestRelated(a: Seg, b: Seg, roots: seq<Seg>)
    requires InForest(a, roots) && InForest(b, roots)
    ensures InTree(a, b) || InTree(b, a) || ForestBefore(a, b, roots) || ForestBefore(b, a, roots)
  {
    hide InTree, WalkedBefore;
    var r :| 0 <= r < |roots| && InTree(a, roots[r]);
    var t :| 0 <= t < |roots| && InTree(b, roots[t]);
    if r == t { Related(a, b, roots[r]); }
  }

  // What is walked after a is so with everything below it.
  lemma {:induction false} WalkedBelow(a: Seg, b: Seg, t: Seg, seg: Seg)
    requires WalkedBefore(a, b, seg) && InTree(t, b)
    ensures WalkedBefore(a, t, seg)
    decreases seg
  {
    if i, j :| 0 <= i < j < |seg.children| && InTree(a, seg.children[i]) && InTree(b, seg.children[j]) {
      InTreeChain(t, b, seg.children[j]);
    } else {
      var p :| 0 <= p < |seg.children| && WalkedBefore(a, b, seg.children[p]);
      WalkedBelow(a, b, t, seg.children[p]);
    }
  }

  lemma ForestBelow(a: Seg, b: Seg, t: Seg, roots: seq<Seg>)
    requires ForestBefore(a, b, roots) && InTree(t, b)
    ensures ForestBefore(a, t, roots)
  {
    hide InTree, WalkedBefore;
    if i, j :| 0 <= i < j < |roots| && InTree(a, roots[i]) && InTree(b, roots[j]) {
      InTreeChain(t, b, roots[j]);
    } else {
      var r :| 0 <= r < |roots| && WalkedBefore(a, b, roots[r]);
      WalkedBelow(a, b, t, roots[r]);
    }
  }

  // Subtrees walked one before the other share no id.
  lemma {:induction false} WalkedApart(a: Seg, b: Seg, seg: Seg)
    requires DistinctIds(seg) && WalkedBefore(a, b, seg)
    ensures Ids(a) !! Ids(b)
    decreases seg
  {
    hide Ids, IdsFrom;
    assert DistinctFrom(seg, 0);
    if i, j :| 0 <= i < j < |seg.children| && InTree(a, seg.children[i]) && InTree(b, seg.children[j]) {
      IdsBelow(a, seg.children[i]);
      IdsBelow(b, seg.children[j]);
      ChildrenApart(seg, i, j);
    } else {
      var p :| 0 <= p < |seg.children| && WalkedBefore(a, b, seg.children[p]);
      LaterApart(seg, 0, p);
      WalkedApart(a, b, seg.children[p]);
    }
  }

  lemma {:induction false} RootsApart(roots: seq<Seg>, r: nat, t: nat)
    requires DistinctForest(roots) && r < t < |roots|
    ensures Ids(roots[r]) !! Ids(roots[t])
  {
    hide Ids, DistinctIds;
    var m := |roots| - 1;
    if t == m {
      assert roots[..m][r] == roots[r];
      RootInForest(roots[..m], r);
    } else {
      RootsApart(roots[..m], r, t);
    }
  }

  lemma {:induction false} RootDistinct(roots: seq<Seg>, r: nat)
    requires DistinctForest(roots) && r < |roots|
    ensures DistinctIds(roots[r])
  {
    hide Ids, DistinctIds;
    if r < |roots| - 1 { RootDistinct(roots[..|roots| - 1], r); }
  }

  lemma ForestApart(a: Seg, b: Seg, roots: seq<Seg>)
    requires DistinctForest(roots) && ForestBefore(a, b, roots)
    ensures Ids(a) !! Ids(b)
  {
    hide Ids, InTree, WalkedBefore, DistinctIds, DistinctForest;
    if i, j :| 0 <= i < j < |roots| && InTree(a, roots[i]) && InTree(b, roots[j]) {
      IdsBelow(a, roots[i]);
      IdsBelow(b, roots[j]);
      RootsApart(roots, i, j);
    } else {
      var r :| 0 <= r < |roots| && WalkedBefore(a, b, roots[r]);
      RootDistinct(roots, r);
      WalkedApart(a, b, roots[r]);
    }
  }

  // Segment s, whose path continues the spelling of the loop's, lies in the loop or is
  // walked wholly before or after it.
  lemma PlaceOf(roots: seq<Seg>, loop: Seg, s: Seg)
    requires (forall r :: r in roots ==> Dotted(r)) && DistinctForest(roots)
    requires InForest(loop, roots) && InForest(s, roots) && loop.scope <= s.scope
    ensures s.id in Ids(loop) || ForestBefore(loop, s, roots) || ForestBefore(s, loop, roots)
    ensures s.id in Ids(loop) ==> !ForestBefore(loop, s, roots) && !ForestBefore(s, loop, roots)
  {
    hide Ids, ForestBefore, DistinctForest, Dotted, InTree;
    ForestRelated(loop, s, roots);
    if InTree(s, loop) {
      IdIn(loop, s);
    } else if InTree(loop, s) {
      var r :| 0 <= r < |roots| && InTree(s, roots[r]);
      DottedBelow(roots[r], s);
      BelowIsLonger(s, loop);
      SelfInTree(s);
    }
    if ForestBefore(loop, s, roots) { ForestApart(loop, s, roots); OwnId(s); }
    if ForestBefore(s, loop, roots) { ForestApart(s, loop, roots); OwnId(s); }
  }

  lemma SelfInTree(s: Seg)
    ensures InTree(s, s)
  {}

  lemma OwnId(s: Seg)
    ensures s.id in Ids(s)
  {}

  lemma {:induction false} DistinctBelow(seg: Seg, s: Seg)
    requires DistinctIds(seg) && InTree(s, seg)
    ensures DistinctIds(s)
    decreases seg
  {
    hide Ids, IdsFrom;
    if s != seg {
      assert DistinctFrom(seg, 0);
      var k :| 0 <= k < |seg.children| && InTree(s, seg.children[k]);
      LaterApart(seg, 0, k);
      DistinctBelow(seg.children[k], s);
    }
  }

  lemma OneIdBelow(a: Seg, b: Seg)
    requires DistinctIds(b) && InTree(a, b) && a.id == b.id
    ensures a == b
  {
    hide Ids, IdsFrom;
    if a != b {
      assert b.id !in IdsFrom(b, 0);
      var k :| 0 <= k < |b.children| && InTree(a, b.children[k]);
      IdInFrom(b, 0, k, a);
    }
  }

  lemma InForestIsDistinct(s: Seg, roots: seq<Seg>)
    requires DistinctForest(roots) && InForest(s, roots)
    ensures DistinctIds(s)
  {
    hide InTree, DistinctIds, DistinctForest;
    var r :| 0 <= r < |roots| && InTree(s, roots[r]);
    RootDistinct(roots, r);
    DistinctBelow(roots[r], s);
  }

  lemma OneSegmentAnId(a: Seg, b: Seg, roots: seq<Seg>)
    requires DistinctForest(roots) && InForest(a, roots) && InForest(b, roots) && a.id == b.id
    ensures a == b
  {
    hide Ids, ForestBefore, DistinctForest, DistinctIds, InTree;
    ForestRelated(a, b, roots);
    InForestIsDistinct(a, roots);
    InForestIsDistinct(b, roots);
    OwnId(a);
    OwnId(b);
    if InTree(a, b) {
      OneIdBelow(a, b);
    } else if InTree(b, a) {
      OneIdBelow(b, a);
    } else if ForestBefore(a, b, roots) {
      ForestApart(a, b, roots);
    } else {
      ForestApart(b, a, roots);
    }
  }

  // ---- Rows of a forest ---------------------------------------------------------------------------------

  lemma {:induction false} MatrixRowsBelong(roots: seq<Seg>, n: nat, r: Row) returns (s: Seg)
    requires r in MatrixRows(roots, n) && (r.StmtRow? || r.LoopPhi?)
    ensures InForest(s, roots) && Belongs(r, s)
  {
    hide Belongs, InTree;
    var m := |roots| - 1;
    if r in MatrixRows(roots[..m], n) {
      s := MatrixRowsBelong(roots[..m], n, r);
      var t :| 0 <= t < m && InTree(s, roots[..m][t]);
      assert roots[..m][t] == roots[t];
    } else if r in WalkRest(roots[m], n, 0) {
      s := RestRowsBelong(roots[m], n, 0, r);
    } else {
      s := roots[m];
      var i :| 0 <= i < |s.stmts| && StmtRows(s, |s.stmts|)[i] == r;
      BelongsStmt(s, i);
      SelfInTree(s);
    }
  }

  lemma {:induction false} OfMembers(rows: seq<Row>, id: int, r: Row)
    requires r in Of(rows, id)
    ensures r in rows
  {
    if rows != [] && r in Of(rows[1..], id) { OfMembers(rows[1..], id, r); }
  }

  lemma StmtIsMatrixRow(roots: seq<Seg>, n: nat, s: Seg, t: Stmt)
    requires DistinctForest(roots) && InForest(s, roots) && t in s.stmts
    ensures StmtRow(s.id, s.scope, t) in MatrixRows(roots, n)
  {
    hide Of, InForest, DistinctForest;
    MatrixEmitsStatements(roots, n, s);
    var i :| 0 <= i < |s.stmts| && s.stmts[i] == t;
    assert StmtRows(s, |s.stmts|)[i] == StmtRow(s.id, s.scope, t);
    OfMembers(MatrixRows(roots, n), s.id, StmtRow(s.id, s.scope, t));
  }
}
