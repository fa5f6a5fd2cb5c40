// The order in which a walk emits the rows of different segments, and where the woven
// entry nodes stand among them.
module WalkOrder {
  import opened Matrix
  import opened MatrixLaws
  import opened LoopPhiLaws

  // ---- Rows of one set of segments before those of another ----------------------------------------------

  // A statement row or loop phi of one of the segments.
  predicate NamedIn(r: Row, ids: set<int>) { (r.StmtRow? || r.LoopPhi?) && r.segId in ids }

  predicate Lacks(rows: seq<Row>, ids: set<int>) {
    forall i :: 0 <= i < |rows| ==> !NamedIn(rows[i], ids)
  }

  predicate Ordered(rows: seq<Row>, a: set<int>, b: set<int>) {
    forall i, j :: 0 <= i < |rows| && 0 <= j < |rows| && NamedIn(rows[i], a) && NamedIn(rows[j], b) ==> i < j
  }

  lemma LacksAppend(x: seq<Row>, y: seq<Row>, ids: set<int>)
    ensures Lacks(x + y, ids) <==> Lacks(x, ids) && Lacks(y, ids)
  {
    var z := x + y;
    assert forall i :: 0 <= i < |x| ==> z[i] == x[i];
    assert forall i :: 0 <= i < |y| ==> z[|x| + i] == y[i];
    assert forall i :: |x| <= i < |z| ==> z[i] == y[i - |x|];
  }

  lemma OrderedAppend(x: seq<Row>, y: seq<Row>, a: set<int>, b: set<int>)
    requires Ordered(x, a, b) && Ordered(y, a, b) && (Lacks(x, b) || Lacks(y, a))
    ensures Ordered(x + y, a, b)
  {
    var z := x + y;
    assert forall i :: 0 <= i < |x| ==> z[i] == x[i];
    assert forall i :: |x| <= i < |z| ==> z[i] == y[i - |x|];
  }

  lemma LacksIsOrdered(x: seq<Row>, a: set<int>, b: set<int>)
    requires Lacks(x, a) || Lacks(x, b)
    ensures Ordered(x, a, b)
  {}

  // ---- Which ids a walk names ---------------------------------------------------------------------------

  lemma WalkLacks(seg: Seg, n: nat, ids: set<int>)
    requires Ids(seg) !! ids
    ensures Lacks(Walk(seg, n), ids)
  {
    hide Walk, Ids, Belongs;
    forall i | 0 <= i < |Walk(seg, n)| ensures !NamedIn(Walk(seg, n)[i], ids) {
      var r := Walk(seg, n)[i];
      if r.StmtRow? || r.LoopPhi? {
        var s := RowsBelong(seg, n, r);
        IdIn(seg, s);
        BelongsNames(r, s);
      }
    }
  }

  lemma BelongsNames(r: Row, s: Seg)
    requires Belongs(r, s)
    ensures (r.StmtRow? || r.LoopPhi?) && r.segId == s.id && r.scope == s.scope
  {}

  lemma FlushLacks(group: seq<Seg>, ids: set<int>)
    ensures Lacks(Flush(group), ids)
  {
    FlushIsJoins(group);
    forall i | 0 <= i < |Flush(group)| ensures Flush(group)[i].JoinPhi? {
      assert Flush(group)[i] in Flush(group);
    }
  }

  lemma {:induction false} FromLacks(seg: Seg, n: nat, i: nat, c: nat, group: seq<Seg>, ids: set<int>)
    requires i <= |seg.stmts| && c <= |seg.children| && seg.id !in ids && IdsFrom(seg, c) !! ids
    ensures Lacks(WalkFrom(seg, n, i, c, group), ids)
    decreases |seg.stmts| - i
  {
    hide Walk, Flush, Ids, Lacks;
    FlushLacks(group, ids);
    if i == |seg.stmts| {
      RestLacks(seg, n, c, ids);
      LacksAppend(Flush(group), WalkRest(seg, n, c), ids);
    } else {
      var row := [StmtRow(seg.id, seg.scope, seg.stmts[i])];
      OwnRowLacks(seg, i, ids);
      if !OpensBlock(seg.stmts[i]) {
        FromLacks(seg, n, i + 1, c, [], ids);
        LacksAppend(Flush(group), row, ids);
        LacksAppend(Flush(group) + row, WalkFrom(seg, n, i + 1, c, []), ids);
      } else if c == |seg.children| {
        FromLacks(seg, n, i + 1, c, group, ids);
        LacksAppend(row, WalkFrom(seg, n, i + 1, c, group), ids);
      } else {
        var child := seg.children[c];
        var pending := if child.typ == BranchSeg then group + [child] else [];
        var head := if child.typ == BranchSeg then row else row + Flush(group);
        WalkLacks(child, n, ids);
        FromLacks(seg, n, i + 1, c + 1, pending, ids);
        LacksAppend(row, Flush(group), ids);
        LacksAppend(head, Walk(child, n), ids);
        LacksAppend(head + Walk(child, n), WalkFrom(seg, n, i + 1, c + 1, pending), ids);
      }
    }
  }

  lemma OwnRowLacks(seg: Seg, i: nat, ids: set<int>)
    requires i < |seg.stmts| && seg.id !in ids
    ensures Lacks([StmtRow(seg.id, seg.scope, seg.stmts[i])], ids)
  {}

  lemma {:induction false} RestLacks(seg: Seg, n: nat, c: nat, ids: set<int>)
    requires c <= |seg.children| && IdsFrom(seg, c) !! ids
    ensures Lacks(WalkRest(seg, n, c), ids)
    decreases |seg.children| - c
  {
    hide Walk, Ids;
    if c < |seg.children| {
      WalkLacks(seg.children[c], n, ids);
      RestLacks(seg, n, c + 1, ids);
      LacksAppend(Walk(seg.children[c], n), WalkRest(seg, n, c + 1), ids);
    }
  }

  // ---- Children apart -----------------------------------------------------------------------------------

  lemma {:induction false} ChildInFrom(seg: Seg, c: nat, k: nat)
    requires c <= k < |seg.children|
    ensures Ids(seg.children[k]) <= IdsFrom(seg, c)
    decreases k - c
  {
    hide Ids;
    if c < k { ChildInFrom(seg, c + 1, k); }
  }

  lemma {:induction false} LaterApart(seg: Seg, c: nat, k: nat)
    requires c <= k < |seg.children| && DistinctFrom(seg, c)
    ensures Ids(seg.children[k]) !! IdsFrom(seg, k + 1) && DistinctIds(seg.children[k])
    decreases k - c
  {
    hide Ids, DistinctIds;
    if c < k { LaterApart(seg, c + 1, k); }
  }

  lemma ChildrenApart(seg: Seg, j: nat, k: nat)
    requires j < |seg.children| && k < |seg.children| && j != k && DistinctFrom(seg, 0)
    ensures Ids(seg.children[j]) !! Ids(seg.children[k])
  {
    hide Ids, DistinctFrom, IdsFrom;
    if j < k {
      LaterApart(seg, 0, j);
      ChildInFrom(seg, j + 1, k);
    } else {
      LaterApart(seg, 0, k);
      ChildInFrom(seg, k + 1, j);
    }
  }

  // ---- The order of a walk ------------------------------------------------------------------------------

  // Subtrees a and b hang from different children somewhere, a's the earlier one.
  predicate WalkedBefore(a: Seg, b: Seg, seg: Seg)
    decreases seg
  {
    (exists p, q :: 0 <= p < q < |seg.children| && InTree(a, seg.children[p]) && InTree(b, seg.children[q]))
    || exists p :: 0 <= p < |seg.children| && WalkedBefore(a, b, seg.children[p])
  }

  // Rows with ids from child p come before rows with ids from child q.
  ghost predicate Sides(seg: Seg, n: nat, a: set<int>, b: set<int>, p: nat, q: nat) {
    p <= q < |seg.children| && a <= Ids(seg.children[p]) && b <= Ids(seg.children[q])
    && (p == q ==> Ordered(Walk(seg.children[p], n), a, b))
    && seg.id !in a && seg.id !in b && DistinctFrom(seg, 0)
  }

  lemma ChildOrders(seg: Seg, n: nat, c: nat, a: set<int>, b: set<int>, p: nat, q: nat)
    requires Sides(seg, n, a, b, p, q) && c < |seg.children|
    ensures Ordered(Walk(seg.children[c], n), a, b)
    ensures c < p ==> Lacks(Walk(seg.children[c], n), b)
    ensures c >= p ==> IdsFrom(seg, c + 1) !! a
  {
    hide Walk, Ids, IdsFrom, DistinctFrom, Ordered, Lacks;
    if c != p {
      ChildrenApart(seg, c, p);
      WalkLacks(seg.children[c], n, a);
      LacksIsOrdered(Walk(seg.children[c], n), a, b);
    }
    if c != q {
      ChildrenApart(seg, c, q);
      WalkLacks(seg.children[c], n, b);
      LacksIsOrdered(Walk(seg.children[c], n), a, b);
    }
    if c >= p { LaterFrom(seg, p, c); LaterApart(seg, 0, p); }
  }

  lemma {:induction false} LaterFrom(seg: Seg, p: nat, c: nat)
    requires p <= c < |seg.children|
    ensures IdsFrom(seg, c + 1) <= IdsFrom(seg, p + 1)
    decreases c - p
  {
    hide Ids;
    if p < c { LaterFrom(seg, p, c - 1); }
  }

  lemma {:induction false} FromOrders(seg: Seg, n: nat, i: nat, c: nat, group: seq<Seg>, a: set<int>, b: set<int>,
                                      p: nat, q: nat)
    requires i <= |seg.stmts| && c <= |seg.children| && Sides(seg, n, a, b, p, q)
    ensures Ordered(WalkFrom(seg, n, i, c, group), a, b)
    decreases |seg.stmts| - i
  {
    hide Walk, Flush, Ids, IdsFrom, Lacks, Ordered, Sides;
    SidesExclude(seg, n, a, b, p, q);
    FlushLacks(group, a);
    FlushLacks(group, b);
    LacksIsOrdered(Flush(group), a, b);
    if i == |seg.stmts| {
      RestOrders(seg, n, c, a, b, p, q);
      OrderedAppend(Flush(group), WalkRest(seg, n, c), a, b);
    } else {
      var row := [StmtRow(seg.id, seg.scope, seg.stmts[i])];
      OwnRowLacks(seg, i, a);
      OwnRowLacks(seg, i, b);
      LacksIsOrdered(row, a, b);
      if !OpensBlock(seg.stmts[i]) {
        FromOrders(seg, n, i + 1, c, [], a, b, p, q);
        LacksAppend(Flush(group), row, b);
        OrderedAppend(Flush(group), row, a, b);
        OrderedAppend(Flush(group) + row, WalkFrom(seg, n, i + 1, c, []), a, b);
      } else if c == |seg.children| {
        FromOrders(seg, n, i + 1, c, group, a, b, p, q);
        OrderedAppend(row, WalkFrom(seg, n, i + 1, c, group), a, b);
      } else {
        var child := seg.children[c];
        var pending := if child.typ == BranchSeg then group + [child] else [];
        var head := if child.typ == BranchSeg then row else row + Flush(group);
        ChildOrders(seg, n, c, a, b, p, q);
        FromOrders(seg, n, i + 1, c + 1, pending, a, b, p, q);
        LacksAppend(row, Flush(group), b);
        OrderedAppend(row, Flush(group), a, b);
        OrderedAppend(head, Walk(child, n), a, b);
        LacksAppend(head, Walk(child, n), b);
        if c >= p { FromLacks(seg, n, i + 1, c + 1, pending, a); }
        OrderedAppend(head + Walk(child, n), WalkFrom(seg, n, i + 1, c + 1, pending), a, b);
      }
    }
  }

  lemma SidesExclude(seg: Seg, n: nat, a: set<int>, b: set<int>, p: nat, q: nat)
    requires Sides(seg, n, a, b, p, q)
    ensures seg.id !in a && seg.id !in b
  {}

  lemma {:induction false} RestOrders(seg: Seg, n: nat, c: nat, a: set<int>, b: set<int>, p: nat, q: nat)
    requires c <= |seg.children| && Sides(seg, n, a, b, p, q)
    ensures Ordered(WalkRest(seg, n, c), a, b)
    decreases |seg.children| - c
  {
    hide Walk, Ids, IdsFrom, Sides;
    if c < |seg.children| {
      ChildOrders(seg, n, c, a, b, p, q);
      RestOrders(seg, n, c + 1, a, b, p, q);
      if c >= p { RestLacks(seg, n, c + 1, a); }
      OrderedAppend(Walk(seg.children[c], n), WalkRest(seg, n, c + 1), a, b);
    }
  }

  lemma {:induction false} IdsBelow(s: Seg, seg: Seg)
    requires InTree(s, seg)
    ensures Ids(s) <= Ids(seg)
    decreases seg
  {
    if s != seg {
      var k :| 0 <= k < |seg.children| && InTree(s, seg.children[k]);
      IdsBelow(s, seg.children[k]);
      ChildInFrom(seg, 0, k);
    }
  }

  // The two children on which a and b hang.
  lemma {:induction false} SidesOf(a: Seg, b: Seg, seg: Seg, n: nat) returns (p: nat, q: nat)
    requires DistinctIds(seg) && WalkedBefore(a, b, seg)
    ensures Sides(seg, n, Ids(a), Ids(b), p, q)
    decreases seg, 1
  {
    hide Walk, Ids, IdsFrom;
    assert seg.id !in IdsFrom(seg, 0) && DistinctFrom(seg, 0);
    if i, j :| 0 <= i < j < |seg.children| && InTree(a, seg.children[i]) && InTree(b, seg.children[j]) {
      p, q := i, j;
      IdsBelow(a, seg.children[p]);
      IdsBelow(b, seg.children[q]);
    } else {
      p :| 0 <= p < |seg.children| && WalkedBefore(a, b, seg.children[p]);
      q := p;
      LaterApart(seg, 0, p);
      WalkOrders(a, b, seg.children[p], n);
      BothBelow(a, b, seg.children[p]);
    }
    ChildInFrom(seg, 0, p);
    ChildInFrom(seg, 0, q);
  }

  lemma {:induction false} BothBelow(a: Seg, b: Seg, seg: Seg)
    requires WalkedBefore(a, b, seg)
    ensures InTree(a, seg) && InTree(b, seg) && Ids(a) <= Ids(seg) && Ids(b) <= Ids(seg)
    decreases seg
  {
    if !(exists i, j :: 0 <= i < j < |seg.children| && InTree(a, seg.children[i]) && InTree(b, seg.children[j])) {
      var p :| 0 <= p < |seg.children| && WalkedBefore(a, b, seg.children[p]);
      BothBelow(a, b, seg.children[p]);
    }
    IdsBelow(a, seg);
    IdsBelow(b, seg);
  }

  lemma {:induction false} WalkOrders(a: Seg, b: Seg, seg: Seg, n: nat)
    requires DistinctIds(seg) && WalkedBefore(a, b, seg)
    ensures Ordered(Walk(seg, n), Ids(a), Ids(b))
    decreases seg, 2
  {
    hide Ids, Ordered, Sides, DistinctIds, WalkedBefore, EntryPhis;
    var p, q := SidesOf(a, b, seg, n);
    FromOrders(seg, n, 0, 0, [], Ids(a), Ids(b), p, q);
    SidesExclude(seg, n, Ids(a), Ids(b), p, q);
    EntryPhisLack(seg, n, Ids(a));
    EntryPhisLack(seg, n, Ids(b));
    LacksIsOrdered(EntryPhis(seg, n), Ids(a), Ids(b));
    OrderedAppend(EntryPhis(seg, n), WalkFrom(seg, n, 0, 0, []), Ids(a), Ids(b));
  }

  lemma EntryPhisLack(seg: Seg, n: nat, ids: set<int>)
    requires seg.id !in ids
    ensures Lacks(EntryPhis(seg, n), ids)
  {}

  // ---- Forests ------------------------------------------------------------------------------------------

  predicate ForestBefore(a: Seg, b: Seg, roots: seq<Seg>) {
    (exists r, t :: 0 <= r < t < |roots| && InTree(a, roots[r]) && InTree(b, roots[t]))
    || exists r :: 0 <= r < |roots| && WalkedBefore(a, b, roots[r])
  }

  lemma RootLacks(root: Seg, n: nat, ids: set<int>)
    requires Ids(root) !! ids
    ensures Lacks(RootRows(root, n), ids)
  {
    RestLacks(root, n, 0, ids);
    OwnRowsLack(root, ids);
    LacksAppend(StmtRows(root, |root.stmts|), WalkRest(root, n, 0), ids);
  }

  lemma OwnRowsLack(root: Seg, ids: set<int>)
    requires root.id !in ids
    ensures Lacks(StmtRows(root, |root.stmts|), ids)
  {}

  lemma {:induction false} MatrixLacks(roots: seq<Seg>, n: nat, ids: set<int>)
    requires ForestIds(roots) !! ids
    ensures Lacks(MatrixRows(roots, n), ids)
  {
    hide Ids, RootRows;
    if roots != [] {
      var m := |roots| - 1;
      MatrixLacks(roots[..m], n, ids);
      RootLacks(roots[m], n, ids);
      LacksAppend(MatrixRows(roots[..m], n), RootRows(roots[m], n), ids);
    }
  }

  lemma RootOrders(a: Seg, b: Seg, root: Seg, n: nat)
    requires DistinctIds(root) && WalkedBefore(a, b, root)
    ensures Ordered(RootRows(root, n), Ids(a), Ids(b))
  {
    hide Ids, Ordered, Sides, DistinctIds, WalkedBefore;
    var p, q := SidesOf(a, b, root, n);
    RestOrders(root, n, 0, Ids(a), Ids(b), p, q);
    SidesExclude(root, n, Ids(a), Ids(b), p, q);
    OwnRowsLack(root, Ids(a));
    OwnRowsLack(root, Ids(b));
    LacksIsOrdered(StmtRows(root, |root.stmts|), Ids(a), Ids(b));
    OrderedAppend(StmtRows(root, |root.stmts|), WalkRest(root, n, 0), Ids(a), Ids(b));
  }

  lemma {:induction false} RootInForest(roots: seq<Seg>, r: nat)
    requires r < |roots|
    ensures Ids(roots[r]) <= ForestIds(roots)
  {
    hide Ids;
    if r < |roots| - 1 { RootInForest(roots[..|roots| - 1], r); }
  }

  // In the matrix of a forest the rows of a's subtree all come before those of b's.
  lemma {:induction false} MatrixOrders(a: Seg, b: Seg, roots: seq<Seg>, n: nat)
    requires DistinctForest(roots) && ForestBefore(a, b, roots)
    ensures Ordered(MatrixRows(roots, n), Ids(a), Ids(b))
  {
    hide Ids, Ordered, WalkedBefore, RootRows, DistinctIds, InTree;
    var m := |roots| - 1;
    var front, root := roots[..m], roots[m];
    var x, y := MatrixRows(front, n), RootRows(root, n);
    if r, t :| 0 <= r < t < |roots| && InTree(a, roots[r]) && InTree(b, roots[t]) {
      IdsBelow(a, roots[r]);
      IdsBelow(b, roots[t]);
      RootInForest(front, r);
      assert front[r] == roots[r];
      RootLacks(root, n, Ids(a));
      LacksIsOrdered(y, Ids(a), Ids(b));
      if t < m {
        assert front[t] == roots[t];
        MatrixOrders(a, b, front, n);
      } else {
        MatrixLacks(front, n, Ids(b));
        LacksIsOrdered(x, Ids(a), Ids(b));
      }
    } else {
      var r :| 0 <= r < |roots| && WalkedBefore(a, b, roots[r]);
      BothBelow(a, b, roots[r]);
      if r == m {
        RootOrders(a, b, root, n);
        MatrixLacks(front, n, Ids(b));
        LacksIsOrdered(x, Ids(a), Ids(b));
      } else {
        assert front[r] == roots[r];
        RootInForest(front, r);
        MatrixOrders(a, b, front, n);
        RootLacks(root, n, Ids(a));
        LacksIsOrdered(y, Ids(a), Ids(b));
      }
    }
    OrderedAppend(x, y, Ids(a), Ids(b));
  }
}
