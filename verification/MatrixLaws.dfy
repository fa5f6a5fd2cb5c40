// What the segment walk emits: one statement row per statement in order, and the exact
// sources of every join row.
module MatrixLaws {
  import opened Matrix

  // ---- Statement rows, segment by segment --------------------------------------------

  // The statement rows of one segment, in the order of a row list.
  function Of(rows: seq<Row>, id: int): seq<Row> {
    if rows == [] then []
    else (if rows[0].StmtRow? && rows[0].segId == id then [rows[0]] else []) + Of(rows[1..], id)
  }

  lemma {:induction false} OfAppend(a: seq<Row>, b: seq<Row>, id: int)
    ensures Of(a + b, id) == Of(a, id) + Of(b, id)
  {
    if a == [] {
      assert a + b == b;
    } else {
      assert (a + b)[1..] == a[1..] + b;
      OfAppend(a[1..], b, id);
    }
  }

  lemma {:induction false} OfNone(rows: seq<Row>, id: int)
    requires forall r :: r in rows ==> !(r.StmtRow? && r.segId == id)
    ensures Of(rows, id) == []
  {
    if rows != [] {
      assert rows[0] in rows;
      OfNone(rows[1..], id);
    }
  }

  predicate InTree(s: Seg, seg: Seg)
    decreases seg
  {
    s == seg || exists k :: 0 <= k < |seg.children| && InTree(s, seg.children[k])
  }

  // No segment id occurs twice.
  function Ids(seg: Seg): set<int>
    decreases seg, 1, 0
  {
    {seg.id} + IdsFrom(seg, 0)
  }

  function IdsFrom(seg: Seg, c: nat): set<int>
    requires c <= |seg.children|
    decreases seg, 0, |seg.children| - c
  {
    if c == |seg.children| then {} else Ids(seg.children[c]) + IdsFrom(seg, c + 1)
  }

  predicate DistinctIds(seg: Seg)
    decreases seg, 1, 0
  {
    seg.id !in IdsFrom(seg, 0) && DistinctFrom(seg, 0)
  }

  predicate DistinctFrom(seg: Seg, c: nat)
    requires c <= |seg.children|
    decreases seg, 0, |seg.children| - c
  {
    c == |seg.children|
    || (DistinctIds(seg.children[c]) && Ids(seg.children[c]) !! IdsFrom(seg, c + 1) && DistinctFrom(seg, c + 1))
  }

  lemma {:induction false} IdIn(seg: Seg, s: Seg)
    requires InTree(s, seg)
    ensures s.id in Ids(seg)
    decreases seg, 1, 0
  {
    if s != seg {
      var k :| 0 <= k < |seg.children| && InTree(s, seg.children[k]);
      IdInFrom(seg, 0, k, s);
    }
  }

  lemma {:induction false} IdInFrom(seg: Seg, c: nat, k: nat, s: Seg)
    requires c <= k < |seg.children| && InTree(s, seg.children[k])
    ensures s.id in IdsFrom(seg, c)
    decreases seg, 0, k - c
  {
    if c == k { IdIn(seg.children[k], s); } else { IdInFrom(seg, c + 1, k, s); }
  }

  // The statement rows of `id` that come from children c and later.
  function OfChildren(seg: Seg, n: nat, c: nat, id: int): seq<Row>
    requires c <= |seg.children|
    decreases |seg.children| - c
  {
    if c == |seg.children| then [] else Of(Walk(seg.children[c], n), id) + OfChildren(seg, n, c + 1, id)
  }

  lemma {:induction false} RestOf(seg: Seg, n: nat, c: nat, id: int)
    requires c <= |seg.children|
    ensures Of(WalkRest(seg, n, c), id) == OfChildren(seg, n, c, id)
    decreases |seg.children| - c
  {
    if c < |seg.children| {
      RestOf(seg, n, c + 1, id);
      OfAppend(Walk(seg.children[c], n), WalkRest(seg, n, c + 1), id);
    }
  }

  function OwnFrom(seg: Seg, i: nat, id: int): seq<Row>
    requires i <= |seg.stmts|
  {
    if seg.id == id then StmtRows(seg, |seg.stmts|)[i..] else []
  }

  lemma FlushOf(group: seq<Seg>, id: int)
    ensures Of(Flush(group), id) == []
  {
    OfNone(Flush(group), id);
  }

  lemma OwnStep(seg: Seg, i: nat, id: int)
    requires i < |seg.stmts|
    ensures var row := [StmtRow(seg.id, seg.scope, seg.stmts[i])];
            Of(row, id) + OwnFrom(seg, i + 1, id) == OwnFrom(seg, i, id)
            && (seg.id != id ==> Of(row, id) == OwnFrom(seg, i, id) == [])
  {}

  lemma OwnEnds(seg: Seg, id: int)
    ensures OwnFrom(seg, |seg.stmts|, id) == []
  {}

  lemma ChildStep(seg: Seg, n: nat, c: nat, id: int)
    requires c < |seg.children|
    ensures OfChildren(seg, n, c, id) == Of(Walk(seg.children[c], n), id) + OfChildren(seg, n, c + 1, id)
  {}

  // A segment's own rows come in order; rows of the children come child by child.
  // Only one of the two parts is nonempty when ids are distinct.
  lemma {:induction false} FromOf(seg: Seg, n: nat, i: nat, c: nat, group: seq<Seg>, id: int)
    requires i <= |seg.stmts| && c <= |seg.children|
    requires seg.id == id ==> OfChildren(seg, n, c, id) == []
    ensures Of(WalkFrom(seg, n, i, c, group), id) == OwnFrom(seg, i, id) + OfChildren(seg, n, c, id)
    decreases |seg.stmts| - i
  {
    hide Walk, Flush, OfChildren, Of, OwnFrom, StmtRows;
    FlushOf(group, id);
    assert OwnFrom(seg, |seg.stmts|, id) == [] by { OwnEnds(seg, id); }
    if i == |seg.stmts| {
      RestOf(seg, n, c, id);
      OfAppend(Flush(group), WalkRest(seg, n, c), id);
    } else {
      var row := [StmtRow(seg.id, seg.scope, seg.stmts[i])];
      OwnStep(seg, i, id);
      if !OpensBlock(seg.stmts[i]) {
        FromOf(seg, n, i + 1, c, [], id);
        Of3(Flush(group), row, WalkFrom(seg, n, i + 1, c, []), id);
      } else if c == |seg.children| {
        FromOf(seg, n, i + 1, c, group, id);
        OfAppend(row, WalkFrom(seg, n, i + 1, c, group), id);
      } else {
        var child := seg.children[c];
        var pending := if child.typ == BranchSeg then group + [child] else [];
        var rest := WalkFrom(seg, n, i + 1, c + 1, pending);
        ChildStep(seg, n, c, id);
        FromOf(seg, n, i + 1, c + 1, pending, id);
        var head := if child.typ == BranchSeg then row else row + Flush(group);
        OfAppend(row, Flush(group), id);
        Of3(head, Walk(child, n), rest, id);
      }
    }
  }

  lemma Of3(a: seq<Row>, b: seq<Row>, c: seq<Row>, id: int)
    ensures Of(a + b + c, id) == Of(a, id) + Of(b, id) + Of(c, id)
  {
    OfAppend(a + b, c, id);
    OfAppend(a, b, id);
  }

  lemma {:induction false} WalkOfAbsent(seg: Seg, n: nat, id: int)
    requires id !in Ids(seg)
    ensures Of(Walk(seg, n), id) == []
    decreases seg, 1, 0
  {
    ChildrenOfAbsent(seg, n, 0, id);
    WalkOf(seg, n, id);
  }

  lemma {:induction false} ChildrenOfAbsent(seg: Seg, n: nat, c: nat, id: int)
    requires c <= |seg.children| && id !in IdsFrom(seg, c)
    ensures OfChildren(seg, n, c, id) == []
    decreases seg, 0, |seg.children| - c
  {
    if c < |seg.children| {
      WalkOfAbsent(seg.children[c], n, id);
      ChildrenOfAbsent(seg, n, c + 1, id);
    }
  }

  lemma WalkOf(seg: Seg, n: nat, id: int)
    requires seg.id == id ==> OfChildren(seg, n, 0, id) == []
    ensures Of(Walk(seg, n), id) == OwnFrom(seg, 0, id) + OfChildren(seg, n, 0, id)
  {
    hide Of, OfChildren, OwnFrom;
    OfNone(EntryPhis(seg, n), id);
    OfAppend(EntryPhis(seg, n), WalkFrom(seg, n, 0, 0, []), id);
    FromOf(seg, n, 0, 0, [], id);
  }

  lemma OwnIsAll(seg: Seg)
    ensures OwnFrom(seg, 0, seg.id) == StmtRows(seg, |seg.stmts|)
  {}

  // The walk emits exactly one statement row per statement of every segment below,
  // in that segment's order.
  lemma {:induction false} WalkEmitsStatements(seg: Seg, n: nat, s: Seg)
    requires DistinctIds(seg) && InTree(s, seg)
    ensures Of(Walk(seg, n), s.id) == StmtRows(s, |s.stmts|)
    decreases seg, 1, 0
  {
    hide Of, OfChildren, Walk, StmtRows;
    OwnIsAll(s);
    if s == seg {
      ChildrenOfAbsent(seg, n, 0, s.id);
      WalkOf(seg, n, s.id);
    } else {
      var k :| 0 <= k < |seg.children| && InTree(s, seg.children[k]);
      IdInFrom(seg, 0, k, s);
      ChildEmits(seg, n, 0, k, s);
      WalkOf(seg, n, s.id);
    }
  }

  lemma {:induction false} ChildEmits(seg: Seg, n: nat, c: nat, k: nat, s: Seg)
    requires c <= k < |seg.children| && DistinctFrom(seg, c) && InTree(s, seg.children[k])
    ensures OfChildren(seg, n, c, s.id) == StmtRows(s, |s.stmts|)
    decreases seg, 0, k - c
  {
    if c == k {
      IdIn(seg.children[k], s);
      WalkEmitsStatements(seg.children[k], n, s);
      ChildrenOfAbsent(seg, n, c + 1, s.id);
    } else {
      IdInFrom(seg, c + 1, k, s);
      WalkOfAbsent(seg.children[c], n, s.id);
      ChildEmits(seg, n, c + 1, k, s);
    }
  }

  // ---- Forests -------------------------------------------------------------------------

  function ForestIds(roots: seq<Seg>): set<int> {
    if roots == [] then {} else ForestIds(roots[..|roots| - 1]) + Ids(roots[|roots| - 1])
  }

  predicate DistinctForest(roots: seq<Seg>) {
    roots == []
    || (DistinctForest(roots[..|roots| - 1]) && DistinctIds(roots[|roots| - 1])
        && ForestIds(roots[..|roots| - 1]) !! Ids(roots[|roots| - 1]))
  }

  predicate InForest(s: Seg, roots: seq<Seg>) {
    exists r :: 0 <= r < |roots| && InTree(s, roots[r])
  }

  lemma RootOf(root: Seg, n: nat, id: int)
    requires root.id == id ==> OfChildren(root, n, 0, id) == []
    ensures Of(RootRows(root, n), id) == OwnFrom(root, 0, id) + OfChildren(root, n, 0, id)
  {
    OfAppend(StmtRows(root, |root.stmts|), WalkRest(root, n, 0), id);
    RestOf(root, n, 0, id);
    OwnRowsOf(root, |root.stmts|, id);
  }

  lemma {:induction false} OwnRowsOf(seg: Seg, k: nat, id: int)
    requires k <= |seg.stmts|
    ensures Of(StmtRows(seg, k), id) == if seg.id == id then StmtRows(seg, k) else []
  {
    if k > 0 {
      OwnRowsOf(seg, k - 1, id);
      assert StmtRows(seg, k) == StmtRows(seg, k - 1) + [StmtRow(seg.id, seg.scope, seg.stmts[k - 1])];
      OfAppend(StmtRows(seg, k - 1), [StmtRow(seg.id, seg.scope, seg.stmts[k - 1])], id);
    }
  }

  lemma {:induction false} MatrixOfAbsent(roots: seq<Seg>, n: nat, id: int)
    requires id !in ForestIds(roots)
    ensures Of(MatrixRows(roots, n), id) == []
  {
    if roots != [] {
      var root := roots[|roots| - 1];
      MatrixOfAbsent(roots[..|roots| - 1], n, id);
      ChildrenOfAbsent(root, n, 0, id);
      RootOf(root, n, id);
      OfAppend(MatrixRows(roots[..|roots| - 1], n), RootRows(root, n), id);
    }
  }

  // Over any forest: one statement row per statement of every segment, in order.
  lemma {:induction false} MatrixEmitsStatements(roots: seq<Seg>, n: nat, s: Seg)
    requires DistinctForest(roots) && InForest(s, roots)
    ensures Of(MatrixRows(roots, n), s.id) == StmtRows(s, |s.stmts|)
  {
    var front, root := roots[..|roots| - 1], roots[|roots| - 1];
    OfAppend(MatrixRows(front, n), RootRows(root, n), s.id);
    if InTree(s, root) {
      IdIn(root, s);
      MatrixOfAbsent(front, n, s.id);
      if s == root {
        ChildrenOfAbsent(root, n, 0, s.id);
      } else {
        var k :| 0 <= k < |root.children| && InTree(s, root.children[k]);
        IdInFrom(root, 0, k, s);
        ChildEmits(root, n, 0, k, s);
      }
      RootOf(root, n, s.id);
    } else {
      var r :| 0 <= r < |roots| && InTree(s, roots[r]);
      assert front[r] == roots[r];
      MatrixEmitsStatements(front, n, s);
      ForestIdIn(front, s);
      ChildrenOfAbsent(root, n, 0, s.id);
      RootOf(root, n, s.id);
    }
  }

  lemma {:induction false} ForestIdIn(roots: seq<Seg>, s: Seg)
    requires InForest(s, roots)
    ensures s.id in ForestIds(roots)
  {
    var root := roots[|roots| - 1];
    if InTree(s, root) {
      IdIn(root, s);
    } else {
      var r :| 0 <= r < |roots| && InTree(s, roots[r]);
      assert roots[..|roots| - 1][r] == roots[r];
      ForestIdIn(roots[..|roots| - 1], s);
    }
  }

  // ---- Join phis -------------------------------------------------------------------------

  // A branch segment's own statements write the slot; deeper segments do not count.
  predicate WritesItself(g: Seg, x: Slot) {
    exists t :: t in g.stmts && x in t.defs + t.decls
  }

  ghost predicate SlotsOnce(phis: seq<Row>)
    requires forall p :: p in phis ==> p.JoinPhi?
  {
    forall i, j :: 0 <= i < j < |phis| ==> phis[i].slot != phis[j].slot
  }

  // The phis list exactly the recorded sources: scope sc is a source of the phi of x.
  predicate Feeds(phis: seq<Row>, x: Slot, sc: string) {
    exists p :: p in phis && p.JoinPhi? && p.slot == x && sc in p.sources
  }

  lemma {:induction false} AddSourceFeeds(phis: seq<Row>, s: Source, x: Slot, sc: string)
    requires forall p :: p in phis ==> p.JoinPhi?
    ensures Feeds(AddSource(phis, s), x, sc) <==> Feeds(phis, x, sc) || s == Source(x, sc)
    ensures forall p :: p in AddSource(phis, s) ==> p.slot == s.slot || exists q :: q in phis && q.slot == p.slot
  {
    var r := AddSource(phis, s);
    if phis == [] {
      assert r[0] in r;
    } else {
      assert phis == [phis[0]] + phis[1..] && r == [r[0]] + r[1..];
      if phis[0].slot != s.slot {
        AddSourceFeeds(phis[1..], s, x, sc);
        assert r[1..] == AddSource(phis[1..], s);
      } else {
        assert r[1..] == phis[1..];
      }
      FeedsCons(phis, x, sc);
      FeedsCons(r, x, sc);
    }
  }

  lemma FeedsCons(phis: seq<Row>, x: Slot, sc: string)
    requires phis != [] && phis[0].JoinPhi?
    ensures Feeds(phis, x, sc) <==> (phis[0].slot == x && sc in phis[0].sources) || Feeds(phis[1..], x, sc)
  {
    assert phis == [phis[0]] + phis[1..];
  }

  lemma {:induction false} AddSourceOnce(phis: seq<Row>, s: Source)
    requires (forall p :: p in phis ==> p.JoinPhi?) && SlotsOnce(phis)
    ensures SlotsOnce(AddSource(phis, s))
  {
    hide Feeds;
    if phis != [] && phis[0].slot != s.slot {
      AddSourceOnce(phis[1..], s);
      AddSourceFeeds(phis[1..], s, 0, "");
      forall q | q in AddSource(phis[1..], s) ensures q.slot != phis[0].slot {
        assert forall k :: 0 <= k < |phis[1..]| ==> phis[1..][k] == phis[k + 1];
      }
      ConsOnce(phis[0], AddSource(phis[1..], s));
    } else if phis != [] {
      assert forall j :: 0 < j < |phis| ==> AddSource(phis, s)[j] == phis[j];
    }
  }

  lemma ConsOnce(p: Row, rest: seq<Row>)
    requires p.JoinPhi? && (forall q :: q in rest ==> q.JoinPhi? && q.slot != p.slot) && SlotsOnce(rest)
    ensures SlotsOnce([p] + rest)
  {
    var r := [p] + rest;
    forall i, j | 0 <= i < j < |r| ensures r[i].slot != r[j].slot {
      assert r[j] == rest[j - 1] && rest[j - 1] in rest;
    }
  }

  lemma {:induction false} JoinPhisFeed(sources: seq<Source>, x: Slot, sc: string)
    ensures Feeds(JoinPhis(sources), x, sc) <==> Source(x, sc) in sources
    ensures SlotsOnce(JoinPhis(sources))
  {
    if sources != [] {
      var m := |sources| - 1;
      JoinPhisFeed(sources[..m], x, sc);
      AddSourceFeeds(JoinPhis(sources[..m]), sources[m], x, sc);
      AddSourceOnce(JoinPhis(sources[..m]), sources[m]);
      assert sources == sources[..m] + [sources[m]];
    }
  }

  lemma {:induction false} BranchSourcesAre(stmts: seq<Stmt>, scope: string, x: Slot, sc: string)
    ensures Source(x, sc) in BranchSources(stmts, scope) <==>
              sc == scope && exists t :: t in stmts && x in t.defs + t.decls
  {
    if stmts != [] {
      var m := |stmts| - 1;
      var slots := stmts[m].defs + stmts[m].decls;
      BranchSourcesAre(stmts[..m], scope, x, sc);
      assert stmts == stmts[..m] + [stmts[m]];
      if x in slots {
        var k :| 0 <= k < |slots| && slots[k] == x;
        assert Tag(slots, scope)[k] == Source(x, scope);
      }
    }
  }

  lemma {:induction false} GroupSourcesAre(group: seq<Seg>, x: Slot, sc: string)
    ensures Source(x, sc) in GroupSources(group) <==> exists g :: g in group && g.scope == sc && WritesItself(g, x)
  {
    if group != [] {
      var m := |group| - 1;
      GroupSourcesAre(group[..m], x, sc);
      BranchSourcesAre(group[m].stmts, group[m].scope, x, sc);
      assert group == group[..m] + [group[m]];
    }
  }

  // After a group of branches there is one phi per slot their own statements write,
  // and its sources are the scopes of exactly the branches that write it.
  lemma JoinPhisAreExact(group: seq<Seg>, x: Slot, sc: string)
    ensures Feeds(Flush(group), x, sc) <==> exists g :: g in group && g.scope == sc && WritesItself(g, x)
    ensures (forall p :: p in Flush(group) ==> p.JoinPhi?) && SlotsOnce(Flush(group))
  {
    JoinPhisFeed(GroupSources(group), x, sc);
    GroupSourcesAre(group, x, sc);
  }

  // The joins after a group name every branch whose subtree writes the slot.
  ghost predicate NamesAllWriters(group: seq<Seg>, x: Slot) {
    forall g :: g in group && x in SubtreeWrites(g) ==> Feeds(Flush(group), x, g.scope)
  }

  ghost predicate ScopesDiffer(group: seq<Seg>) {
    forall g, h :: g in group && h in group && g.scope == h.scope ==> g == h
  }

  // They do so exactly when each such branch, or one of the same path, writes the slot
  // itself and not only in a block nested in it.
  lemma JoinsAreCompleteIff(group: seq<Seg>, x: Slot)
    ensures NamesAllWriters(group, x) <==>
            forall g :: g in group && x in SubtreeWrites(g) ==>
              exists h :: h in group && h.scope == g.scope && WritesItself(h, x)
    ensures ScopesDiffer(group) ==>
              (NamesAllWriters(group, x) <==> forall g :: g in group && x in SubtreeWrites(g) ==> WritesItself(g, x))
  {
    hide Flush, SubtreeWrites, WritesItself, Feeds;
    forall g | g in group
      ensures Feeds(Flush(group), x, g.scope) <==> exists h :: h in group && h.scope == g.scope && WritesItself(h, x)
    {
      JoinPhisAreExact(group, x, g.scope);
    }
  }

  // A branch with the one statement that opens its loop.
  function LoopBranch(loop: Seg): Seg {
    Seg(2, BranchSeg, "root.main.branch_1", [Stmt(LoopHead, "while (d) {}", [1], [], [])], [loop])
  }

  // "if (c) { while (d) { x = 1; } }": the branch writes x in its loop alone, and no join
  // follows it.
  lemma JoinMissesNestedWrite()
    ensures var loop := Seg(3, LoopSeg, "root.main.branch_1.loop_1", [Stmt(Assign, "x = 1;", [], [0], [])], []);
            0 in SubtreeWrites(LoopBranch(loop)) && Flush([LoopBranch(loop)]) == []
            && !NamesAllWriters([LoopBranch(loop)], 0)
  {
    hide Flush;
    var loop := Seg(3, LoopSeg, "root.main.branch_1.loop_1", [Stmt(Assign, "x = 1;", [], [0], [])], []);
    assert 0 in Elems(loop.stmts[0].defs);
    assert 0 in OwnWrites(loop.stmts);
    assert 0 in ChildWrites(LoopBranch(loop), 1);
    NoJoin(loop);
    assert LoopBranch(loop) in [LoopBranch(loop)];
  }

  lemma NoJoin(loop: Seg)
    ensures Flush([LoopBranch(loop)]) == []
  {
    var branch := LoopBranch(loop);
    assert branch.stmts[..0] == [] && [branch][..0] == [];
    assert BranchSources(branch.stmts, branch.scope) == [] + Tag([] + [], branch.scope) == [];
    assert GroupSources([branch]) == [] + BranchSources(branch.stmts, branch.scope);
  }
}
