// Graphs in which the back edge of a loop comes from outside it.
module BackEdgeCases {
  import opened Matrix
  import opened MatrixLaws
  import opened LoopPhiLaws
  import opened Dag
  import opened DagLaws
  import opened WalkOrder
  import opened ForestLaws
  import opened BackEdgeLaws

  lemma PhiIsMatrixRow(roots: seq<Seg>, n: nat, r: nat, k: nat, loop: Seg, x: Slot)
    requires (forall q :: q in roots ==> Formed(q, n)) && r < |roots| && k < |roots[r].children|
    requires InTree(loop, roots[r].children[k]) && loop.typ == LoopSeg && x in SubtreeWrites(loop)
    ensures LoopPhi(loop.id, loop.scope, x) in MatrixRows(roots, n)
  {
    hide SubtreeWrites, Walk, InTree;
    assert roots[r] in roots;
    BelongingAreRows(roots[r].children[k], n, loop, LoopPhi(loop.id, loop.scope, x));
    RestRowIn(roots[r], n, 0, k, LoopPhi(loop.id, loop.scope, x));
    RootRowIn(roots, n, r, LoopPhi(loop.id, loop.scope, x));
  }

  lemma {:induction false} RootRowIn(roots: seq<Seg>, n: nat, r: nat, row: Row)
    requires r < |roots| && row in RootRows(roots[r], n)
    ensures row in MatrixRows(roots, n)
  {
    hide RootRows;
    if r < |roots| - 1 {
      assert roots[..|roots| - 1][r] == roots[r];
      RootRowIn(roots[..|roots| - 1], n, r, row);
    }
  }

  // Every loop that writes a slot, below a root, has the phi and a back edge into it.
  lemma LoopHasBackEdge(roots: seq<Seg>, n: nat, entries: seq<Row>, r: nat, k: nat, loop: Seg, x: Slot)
    returns (phi: nat, u: nat)
    requires (forall q :: q in roots ==> Formed(q, n) && Dotted(q)) && DistinctForest(roots)
             && EntriesFit(roots, entries)
    requires r < |roots| && k < |roots[r].children| && InTree(loop, roots[r].children[k])
    requires loop.typ == LoopSeg && x in SubtreeWrites(loop)
    ensures IsBackEdgeOf(roots, n, entries, loop, x, phi, u)
  {
    hide SubtreeWrites, MatrixRows, Woven, DistinctForest, Dotted, Formed;
    var rows := MatrixRows(roots, n);
    var nodes := Woven(rows, entries, 0);
    PhiIsMatrixRow(roots, n, r, k, loop, x);
    var i :| 0 <= i < |rows| && rows[i] == LoopPhi(loop.id, loop.scope, x);
    WovenHolds(rows, entries, 0, i);
    phi :| 0 <= phi < |nodes| && nodes[phi] == rows[i];
    MatrixIsCovered(roots, n);
    WovenIsCovered(rows, entries, 0);
    var e := LoopPhiHasOneBackEdge(nodes, phi);
    u := e.src;
    assert InTree(loop, roots[r]);
  }

  function Leaf(id: int, scope: string): Seg {
    Seg(id, LoopSeg, scope, [Stmt(Assign, "x = 1;", [], [0], [])], [])
  }

  // A file whose one function holds nothing but loops, each with one assignment.
  function LoopFile(id: int, scopes: seq<string>): Seg {
    Seg(id, Root, "root", [Stmt(FuncDecl, "int main() {}", [], [], [])],
        [Seg(id + 1, Function, "root.main", seq(|scopes|, _ => Stmt(LoopHead, "while (c) {}", [], [], [])),
             seq(|scopes|, i requires 0 <= i < |scopes| => Leaf(id + 2 + i, scopes[i])))])
  }

  function LoopFileEntries(id: int): seq<Row> { [Entry(id, "root", []), Entry(id + 1, "root.main", [])] }

  // Children numbered on from their parent share no id.
  lemma {:induction false} LeavesApart(seg: Seg, c: nat)
    requires c <= |seg.children|
             && forall i :: 0 <= i < |seg.children| ==>
                  seg.children[i].children == [] && seg.children[i].id == seg.id + 1 + i
    ensures DistinctFrom(seg, c)
            && forall id :: id in IdsFrom(seg, c) ==> seg.id + 1 + c <= id <= seg.id + |seg.children|
    decreases |seg.children| - c
  {
    if c < |seg.children| {
      LeavesApart(seg, c + 1);
      var leaf := seg.children[c];
      assert IdsFrom(leaf, 0) == {} && Ids(leaf) == {leaf.id};
    }
  }

  lemma LoopFileIs(id: int, scopes: seq<string>)
    requires forall i :: 0 <= i < |scopes| ==> "root.main." <= scopes[i]
    ensures var f := LoopFile(id, scopes);
            Formed(f, 1) && Dotted(f) && DistinctIds(f) && InTree(f.children[0], f)
            && (forall k :: k in Ids(f) ==> id <= k <= id + 1 + |scopes|)
            && forall i :: 0 <= i < |scopes| ==> InTree(Leaf(id + 2 + i, scopes[i]), f.children[0])
  {
    hide Formed, Dotted, DistinctIds, Ids, IdsFrom, InTree;
    var f := LoopFile(id, scopes);
    var main := f.children[0];
    LoopFileIds(id, scopes);
    forall i | 0 <= i < |scopes|
      ensures InTree(Leaf(id + 2 + i, scopes[i]), main) && Formed(main.children[i], 1) && Dotted(main.children[i])
    {
      LeafIs(id + 2 + i, scopes[i]);
      SelfInTree(main.children[i]);
      BelowChild(main.children[i], main, i);
    }
    MainIs(main, scopes);
    SelfInTree(main);
    BelowChild(main, f, 0);
    FileIs(f);
  }

  lemma LoopFileIds(id: int, scopes: seq<string>)
    ensures DistinctIds(LoopFile(id, scopes))
            && forall k :: k in Ids(LoopFile(id, scopes)) ==> id <= k <= id + 1 + |scopes|
  {
    var f := LoopFile(id, scopes);
    var main := f.children[0];
    LeavesApart(main, 0);
    assert DistinctIds(main) && IdsFrom(f, 1) == {};
    assert DistinctFrom(f, 1) && DistinctFrom(f, 0) && IdsFrom(f, 0) == Ids(main);
  }

  lemma LeafIs(id: int, scope: string)
    ensures Formed(Leaf(id, scope), 1) && Dotted(Leaf(id, scope))
  {}

  lemma MainIs(main: Seg, scopes: seq<string>)
    requires main.scope == "root.main" && |main.children| == |scopes|
    requires forall t :: t in main.stmts ==> t.defs == t.decls == []
    requires forall i :: 0 <= i < |scopes| ==>
               main.children[i].scope == scopes[i] && "root.main." <= scopes[i]
               && Formed(main.children[i], 1) && Dotted(main.children[i])
    ensures Formed(main, 1) && Dotted(main)
  {
    assert "root.main" + "." == "root.main.";
    forall i | 0 <= i < |scopes| ensures main.scope <= scopes[i] {}
  }

  lemma FileIs(f: Seg)
    requires f.scope == "root" && |f.children| == 1 && f.children[0].scope == "root.main"
    requires forall t :: t in f.stmts ==> t.defs == t.decls == []
    requires Formed(f.children[0], 1) && Dotted(f.children[0])
    ensures Formed(f, 1) && Dotted(f)
  {
    assert "root" + "." <= "root.main";
  }

  lemma FileEntriesFit(roots: seq<Seg>, r: nat, id: int, scopes: seq<string>)
    requires r < |roots| && roots[r] == LoopFile(id, scopes) && InTree(roots[r].children[0], roots[r])
    ensures forall e :: e in LoopFileEntries(id) ==>
              e.Entry? && e.params == []
              && exists s ::
                   InForest(s, roots) && s.id == e.segId && s.scope == e.scope && s.typ in {Root, Function, Struct}
  {
    hide InTree;
    SelfInTree(roots[r]);
    assert InForest(roots[r], roots) && InForest(roots[r].children[0], roots);
    forall e | e in LoopFileEntries(id)
      ensures exists s ::
                InForest(s, roots) && s.id == e.segId && s.scope == e.scope && s.typ in {Root, Function, Struct}
    {
      if e == Entry(id, "root", []) {
        assert roots[r].id == e.segId;
      } else {
        assert roots[r].children[0].id == e.segId;
      }
    }
  }

  // Two files with one loop each, merged into one graph: both loops have the path
  // root.main.loop_1, and the back edge of the first comes from the second file.
  lemma BackEdgeFromOtherFile() returns (phi: nat, u: nat)
    ensures var roots := [LoopFile(1, ["root.main.loop_1"]), LoopFile(4, ["root.main.loop_1"])];
            var entries, loop := LoopFileEntries(1) + LoopFileEntries(4), Leaf(3, "root.main.loop_1");
            IsBackEdgeOf(roots, 1, entries, loop, 0, phi, u)
            && Woven(MatrixRows(roots, 1), entries, 0)[u].segId !in Ids(loop)
  {
    hide Formed, Dotted, DistinctIds, Ids, InTree, Woven, MatrixRows, LoopFile, EntriesFit;
    var scopes := ["root.main.loop_1"];
    var roots := [LoopFile(1, scopes), LoopFile(4, scopes)];
    var entries := LoopFileEntries(1) + LoopFileEntries(4);
    LoopFileIs(1, scopes);
    LoopFileIs(4, scopes);
    forall k | k in Ids(roots[0]) ensures k !in Ids(roots[1]) {}
    TwoRoots(roots);
    FileEntriesFit(roots, 0, 1, scopes);
    FileEntriesFit(roots, 1, 4, scopes);
    assert EntriesFit(roots, entries) by { EntriesJoin(roots, LoopFileEntries(1), LoopFileEntries(4)); }
    OneChild(1, scopes);
    OneChild(4, scopes);
    var loop, other := Leaf(3, scopes[0]), Leaf(6, scopes[0]);
    LeafWrites(3, scopes[0]);
    LeafWrites(6, scopes[0]);
    phi, u := LoopHasBackEdge(roots, 1, entries, 0, 0, loop, 0);
    BelowChild(loop, roots[0], 0);
    BelowChild(other, roots[1], 0);
    BackEdgeIsFromLoop(roots, 1, entries, loop, 0, phi, u);
    assert WritesLate(roots, entries, loop, 0, other);
    assert forall i :: !Trails(roots, entries, loop, 0, i);
  }

  lemma OneChild(id: int, scopes: seq<string>)
    ensures |LoopFile(id, scopes).children| == 1
  {}

  lemma EntriesJoin(roots: seq<Seg>, a: seq<Row>, b: seq<Row>)
    requires EntriesFit(roots, a) && EntriesFit(roots, b)
    ensures EntriesFit(roots, a + b)
  {
    assert forall e :: e in a + b ==> e in a || e in b;
  }

  function TenScopes(): seq<string> {
    ["root.main.loop_1", "root.main.loop_2", "root.main.loop_3", "root.main.loop_4", "root.main.loop_5",
     "root.main.loop_6", "root.main.loop_7", "root.main.loop_8", "root.main.loop_9", "root.main.loop_10"]
  }

  // One function with ten loops: the back edge of the first comes from the tenth, whose
  // path begins with the spelling of the first's.
  lemma BackEdgeFromTenthLoop() returns (phi: nat, u: nat)
    ensures var roots, entries, loop := [LoopFile(1, TenScopes())], LoopFileEntries(1), Leaf(3, "root.main.loop_1");
            IsBackEdgeOf(roots, 1, entries, loop, 0, phi, u)
            && Woven(MatrixRows(roots, 1), entries, 0)[u].segId !in Ids(loop)
  {
    hide Formed, Dotted, DistinctIds, Ids, InTree, Woven, MatrixRows, LoopFile;
    var scopes := TenScopes();
    var roots, entries := [LoopFile(1, scopes)], LoopFileEntries(1);
    LoopFileIs(1, scopes);
    OneRoot(roots);
    FileEntriesFit(roots, 0, 1, scopes);
    OneChild(1, scopes);
    var loop, other := Leaf(3, scopes[0]), Leaf(12, scopes[9]);
    assert loop == Leaf(3 + 0, scopes[0]) && other == Leaf(1 + 2 + 9, scopes[9]);
    LeafWrites(3, scopes[0]);
    LeafWrites(12, scopes[9]);
    phi, u := LoopHasBackEdge(roots, 1, entries, 0, 0, loop, 0);
    BelowChild(loop, roots[0], 0);
    BelowChild(other, roots[0], 0);
    FirstBeforeLast(1, scopes);
    assert ForestBefore(loop, other, roots);
    BackEdgeIsFromLoop(roots, 1, entries, loop, 0, phi, u);
    assert "root.main.loop_1" + "0" == "root.main.loop_10";
    assert WritesLate(roots, entries, loop, 0, other);
    assert forall i :: !Trails(roots, entries, loop, 0, i);
  }

  lemma OneRoot(roots: seq<Seg>)
    requires |roots| == 1 && DistinctIds(roots[0])
    ensures DistinctForest(roots)
  {
    hide DistinctIds, Ids;
    assert roots[..0] == [];
    assert DistinctForest(roots[..0]) && ForestIds(roots[..0]) == {};
  }

  lemma FirstBeforeLast(id: int, scopes: seq<string>)
    requires |scopes| > 1
    ensures var m := |scopes| - 1;
            WalkedBefore(Leaf(id + 2, scopes[0]), Leaf(id + 2 + m, scopes[m]), LoopFile(id, scopes))
  {
    var main, m := LoopFile(id, scopes).children[0], |scopes| - 1;
    SelfInTree(main.children[0]);
    SelfInTree(main.children[m]);
    assert WalkedBefore(main.children[0], main.children[m], main);
  }

  lemma TwoRoots(roots: seq<Seg>)
    requires |roots| == 2 && DistinctIds(roots[0]) && DistinctIds(roots[1]) && Ids(roots[0]) !! Ids(roots[1])
    ensures DistinctForest(roots)
  {
    hide DistinctIds, Ids;
    assert roots[..1][..0] == [] && roots[..1][0] == roots[0];
    assert DistinctForest(roots[..1][..0]) && ForestIds(roots[..1][..0]) == {};
    assert DistinctForest(roots[..1]) && ForestIds(roots[..1]) == Ids(roots[0]);
  }

  lemma LeafWrites(id: int, scope: string)
    ensures 0 in SubtreeWrites(Leaf(id, scope)) && WritesSlot(Leaf(id, scope), 0)
  {
    var leaf := Leaf(id, scope);
    assert leaf.stmts[0] in leaf.stmts && 0 in leaf.stmts[0].defs;
    WrittenIsCollected(leaf, leaf, 0);
  }

  lemma BelowChild(s: Seg, seg: Seg, k: nat)
    requires k < |seg.children| && InTree(s, seg.children[k])
    ensures InTree(s, seg)
  {}
}
