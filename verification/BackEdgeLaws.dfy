// Where the back edge of a loop phi comes from, over the segment forest.  The graph
// decides by a bare string prefix of scope paths, which is neither unique nor aligned
// with the loop's subtree.
module BackEdgeLaws {
  import opened Matrix
  import opened MatrixLaws
  import opened LoopPhiLaws
  import opened Dag
  import opened DagLaws
  import opened WalkOrder
  import opened ForestLaws

  // ---- The order of the nodes ----------------------------------------------------------------------------

  // Weaving does not disturb the order of the other rows.
  lemma {:induction false} WovenLacks(rows: seq<Row>, entries: seq<Row>, k: nat, ids: set<int>)
    requires k <= |rows| && Lacks(rows[k..], ids) && forall e :: e in entries ==> e.Entry?
    ensures Lacks(Woven(rows, entries, k), ids)
    decreases |rows| - k
  {
    hide Lacks, EntriesAt;
    var es := EntriesAt(rows, entries, k);
    EntriesLack(rows, entries, k, ids);
    if k < |rows| {
      assert rows[k..] == [rows[k]] + rows[k + 1..];
      LacksAppend([rows[k]], rows[k + 1..], ids);
      WovenLacks(rows, entries, k + 1, ids);
      LacksAppend([rows[k]], Woven(rows, entries, k + 1), ids);
      LacksAppend(es, [rows[k]] + Woven(rows, entries, k + 1), ids);
    } else {
      assert Woven(rows, entries, k) == es;
    }
  }

  lemma EntriesLack(rows: seq<Row>, entries: seq<Row>, k: nat, ids: set<int>)
    requires forall e :: e in entries ==> e.Entry?
    ensures Lacks(EntriesAt(rows, entries, k), ids)
  {
    hide FirstRow;
    var es := EntriesAt(rows, entries, k);
    EntriesAreEntries(rows, entries, k);
    forall i | 0 <= i < |es| ensures es[i].Entry? { assert es[i] in es; }
  }

  lemma {:induction false} WovenOrders(rows: seq<Row>, entries: seq<Row>, k: nat, a: set<int>, b: set<int>)
    requires k <= |rows| && Ordered(rows[k..], a, b) && forall e :: e in entries ==> e.Entry?
    ensures Ordered(Woven(rows, entries, k), a, b)
    decreases |rows| - k
  {
    hide Lacks, Ordered, EntriesAt;
    var es := EntriesAt(rows, entries, k);
    EntriesLack(rows, entries, k, a);
    EntriesLack(rows, entries, k, b);
    LacksIsOrdered(es, a, b);
    if k < |rows| {
      var rest := Woven(rows, entries, k + 1);
      OrderedTail(rows, k, a, b);
      WovenOrders(rows, entries, k + 1, a, b);
      if Lacks(rows[k + 1..], a) { WovenLacks(rows, entries, k + 1, a); }
      OrderedAppend([rows[k]], rest, a, b);
      OrderedAppend(es, [rows[k]] + rest, a, b);
    } else {
      assert Woven(rows, entries, k) == es;
    }
  }

  lemma OrderedTail(rows: seq<Row>, k: nat, a: set<int>, b: set<int>)
    requires k < |rows| && Ordered(rows[k..], a, b)
    ensures Ordered([rows[k]], a, b) && Ordered(rows[k + 1..], a, b)
    ensures Lacks([rows[k]], b) || Lacks(rows[k + 1..], a)
  {
    var x, y := rows[k..], rows[k + 1..];
    assert x[0] == rows[k];
    forall i | 0 <= i < |y| ensures y[i] == x[1 + i] {}
    assert forall i, j :: 0 <= i < |y| && 0 <= j < |y| && NamedIn(y[i], a) && NamedIn(y[j], b) ==>
             NamedIn(x[1 + i], a) && NamedIn(x[1 + j], b);
  }

  // Entry nodes are made for root, function and struct segments.
  ghost predicate EntriesFit(roots: seq<Seg>, entries: seq<Row>) {
    forall e :: e in entries ==>
      e.Entry?
      && exists s :: InForest(s, roots) && s.id == e.segId && s.scope == e.scope && s.typ in {Root, Function, Struct}
  }

  // Such a segment has rows exactly when it has statements.
  lemma RowlessIff(roots: seq<Seg>, n: nat, s: Seg)
    requires DistinctForest(roots) && InForest(s, roots) && s.typ != LoopSeg
    ensures FirstRow(MatrixRows(roots, n), s.id) == |MatrixRows(roots, n)| <==> s.stmts == []
  {
    hide FirstRow, MatrixRows, InForest, DistinctForest;
    var rows := MatrixRows(roots, n);
    var k := FirstRow(rows, s.id);
    FirstRowIs(rows, s.id);
    if s.stmts != [] {
      StmtIsMatrixRow(roots, n, s, s.stmts[0]);
      var i :| 0 <= i < |rows| && rows[i] == StmtRow(s.id, s.scope, s.stmts[0]);
      assert NamesSegment(rows[i], s.id);
    } else if k < |rows| {
      MatrixHasNoEntries(roots, n);
      assert rows[k] in rows;
      var t := MatrixRowsBelong(roots, n, rows[k]);
      OneSegmentAnId(s, t, roots);
    }
  }

  lemma FirstRowIs(rows: seq<Row>, id: int)
    ensures var k := FirstRow(rows, id);
            k <= |rows| && (k < |rows| ==> NamesSegment(rows[k], id))
            && forall j :: 0 <= j < k ==> !NamesSegment(rows[j], id)
  {}

  // ---- The source of a back edge ------------------------------------------------------------------------

  // Segment s is walked after the loop, its path continues the spelling of the loop's,
  // and it writes the slot, by a statement or by its entry node.
  ghost predicate WritesLate(roots: seq<Seg>, entries: seq<Row>, loop: Seg, x: Slot, s: Seg) {
    InForest(s, roots) && ForestBefore(loop, s, roots) && loop.scope <= s.scope
    && (WritesSlot(s, x) || (s.stmts != [] && exists e :: e in entries && e.Entry? && e.segId == s.id && x in e.params))
  }

  // The i-th entry node writes the slot under the spelling of the loop's path and belongs
  // to a segment without statements, so it is put after all rows.
  ghost predicate Trails(roots: seq<Seg>, entries: seq<Row>, loop: Seg, x: Slot, i: int) {
    0 <= i < |entries| && entries[i].Entry? && x in entries[i].params && loop.scope <= entries[i].scope
    && exists s :: InForest(s, roots) && s.id == entries[i].segId && s.stmts == []
  }

  // The graph over a forest, and a back edge in it: from node u to the phi of `loop`.
  ghost predicate IsBackEdgeOf(roots: seq<Seg>, n: nat, entries: seq<Row>, loop: Seg, x: Slot, phi: nat, u: nat) {
    (forall r :: r in roots ==> Formed(r, n) && Dotted(r)) && DistinctForest(roots) && EntriesFit(roots, entries)
    && InForest(loop, roots) && loop.typ == LoopSeg
    && var nodes := Woven(MatrixRows(roots, n), entries, 0);
       phi < |nodes| && nodes[phi] == LoopPhi(loop.id, loop.scope, x) && IsLoopEnd(nodes, phi, u)
  }

  lemma {:induction false} WovenMembers(rows: seq<Row>, entries: seq<Row>, k: nat, w: nat)
    requires k <= |rows| && (forall e :: e in entries ==> e.Entry?) && w < |Woven(rows, entries, k)|
    ensures !Woven(rows, entries, k)[w].Entry? ==> Woven(rows, entries, k)[w] in rows
    decreases |rows| - k
  {
    hide EntriesAt, FirstRow;
    var es := EntriesAt(rows, entries, k);
    EntriesAreEntries(rows, entries, k);
    WovenIs(rows, entries, k);
    if w < |es| {
      assert Woven(rows, entries, k)[w] == es[w] && es[w] in es;
    } else if w > |es| {
      WovenMembers(rows, entries, k + 1, w - |es| - 1);
    }
  }

  lemma NodesOrdered(roots: seq<Seg>, n: nat, entries: seq<Row>, a: Seg, b: Seg)
    requires DistinctForest(roots) && ForestBefore(a, b, roots) && forall e :: e in entries ==> e.Entry?
    ensures Ordered(Woven(MatrixRows(roots, n), entries, 0), Ids(a), Ids(b))
  {
    hide MatrixRows, Ordered, ForestBefore, DistinctForest;
    var rows := MatrixRows(roots, n);
    MatrixOrders(a, b, roots, n);
    assert rows[0..] == rows;
    WovenOrders(rows, entries, 0, Ids(a), Ids(b));
  }

  // A writer after the phi that is not in the loop, and is not the entry of a segment
  // without rows, comes from a segment that writes late.
  lemma OutsideIsLate(roots: seq<Seg>, n: nat, entries: seq<Row>, loop: Seg, x: Slot, phi: nat, u: nat) returns (s: Seg)
    requires IsBackEdgeOf(roots, n, entries, loop, x, phi, u)
    requires var nodes := Woven(MatrixRows(roots, n), entries, 0);
             nodes[u].segId !in Ids(loop)
             && (nodes[u].Entry? ==> FirstRow(MatrixRows(roots, n), nodes[u].segId) < |MatrixRows(roots, n)|)
    ensures WritesLate(roots, entries, loop, x, s)
  {
    hide Ids, ForestBefore, DistinctForest, MatrixRows, Woven, FirstRow, Ordered, InForest, Dotted, Formed,
         SubtreeWrites, StandsFirst;
    var rows := MatrixRows(roots, n);
    var nodes := Woven(rows, entries, 0);
    MatrixHasNoEntries(roots, n);
    OwnId(loop);
    if nodes[u].Entry? {
      EntryStands(rows, entries, 0, u);
      var e := nodes[u];
      s :| InForest(s, roots) && s.id == e.segId && s.scope == e.scope && s.typ in {Root, Function, Struct};
      RowlessIff(roots, n, s);
      var f :| u < f < |nodes| && !nodes[f].Entry? && NamesSegment(nodes[f], s.id);
      OwnId(s);
      PlaceOf(roots, loop, s);
      if ForestBefore(s, loop, roots) {
        NodesOrdered(roots, n, entries, s, loop);
        OrderedAt(nodes, Ids(s), Ids(loop), f, phi);
      }
    } else {
      WovenMembers(rows, entries, 0, u);
      var t := MatrixRowsBelong(roots, n, nodes[u]);
      BelongsNames(nodes[u], t);
      OwnId(t);
      PlaceOf(roots, loop, t);
      if ForestBefore(t, loop, roots) {
        NodesOrdered(roots, n, entries, t, loop);
        OrderedAt(nodes, Ids(t), Ids(loop), u, phi);
      }
      s := WriterBelow(roots, n, entries, loop, x, t, nodes[u]);
    }
  }

  lemma OrderedAt(rows: seq<Row>, a: set<int>, b: set<int>, i: nat, j: nat)
    requires Ordered(rows, a, b) && i < |rows| && j < |rows| && NamedIn(rows[i], a) && NamedIn(rows[j], b)
    ensures i < j
  {}

  // A row that writes the slot points to a statement that does: its own, or one below the
  // loop its phi belongs to.
  lemma WriterBelow(roots: seq<Seg>, n: nat, entries: seq<Row>, loop: Seg, x: Slot, t: Seg, r: Row) returns (s: Seg)
    requires (forall q :: q in roots ==> Formed(q, n) && Dotted(q)) && InForest(t, roots)
             && ForestBefore(loop, t, roots)
    requires Belongs(r, t) && x in r.Writes() && loop.scope <= t.scope
    ensures WritesLate(roots, entries, loop, x, s)
  {
    hide Ids, ForestBefore, Dotted, Formed, SubtreeWrites, InTree;
    if r.StmtRow? {
      s := t;
    } else {
      var k :| 0 <= k < |roots| && InTree(t, roots[k]);
      FormedBelow(roots[k], n, t);
      DottedBelow(roots[k], t);
      s := CollectedIsWritten(t, n, x);
      BelowIsLonger(t, s);
      InTreeChain(s, t, roots[k]);
      ForestBelow(loop, t, s, roots);
    }
  }

  // The node of a late writer stands after every node of the loop.
  lemma LateIsAfter(roots: seq<Seg>, n: nat, entries: seq<Row>, loop: Seg, x: Slot, phi: nat, u: nat, s: Seg)
    returns (w: nat)
    requires IsBackEdgeOf(roots, n, entries, loop, x, phi, u) && WritesLate(roots, entries, loop, x, s)
    requires var nodes := Woven(MatrixRows(roots, n), entries, 0);
             nodes[u].segId in Ids(loop)
             && (nodes[u].Entry? ==> FirstRow(MatrixRows(roots, n), nodes[u].segId) < |MatrixRows(roots, n)|)
    ensures var nodes := Woven(MatrixRows(roots, n), entries, 0);
            u < w < |nodes| && WritesUnder(nodes, w, loop.scope, x)
  {
    hide Ids, ForestBefore, DistinctForest, MatrixRows, Woven, FirstRow, Ordered, InForest, Dotted, Formed,
         SubtreeWrites, StandsFirst;
    var rows := MatrixRows(roots, n);
    var nodes := Woven(rows, entries, 0);
    MatrixHasNoEntries(roots, n);
    OwnId(s);
    NodesOrdered(roots, n, entries, loop, s);
    var anchor := u;
    if nodes[u].Entry? {
      EntryStands(rows, entries, 0, u);
      anchor :| u < anchor < |nodes| && !nodes[anchor].Entry? && NamesSegment(nodes[anchor], nodes[u].segId);
    }
    assert NamedIn(nodes[anchor], Ids(loop));
    if WritesSlot(s, x) {
      var t :| t in s.stmts && x in t.defs;
      w := StmtNode(roots, n, entries, s, t);
      OrderedAt(nodes, Ids(loop), Ids(s), anchor, w);
    } else {
      var e :| e in entries && e.Entry? && e.segId == s.id && x in e.params;
      w := EntryNode(roots, n, entries, loop, s, e, anchor);
    }
  }

  lemma StmtNode(roots: seq<Seg>, n: nat, entries: seq<Row>, s: Seg, t: Stmt) returns (w: nat)
    requires DistinctForest(roots) && InForest(s, roots) && t in s.stmts && forall e :: e in entries ==> e.Entry?
    ensures var nodes := Woven(MatrixRows(roots, n), entries, 0);
            w < |nodes| && nodes[w] == StmtRow(s.id, s.scope, t)
  {
    hide MatrixRows, Woven, InForest, DistinctForest;
    var rows := MatrixRows(roots, n);
    StmtIsMatrixRow(roots, n, s, t);
    var i :| 0 <= i < |rows| && rows[i] == StmtRow(s.id, s.scope, t);
    WovenHolds(rows, entries, 0, i);
    w :| 0 <= w < |Woven(rows, entries, 0)| && Woven(rows, entries, 0)[w] == rows[i];
  }

  // The entry node of a later segment stands after any row of the loop, for only entries
  // come between it and its segment's rows.
  lemma EntryNode(roots: seq<Seg>, n: nat, entries: seq<Row>, loop: Seg, s: Seg, e: Row, anchor: nat) returns (w: nat)
    requires DistinctForest(roots) && EntriesFit(roots, entries) && InForest(s, roots) && ForestBefore(loop, s, roots)
    requires s.stmts != [] && e in entries && e.segId == s.id && anchor < |Woven(MatrixRows(roots, n), entries, 0)|
    requires NamedIn(Woven(MatrixRows(roots, n), entries, 0)[anchor], Ids(loop))
    ensures var nodes := Woven(MatrixRows(roots, n), entries, 0);
            anchor < w < |nodes| && nodes[w] == e && e.scope == s.scope
  {
    hide Ids, ForestBefore, DistinctForest, MatrixRows, Woven, FirstRow, Ordered, InForest, StandsFirst;
    var rows := MatrixRows(roots, n);
    var nodes := Woven(rows, entries, 0);
    MatrixHasNoEntries(roots, n);
    OwnId(s);
    NodesOrdered(roots, n, entries, loop, s);
    var t :| InForest(t, roots) && t.id == e.segId && t.scope == e.scope && t.typ in {Root, Function, Struct};
    OneSegmentAnId(s, t, roots);
    RowlessIff(roots, n, s);
    FirstRowIs(rows, s.id);
    WovenHolds(rows, entries, 0, FirstRow(rows, s.id));
    w :| 0 <= w < |nodes| && nodes[w] == e;
    EntryStands(rows, entries, 0, w);
    var f :| w < f < |nodes| && !nodes[f].Entry? && NamesSegment(nodes[f], s.id)
             && forall j :: w < j < f ==> nodes[j].Entry?;
    OrderedAt(nodes, Ids(loop), Ids(s), anchor, f);
  }

  // ---- Entry nodes after all rows -----------------------------------------------------------------------

  predicate WritesHere(e: Row, scope: string, x: Slot) { e.Entry? && x in e.params && scope <= e.scope }

  // Among the entries put last, the last writer is the one listed first.
  lemma {:induction false} LastTrailing(rows: seq<Row>, entries: seq<Row>, scope: string, x: Slot)
    returns (p: int, i: int)
    requires forall e :: e in entries ==> e.Entry?
    ensures LastHere(EntriesAt(rows, entries, |rows|), scope, x, p) && FirstTrailing(rows, entries, scope, x, i)
    ensures -1 <= p < |EntriesAt(rows, entries, |rows|)| && -1 <= i < |entries| && (p == -1 <==> i == -1)
    ensures p >= 0 ==> EntriesAt(rows, entries, |rows|)[p] == entries[i]
  {
    hide FirstRow, WritesHere, LastHere, FirstTrailing;
    if entries == [] {
      p, i := -1, -1;
      NoneTrails(rows, scope, x);
    } else {
      var m := |entries| - 1;
      var here := FirstRow(rows, entries[m].segId) == |rows|;
      p, i := LastTrailing(rows, entries[..m], scope, x);
      assert entries == entries[..m] + [entries[m]];
      assert [] + EntriesAt(rows, entries[..m], |rows|) == EntriesAt(rows, entries[..m], |rows|);
      if here { LastHereMore(entries[m], EntriesAt(rows, entries[..m], |rows|), scope, x, p); }
      FirstTrailingMore(rows, entries[..m], entries[m], scope, x, i);
      if p >= 0 {
        p := if here then p + 1 else p;
      } else if here && WritesHere(entries[m], scope, x) {
        p, i := 0, m;
      }
    }
  }

  // p is the last place of a writer, or -1.
  predicate LastHere(es: seq<Row>, scope: string, x: Slot, p: int) {
    -1 <= p < |es| && (p >= 0 ==> WritesHere(es[p], scope, x))
    && forall q :: p < q < |es| ==> !WritesHere(es[q], scope, x)
  }

  predicate TrailsHere(rows: seq<Row>, e: Row, scope: string, x: Slot) {
    e.Entry? && FirstRow(rows, e.segId) == |rows| && WritesHere(e, scope, x)
  }

  // i is the first listed writer of a segment without rows, or -1.
  predicate FirstTrailing(rows: seq<Row>, entries: seq<Row>, scope: string, x: Slot, i: int) {
    -1 <= i < |entries| && (i >= 0 ==> TrailsHere(rows, entries[i], scope, x))
    && forall j :: 0 <= j < |entries| && (i >= 0 ==> j < i) ==> !TrailsHere(rows, entries[j], scope, x)
  }

  lemma NoneTrails(rows: seq<Row>, scope: string, x: Slot)
    ensures LastHere([], scope, x, -1) && FirstTrailing(rows, [], scope, x, -1)
  {}

  lemma LastHereMore(e: Row, es: seq<Row>, scope: string, x: Slot, p: int)
    requires LastHere(es, scope, x, p)
    ensures LastHere([e] + es, scope, x, if p >= 0 then p + 1 else if WritesHere(e, scope, x) then 0 else -1)
  {
    hide WritesHere;
    assert forall q :: 0 < q < |[e] + es| ==> ([e] + es)[q] == es[q - 1];
  }

  lemma FirstTrailingMore(rows: seq<Row>, entries: seq<Row>, e: Row, scope: string, x: Slot, i: int)
    requires FirstTrailing(rows, entries, scope, x, i) && e.Entry?
    ensures FirstTrailing(rows, entries + [e], scope, x,
                          if i >= 0 then i else if TrailsHere(rows, e, scope, x) then |entries| else -1)
  {
    hide TrailsHere;
    assert forall j :: 0 <= j < |entries| ==> (entries + [e])[j] == entries[j];
  }

  lemma {:induction false} WovenEnds(rows: seq<Row>, entries: seq<Row>, k: nat, q: nat)
    requires k <= |rows| && forall e :: e in entries ==> e.Entry?
    requires q < |EntriesAt(rows, entries, |rows|)|
    ensures var nodes, es := Woven(rows, entries, k), EntriesAt(rows, entries, |rows|);
            |es| <= |nodes| && nodes[|nodes| - |es| + q] == es[q]
    decreases |rows| - k
  {
    hide EntriesAt;
    TailIsShort(rows, entries, k);
    WovenIs(rows, entries, k);
    if k < |rows| { WovenEnds(rows, entries, k + 1, q); TailIsShort(rows, entries, k + 1); }
  }

  lemma TrailsIff(roots: seq<Seg>, n: nat, entries: seq<Row>, loop: Seg, x: Slot, i: int)
    requires DistinctForest(roots) && EntriesFit(roots, entries)
    ensures Trails(roots, entries, loop, x, i) <==>
            0 <= i < |entries| && TrailsHere(MatrixRows(roots, n), entries[i], loop.scope, x)
  {
    hide DistinctForest, MatrixRows, FirstRow, InForest;
    if 0 <= i < |entries| {
      var e := entries[i];
      assert e in entries;
      var s :| InForest(s, roots) && s.id == e.segId && s.scope == e.scope && s.typ in {Root, Function, Struct};
      RowlessIff(roots, n, s);
      forall t | InForest(t, roots) && t.id == e.segId ensures t == s { OneSegmentAnId(s, t, roots); }
    }
  }

  // ---- The exact condition ------------------------------------------------------------------------------

  // When an entry node put after all rows writes the slot under the loop's spelling, the
  // first of them in the segment order decides.  Otherwise the back edge comes from
  // inside the loop exactly when no segment writes late.
  ghost predicate NothingLater(roots: seq<Seg>, entries: seq<Row>, loop: Seg, x: Slot) {
    if exists i :: Trails(roots, entries, loop, x, i)
    then exists i :: Trails(roots, entries, loop, x, i) && entries[i].segId in Ids(loop)
                     && forall j :: 0 <= j < i ==> !Trails(roots, entries, loop, x, j)
    else forall s :: !WritesLate(roots, entries, loop, x, s)
  }

  lemma BackEdgeIsFromLoop(roots: seq<Seg>, n: nat, entries: seq<Row>, loop: Seg, x: Slot, phi: nat, u: nat)
    requires IsBackEdgeOf(roots, n, entries, loop, x, phi, u)
    ensures !Woven(MatrixRows(roots, n), entries, 0)[u].JoinPhi?
    ensures Woven(MatrixRows(roots, n), entries, 0)[u].segId in Ids(loop) <==> NothingLater(roots, entries, loop, x)
  {
    hide Ids, DistinctForest, MatrixRows, Woven, FirstRow, InForest, Dotted, Formed, WritesLate, Trails, EntriesAt,
         StandsFirst;
    var rows := MatrixRows(roots, n);
    var nodes := Woven(rows, entries, 0);
    forall i ensures Trails(roots, entries, loop, x, i) <==>
                     0 <= i < |entries| && TrailsHere(rows, entries[i], loop.scope, x) {
      TrailsIff(roots, n, entries, loop, x, i);
    }
    var p, i := LastTrailing(rows, entries, loop.scope, x);
    if p >= 0 {
      LastNode(rows, entries, loop.scope, x, phi, u, p);
      assert Trails(roots, entries, loop, x, i);
    } else {
      if nodes[u].Entry? { EntryIsPlaced(roots, n, entries, loop, x, phi, u); }
      if nodes[u].segId !in Ids(loop) {
        var s := OutsideIsLate(roots, n, entries, loop, x, phi, u);
      } else if s :| WritesLate(roots, entries, loop, x, s) {
        var w := LateIsAfter(roots, n, entries, loop, x, phi, u, s);
      }
    }
  }

  lemma LastNode(rows: seq<Row>, entries: seq<Row>, scope: string, x: Slot, phi: nat, u: nat, p: nat)
    requires forall e :: e in entries ==> e.Entry?
    requires var nodes, es := Woven(rows, entries, 0), EntriesAt(rows, entries, |rows|);
             p < |es| && WritesHere(es[p], scope, x) && (forall q :: p < q < |es| ==> !WritesHere(es[q], scope, x))
             && phi < |nodes| && nodes[phi].LoopPhi? && nodes[phi].scope == scope && nodes[phi].slot == x
             && IsLoopEnd(nodes, phi, u)
    ensures Woven(rows, entries, 0)[u] == EntriesAt(rows, entries, |rows|)[p]
  {
    hide EntriesAt, Woven;
    var nodes, es := Woven(rows, entries, 0), EntriesAt(rows, entries, |rows|);
    var base := |nodes| - |es|;
    forall q | 0 <= q < |es| ensures base >= 0 && nodes[base + q] == es[q] { WovenEnds(rows, entries, 0, q); }
    EntriesAreEntries(rows, entries, |rows|);
    assert WritesUnder(nodes, base + p, scope, x);
    forall v | base + p < v < |nodes| ensures !WritesUnder(nodes, v, scope, x) {
      var q := v - base;
      assert nodes[base + q] == es[q] && es[q] in es;
    }
  }

  lemma EntryIsPlaced(roots: seq<Seg>, n: nat, entries: seq<Row>, loop: Seg, x: Slot, phi: nat, u: nat)
    requires IsBackEdgeOf(roots, n, entries, loop, x, phi, u) && Woven(MatrixRows(roots, n), entries, 0)[u].Entry?
    requires forall i :: !Trails(roots, entries, loop, x, i)
    ensures var rows := MatrixRows(roots, n); FirstRow(rows, Woven(rows, entries, 0)[u].segId) < |rows|
  {
    hide Ids, DistinctForest, MatrixRows, Woven, FirstRow, InForest, Dotted, Formed, Trails, EntriesAt, StandsFirst;
    var rows := MatrixRows(roots, n);
    MatrixHasNoEntries(roots, n);
    EntryStands(rows, entries, 0, u);
    FirstRowIs(rows, Woven(rows, entries, 0)[u].segId);
    var i :| 0 <= i < |entries| && entries[i] == Woven(rows, entries, 0)[u];
    TrailsIff(roots, n, entries, loop, x, i);
  }
}
