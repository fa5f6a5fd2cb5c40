// Guarantees of the finished graph, and the path from segments to graph nodes.
module DagLaws {
  import opened Wrappers
  import opened Matrix
  import opened MatrixLaws
  import opened LoopPhiLaws
  import opened Dag

  // ---- Cycles ----------------------------------------------------------------------------

  ghost predicate IsWalkOf(nodes: seq<Row>, es: seq<Edge>) {
    (forall i :: 0 <= i < |es| ==> ForwardEdge(nodes, es[i]) || BackEdge(nodes, es[i]))
    && forall i :: 0 < i < |es| ==> es[i - 1].dst == es[i].src
  }

  lemma {:induction false} ForwardWalkClimbs(nodes: seq<Row>, es: seq<Edge>)
    requires |es| > 0 && IsWalkOf(nodes, es) && forall i :: 0 <= i < |es| ==> ForwardEdge(nodes, es[i])
    ensures es[0].src < es[|es| - 1].dst
  {
    ForwardEdgesGoForward(nodes);
    assert ForwardEdge(nodes, es[|es| - 1]);
    if |es| > 1 {
      var front := es[..|es| - 1];
      assert forall i :: 0 <= i < |front| ==> front[i] == es[i];
      ForwardWalkClimbs(nodes, front);
    }
  }

  // Only the back edges into loop phis can close a cycle.
  lemma CyclesPassALoopPhi(nodes: seq<Row>, es: seq<Edge>) returns (k: nat)
    requires |es| > 0 && IsWalkOf(nodes, es) && es[|es| - 1].dst == es[0].src
    ensures k < |es| && BackEdge(nodes, es[k]) && es[k].dst < es[k].src && nodes[es[k].dst].LoopPhi?
  {
    if forall i :: 0 <= i < |es| ==> ForwardEdge(nodes, es[i]) {
      ForwardWalkClimbs(nodes, es);
      assert false;
    } else {
      k :| 0 <= k < |es| && !ForwardEdge(nodes, es[k]);
    }
  }

  // ---- Reaching definitions ----------------------------------------------------------------

  // A read is fed by exactly one edge, from the latest earlier writer, when the slot
  // has been written before, and by none otherwise.
  lemma ReadsHaveOneSource(nodes: seq<Row>, v: nat, slot: Slot) returns (u: Option<nat>)
    requires v < |nodes| && nodes[v].StmtRow? && slot in nodes[v].stmt.uses
    ensures u.Some? <==> exists w :: 0 <= w < v && WritesAt(nodes, w, slot)
    ensures u.Some? ==> IsLatest(nodes, slot, u.value, v)
    ensures forall e: Edge :: e.dst == v && e.slot == slot ==>
              ((ForwardEdge(nodes, e) || BackEdge(nodes, e)) <==> e.kind == DataFlow && u == Some(e.src))
  {
    u := LatestWriter(nodes, slot, v);
    LatestIsOne(nodes, slot, v);
  }

  lemma {:induction false} LatestWriter(nodes: seq<Row>, slot: Slot, v: nat) returns (u: Option<nat>)
    requires v <= |nodes|
    ensures u.Some? <==> exists w :: 0 <= w < v && WritesAt(nodes, w, slot)
    ensures u.Some? ==> IsLatest(nodes, slot, u.value, v)
  {
    if v == 0 {
      u := None;
    } else if WritesAt(nodes, v - 1, slot) {
      u := Some(v - 1);
    } else {
      u := LatestWriter(nodes, slot, v - 1);
    }
  }

  // A join phi is fed once for every source scope that has written the slot, from
  // that scope's latest write, and by nothing else.
  lemma JoinsHaveOneSourcePerScope(nodes: seq<Row>, v: nat, scope: string) returns (u: Option<nat>)
    requires v < |nodes| && nodes[v].JoinPhi? && scope in nodes[v].sources
    ensures u.Some? <==> exists w :: 0 <= w < v && WritesInScope(nodes, w, scope, nodes[v].slot)
    ensures forall e: Edge :: ForwardEdge(nodes, e) && e.dst == v && nodes[e.src].Scope() == Some(scope) ==>
              e.slot == nodes[v].slot && e.kind == PhiBranch && u == Some(e.src)
    ensures u.Some? ==> ForwardEdge(nodes, Edge(u.value, v, nodes[v].slot, PhiBranch))
  {
    var slot := nodes[v].slot;
    u := LatestScopeWriter(nodes, scope, slot, v);
    LatestInIsOne(nodes, scope, slot, v);
    if u.Some? { assert scope in nodes[v].sources && IsLatestIn(nodes, scope, slot, u.value, v); }
  }

  lemma {:induction false} LatestScopeWriter(nodes: seq<Row>, scope: string, slot: Slot, v: nat)
    returns (u: Option<nat>)
    requires v <= |nodes|
    ensures u.Some? <==> exists w :: 0 <= w < v && WritesInScope(nodes, w, scope, slot)
    ensures u.Some? ==> IsLatestIn(nodes, scope, slot, u.value, v)
  {
    if v == 0 {
      u := None;
    } else if WritesInScope(nodes, v - 1, scope, slot) {
      u := Some(v - 1);
    } else {
      u := LatestScopeWriter(nodes, scope, slot, v - 1);
    }
  }

  // ---- Loop phis have one back edge ----------------------------------------------------------

  lemma LoopPhiHasOneBackEdge(nodes: seq<Row>, phi: nat) returns (e: Edge)
    requires Covered(nodes) && phi < |nodes| && nodes[phi].LoopPhi?
    ensures BackEdge(nodes, e) && e.dst == phi < e.src
    ensures forall x :: BackEdge(nodes, x) && x.dst == phi ==> x == e
  {
    var j :| phi < j < |nodes| && Rewrites(nodes[j], nodes[phi]);
    assert WritesUnder(nodes, j, nodes[phi].scope, nodes[phi].slot);
    var u := LastUnder(nodes, phi, j);
    e := Edge(u, phi, nodes[phi].slot, PhiLoop);
    forall x | BackEdge(nodes, x) && x.dst == phi ensures x == e {
      OneLoopEnd(nodes, phi, x.src, u);
    }
  }

  lemma OneLoopEnd(nodes: seq<Row>, phi: nat, u: nat, w: nat)
    requires IsLoopEnd(nodes, phi, u) && IsLoopEnd(nodes, phi, w)
    ensures u == w
  {
    var scope, slot := nodes[phi].scope, nodes[phi].slot;
    assert WritesUnder(nodes, u, scope, slot) && WritesUnder(nodes, w, scope, slot);
  }

  lemma LastUnder(nodes: seq<Row>, phi: nat, j: nat) returns (u: nat)
    requires phi < j < |nodes| && nodes[phi].LoopPhi?
    requires WritesUnder(nodes, j, nodes[phi].scope, nodes[phi].slot)
    ensures IsLoopEnd(nodes, phi, u)
    decreases |nodes| - j
  {
    if w :| j < w < |nodes| && WritesUnder(nodes, w, nodes[phi].scope, nodes[phi].slot) {
      u := LastUnder(nodes, phi, w);
    } else {
      u := j;
    }
  }

  // ---- The walk makes no entry nodes -----------------------------------------------------------

  lemma {:induction false} WalkHasNoEntries(seg: Seg, n: nat)
    ensures NoEntries(Walk(seg, n))
    decreases seg, 2, 0
  {
    FromHasNoEntries(seg, n, 0, 0, []);
    assert NoEntries(EntryPhis(seg, n));
  }

  lemma {:induction false} FromHasNoEntries(seg: Seg, n: nat, i: nat, c: nat, group: seq<Seg>)
    requires i <= |seg.stmts| && c <= |seg.children|
    ensures NoEntries(WalkFrom(seg, n, i, c, group))
    decreases seg, 1, |seg.stmts| - i
  {
    hide Walk, Flush;
    FlushHasNoEntries(group);
    if i == |seg.stmts| {
      RestHasNoEntries(seg, n, c);
    } else if !OpensBlock(seg.stmts[i]) {
      FromHasNoEntries(seg, n, i + 1, c, []);
    } else if c == |seg.children| {
      FromHasNoEntries(seg, n, i + 1, c, group);
    } else {
      var child := seg.children[c];
      WalkHasNoEntries(child, n);
      FromHasNoEntries(seg, n, i + 1, c + 1, if child.typ == BranchSeg then group + [child] else []);
    }
  }

  lemma FlushHasNoEntries(group: seq<Seg>)
    ensures NoEntries(Flush(group))
  {
    FlushIsJoins(group);
    forall i | 0 <= i < |Flush(group)| ensures Flush(group)[i].JoinPhi? { assert Flush(group)[i] in Flush(group); }
  }

  lemma {:induction false} RestHasNoEntries(seg: Seg, n: nat, c: nat)
    requires c <= |seg.children|
    ensures NoEntries(WalkRest(seg, n, c))
    decreases seg, 0, |seg.children| - c
  {
    hide Walk;
    if c < |seg.children| {
      WalkHasNoEntries(seg.children[c], n);
      RestHasNoEntries(seg, n, c + 1);
    }
  }

  lemma {:induction false} MatrixHasNoEntries(roots: seq<Seg>, n: nat)
    ensures NoEntries(MatrixRows(roots, n))
  {
    hide WalkRest;
    if roots != [] {
      MatrixHasNoEntries(roots[..|roots| - 1], n);
      RestHasNoEntries(roots[|roots| - 1], n, 0);
    }
  }

  // ---- From (segment, statement index) to node -------------------------------------------------

  lemma {:induction false} OfStep(nodes: seq<Row>, v: nat, id: int)
    requires v < |nodes|
    ensures Of(nodes[..v + 1], id) ==
            Of(nodes[..v], id) + if nodes[v].StmtRow? && nodes[v].segId == id then [nodes[v]] else []
  {
    assert nodes[..v + 1] == nodes[..v] + [nodes[v]];
    OfAppend(nodes[..v], [nodes[v]], id);
  }

  // The k-th counted node of segment id is the k-th of its statement rows: k of them
  // stand before it.
  ghost predicate MapsTo(mapping: map<(int, nat), nat>, nodes: seq<Row>, v: nat)
    requires v <= |nodes|
  {
    (forall id, k: nat :: (id, k) in mapping <==> k < |Of(nodes[..v], id)|)
    && forall id, k: nat :: (id, k) in mapping ==> IsKth(nodes, mapping[(id, k)], id, k, v)
  }

  predicate IsKth(nodes: seq<Row>, m: nat, id: int, k: nat, v: nat)
    requires v <= |nodes|
  {
    m < v && nodes[m].StmtRow? && nodes[m].segId == id && |Of(nodes[..m], id)| == k
    && k < |Of(nodes[..v], id)| && nodes[m] == Of(nodes[..v], id)[k]
  }

  ghost predicate Counts(counter: map<int, nat>, nodes: seq<Row>, v: nat)
    requires v <= |nodes|
  {
    forall id :: (if id in counter then counter[id] else 0) == |Of(nodes[..v], id)|
  }

  lemma SkipStep(mapping: map<(int, nat), nat>, counter: map<int, nat>, nodes: seq<Row>, v: nat)
    requires v < |nodes| && MapsTo(mapping, nodes, v) && Counts(counter, nodes, v) && !nodes[v].StmtRow?
    ensures MapsTo(mapping, nodes, v + 1) && Counts(counter, nodes, v + 1)
  {
    hide Of;
    forall id ensures Of(nodes[..v + 1], id) == Of(nodes[..v], id) {
      OfStep(nodes, v, id);
    }
  }

  lemma CountStep(mapping: map<(int, nat), nat>, counter: map<int, nat>, nodes: seq<Row>, v: nat)
    requires v < |nodes| && MapsTo(mapping, nodes, v) && Counts(counter, nodes, v) && nodes[v].StmtRow?
    ensures var id := nodes[v].segId;
            var idx := if id in counter then counter[id] else 0;
            MapsTo(mapping[(id, idx) := v], nodes, v + 1) && Counts(counter[id := idx + 1], nodes, v + 1)
  {
    hide Of;
    var me := nodes[v].segId;
    OfStep(nodes, v, me);
    forall id | id != me ensures Of(nodes[..v + 1], id) == Of(nodes[..v], id) {
      OfStep(nodes, v, id);
    }
  }

  // _build_seg_stmt_to_dag_map: entry nodes and phis are not counted.
  method BuildSegStmtMap(nodes: seq<Row>) returns (mapping: map<(int, nat), nat>)
    ensures MapsTo(mapping, nodes, |nodes|)
  {
    var counter: map<int, nat> := map[];
    mapping := map[];
    for v := 0 to |nodes|
      invariant MapsTo(mapping, nodes, v) && Counts(counter, nodes, v)
    {
      if !nodes[v].StmtRow? {
        SkipStep(mapping, counter, nodes, v);
        continue;
      }
      CountStep(mapping, counter, nodes, v);
      var id := nodes[v].segId;
      var idx := if id in counter then counter[id] else 0;
      mapping := mapping[(id, idx) := v];
      counter := counter[id := idx + 1];
    }
  }

  // build_matrix, build_dag and the map, one after the other.
  method BuildGraph(roots: seq<Seg>, n: nat, entries: seq<Row>)
    returns (nodes: seq<Row>, edges: seq<Edge>, mapping: map<(int, nat), nat>)
    requires forall r :: r in roots ==> Formed(r, n)
    requires DistinctForest(roots) && forall e :: e in entries ==> e.Entry?
    ensures forall s, k: nat :: InForest(s, roots) && k < |s.stmts| ==>
              (s.id, k) in mapping && mapping[(s.id, k)] < |nodes|
              && nodes[mapping[(s.id, k)]] == StmtRow(s.id, s.scope, s.stmts[k])
              && |Of(nodes[..mapping[(s.id, k)]], s.id)| == k
    ensures forall s, k: nat :: InForest(s, roots) && (s.id, k) in mapping ==> k < |s.stmts|
    ensures forall id, k: nat :: (id, k) in mapping ==> id in ForestIds(roots)
    ensures forall e :: e in edges <==> ForwardEdge(nodes, e) || BackEdge(nodes, e)
    ensures nodes == Woven(MatrixRows(roots, n), entries, 0) && |nodes| == |MatrixRows(roots, n)| + |entries|
    ensures Covered(nodes) && forall w :: 0 <= w < |nodes| && nodes[w].Entry? ==> StandsFirst(nodes, w)
  {
    hide Of, Woven, StandsFirst, HeadsSegment, Covered, MatrixRows, InForest, DistinctForest, ForwardEdge, BackEdge;
    var rows := BuildMatrix(roots, n);
    nodes := InjectEntries(rows, entries);
    edges := BuildEdges(nodes);
    mapping := BuildSegStmtMap(nodes);
    assert nodes[..|nodes|] == nodes && rows[0..] == rows;
    forall s | InForest(s, roots) ensures Of(nodes, s.id) == StmtRows(s, |s.stmts|) {
      MatrixEmitsStatements(roots, n, s);
      WovenKeepsRows(rows, entries, 0, s.id);
    }
    forall id | id !in ForestIds(roots) ensures Of(nodes, id) == [] {
      MatrixOfAbsent(roots, n, id);
      WovenKeepsRows(rows, entries, 0, id);
    }
    MatrixIsCovered(roots, n);
    WovenIsCovered(rows, entries, 0);
    MatrixHasNoEntries(roots, n);
    forall w | 0 <= w < |nodes| && nodes[w].Entry? ensures StandsFirst(nodes, w) {
      EntryStands(rows, entries, 0, w);
    }
  }

  // ---- The edges, in full --------------------------------------------------------------------

  predicate Defines(r: Row, x: Slot) {
    match r
    case StmtRow(_, _, s) => x in s.defs
    case LoopPhi(_, _, slot) => x == slot
    case JoinPhi(_, slot) => x == slot
    case Entry(_, _, params) => x in params
  }

  // The path of a node's segment; a join has none.
  predicate HasPath(r: Row, path: string) { !r.JoinPhi? && r.scope == path }

  // u is the last node before v that defines x.
  predicate LastBefore(nodes: seq<Row>, x: Slot, u: nat, v: nat) {
    u < v <= |nodes| && Defines(nodes[u], x) && forall w :: u < w < v ==> !Defines(nodes[w], x)
  }

  // The same among the nodes of one path.
  predicate LastOfPath(nodes: seq<Row>, path: string, x: Slot, u: nat, v: nat) {
    u < v <= |nodes| && Defines(nodes[u], x) && HasPath(nodes[u], path)
    && forall w :: u < w < v ==> !(Defines(nodes[w], x) && HasPath(nodes[w], path))
  }

  predicate DefinesBelow(r: Row, x: Slot, path: string) { Defines(r, x) && !r.JoinPhi? && path <= r.scope }

  // u is the last node of all that defines x under a path that continues the given one,
  // and stands after v.
  predicate LastBelow(nodes: seq<Row>, path: string, x: Slot, v: nat, u: nat) {
    v < u < |nodes| && DefinesBelow(nodes[u], x, path)
    && forall w :: u < w < |nodes| ==> !DefinesBelow(nodes[w], x, path)
  }

  // The edges of the graph: reads from the latest definition; a loop phi from the latest
  // one before it and the last one below its loop's path; a join from the latest of each
  // of its paths.  Entry nodes have none.
  lemma EdgesAre(nodes: seq<Row>, e: Edge)
    ensures ForwardEdge(nodes, e) || BackEdge(nodes, e) <==>
            e.dst < |nodes|
            && match nodes[e.dst]
               case StmtRow(_, _, s) =>
                 e.kind == DataFlow && e.slot in s.uses && LastBefore(nodes, e.slot, e.src, e.dst)
               case LoopPhi(_, path, x) =>
                 e.kind == PhiLoop && e.slot == x
                 && (LastBefore(nodes, x, e.src, e.dst) || LastBelow(nodes, path, x, e.dst, e.src))
               case JoinPhi(paths, x) =>
                 e.kind == PhiBranch && e.slot == x
                 && exists path :: path in paths && LastOfPath(nodes, path, x, e.src, e.dst)
               case Entry(_, _, _) => false
  {
    forall w, x | 0 <= w < |nodes| ensures WritesAt(nodes, w, x) <==> Defines(nodes[w], x) {}
    if e.dst < |nodes| {
      LatestIs(nodes, e.slot, e.src, e.dst);
      forall path
        ensures IsLatestIn(nodes, path, e.slot, e.src, e.dst) <==> LastOfPath(nodes, path, e.slot, e.src, e.dst)
      {
        LatestInIs(nodes, path, e.slot, e.src, e.dst);
      }
      if nodes[e.dst].LoopPhi? { LoopEndIs(nodes, e.dst, e.src); }
    }
  }

  lemma LatestIs(nodes: seq<Row>, x: Slot, u: nat, v: nat)
    requires v <= |nodes|
    ensures IsLatest(nodes, x, u, v) <==> LastBefore(nodes, x, u, v)
  {
    forall w | 0 <= w < |nodes| ensures WritesAt(nodes, w, x) <==> Defines(nodes[w], x) {}
  }

  lemma LatestInIs(nodes: seq<Row>, path: string, x: Slot, u: nat, v: nat)
    requires v <= |nodes|
    ensures IsLatestIn(nodes, path, x, u, v) <==> LastOfPath(nodes, path, x, u, v)
  {
    forall w | 0 <= w < |nodes|
      ensures WritesInScope(nodes, w, path, x) <==> Defines(nodes[w], x) && HasPath(nodes[w], path) {}
  }

  lemma LoopEndIs(nodes: seq<Row>, phi: nat, u: nat)
    requires phi < |nodes| && nodes[phi].LoopPhi?
    ensures IsLoopEnd(nodes, phi, u) <==> LastBelow(nodes, nodes[phi].scope, nodes[phi].slot, phi, u)
  {
    var path, x := nodes[phi].scope, nodes[phi].slot;
    forall w | 0 <= w < |nodes|
      ensures WritesUnder(nodes, w, path, x) <==> DefinesBelow(nodes[w], x, path) {}
  }
}
