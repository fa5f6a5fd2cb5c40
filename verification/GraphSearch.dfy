// Breadth-first search with parent paths, test_code/failure_codes/graph_search.cpp.
module GraphSearch {
  import opened Wrappers

  type Node = string
  type Graph = map<Node, seq<Node>>

  // ---- Paths -----------------------------------------------------------------------------------------

  predicate Edge(g: Graph, u: Node, v: Node) { u in g && v in g[u] }

  // p leads from s to t along edges.
  ghost predicate IsPath(g: Graph, p: seq<Node>, s: Node, t: Node) {
    |p| > 0 && p[0] == s && p[|p| - 1] == t && forall k :: 0 < k < |p| ==> Edge(g, p[k - 1], p[k])
  }

  ghost predicate Reachable(g: Graph, s: Node, t: Node) { exists p :: IsPath(g, p, s, t) }

  // d is the least number of edges on a path from s to t.
  ghost predicate IsDistance(g: Graph, s: Node, t: Node, d: nat) {
    (exists p :: IsPath(g, p, s, t) && |p| == d + 1) && forall p :: IsPath(g, p, s, t) ==> |p| >= d + 1
  }

  lemma Extend(g: Graph, p: seq<Node>, s: Node, u: Node, v: Node)
    requires IsPath(g, p, s, u) && Edge(g, u, v)
    ensures IsPath(g, p + [v], s, v)
  {
    var q := p + [v];
    forall k | 0 < k < |q| ensures Edge(g, q[k - 1], q[k]) {
      if k < |p| { assert q[k - 1] == p[k - 1] && q[k] == p[k]; }
    }
  }

  // ---- The search ------------------------------------------------------------------------------------

  // Every known node but the source has a known parent one step nearer, along an edge.
  ghost predicate ParentsStep(g: Graph, s: Node, dist: map<Node, nat>, parent: map<Node, Node>) {
    s in dist && dist[s] == 0 && s !in parent
    && (forall v :: v in dist && v != s ==>
          v in parent && parent[v] in dist && dist[v] == dist[parent[v]] + 1 && Edge(g, parent[v], v))
    && forall v :: v in parent ==> v in dist
  }

  // Known nodes outside the frontier have all their neighbours known, at most one step further.
  ghost predicate Expanded(g: Graph, dist: map<Node, nat>, u: Node) {
    u in g && u in dist && forall v :: v in g[u] ==> v in dist && dist[v] <= dist[u] + 1
  }

  // The queue is ordered by distance and spans at most one step; nothing known is further.
  ghost predicate Queued(dist: map<Node, nat>, frontier: seq<Node>, low: nat) {
    (forall i :: 0 <= i < |frontier| ==> frontier[i] in dist && low <= dist[frontier[i]] <= low + 1)
    && (forall i, j :: 0 <= i < j < |frontier| ==> dist[frontier[i]] <= dist[frontier[j]])
    && forall v :: v in dist ==> dist[v] <= low + 1
  }

  // Every known node is still to be looked at, or has all its neighbours known.
  ghost predicate Open(g: Graph, dist: map<Node, nat>, todo: set<Node>) {
    forall u :: u in dist ==> u in todo || Expanded(g, dist, u)
  }

  function Nodes(frontier: seq<Node>): set<Node> { set u | u in frontier }

  lemma DiscoverParent(g: Graph, s: Node, dist: map<Node, nat>, parent: map<Node, Node>, u: Node, v: Node)
    requires ParentsStep(g, s, dist, parent) && u in dist && v !in dist && Edge(g, u, v)
    ensures ParentsStep(g, s, dist[v := dist[u] + 1], parent[v := u])
  {}

  lemma DiscoverQueued(dist: map<Node, nat>, frontier: seq<Node>, u: Node, v: Node)
    requires u in dist && v !in dist && Queued(dist, frontier, dist[u])
    ensures Queued(dist[v := dist[u] + 1], frontier + [v], dist[u])
  {}

  lemma DiscoverOpen(g: Graph, dist: map<Node, nat>, todo: set<Node>, v: Node, d: nat)
    requires Open(g, dist, todo) && v !in dist
    ensures Open(g, dist[v := d], todo + {v})
  {
    var dist' := dist[v := d];
    forall u | u in dist && Expanded(g, dist, u) ensures Expanded(g, dist', u) {}
  }

  // Looking at the neighbours of `current`.
  method Expand(g: Graph, s: Node, current: Node, dist: map<Node, nat>, parent: map<Node, Node>, frontier: seq<Node>)
    returns (dist': map<Node, nat>, parent': map<Node, Node>, frontier': seq<Node>)
    requires current in g && current in dist && ParentsStep(g, s, dist, parent)
    requires Queued(dist, frontier, dist[current]) && Open(g, dist, {current} + Nodes(frontier))
    ensures ParentsStep(g, s, dist', parent')
    ensures current in dist' && dist'[current] == dist[current]
    ensures Queued(dist', frontier', dist[current]) && Open(g, dist', Nodes(frontier'))
    ensures dist.Keys <= dist'.Keys <= dist.Keys + Nodes(g[current])
    ensures |dist'| - |frontier'| == |dist| - |frontier|
  {
    hide ParentsStep, Queued, Open;
    dist', parent', frontier' := dist, parent, frontier;
    var neighbors := g[current];
    for i := 0 to |neighbors|
      invariant current in dist' && dist'[current] == dist[current]
      invariant ParentsStep(g, s, dist', parent') && Queued(dist', frontier', dist[current])
      invariant Open(g, dist', {current} + Nodes(frontier'))
      invariant dist.Keys <= dist'.Keys <= dist.Keys + Nodes(neighbors)
      invariant forall k :: 0 <= k < i ==> neighbors[k] in dist'
      invariant |dist'| - |frontier'| == |dist| - |frontier|
    {
      var v := neighbors[i];
      if v !in dist' {
        DiscoverParent(g, s, dist', parent', current, v);
        DiscoverQueued(dist', frontier', current, v);
        DiscoverOpen(g, dist', {current} + Nodes(frontier'), v, dist'[current] + 1);
        assert {current} + Nodes(frontier') + {v} == {current} + Nodes(frontier' + [v]);
        dist' := dist'[v := dist'[current] + 1];
        parent' := parent'[v := current];
        frontier' := frontier' + [v];
      }
    }
    AllSeen(g, dist', frontier', current);
  }

  lemma AllSeen(g: Graph, dist: map<Node, nat>, frontier: seq<Node>, u: Node)
    requires u in g && u in dist && Open(g, dist, {u} + Nodes(frontier)) && Queued(dist, frontier, dist[u])
    requires forall k :: 0 <= k < |g[u]| ==> g[u][k] in dist
    ensures Open(g, dist, Nodes(frontier))
  {
    assert forall v :: v in g[u] ==> v in dist;
    assert Expanded(g, dist, u);
  }

  // Following the parents of a known node gives a path of its distance.
  lemma {:induction false} ParentPath(g: Graph, s: Node, dist: map<Node, nat>, parent: map<Node, Node>, v: Node)
    returns (p: seq<Node>)
    requires ParentsStep(g, s, dist, parent) && v in dist
    ensures IsPath(g, p, s, v) && |p| == dist[v] + 1
    decreases dist[v]
  {
    if v == s {
      p := [s];
    } else {
      p := ParentPath(g, s, dist, parent, parent[v]);
      Extend(g, p, s, parent[v], v);
      p := p + [v];
    }
  }

  // When every known node is expanded, a path's k-th node is known within k steps.
  lemma {:induction false} PathIsKnown(g: Graph, s: Node, dist: map<Node, nat>, p: seq<Node>, t: Node, k: nat)
    requires s in dist && dist[s] == 0 && forall u :: u in dist ==> Expanded(g, dist, u)
    requires IsPath(g, p, s, t) && k < |p|
    ensures p[k] in dist && dist[p[k]] <= k
  {
    if k > 0 {
      PathIsKnown(g, s, dist, p, t, k - 1);
      assert Edge(g, p[k - 1], p[k]);
    }
  }

  lemma DistancesAreShortest(g: Graph, s: Node, dist: map<Node, nat>, parent: map<Node, Node>)
    requires ParentsStep(g, s, dist, parent) && forall u :: u in dist ==> Expanded(g, dist, u)
    ensures forall v :: v in dist <==> Reachable(g, s, v)
    ensures forall v :: v in dist ==> IsDistance(g, s, v, dist[v])
    ensures forall v :: Reachable(g, s, v) ==> v in g
  {
    forall v | v in dist ensures Reachable(g, s, v) && IsDistance(g, s, v, dist[v]) {
      var p := ParentPath(g, s, dist, parent, v);
      forall q | IsPath(g, q, s, v) ensures |q| >= dist[v] + 1 {
        PathIsKnown(g, s, dist, q, v, |q| - 1);
      }
    }
    forall v | Reachable(g, s, v) ensures v in dist && v in g {
      var p :| IsPath(g, p, s, v);
      PathIsKnown(g, s, dist, p, v, |p| - 1);
      assert Expanded(g, dist, v);
    }
  }

  function AllNodes(g: Graph, s: Node): set<Node> {
    {s} + g.Keys + set u, v | u in g && v in g[u] :: v
  }

  datatype Found = Found(distances: map<Node, nat>, parent: map<Node, Node>) | OutOfRange

  // The frontier loop: std::out_of_range exactly when a node without a key is reachable.
  method Search(g: Graph, s: Node) returns (r: Found)
    ensures r.Found? ==>
              ParentsStep(g, s, r.distances, r.parent)
              && forall u :: u in r.distances ==> Expanded(g, r.distances, u)
    ensures r.OutOfRange? ==> exists v :: Reachable(g, s, v) && v !in g
  {
    var dist: map<Node, nat>, parent: map<Node, Node>, frontier := map[s := 0], map[], [s];
    ghost var low := 0;
    while frontier != []
      invariant ParentsStep(g, s, dist, parent) && Queued(dist, frontier, low) && Open(g, dist, Nodes(frontier))
      decreases AllNodes(g, s) - dist.Keys, |frontier|
    {
      var current := frontier[0];
      PopQueued(g, dist, frontier, low);
      low := dist[current];
      if current !in g {
        var p := ParentPath(g, s, dist, parent, current);
        assert Reachable(g, s, current);
        return OutOfRange;
      }
      ghost var before, size := dist, |frontier|;
      dist, parent, frontier := Expand(g, s, current, dist, parent, frontier[1..]);
      Progress(g, s, current, before, dist);
    }
    return Found(dist, parent);
  }

  lemma PopQueued(g: Graph, dist: map<Node, nat>, frontier: seq<Node>, low: nat)
    requires frontier != [] && Queued(dist, frontier, low) && Open(g, dist, Nodes(frontier))
    ensures frontier[0] in dist && Queued(dist, frontier[1..], dist[frontier[0]])
    ensures Open(g, dist, {frontier[0]} + Nodes(frontier[1..]))
  {
    assert frontier == [frontier[0]] + frontier[1..];
  }

  // Either no node was added, and then the queue got shorter, or fewer are left to add.
  lemma Progress(g: Graph, s: Node, u: Node, before: map<Node, nat>, after: map<Node, nat>)
    requires u in g && before.Keys <= after.Keys <= before.Keys + Nodes(g[u])
    ensures before.Keys == after.Keys ==> |before| == |after|
    ensures before.Keys != after.Keys ==> AllNodes(g, s) - after.Keys < AllNodes(g, s) - before.Keys
  {
    assert |before| == |before.Keys| && |after| == |after.Keys|;
    if after.Keys - before.Keys == {} {
      NoDifference(after.Keys, before.Keys);
      assert after.Keys == before.Keys;
    } else {
      var v := SomeMember(after.Keys - before.Keys);
      assert v in AllNodes(g, s) - before.Keys;
    }
  }

  // ---- Path reconstruction -----------------------------------------------------------------------------

  function Reverse(p: seq<Node>): seq<Node> {
    if p == [] then [] else Reverse(p[1..]) + [p[0]]
  }

  // The nodes from v up to the source, v first.
  function UpFrom(s: Node, parent: map<Node, Node>, v: Node, steps: nat): seq<Node>
    decreases steps
  {
    if v == s || v !in parent || steps == 0 then [s] else [v] + UpFrom(s, parent, parent[v], steps - 1)
  }

  lemma {:induction false} ReverseAppend(a: seq<Node>, b: seq<Node>)
    ensures Reverse(a + b) == Reverse(b) + Reverse(a)
  {
    if a == [] {
      assert a + b == b;
    } else {
      assert (a + b)[1..] == a[1..] + b;
      ReverseAppend(a[1..], b);
    }
  }

  lemma {:induction false} UpFromIsPath(g: Graph, s: Node, dist: map<Node, nat>, parent: map<Node, Node>, v: Node)
    requires ParentsStep(g, s, dist, parent) && v in dist
    ensures var p := UpFrom(s, parent, v, dist[v]); |p| == dist[v] + 1 && IsPath(g, Reverse(p), s, v)
    decreases dist[v]
  {
    if v != s {
      var rest := UpFrom(s, parent, parent[v], dist[v] - 1);
      UpFromIsPath(g, s, dist, parent, parent[v]);
      Extend(g, Reverse(rest), s, parent[v], v);
      assert ([v] + rest)[1..] == rest;
    }
  }

  lemma OneUp(g: Graph, s: Node, dist: map<Node, nat>, parent: map<Node, Node>, v: Node)
    requires ParentsStep(g, s, dist, parent) && v in dist && v != s
    ensures v in parent && parent[v] in dist && dist[v] == dist[parent[v]] + 1
    ensures UpFrom(s, parent, v, dist[v]) == [v] + UpFrom(s, parent, parent[v], dist[parent[v]])
  {}

  lemma AtTheRoot(s: Node, parent: map<Node, Node>, steps: nat)
    ensures UpFrom(s, parent, s, steps) == [s]
  {}

  // The inner loop: it ends, and a missing parent never stops it early.
  method PathTo(g: Graph, s: Node, dist: map<Node, nat>, parent: map<Node, Node>, v: Node) returns (path: seq<Node>)
    requires ParentsStep(g, s, dist, parent) && v in dist
    ensures |path| == dist[v] + 1 && IsPath(g, Reverse(path), s, v)
  {
    hide IsPath, UpFrom, ParentsStep;
    path := [];
    var node := v;
    while node != s
      invariant node in dist
      invariant path + UpFrom(s, parent, node, dist[node]) == UpFrom(s, parent, v, dist[v])
      decreases dist[node]
    {
      OneUp(g, s, dist, parent, node);
      ghost var above := UpFrom(s, parent, parent[node], dist[parent[node]]);
      assert path + ([node] + above) == path + [node] + above;
      path := path + [node];
      if node !in parent { break; }
      node := parent[node];
    }
    assert UpFrom(s, parent, s, dist[s]) == [s] by { AtTheRoot(s, parent, dist[s]); }
    path := path + [s];
    UpFromIsPath(g, s, dist, parent, v);
  }

  datatype Result = Result(distances: map<Node, nat>, paths: map<Node, seq<Node>>) | Raised

  method Bfs(g: Graph, s: Node) returns (r: Result)
    ensures r.Raised? <==> exists v :: Reachable(g, s, v) && v !in g
    ensures r.Result? ==> forall v :: v in r.distances <==> Reachable(g, s, v)
    ensures r.Result? ==> forall v :: v in r.distances ==> IsDistance(g, s, v, r.distances[v])
    ensures r.Result? ==> forall v :: v in r.paths <==> v in r.distances
    ensures r.Result? ==> forall v :: v in r.paths ==>
              |r.paths[v]| == r.distances[v] + 1 && IsPath(g, Reverse(r.paths[v]), s, v)
  {
    var found := Search(g, s);
    if found.OutOfRange? { return Raised; }
    var dist, parent := found.distances, found.parent;
    DistancesAreShortest(g, s, dist, parent);
    var paths: map<Node, seq<Node>> := map[];
    var todo := dist.Keys;
    while todo != {}
      invariant todo <= dist.Keys
      invariant forall v :: v in paths <==> v in dist && v !in todo
      invariant forall v :: v in paths ==> |paths[v]| == dist[v] + 1 && IsPath(g, Reverse(paths[v]), s, v)
      decreases todo
    {
      var v :| v in todo;
      todo := todo - {v};
      var path := PathTo(g, s, dist, parent, v);
      paths := paths[v := path];
    }
    return Result(dist, paths);
  }
}
