// Reported clones placed in the graph, as the clone view of cdup/src/cli/cmds.py does:
// the clones of cdup/src/detect.py and the graph of cdup/src/dag.py over one forest.
module CloneGraph {
  import opened CloneRuns
  import opened CloneDetect
  import opened CloneSegments
  import M = Matrix
  import ML = MatrixLaws
  import D = Dag
  import DL = DagLaws
  import LP = LoopPhiLaws

  // The normalised text of statement k of a segment.
  type Norm = (M.Seg, nat) -> Key

  function Normed(s: M.Seg, norm: Norm): Segment {
    Segment(s.id, seq(|s.stmts|, k requires 0 <= k < |s.stmts| => norm(s, k)))
  }

  function AllNormed(segs: seq<M.Seg>, norm: Norm): seq<Segment> {
    seq(|segs|, i requires 0 <= i < |segs| => Normed(segs[i], norm))
  }

  // ---- The nodes of an occurrence --------------------------------------------------------

  // The nodes the map knows of statements from..end of a segment.
  function NodesOf(mapping: map<(int, nat), nat>, id: int, from: nat, end: nat): seq<nat>
    decreases end - from
  {
    if end <= from then []
    else NodesOf(mapping, id, from, end - 1) + if (id, end - 1) in mapping then [mapping[(id, end - 1)]] else []
  }

  method PlaceOccurrence(mapping: map<(int, nat), nat>, o: Occurrence) returns (ids: seq<nat>)
    ensures ids == NodesOf(mapping, o.seg, o.first, o.last + 1)
  {
    ids := [];
    for i := o.first to if o.first <= o.last then o.last + 1 else o.first
      invariant ids == NodesOf(mapping, o.seg, o.first, i)
    {
      if (o.seg, i) in mapping { ids := ids + [mapping[(o.seg, i)]]; }
    }
  }

  // Every statement of the stretch is known, so the nodes are theirs in turn.
  lemma {:induction false} NodesInTurn(mapping: map<(int, nat), nat>, id: int, from: nat, end: nat)
    requires from <= end && forall k: nat :: from <= k < end ==> (id, k) in mapping
    ensures var ids := NodesOf(mapping, id, from, end);
            |ids| == end - from && forall k: nat :: k < |ids| ==> ids[k] == mapping[(id, from + k)]
    decreases end - from
  {
    if from < end { NodesInTurn(mapping, id, from, end - 1); }
  }

  // ---- The graph's side ------------------------------------------------------------------

  // The map sends statement k of the segment to its own node.
  ghost predicate Mapped(nodes: seq<M.Row>, mapping: map<(int, nat), nat>, s: M.Seg) {
    forall k: nat :: k < |s.stmts| ==>
      (s.id, k) in mapping && mapping[(s.id, k)] < |nodes|
      && nodes[mapping[(s.id, k)]] == M.StmtRow(s.id, s.scope, s.stmts[k])
      && |ML.Of(nodes[..mapping[(s.id, k)]], s.id)| == k
  }

  lemma OfGrows(nodes: seq<M.Row>, a: nat, b: nat, id: int)
    requires a <= b <= |nodes|
    ensures |ML.Of(nodes[..a], id)| <= |ML.Of(nodes[..b], id)|
  {
    assert nodes[..b] == nodes[..a] + nodes[a..b];
    ML.OfAppend(nodes[..a], nodes[a..b], id);
  }

  lemma MappedInOrder(nodes: seq<M.Row>, mapping: map<(int, nat), nat>, s: M.Seg, j: nat, k: nat)
    requires Mapped(nodes, mapping, s) && j < k < |s.stmts|
    ensures (s.id, j) in mapping && (s.id, k) in mapping && mapping[(s.id, j)] < mapping[(s.id, k)]
  {
    if mapping[(s.id, k)] <= mapping[(s.id, j)] {
      OfGrows(nodes, mapping[(s.id, k)], mapping[(s.id, j)], s.id);
    }
  }

  // ---- Both sides -------------------------------------------------------------------------

  // Node v is that of statement i of segment s, whose normalised text is `key`.
  ghost predicate IsNode(nodes: seq<M.Row>, s: M.Seg, norm: Norm, i: nat, v: nat, key: Key) {
    i < |s.stmts| && v < |nodes| && nodes[v] == M.StmtRow(s.id, s.scope, s.stmts[i]) && norm(s, i) == key
  }

  // The nodes are those of consecutive statements of segment s, in order, from the
  // occurrence's first to its last, and their normalised texts spell the content.
  ghost predicate StandsAt(nodes: seq<M.Row>, s: M.Seg, norm: Norm, content: seq<Key>, o: Occurrence, ids: seq<nat>) {
    s.id == o.seg && o.last < |s.stmts| && |ids| == |content| == o.last - o.first + 1
    && (forall k: nat :: k < |ids| ==> IsNode(nodes, s, norm, o.first + k, ids[k], content[k]))
    && forall j, k :: 0 <= j < k < |ids| ==> ids[j] < ids[k]
  }

  // Position k of the stretch.
  lemma StretchNode(nodes: seq<M.Row>, mapping: map<(int, nat), nat>, s: M.Seg, norm: Norm, content: seq<Key>,
                    o: Occurrence, k: nat)
    requires Mapped(nodes, mapping, s) && s.id == o.seg && k < |content|
    requires |content| == o.last - o.first + 1 && o.last < |s.stmts|
    requires Normed(s, norm).stmts[o.first..o.last + 1] == content
    ensures (o.seg, o.first + k) in mapping
    ensures IsNode(nodes, s, norm, o.first + k, mapping[(o.seg, o.first + k)], content[k])
  {
    hide Mapped;
    MappedAt(nodes, mapping, s, o.first + k);
    assert Normed(s, norm).stmts[o.first..o.last + 1][k] == Normed(s, norm).stmts[o.first + k];
  }

  lemma StretchStands(nodes: seq<M.Row>, mapping: map<(int, nat), nat>, s: M.Seg, norm: Norm, content: seq<Key>,
                      o: Occurrence)
    requires Mapped(nodes, mapping, s) && s.id == o.seg
    requires |content| == o.last - o.first + 1 && o.last < |s.stmts|
    requires Normed(s, norm).stmts[o.first..o.last + 1] == content
    ensures StandsAt(nodes, s, norm, content, o, NodesOf(mapping, o.seg, o.first, o.last + 1))
  {
    hide Mapped, NodesOf, Normed, IsNode;
    var from, end := o.first, o.last + 1;
    assert from <= end;
    forall k: nat | from <= k < end ensures (o.seg, k) in mapping {
      StretchNode(nodes, mapping, s, norm, content, o, k - from);
    }
    NodesInTurn(mapping, o.seg, from, end);
    var ids := NodesOf(mapping, o.seg, from, end);
    forall k: nat | k < |ids| ensures IsNode(nodes, s, norm, o.first + k, ids[k], content[k]) {
      StretchNode(nodes, mapping, s, norm, content, o, k);
    }
    forall j, k | 0 <= j < k < |ids| ensures ids[j] < ids[k] {
      MappedInOrder(nodes, mapping, s, from + j, from + k);
    }
  }

  lemma MappedAt(nodes: seq<M.Row>, mapping: map<(int, nat), nat>, s: M.Seg, k: nat)
    requires Mapped(nodes, mapping, s) && k < |s.stmts|
    ensures (s.id, k) in mapping && mapping[(s.id, k)] < |nodes|
    ensures nodes[mapping[(s.id, k)]] == M.StmtRow(s.id, s.scope, s.stmts[k])
  {}

  // Every occurrence of a class has all its nodes in the graph.
  lemma OccurrenceStands(nodes: seq<M.Row>, mapping: map<(int, nat), nat>, segs: seq<M.Seg>, norm: Norm, maxFreq: int,
                         t: Twin, content: seq<Key>, o: Occurrence)
    requires forall s :: s in segs ==> Mapped(nodes, mapping, s)
    requires Shows(AllNormed(segs, norm), maxFreq, t, content, o)
    ensures 0 <= t.i < |segs|
    ensures StandsAt(nodes, segs[t.i], norm, content, o, NodesOf(mapping, o.seg, o.first, o.last + 1))
  {
    hide Mapped, StandsAt, NodesOf, Repeats, Longest;
    LongestFits(AllNormed(segs, norm), maxFreq, t);
    StretchStands(nodes, mapping, segs[t.i], norm, content, o);
  }

  // ---- What recurs ---------------------------------------------------------------------------

  // How often a text occurs among the first n statements of a segment, and in all segments.
  function UsesIn(s: M.Seg, norm: Norm, key: Key, n: nat): nat {
    if n == 0 then 0 else UsesIn(s, norm, key, n - 1) + if norm(s, n - 1) == key then 1 else 0
  }

  function Uses(segs: seq<M.Seg>, norm: Norm, key: Key): nat {
    if segs == [] then 0
    else
      var m := |segs| - 1;
      Uses(segs[..m], norm, key) + UsesIn(segs[m], norm, key, |segs[m].stmts|)
  }

  // Statements a of segs[i] and b of segs[j] have one text, and it is not too frequent.
  predicate OneText(segs: seq<M.Seg>, norm: Norm, maxFreq: int, i: int, a: int, j: int, b: int) {
    0 <= i < |segs| && 0 <= a < |segs[i].stmts| && 0 <= j < |segs| && 0 <= b < |segs[j].stmts|
    && norm(segs[i], a) == norm(segs[j], b) && (maxFreq > 0 ==> Uses(segs, norm, norm(segs[i], a)) <= maxFreq)
  }

  predicate OneTextAt(segs: seq<M.Seg>, norm: Norm, maxFreq: int, t: Twin, k: int) {
    OneText(segs, norm, maxFreq, t.i, t.a + k, t.j, t.b + k)
  }

  // The two stretches of t stand at different places and say the same.
  ghost predicate Recurs(segs: seq<M.Seg>, norm: Norm, maxFreq: int, t: Twin) {
    t.len >= 1 && (t.i, t.a) != (t.j, t.b) && forall k :: 0 <= k < t.len ==> OneTextAt(segs, norm, maxFreq, t, k)
  }

  lemma {:induction false} UsesInIsCount(s: M.Seg, norm: Norm, key: Key, n: nat)
    requires n <= |s.stmts|
    ensures UsesIn(s, norm, key, n) == multiset(Normed(s, norm).stmts[..n])[key]
  {
    if n > 0 {
      UsesInIsCount(s, norm, key, n - 1);
      assert Normed(s, norm).stmts[..n] == Normed(s, norm).stmts[..n - 1] + [norm(s, n - 1)];
    }
  }

  lemma {:induction false} UsesIsFrequency(segs: seq<M.Seg>, norm: Norm, key: Key)
    ensures Uses(segs, norm, key) == Frequency(AllNormed(segs, norm), key)
  {
    if segs != [] {
      var m := |segs| - 1;
      UsesIsFrequency(segs[..m], norm, key);
      UsesInIsCount(segs[m], norm, key, |segs[m].stmts|);
      assert AllNormed(segs, norm)[..m] == AllNormed(segs[..m], norm);
      assert Normed(segs[m], norm).stmts[..|segs[m].stmts|] == Normed(segs[m], norm).stmts;
    }
  }

  lemma OneTextIsSame(segs: seq<M.Seg>, norm: Norm, maxFreq: int, t: Twin, k: int)
    requires OneTextAt(segs, norm, maxFreq, t, k)
    ensures SameAt(AllNormed(segs, norm), maxFreq, t, k)
  {
    hide Uses, Frequency;
    UsesIsFrequency(segs, norm, norm(segs[t.i], t.a + k));
  }

  lemma RecursIsRepeats(segs: seq<M.Seg>, norm: Norm, maxFreq: int, t: Twin)
    requires Recurs(segs, norm, maxFreq, t)
    ensures Repeats(AllNormed(segs, norm), maxFreq, t)
    ensures 0 <= t.i < |segs| && 0 <= t.j < |segs|
  {
    hide SameAt;
    assert OneTextAt(segs, norm, maxFreq, t, 0) && OneTextAt(segs, norm, maxFreq, t, t.len - 1);
    forall k | 0 <= k < t.len ensures SameAt(AllNormed(segs, norm), maxFreq, t, k) {
      OneTextIsSame(segs, norm, maxFreq, t, k);
    }
  }

  // Two occurrences stand on as many nodes each, of statements equal one by one.
  ghost predicate Twins(nodes: seq<M.Row>, segs: seq<M.Seg>, norm: Norm, o: Occurrence, ids: seq<nat>, o': Occurrence,
                        ids': seq<nat>)
  {
    |ids| == |ids'|
    && exists s, s' ::
         s in segs && s' in segs
         && forall k: nat :: k < |ids| ==> SameText(nodes, norm, s, o.first + k, ids[k], s', o'.first + k, ids'[k])
  }

  ghost predicate SameText(nodes: seq<M.Row>, norm: Norm, s: M.Seg, i: nat, v: nat, s': M.Seg, i': nat, v': nat) {
    exists key :: IsNode(nodes, s, norm, i, v, key) && IsNode(nodes, s', norm, i', v', key)
  }

  lemma SameContentTwins(nodes: seq<M.Row>, segs: seq<M.Seg>, norm: Norm, content: seq<Key>, s: M.Seg, o: Occurrence,
                         ids: seq<nat>, s': M.Seg, o': Occurrence, ids': seq<nat>)
    requires s in segs && StandsAt(nodes, s, norm, content, o, ids)
    requires s' in segs && StandsAt(nodes, s', norm, content, o', ids')
    ensures Twins(nodes, segs, norm, o, ids, o', ids')
  {
    hide IsNode;
    forall k: nat | k < |ids|
      ensures SameText(nodes, norm, s, o.first + k, ids[k], s', o'.first + k, ids'[k])
    {
      assert IsNode(nodes, s, norm, o.first + k, ids[k], content[k]);
      assert IsNode(nodes, s', norm, o'.first + k, ids'[k], content[k]);
    }
  }

  // ---- The clone view ----------------------------------------------------------------------

  type Classes = map<seq<Key>, set<Occurrence>>

  // Where each occurrence of each class stands.
  ghost predicate Places(classes: Classes, mapping: map<(int, nat), nat>,
                         placed: map<(seq<Key>, Occurrence), seq<nat>>)
  {
    (forall c, o :: (c, o) in placed <==> In(classes, c, o))
    && forall c, o :: (c, o) in placed ==> placed[(c, o)] == NodesOf(mapping, o.seg, o.first, o.last + 1)
  }

  // The loops over the classes and over the occurrences of each.
  method PlaceClones(classes: Classes, mapping: map<(int, nat), nat>)
    returns (placed: map<(seq<Key>, Occurrence), seq<nat>>)
    ensures Places(classes, mapping, placed)
  {
    hide NodesOf;
    placed := map[];
    var todo := classes.Keys;
    while todo != {}
      invariant todo <= classes.Keys
      invariant forall c, o :: (c, o) in placed <==> c !in todo && In(classes, c, o)
      invariant forall c, o :: (c, o) in placed ==> placed[(c, o)] == NodesOf(mapping, o.seg, o.first, o.last + 1)
      decreases todo
    {
      var c :| c in todo;
      todo := todo - {c};
      var left := classes[c];
      while left != {}
        invariant left <= classes[c]
        invariant forall d, o :: (d, o) in placed <==> d !in todo && In(classes, d, o) && (d == c ==> o !in left)
        invariant forall d, o :: (d, o) in placed ==> placed[(d, o)] == NodesOf(mapping, o.seg, o.first, o.last + 1)
        decreases left
      {
        var o :| o in left;
        left := left - {o};
        var ids := PlaceOccurrence(mapping, o);
        placed := placed[(c, o) := ids];
      }
    }
  }

  type Placed = map<(seq<Key>, Occurrence), seq<nat>>

  // Some class places occurrences that contain both stretches.
  ghost predicate PlacesBoth(placed: Placed, segs: seq<M.Seg>, t: Twin) {
    0 <= t.i < |segs| && 0 <= t.j < |segs|
    && exists c, o, o' :: (c, o) in placed && (c, o') in placed
                          && Covers(o, segs[t.i].id, t.a, t.len) && Covers(o', segs[t.j].id, t.b, t.len)
  }

  // Over one forest, every reported occurrence of every class stands on nodes of its own
  // segment's statements, in order and none missing, and they spell the content of the
  // class: so any two occurrences of a class stand on nodes of equal statements.  And
  // every stretch that recurs lies in occurrences of one class.
  method LocateClones(roots: seq<M.Seg>, n: nat, entries: seq<M.Row>, segs: seq<M.Seg>, norm: Norm, minLength: int,
                      maxFreq: int)
    returns (nodes: seq<M.Row>, classes: Classes, placed: Placed)
    requires forall r :: r in roots ==> LP.Formed(r, n)
    requires ML.DistinctForest(roots) && forall e :: e in entries ==> e.Entry?
    requires forall s :: s in segs ==> ML.InForest(s, roots)
    ensures nodes == D.Woven(M.MatrixRows(roots, n), entries, 0)
    ensures HoldsLongest(classes, AllNormed(segs, norm), maxFreq, minLength)
    ensures forall c, o :: (c, o) in placed <==> In(classes, c, o)
    ensures forall c, o :: (c, o) in placed ==> exists s :: s in segs && StandsAt(nodes, s, norm, c, o, placed[(c, o)])
    ensures forall c, o, o' :: (c, o) in placed && (c, o') in placed ==>
              Twins(nodes, segs, norm, o, placed[(c, o)], o', placed[(c, o')])
    ensures forall t :: Recurs(segs, norm, maxFreq, t) && t.len >= minLength ==> PlacesBoth(placed, segs, t)
  {
    hide Mapped, StandsAt, NodesOf, In, AllNormed, Twins, Shows, Recurs, PlacesBoth, Covers;
    var edges, mapping;
    nodes, edges, mapping := DL.BuildGraph(roots, n, entries);
    forall s | s in segs ensures Mapped(nodes, mapping, s) { ForestIsMapped(nodes, mapping, s); }
    classes := DetectClones(AllNormed(segs, norm), minLength, maxFreq);
    placed := PlaceClones(classes, mapping);
    forall c, o | (c, o) in placed
      ensures exists s :: s in segs && StandsAt(nodes, s, norm, c, o, placed[(c, o)])
    {
      var t :| Shows(AllNormed(segs, norm), maxFreq, t, c, o) && t.len >= minLength;
      OccurrenceStands(nodes, mapping, segs, norm, maxFreq, t, c, o);
    }
    forall c, o, o' | (c, o) in placed && (c, o') in placed
      ensures Twins(nodes, segs, norm, o, placed[(c, o)], o', placed[(c, o')])
    {
      var s :| s in segs && StandsAt(nodes, s, norm, c, o, placed[(c, o)]);
      var s' :| s' in segs && StandsAt(nodes, s', norm, c, o', placed[(c, o')]);
      SameContentTwins(nodes, segs, norm, c, s, o, placed[(c, o)], s', o', placed[(c, o')]);
    }
    forall t | Recurs(segs, norm, maxFreq, t) && t.len >= minLength ensures PlacesBoth(placed, segs, t) {
      RecursIsPlaced(classes, placed, segs, norm, maxFreq, minLength, t);
    }
  }

  lemma RecursIsPlaced(classes: Classes, placed: Placed, segs: seq<M.Seg>, norm: Norm, maxFreq: int, minLength: int,
                       t: Twin)
    requires HoldsLongest(classes, AllNormed(segs, norm), maxFreq, minLength)
    requires forall c, o :: (c, o) in placed <==> In(classes, c, o)
    requires Recurs(segs, norm, maxFreq, t) && t.len >= minLength
    ensures PlacesBoth(placed, segs, t)
  {
    hide Repeats, Covers, In, HoldsLongest;
    RecursIsRepeats(segs, norm, maxFreq, t);
    assert t.len >= 1;
    RepetitionsAreReported(classes, AllNormed(segs, norm), maxFreq, minLength, t);
    var c, o, o' :| In(classes, c, o) && In(classes, c, o')
                    && Covers(o, AllNormed(segs, norm)[t.i].id, t.a, t.len)
                    && Covers(o', AllNormed(segs, norm)[t.j].id, t.b, t.len);
    assert (c, o) in placed && (c, o') in placed;
  }

  lemma ForestIsMapped(nodes: seq<M.Row>, mapping: map<(int, nat), nat>, s: M.Seg)
    requires forall k: nat :: k < |s.stmts| ==>
               (s.id, k) in mapping && mapping[(s.id, k)] < |nodes|
               && nodes[mapping[(s.id, k)]] == M.StmtRow(s.id, s.scope, s.stmts[k])
               && |ML.Of(nodes[..mapping[(s.id, k)]], s.id)| == k
    ensures Mapped(nodes, mapping, s)
  {}
}
