// Graph construction of cdup/src/dag.py, and the statement-to-node map of
// cdup/src/cli/cmds.py.
module Dag {
  import opened Wrappers
  import opened Matrix
  import opened MatrixLaws
  import opened LoopPhiLaws

  // ---- Entry nodes -------------------------------------------------------------------

  // Rows that name a segment; join phis name none.
  predicate NamesSegment(r: Row, id: int) {
    !r.JoinPhi? && r.segId == id
  }

  // Index of the first row that names a segment, or the end.
  function FirstRow(rows: seq<Row>, id: int): (k: nat)
    ensures k <= |rows|
    ensures k < |rows| ==> NamesSegment(rows[k], id)
    ensures forall j :: 0 <= j < k ==> !NamesSegment(rows[j], id)
  {
    if rows == [] || NamesSegment(rows[0], id) then 0 else 1 + FirstRow(rows[1..], id)
  }

  // The entry nodes that belong before row k, a later segment's first.
  function EntriesAt(rows: seq<Row>, entries: seq<Row>, k: nat): seq<Row>
    requires forall e :: e in entries ==> e.Entry?
  {
    if entries == [] then []
    else
      var e := entries[|entries| - 1];
      (if FirstRow(rows, e.segId) == k then [e] else []) + EntriesAt(rows, entries[..|entries| - 1], k)
  }

  // The rows from k on with every entry node directly before the first row of its
  // segment; the entries of segments without rows come last.
  function Woven(rows: seq<Row>, entries: seq<Row>, k: nat): seq<Row>
    requires k <= |rows| && forall e :: e in entries ==> e.Entry?
    decreases |rows| - k
  {
    EntriesAt(rows, entries, k) + if k == |rows| then [] else [rows[k]] + Woven(rows, entries, k + 1)
  }

  // ---- The insertion loop --------------------------------------------------------------

  datatype Insertion = Insertion(at: nat, entry: Row)

  // A stable sort by position, largest first, inserts each item after its equals.
  function Sink(sorted: seq<Insertion>, x: Insertion): seq<Insertion> {
    if sorted == [] || sorted[0].at < x.at then [x] + sorted else [sorted[0]] + Sink(sorted[1..], x)
  }

  predicate Descending(xs: seq<Insertion>) {
    forall i, j :: 0 <= i < j < |xs| ==> xs[i].at >= xs[j].at
  }

  // What a list of insertions puts before row k: each is inserted before the earlier ones.
  function TodoAt(todo: seq<Insertion>, k: nat): seq<Row> {
    if todo == [] then [] else TodoAt(todo[1..], k) + if todo[0].at == k then [todo[0].entry] else []
  }

  function TodoWoven(rows: seq<Row>, todo: seq<Insertion>, k: nat): seq<Row>
    requires k <= |rows|
    decreases |rows| - k
  {
    TodoAt(todo, k) + if k == |rows| then [] else [rows[k]] + TodoWoven(rows, todo, k + 1)
  }

  lemma {:induction false} NothingAt(todo: seq<Insertion>, k: nat)
    requires forall y :: y in todo ==> y.at != k
    ensures TodoAt(todo, k) == []
  {
    if todo != [] { NothingAt(todo[1..], k); }
  }

  // So it is the first of its equals to stand before their row.
  lemma {:induction false} SinkPlaces(sorted: seq<Insertion>, x: Insertion, k: nat)
    requires Descending(sorted)
    ensures TodoAt(Sink(sorted, x), k) == (if x.at == k then [x.entry] else []) + TodoAt(sorted, k)
  {
    if sorted == [] || sorted[0].at < x.at {
      assert ([x] + sorted)[1..] == sorted;
      if x.at == k { NothingAt(sorted, k); }
    } else {
      SinkPlaces(sorted[1..], x, k);
      assert Sink(sorted, x)[1..] == Sink(sorted[1..], x);
    }
  }

  lemma {:induction false} SinkMembers(sorted: seq<Insertion>, x: Insertion)
    ensures |Sink(sorted, x)| == |sorted| + 1
    ensures forall y :: y in Sink(sorted, x) <==> y in sorted || y == x
  {
    if sorted != [] && sorted[0].at >= x.at {
      SinkMembers(sorted[1..], x);
      assert sorted == [sorted[0]] + sorted[1..];
    }
  }

  lemma {:induction false} SinkSorts(sorted: seq<Insertion>, x: Insertion)
    requires Descending(sorted)
    ensures Descending(Sink(sorted, x)) && |Sink(sorted, x)| == |sorted| + 1
    ensures forall y :: y in Sink(sorted, x) <==> y in sorted || y == x
  {
    SinkMembers(sorted, x);
    if sorted != [] && sorted[0].at >= x.at {
      var rest := Sink(sorted[1..], x);
      SinkSorts(sorted[1..], x);
      SinkMembers(sorted[1..], x);
      DescendingFrom(sorted, x, rest);
    }
  }

  lemma DescendingFrom(sorted: seq<Insertion>, x: Insertion, rest: seq<Insertion>)
    requires Descending(sorted) && Descending(rest) && sorted != [] && sorted[0].at >= x.at
    requires forall y :: y in rest ==> y in sorted[1..] || y == x
    ensures Descending([sorted[0]] + rest)
  {
    var r := [sorted[0]] + rest;
    forall j | 0 < j < |r| ensures r[0].at >= r[j].at {
      assert r[j] == rest[j - 1] && rest[j - 1] in rest;
    }
  }

  // The first row of each segment.
  method FirstRows(rows: seq<Row>) returns (first: map<int, nat>)
    ensures forall id :: (if id in first then first[id] else |rows|) == FirstRow(rows, id)
  {
    first := map[];
    for i := 0 to |rows|
      invariant forall id :: id in first ==> first[id] < i && NamesSegment(rows[first[id]], id)
      invariant forall id, j :: 0 <= j < i && NamesSegment(rows[j], id) ==> id in first && first[id] <= j
    {
      if !rows[i].JoinPhi? && rows[i].segId !in first {
        first := first[rows[i].segId := i];
      }
    }
    forall id ensures (if id in first then first[id] else |rows|) == FirstRow(rows, id) {
      var k := FirstRow(rows, id);
      if k < |rows| { assert NamesSegment(rows[k], id); }
    }
  }

  // The sorted insertions put the same entries before every row as the list asks for.
  ghost predicate Plans(todo: seq<Insertion>, rows: seq<Row>, entries: seq<Row>)
    requires forall e :: e in entries ==> e.Entry?
  {
    Descending(todo) && |todo| == |entries| && (forall x :: x in todo ==> x.at <= |rows|)
    && forall k :: TodoAt(todo, k) == EntriesAt(rows, entries, k)
  }

  lemma PlansOneMore(todo: seq<Insertion>, rows: seq<Row>, entries: seq<Row>, n: nat)
    requires n < |entries| && (forall e :: e in entries ==> e.Entry?) && Plans(todo, rows, entries[..n])
    ensures Plans(Sink(todo, Insertion(FirstRow(rows, entries[n].segId), entries[n])), rows, entries[..n + 1])
  {
    hide Descending, Sink, TodoAt;
    var x := Insertion(FirstRow(rows, entries[n].segId), entries[n]);
    assert entries[..n + 1][..n] == entries[..n];
    forall k: nat ensures TodoAt(Sink(todo, x), k) == EntriesAt(rows, entries[..n + 1], k) {
      SinkPlaces(todo, x, k);
    }
    SinkSorts(todo, x);
  }

  method PlanEntries(rows: seq<Row>, entries: seq<Row>) returns (todo: seq<Insertion>)
    requires forall e :: e in entries ==> e.Entry?
    ensures Plans(todo, rows, entries)
  {
    hide Plans;
    var first := FirstRows(rows);
    todo := [];
    assert Plans(todo, rows, entries[..0]) by { NothingPlanned(rows, entries); }
    for n := 0 to |entries|
      invariant Plans(todo, rows, entries[..n])
    {
      var e := entries[n];
      PlansOneMore(todo, rows, entries, n);
      todo := Sink(todo, Insertion(if e.segId in first then first[e.segId] else |rows|, e));
    }
    assert entries[..|entries|] == entries;
  }

  lemma NothingPlanned(rows: seq<Row>, entries: seq<Row>)
    requires forall e :: e in entries ==> e.Entry?
    ensures Plans([], rows, entries[..0])
  {}

  // No insertion yet below `low`: the rows up to there are still as they were.
  lemma {:induction false} StillPlain(rows: seq<Row>, todo: seq<Insertion>, k: nat, low: nat)
    requires k <= low <= |rows| && forall y :: y in todo ==> y.at >= low
    ensures TodoWoven(rows, todo, k) == rows[k..low] + TodoWoven(rows, todo, low)
    decreases low - k
  {
    hide TodoAt, TodoWoven;
    if k < low {
      NothingAt(todo, k);
      TodoWovenIs(rows, todo, k);
      StillPlain(rows, todo, k + 1, low);
      assert rows[k..low] == [rows[k]] + rows[k + 1..low];
    }
  }

  lemma TodoWovenIs(rows: seq<Row>, todo: seq<Insertion>, k: nat)
    requires k <= |rows|
    ensures TodoWoven(rows, todo, k)
            == TodoAt(todo, k) + if k == |rows| then [] else [rows[k]] + TodoWoven(rows, todo, k + 1)
  {}

  lemma {:induction false} TodoAtMore(todo: seq<Insertion>, x: Insertion, k: nat)
    ensures TodoAt(todo + [x], k) == (if x.at == k then [x.entry] else []) + TodoAt(todo, k)
  {
    if todo == [] {
      assert (todo + [x])[1..] == [];
    } else {
      assert (todo + [x])[1..] == todo[1..] + [x];
      TodoAtMore(todo[1..], x, k);
    }
  }

  lemma {:induction false} AboveIsKept(rows: seq<Row>, todo: seq<Insertion>, x: Insertion, k: nat)
    requires x.at < k <= |rows|
    ensures TodoWoven(rows, todo + [x], k) == TodoWoven(rows, todo, k)
    decreases |rows| - k
  {
    TodoAtMore(todo, x, k);
    if k < |rows| { AboveIsKept(rows, todo, x, k + 1); }
  }

  // One insertion, at or below the lowest so far.
  lemma InsertionWeaves(rows: seq<Row>, todo: seq<Insertion>, x: Insertion, low: nat)
    requires x.at <= low <= |rows| && forall y :: y in todo ==> y.at >= low
    ensures var nodes := rows[..low] + TodoWoven(rows, todo, low);
            nodes[..x.at] + [x.entry] + nodes[x.at..] == rows[..x.at] + TodoWoven(rows, todo + [x], x.at)
  {
    hide TodoWoven, TodoAt;
    var nodes := rows[..low] + TodoWoven(rows, todo, low);
    StillPlain(rows, todo, x.at, low);
    assert nodes[..x.at] == rows[..x.at];
    assert nodes[x.at..] == rows[x.at..low] + TodoWoven(rows, todo, low);
    assert TodoWoven(rows, todo + [x], x.at) == [x.entry] + TodoWoven(rows, todo, x.at) by {
      TodoWovenAt(rows, todo, x);
    }
  }

  lemma TodoWovenAt(rows: seq<Row>, todo: seq<Insertion>, x: Insertion)
    requires x.at <= |rows|
    ensures TodoWoven(rows, todo + [x], x.at) == [x.entry] + TodoWoven(rows, todo, x.at)
  {
    hide TodoAt, TodoWoven;
    TodoAtMore(todo, x, x.at);
    TodoWovenIs(rows, todo, x.at);
    TodoWovenIs(rows, todo + [x], x.at);
    if x.at < |rows| { AboveIsKept(rows, todo, x, x.at + 1); }
  }

  lemma {:induction false} PlanIsWoven(rows: seq<Row>, entries: seq<Row>, todo: seq<Insertion>, k: nat)
    requires k <= |rows| && (forall e :: e in entries ==> e.Entry?) && Plans(todo, rows, entries)
    ensures TodoWoven(rows, todo, k) == Woven(rows, entries, k)
    decreases |rows| - k
  {
    hide Descending, EntriesAt, TodoAt, TodoWoven, FirstRow;
    TodoWovenIs(rows, todo, k);
    WovenIs(rows, entries, k);
    if k < |rows| { PlanIsWoven(rows, entries, todo, k + 1); }
  }

  // Entry nodes are put in by position, last first.
  method InjectEntries(rows: seq<Row>, entries: seq<Row>) returns (nodes: seq<Row>)
    requires forall e :: e in entries ==> e.Entry?
    ensures nodes == Woven(rows, entries, 0) && |nodes| == |rows| + |entries|
  {
    hide TodoWoven, TodoAt, Woven, EntriesAt, FirstRow, Descending;
    var todo := PlanEntries(rows, entries);
    nodes := rows;
    ghost var low: nat := |rows|;
    assert rows[..|rows|] == rows && TodoWoven(rows, todo[..0], |rows|) == [] by { NothingWoven(rows, todo); }
    for j := 0 to |todo|
      invariant low == if j == 0 then |rows| else todo[j - 1].at
      invariant low <= |rows| && forall y :: y in todo[..j] ==> y.at >= low
      invariant nodes == rows[..low] + TodoWoven(rows, todo[..j], low) && |nodes| == |rows| + j
    {
      var x := todo[j];
      assert x in todo;
      NextIsLower(todo, j, low);
      assert todo[..j + 1] == todo[..j] + [x];
      InsertionWeaves(rows, todo[..j], x, low);
      nodes := nodes[..x.at] + [x.entry] + nodes[x.at..];
      low := x.at;
    }
    assert todo[..|todo|] == todo;
    StillPlain(rows, todo, 0, low);
    PlanIsWoven(rows, entries, todo, 0);
  }

  lemma NextIsLower(todo: seq<Insertion>, j: nat, low: nat)
    requires Descending(todo) && j < |todo| && if j == 0 then todo[0].at <= low else low == todo[j - 1].at
    ensures todo[j].at <= low && forall y :: y in todo[..j + 1] ==> y.at >= todo[j].at
  {}

  lemma NothingWoven(rows: seq<Row>, todo: seq<Insertion>)
    ensures TodoWoven(rows, todo[..0], |rows|) == []
  {}

  // ---- What weaving keeps ---------------------------------------------------------------

  // The rows that are no entry nodes.
  function Plain(rows: seq<Row>): seq<Row> {
    if rows == [] then [] else (if rows[0].Entry? then [] else [rows[0]]) + Plain(rows[1..])
  }

  lemma {:induction false} PlainAppend(a: seq<Row>, b: seq<Row>)
    ensures Plain(a + b) == Plain(a) + Plain(b)
  {
    if a == [] {
      assert a + b == b;
    } else {
      assert (a + b)[1..] == a[1..] + b;
      PlainAppend(a[1..], b);
    }
  }

  lemma {:induction false} EntriesAreEntries(rows: seq<Row>, entries: seq<Row>, k: nat)
    requires forall e :: e in entries ==> e.Entry?
    ensures forall e :: e in EntriesAt(rows, entries, k) <==> e in entries && FirstRow(rows, e.segId) == k
    ensures Plain(EntriesAt(rows, entries, k)) == []
  {
    hide FirstRow;
    if entries != [] {
      var m := |entries| - 1;
      EntriesAreEntries(rows, entries[..m], k);
      assert entries == entries[..m] + [entries[m]];
      PlainAppend(if FirstRow(rows, entries[m].segId) == k then [entries[m]] else [], EntriesAt(rows, entries[..m], k));
    }
  }

  // Weaving keeps every other row, and each segment's statements, in order.
  lemma {:induction false} WovenKeepsRows(rows: seq<Row>, entries: seq<Row>, k: nat, id: int)
    requires k <= |rows| && forall e :: e in entries ==> e.Entry?
    ensures Plain(Woven(rows, entries, k)) == Plain(rows[k..])
    ensures Of(Woven(rows, entries, k), id) == Of(rows[k..], id)
    decreases |rows| - k
  {
    hide Plain, Of, EntriesAt;
    var es := EntriesAt(rows, entries, k);
    EntriesAreEntries(rows, entries, k);
    OfNone(es, id);
    if k == |rows| {
      assert Woven(rows, entries, k) == es && rows[k..] == [];
      assert Plain([]) == [] && Of([], id) == [] by { NothingKept(id); }
    } else {
      var rest := Woven(rows, entries, k + 1);
      WovenKeepsRows(rows, entries, k + 1, id);
      PlainAppend(es, [rows[k]] + rest);
      PlainAppend([rows[k]], rest);
      PlainAppend([rows[k]], rows[k + 1..]);
      OfAppend(es, [rows[k]] + rest, id);
      OfAppend([rows[k]], rest, id);
      OfAppend([rows[k]], rows[k + 1..], id);
      assert rows[k..] == [rows[k]] + rows[k + 1..];
    }
  }

  lemma NothingKept(id: int)
    ensures Plain([]) == [] && Of([], id) == []
  {}

  lemma WovenIs(rows: seq<Row>, entries: seq<Row>, k: nat)
    requires k <= |rows| && forall e :: e in entries ==> e.Entry?
    ensures Woven(rows, entries, k)
            == EntriesAt(rows, entries, k) + if k == |rows| then [] else [rows[k]] + Woven(rows, entries, k + 1)
  {}

  lemma {:induction false} WovenHolds(rows: seq<Row>, entries: seq<Row>, k: nat, j: nat)
    requires k <= j <= |rows| && forall e :: e in entries ==> e.Entry?
    ensures j < |rows| ==> rows[j] in Woven(rows, entries, k)
    ensures forall e :: e in entries && FirstRow(rows, e.segId) == j ==> e in Woven(rows, entries, k)
    decreases j - k
  {
    hide EntriesAt, FirstRow;
    EntriesAreEntries(rows, entries, k);
    WovenIs(rows, entries, k);
    if k < j { WovenHolds(rows, entries, k + 1, j); }
  }

  lemma {:induction false} WovenIsCovered(rows: seq<Row>, entries: seq<Row>, k: nat)
    requires k <= |rows| && Covered(rows) && forall e :: e in entries ==> e.Entry?
    ensures Covered(Woven(rows, entries, k))
    decreases |rows| - k
  {
    hide EntriesAt, FirstRow, Covered;
    var es := EntriesAt(rows, entries, k);
    EntriesAreCovered(rows, entries, k);
    WovenIs(rows, entries, k);
    if k < |rows| {
      var rest := Woven(rows, entries, k + 1);
      WovenIsCovered(rows, entries, k + 1);
      RowIsCovered(rows, entries, k);
      CoveredAppend(es, [rows[k]] + rest);
    } else {
      assert es + [] == es;
    }
  }

  lemma EntriesAreCovered(rows: seq<Row>, entries: seq<Row>, k: nat)
    requires forall e :: e in entries ==> e.Entry?
    ensures Covered(EntriesAt(rows, entries, k))
  {
    hide FirstRow;
    var es := EntriesAt(rows, entries, k);
    EntriesAreEntries(rows, entries, k);
    forall i | 0 <= i < |es| ensures es[i].Entry? {
      assert es[i] in es;
    }
  }

  lemma RowIsCovered(rows: seq<Row>, entries: seq<Row>, k: nat)
    requires k < |rows| && Covered(rows) && forall e :: e in entries ==> e.Entry?
    requires Covered(Woven(rows, entries, k + 1))
    ensures Covered([rows[k]] + Woven(rows, entries, k + 1))
  {
    hide EntriesAt, FirstRow, Woven;
    var rest := Woven(rows, entries, k + 1);
    if rows[k].LoopPhi? {
      var j :| k < j < |rows| && Rewrites(rows[j], rows[k]);
      WovenHolds(rows, entries, k + 1, j);
      var w :| 0 <= w < |rest| && rest[w] == rows[j];
      PhisThenRest([rows[k]], rest);
    } else {
      assert Covered([rows[k]]);
      CoveredAppend([rows[k]], rest);
    }
  }

  // Entry w, then entries only, then a row of its segment.
  ghost predicate HeadsSegment(nodes: seq<Row>, w: nat)
    requires w < |nodes| && nodes[w].Entry?
  {
    exists f :: w < f < |nodes| && !nodes[f].Entry? && NamesSegment(nodes[f], nodes[w].segId)
                && forall j :: w < j < f ==> nodes[j].Entry?
  }

  // No row of its segment comes before entry w, and it heads them; or the segment has no
  // rows and the entry is among the last nodes.
  ghost predicate StandsFirst(nodes: seq<Row>, w: nat)
    requires w < |nodes| && nodes[w].Entry?
  {
    (forall j :: 0 <= j < w && !nodes[j].Entry? ==> !NamesSegment(nodes[j], nodes[w].segId))
    && (HeadsSegment(nodes, w) || forall j :: w < j < |nodes| ==> nodes[j].Entry?)
  }

  predicate NoEntries(rows: seq<Row>) { forall i :: 0 <= i < |rows| ==> !rows[i].Entry? }

  // An entry node stands before the first row of its segment with only entry nodes in
  // between; the entry of a segment without rows is among the last nodes.
  lemma {:induction false} EntryStands(rows: seq<Row>, entries: seq<Row>, k: nat, w: nat)
    requires k <= |rows| && NoEntries(rows) && forall e :: e in entries ==> e.Entry?
    requires w < |Woven(rows, entries, k)| && Woven(rows, entries, k)[w].Entry?
    ensures var nodes, id := Woven(rows, entries, k), Woven(rows, entries, k)[w].segId;
            StandsFirst(nodes, w) && FirstRow(rows, id) >= k && nodes[w] in entries
            && (FirstRow(rows, id) < |rows| <==> w < |nodes| - |EntriesAt(rows, entries, |rows|)|)
            && (FirstRow(rows, id) < |rows| ==> HeadsSegment(nodes, w))
    decreases |rows| - k
  {
    hide EntriesAt, FirstRow, StandsFirst, HeadsSegment;
    var es, nodes := EntriesAt(rows, entries, k), Woven(rows, entries, k);
    EntriesAreEntries(rows, entries, k);
    TailIsShort(rows, entries, k);
    WovenIs(rows, entries, k);
    if w < |es| {
      assert nodes[w] == es[w] && es[w] in es;
      HeadStands(rows, entries, k, w);
    } else {
      assert k < |rows|;
      assert nodes[|es|] == rows[k] && w != |es|;
      assert nodes == es + [rows[k]] + Woven(rows, entries, k + 1);
      TailIsShort(rows, entries, k + 1);
      EntryStands(rows, entries, k + 1, w - |es| - 1);
      LaterStands(es, rows[k], Woven(rows, entries, k + 1), w - |es| - 1, rows, k);
    }
  }

  lemma {:induction false} TailIsShort(rows: seq<Row>, entries: seq<Row>, k: nat)
    requires k <= |rows| && forall e :: e in entries ==> e.Entry?
    ensures |EntriesAt(rows, entries, |rows|)| <= |Woven(rows, entries, k)|
    ensures k < |rows| ==>
              |EntriesAt(rows, entries, |rows|)| + |EntriesAt(rows, entries, k)| < |Woven(rows, entries, k)|
    decreases |rows| - k
  {
    hide EntriesAt;
    if k < |rows| { TailIsShort(rows, entries, k + 1); }
  }

  lemma HeadStands(rows: seq<Row>, entries: seq<Row>, k: nat, w: nat)
    requires k <= |rows| && NoEntries(rows) && forall e :: e in entries ==> e.Entry?
    requires w < |EntriesAt(rows, entries, k)|
    ensures var nodes := Woven(rows, entries, k);
            w < |nodes| && nodes[w].Entry? && StandsFirst(nodes, w) && (k < |rows| ==> HeadsSegment(nodes, w))
  {
    hide EntriesAt, FirstRow;
    var es, nodes := EntriesAt(rows, entries, k), Woven(rows, entries, k);
    EntriesAreEntries(rows, entries, k);
    WovenIs(rows, entries, k);
    assert forall j :: 0 <= j < |es| ==> nodes[j] == es[j] && es[j] in es;
    if k < |rows| {
      assert nodes[|es|] == rows[k];
      RowIsNamed(rows, nodes[w].segId, k);
    }
  }

  lemma RowIsNamed(rows: seq<Row>, id: int, k: nat)
    requires k < |rows| && FirstRow(rows, id) == k
    ensures NamesSegment(rows[k], id)
  {}

  lemma LaterStands(es: seq<Row>, r: Row, rest: seq<Row>, w: nat, rows: seq<Row>, k: nat)
    requires w < |rest| && rest[w].Entry? && StandsFirst(rest, w)
    requires k < |rows| && rows[k] == r && FirstRow(rows, rest[w].segId) > k && forall e :: e in es ==> e.Entry?
    ensures var nodes := es + [r] + rest;
            StandsFirst(nodes, |es| + 1 + w) && (HeadsSegment(rest, w) ==> HeadsSegment(nodes, |es| + 1 + w))
  {
    var nodes, v := es + [r] + rest, |es| + 1 + w;
    assert nodes[v] == rest[w];
    assert forall j :: 0 <= j < |es| ==> nodes[j] == es[j] && es[j] in es;
    assert nodes[|es|] == r;
    assert forall j :: |es| < j < |nodes| ==> nodes[j] == rest[j - |es| - 1];
    forall j | 0 <= j < v && !nodes[j].Entry? ensures !NamesSegment(nodes[j], nodes[v].segId) {}
    if f :| w < f < |rest| && !rest[f].Entry? && NamesSegment(rest[f], rest[w].segId)
            && forall j :: w < j < f ==> rest[j].Entry?
    {
      assert nodes[|es| + 1 + f] == rest[f];
    }
  }

  // ---- Edges ---------------------------------------------------------------------------

  datatype EdgeKind = DataFlow | PhiLoop | PhiBranch
  datatype Edge = Edge(src: nat, dst: nat, slot: Slot, kind: EdgeKind)
  type EdgeKey = (nat, nat, Slot)

  function KeyOf(e: Edge): EdgeKey { (e.src, e.dst, e.slot) }

  predicate WritesAt(nodes: seq<Row>, u: int, slot: Slot) {
    0 <= u < |nodes| && slot in nodes[u].Writes()
  }

  // u is the last node before v that writes the slot.
  predicate IsLatest(nodes: seq<Row>, slot: Slot, u: nat, v: nat) {
    u < v && WritesAt(nodes, u, slot) && forall w :: u < w < v ==> !WritesAt(nodes, w, slot)
  }

  predicate WritesInScope(nodes: seq<Row>, u: int, scope: string, slot: Slot) {
    WritesAt(nodes, u, slot) && nodes[u].Scope() == Some(scope)
  }

  predicate IsLatestIn(nodes: seq<Row>, scope: string, slot: Slot, u: nat, v: nat) {
    u < v && WritesInScope(nodes, u, scope, slot) && forall w :: u < w < v ==> !WritesInScope(nodes, w, scope, slot)
  }

  // Node u writes the slot and its scope path has the loop's as a string prefix.
  predicate WritesUnder(nodes: seq<Row>, u: int, scope: string, slot: Slot) {
    WritesAt(nodes, u, slot) && nodes[u].Scope().Some? && scope <= nodes[u].Scope().value
  }

  // u is the last node after the phi that writes its slot under its scope.
  predicate IsLoopEnd(nodes: seq<Row>, phi: nat, u: nat) {
    phi < |nodes| && nodes[phi].LoopPhi?
    && phi < u && WritesUnder(nodes, u, nodes[phi].scope, nodes[phi].slot)
    && forall w :: u < w < |nodes| ==> !WritesUnder(nodes, w, nodes[phi].scope, nodes[phi].slot)
  }

  // The edges of the definition-use scan into one node.
  predicate ForwardEdge(nodes: seq<Row>, e: Edge) {
    e.dst < |nodes| &&
    match nodes[e.dst]
    case JoinPhi(sources, slot) =>
      e.slot == slot && e.kind == PhiBranch && exists s :: s in sources && IsLatestIn(nodes, s, slot, e.src, e.dst)
    case LoopPhi(_, _, slot) => e.slot == slot && e.kind == PhiLoop && IsLatest(nodes, slot, e.src, e.dst)
    case r => e.slot in r.Reads() && e.kind == DataFlow && IsLatest(nodes, e.slot, e.src, e.dst)
  }

  predicate BackEdge(nodes: seq<Row>, e: Edge) {
    IsLoopEnd(nodes, e.dst, e.src) && e.slot == nodes[e.dst].slot && e.kind == PhiLoop
  }

  ghost predicate KeysOnce(edges: seq<Edge>, seen: set<EdgeKey>) {
    (forall k :: k in seen <==> exists e :: e in edges && KeyOf(e) == k)
    && forall i, j :: 0 <= i < j < |edges| ==> KeyOf(edges[i]) != KeyOf(edges[j])
  }

  // _add_edge
  method AddEdge(edges: seq<Edge>, seen: set<EdgeKey>, e: Edge) returns (edges': seq<Edge>, seen': set<EdgeKey>)
    requires KeysOnce(edges, seen)
    ensures KeysOnce(edges', seen')
    ensures if KeyOf(e) in seen then edges' == edges && seen' == seen else edges' == edges + [e]
  {
    edges', seen' := edges, seen;
    if KeyOf(e) !in seen {
      seen' := seen + {KeyOf(e)};
      edges' := edges + [e];
      assert forall x :: x in edges' <==> x in edges || x == e;
      forall k ensures k in seen' <==> exists x :: x in edges' && KeyOf(x) == k {
        if k == KeyOf(e) { assert e in edges'; }
        if x :| x in edges && KeyOf(x) == k { assert x in edges'; }
      }
    }
  }

  // The two dictionaries of the scan, before node v is read.
  ghost predicate TracksSlots(nodes: seq<Row>, v: nat, last: map<Slot, nat>) {
    (forall s :: s in last ==> IsLatest(nodes, s, last[s], v))
    && (forall s :: s !in last ==> forall w :: 0 <= w < v ==> !WritesAt(nodes, w, s))
  }

  ghost predicate TracksScopes(nodes: seq<Row>, v: nat, inScope: map<(string, Slot), nat>) {
    (forall p :: p in inScope ==> IsLatestIn(nodes, p.0, p.1, inScope[p], v))
    && (forall p :: p !in inScope ==> forall w :: 0 <= w < v ==> !WritesInScope(nodes, w, p.0, p.1))
  }

  ghost predicate LastWrites(nodes: seq<Row>, v: nat, last: map<Slot, nat>, inScope: map<(string, Slot), nat>) {
    TracksSlots(nodes, v, last) && TracksScopes(nodes, v, inScope)
  }

  method RecordWrites(nodes: seq<Row>, v: nat, last: map<Slot, nat>, inScope: map<(string, Slot), nat>)
    returns (last': map<Slot, nat>, inScope': map<(string, Slot), nat>)
    requires v < |nodes| && LastWrites(nodes, v, last, inScope)
    ensures LastWrites(nodes, v + 1, last', inScope')
  {
    var slots, scope := nodes[v].Writes(), nodes[v].Scope();
    last', inScope' := last, inScope;
    for k := 0 to |slots|
      invariant NowAt(last, last', v, slots[..k]) && NowInScope(inScope, inScope', v, scope, slots[..k])
    {
      assert slots[..k + 1] == slots[..k] + [slots[k]];
      last' := last'[slots[k] := v];
      if scope.Some? { inScope' := inScope'[(scope.value, slots[k]) := v]; }
    }
    assert slots[..|slots|] == slots;
    SlotStep(nodes, v, last, last');
    ScopeStep(nodes, v, inScope, inScope');
  }

  ghost predicate NowAt(last: map<Slot, nat>, last': map<Slot, nat>, v: nat, slots: seq<Slot>) {
    (forall s :: s in last' <==> s in last || s in slots)
    && forall s :: s in last' ==> last'[s] == if s in slots then v else last[s]
  }

  ghost predicate NowInScope(inScope: map<(string, Slot), nat>, inScope': map<(string, Slot), nat>, v: nat,
                             scope: Option<string>, slots: seq<Slot>) {
    (forall p :: p in inScope' <==> p in inScope || (scope == Some(p.0) && p.1 in slots))
    && forall p :: p in inScope' ==> inScope'[p] == if scope == Some(p.0) && p.1 in slots then v else inScope[p]
  }

  lemma SlotStep(nodes: seq<Row>, v: nat, last: map<Slot, nat>, last': map<Slot, nat>)
    requires v < |nodes| && TracksSlots(nodes, v, last) && NowAt(last, last', v, nodes[v].Writes())
    ensures TracksSlots(nodes, v + 1, last')
  {
    var slots := nodes[v].Writes();
    forall s | s in last' ensures IsLatest(nodes, s, last'[s], v + 1) {
      assert WritesAt(nodes, v, s) <==> s in slots;
    }
    forall s, w | s !in last' && 0 <= w < v + 1 ensures !WritesAt(nodes, w, s) {
      assert WritesAt(nodes, v, s) <==> s in slots;
    }
  }

  lemma ScopeStep(nodes: seq<Row>, v: nat, inScope: map<(string, Slot), nat>, inScope': map<(string, Slot), nat>)
    requires v < |nodes| && TracksScopes(nodes, v, inScope)
    requires NowInScope(inScope, inScope', v, nodes[v].Scope(), nodes[v].Writes())
    ensures TracksScopes(nodes, v + 1, inScope')
  {
    hide WritesInScope;
    var slots, scope := nodes[v].Writes(), nodes[v].Scope();
    forall p: (string, Slot) ensures WritesInScope(nodes, v, p.0, p.1) <==> scope == Some(p.0) && p.1 in slots {
      WritesInScopeAt(nodes, v, p);
    }
    forall p | p in inScope' ensures IsLatestIn(nodes, p.0, p.1, inScope'[p], v + 1) {
      assert p !in inScope ==> WritesInScope(nodes, v, p.0, p.1);
    }
  }

  lemma WritesInScopeAt(nodes: seq<Row>, v: nat, p: (string, Slot))
    requires v < |nodes|
    ensures WritesInScope(nodes, v, p.0, p.1) <==> nodes[v].Scope() == Some(p.0) && p.1 in nodes[v].Writes()
  {}

  // The edges so far: keys once, and exactly the wanted ones.
  ghost predicate Holds(edges: seq<Edge>, seen: set<EdgeKey>, wanted: iset<Edge>) {
    KeysOnce(edges, seen) && forall e :: e in edges <==> e in wanted
  }

  ghost function ForwardUpTo(nodes: seq<Row>, v: nat): iset<Edge> {
    iset e | ForwardEdge(nodes, e) && e.dst < v
  }

  // One read of node v whose source is u: added unless its key is there already, and
  // then it is the same edge, for the kind depends on v alone.
  method AddForward(nodes: seq<Row>, ghost v: nat, edges: seq<Edge>, seen: set<EdgeKey>, ghost wanted: iset<Edge>,
                    e: Edge)
    returns (edges': seq<Edge>, seen': set<EdgeKey>)
    requires Holds(edges, seen, wanted) && e.dst == v
    requires forall x :: x in wanted && x.dst == v ==> x.kind == e.kind
    ensures Holds(edges', seen', wanted + iset{e})
  {
    edges', seen' := AddEdge(edges, seen, e);
    if KeyOf(e) in seen {
      var x :| x in edges && KeyOf(x) == KeyOf(e);
      assert x in wanted && x == e;
    }
    assert forall x :: x in edges' <==> x in edges || x == e;
  }

  method ForwardIntoJoin(nodes: seq<Row>, v: nat, edges: seq<Edge>, seen: set<EdgeKey>,
                         ghost last: map<Slot, nat>, inScope: map<(string, Slot), nat>)
    returns (edges': seq<Edge>, seen': set<EdgeKey>)
    requires v < |nodes| && nodes[v].JoinPhi? && LastWrites(nodes, v, last, inScope)
    requires Holds(edges, seen, ForwardUpTo(nodes, v))
    ensures Holds(edges', seen', ForwardUpTo(nodes, v + 1))
  {
    var sources, slot := nodes[v].sources, nodes[v].slot;
    edges', seen' := edges, seen;
    ghost var wanted := ForwardUpTo(nodes, v);
    for k := 0 to |sources|
      invariant Holds(edges', seen', wanted)
      invariant forall x :: x in wanted <==>
                  x in ForwardUpTo(nodes, v)
                  || (x.dst == v && x.slot == slot && x.kind == PhiBranch
                      && exists s :: s in sources[..k] && IsLatestIn(nodes, s, slot, x.src, v))
    {
      assert sources[..k + 1] == sources[..k] + [sources[k]];
      LatestInIsOne(nodes, sources[k], slot, v);
      if (sources[k], slot) in inScope {
        var e := Edge(inScope[(sources[k], slot)], v, slot, PhiBranch);
        edges', seen' := AddForward(nodes, v, edges', seen', wanted, e);
        wanted := wanted + iset{e};
      }
    }
    assert sources[..|sources|] == sources;
    assert forall x :: x in wanted <==> x in ForwardUpTo(nodes, v + 1);
  }

  lemma LatestInIsOne(nodes: seq<Row>, scope: string, slot: Slot, v: nat)
    ensures forall u, w :: IsLatestIn(nodes, scope, slot, u, v) && IsLatestIn(nodes, scope, slot, w, v) ==> u == w
  {}

  lemma LatestIsOne(nodes: seq<Row>, slot: Slot, v: nat)
    ensures forall u, w :: IsLatest(nodes, slot, u, v) && IsLatest(nodes, slot, w, v) ==> u == w
  {}

  method ForwardIntoReader(nodes: seq<Row>, v: nat, edges: seq<Edge>, seen: set<EdgeKey>,
                           last: map<Slot, nat>, ghost inScope: map<(string, Slot), nat>)
    returns (edges': seq<Edge>, seen': set<EdgeKey>)
    requires v < |nodes| && !nodes[v].JoinPhi? && LastWrites(nodes, v, last, inScope)
    requires Holds(edges, seen, ForwardUpTo(nodes, v))
    ensures Holds(edges', seen', ForwardUpTo(nodes, v + 1))
  {
    var slots := nodes[v].Reads();
    var kind := if nodes[v].LoopPhi? then PhiLoop else DataFlow;
    edges', seen' := edges, seen;
    ghost var wanted := ForwardUpTo(nodes, v);
    for k := 0 to |slots|
      invariant Holds(edges', seen', wanted)
      invariant forall x :: x in wanted <==>
                  x in ForwardUpTo(nodes, v)
                  || (x.dst == v && x.kind == kind && x.slot in slots[..k] && IsLatest(nodes, x.slot, x.src, v))
    {
      assert slots[..k + 1] == slots[..k] + [slots[k]];
      LatestIsOne(nodes, slots[k], v);
      if slots[k] in last {
        var e := Edge(last[slots[k]], v, slots[k], kind);
        edges', seen' := AddForward(nodes, v, edges', seen', wanted, e);
        wanted := wanted + iset{e};
      }
    }
    assert slots[..|slots|] == slots;
    assert forall x :: x in wanted <==> x in ForwardUpTo(nodes, v + 1);
  }

  // Step 4 for one phi: the scan for the last write under the loop's scope.
  method LoopEnd(nodes: seq<Row>, phi: nat) returns (end: Option<nat>)
    requires phi < |nodes| && nodes[phi].LoopPhi?
    ensures end.Some? ==> IsLoopEnd(nodes, phi, end.value)
    ensures end.None? ==> forall w :: phi < w < |nodes| ==> !WritesUnder(nodes, w, nodes[phi].scope, nodes[phi].slot)
  {
    end := None;
    var scope, slot := nodes[phi].scope, nodes[phi].slot;
    for w := 0 to |nodes|
      invariant end.None? ==> forall x :: phi < x < w ==> !WritesUnder(nodes, x, scope, slot)
      invariant end.Some? ==> phi < end.value < w && WritesUnder(nodes, end.value, scope, slot)
                              && forall x :: end.value < x < w ==> !WritesUnder(nodes, x, scope, slot)
    {
      if w <= phi { continue; }
      if nodes[w].Scope().None? { continue; }
      if !(scope <= nodes[w].Scope().value) { continue; }
      if slot in nodes[w].Writes() { end := Some(w); }
    }
  }

  method BuildEdges(nodes: seq<Row>) returns (edges: seq<Edge>)
    ensures forall e :: e in edges <==> ForwardEdge(nodes, e) || BackEdge(nodes, e)
    ensures forall i, j :: 0 <= i < j < |edges| ==> KeyOf(edges[i]) != KeyOf(edges[j])
  {
    edges := [];
    var seen: set<EdgeKey> := {};
    var last: map<Slot, nat>, inScope: map<(string, Slot), nat> := map[], map[];
    for v := 0 to |nodes|
      invariant LastWrites(nodes, v, last, inScope)
      invariant Holds(edges, seen, ForwardUpTo(nodes, v))
    {
      if nodes[v].JoinPhi? {
        edges, seen := ForwardIntoJoin(nodes, v, edges, seen, last, inScope);
      } else {
        edges, seen := ForwardIntoReader(nodes, v, edges, seen, last, inScope);
      }
      last, inScope := RecordWrites(nodes, v, last, inScope);
    }
    ghost var forward := ForwardUpTo(nodes, |nodes|);
    ghost var wanted := forward;
    for p := 0 to |nodes|
      invariant Holds(edges, seen, wanted)
      invariant forall e :: e in wanted <==> e in forward || (BackEdge(nodes, e) && e.dst < p)
    {
      if nodes[p].LoopPhi? {
        var end := LoopEnd(nodes, p);
        if end.Some? {
          var e := Edge(end.value, p, nodes[p].slot, PhiLoop);
          ForwardEdgesGoForward(nodes);
          assert e !in wanted && forall x :: x in wanted && x.dst == p ==> x.src < p;
          edges, seen := AddForward(nodes, p, edges, seen, wanted, e);
          wanted := wanted + iset{e};
        }
      }
    }
  }

  lemma ForwardEdgesGoForward(nodes: seq<Row>)
    ensures forall e :: ForwardEdge(nodes, e) ==> e.src < e.dst
  {}
}
