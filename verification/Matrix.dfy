// Segment walk and phi injection of cdup/src/matrix.py.
module Matrix {
  import opened Wrappers

  // Slot names are kept as numbers that sort as the names do; there are `n` of them.
  type Slot = nat

  datatype SegType = Root | Function | Struct | LoopSeg | BranchSeg | OtherSeg
  datatype StmtKind = Decl | Assign | Control | CallStmt | Branch | LoopHead | FuncDecl | ExprStmt

  // A classified statement with the slots its row reads, writes and declares.
  datatype Stmt = Stmt(kind: StmtKind, raw: string, uses: seq<Slot>, defs: seq<Slot>, decls: seq<Slot>)

  datatype Seg = Seg(id: int, typ: SegType, scope: string, stmts: seq<Stmt>, children: seq<Seg>)

  // Statement rows, the two phi kinds, and the entry nodes the graph adds.
  datatype Row =
    | StmtRow(segId: int, scope: string, stmt: Stmt)
    | LoopPhi(segId: int, scope: string, slot: Slot)
    | JoinPhi(sources: seq<string>, slot: Slot)
    | Entry(segId: int, scope: string, params: seq<Slot>)
  {
    function Writes(): seq<Slot> {
      match this
      case StmtRow(_, _, s) => s.defs
      case LoopPhi(_, _, slot) => [slot]
      case JoinPhi(_, slot) => [slot]
      case Entry(_, _, params) => params
    }

    // A join phi's reads name scopes, not slots.
    function Reads(): seq<Slot> {
      match this
      case StmtRow(_, _, s) => s.uses
      case LoopPhi(_, _, slot) => [slot]
      case _ => []
    }

    function Scope(): Option<string> {
      if JoinPhi? then None else Some(scope)
    }
  }

  // ---- Loop phis -----------------------------------------------------------------------

  function Elems<T(==)>(xs: seq<T>): set<T> { set x | x in xs }

  function StmtWrites(s: Stmt): set<Slot> { Elems(s.defs) + Elems(s.decls) }

  function OwnWrites(stmts: seq<Stmt>): set<Slot> {
    if stmts == [] then {} else OwnWrites(stmts[..|stmts| - 1]) + StmtWrites(stmts[|stmts| - 1])
  }

  // Everything written in a segment and the segments below it.
  function SubtreeWrites(seg: Seg): set<Slot>
    decreases seg, 1, 0
  {
    OwnWrites(seg.stmts) + ChildWrites(seg, |seg.children|)
  }

  function ChildWrites(seg: Seg, k: nat): set<Slot>
    requires k <= |seg.children|
    decreases seg, 0, k
  {
    if k == 0 then {} else ChildWrites(seg, k - 1) + SubtreeWrites(seg.children[k - 1])
  }

  method CollectWrites(seg: Seg) returns (written: set<Slot>)
    ensures written == SubtreeWrites(seg)
    decreases seg
  {
    written := {};
    for i := 0 to |seg.stmts|
      invariant written == OwnWrites(seg.stmts[..i])
    {
      assert seg.stmts[..i + 1][..i] == seg.stmts[..i];
      written := written + StmtWrites(seg.stmts[i]);
    }
    assert seg.stmts[..|seg.stmts|] == seg.stmts;
    for k := 0 to |seg.children|
      invariant written == OwnWrites(seg.stmts) + ChildWrites(seg, k)
    {
      var below := CollectWrites(seg.children[k]);
      written := written + below;
    }
  }

  // sorted(written), for slots below n.
  function Ascending(written: set<Slot>, n: nat): seq<Slot> {
    if n == 0 then []
    else Ascending(written, n - 1) + if n - 1 in written then [n - 1] else []
  }

  function LoopPhis(seg: Seg, slots: seq<Slot>): seq<Row> {
    seq(|slots|, i requires 0 <= i < |slots| => LoopPhi(seg.id, seg.scope, slots[i]))
  }

  function EntryPhis(seg: Seg, n: nat): seq<Row> {
    if seg.typ == LoopSeg then LoopPhis(seg, Ascending(SubtreeWrites(seg), n)) else []
  }

  // ---- Join phis -----------------------------------------------------------------------

  // The slots a branch segment's own statements write, in order, each with its scope.
  datatype Source = Source(slot: Slot, scope: string)

  function Tag(slots: seq<Slot>, scope: string): seq<Source> {
    seq(|slots|, i requires 0 <= i < |slots| => Source(slots[i], scope))
  }

  function BranchSources(stmts: seq<Stmt>, scope: string): seq<Source> {
    if stmts == [] then []
    else
      var s := stmts[|stmts| - 1];
      BranchSources(stmts[..|stmts| - 1], scope) + Tag(s.defs + s.decls, scope)
  }

  function GroupSources(group: seq<Seg>): seq<Source> {
    if group == [] then []
    else
      var g := group[|group| - 1];
      GroupSources(group[..|group| - 1]) + BranchSources(g.stmts, g.scope)
  }

  // The dictionary from slot to source scopes, in insertion order: one join phi per
  // key, duplicates among its scopes dropped.
  function AddSource(phis: seq<Row>, s: Source): (r: seq<Row>)
    requires forall p :: p in phis ==> p.JoinPhi?
    ensures forall p :: p in r ==> p.JoinPhi?
  {
    if phis == [] then [JoinPhi([s.scope], s.slot)]
    else if phis[0].slot == s.slot then
      [if s.scope in phis[0].sources then phis[0] else JoinPhi(phis[0].sources + [s.scope], s.slot)] + phis[1..]
    else [phis[0]] + AddSource(phis[1..], s)
  }

  function JoinPhis(sources: seq<Source>): (r: seq<Row>)
    ensures forall p :: p in r ==> p.JoinPhi?
  {
    if sources == [] then [] else AddSource(JoinPhis(sources[..|sources| - 1]), sources[|sources| - 1])
  }

  function Flush(group: seq<Seg>): seq<Row> { JoinPhis(GroupSources(group)) }

  method AddSlots(phis: seq<Row>, ghost all: seq<Source>, slots: seq<Slot>, scope: string) returns (phis': seq<Row>)
    requires phis == JoinPhis(all)
    ensures phis' == JoinPhis(all + Tag(slots, scope))
  {
    phis' := phis;
    assert all + Tag([], scope) == all;
    for k := 0 to |slots|
      invariant phis' == JoinPhis(all + Tag(slots[..k], scope))
    {
      ghost var more := all + Tag(slots[..k + 1], scope);
      assert more == all + Tag(slots[..k], scope) + [Source(slots[k], scope)];
      assert more[..|more| - 1] == all + Tag(slots[..k], scope);
      phis' := AddSource(phis', Source(slots[k], scope));
    }
    assert slots[..|slots|] == slots;
  }

  method AddBranch(phis: seq<Row>, ghost all: seq<Source>, stmts: seq<Stmt>, scope: string) returns (phis': seq<Row>)
    requires phis == JoinPhis(all)
    ensures phis' == JoinPhis(all + BranchSources(stmts, scope))
  {
    hide JoinPhis, Tag;
    phis' := phis;
    assert all + [] == all;
    for i := 0 to |stmts|
      invariant phis' == JoinPhis(all + BranchSources(stmts[..i], scope))
    {
      assert stmts[..i + 1][..i] == stmts[..i];
      ghost var before := all + BranchSources(stmts[..i], scope);
      phis' := AddSlots(phis', before, stmts[i].defs + stmts[i].decls, scope);
      assert before + Tag(stmts[i].defs + stmts[i].decls, scope) == all + BranchSources(stmts[..i + 1], scope);
    }
    assert stmts[..|stmts|] == stmts;
  }

  method FlushBranchGroup(group: seq<Seg>) returns (phis: seq<Row>)
    ensures phis == Flush(group)
  {
    phis := [];
    for g := 0 to |group|
      invariant phis == JoinPhis(GroupSources(group[..g]))
    {
      assert group[..g + 1][..g] == group[..g];
      phis := AddBranch(phis, GroupSources(group[..g]), group[g].stmts, group[g].scope);
    }
    assert group[..|group|] == group;
  }

  // ---- The walk ------------------------------------------------------------------------

  predicate OpensBlock(s: Stmt) { s.kind == Branch || s.kind == LoopHead }

  function Walk(seg: Seg, n: nat): seq<Row>
    decreases seg, 2, 0
  {
    EntryPhis(seg, n) + WalkFrom(seg, n, 0, 0, [])
  }

  // What is emitted from statement i on, when c children have been entered and
  // `group` is the pending run of branch children.
  function WalkFrom(seg: Seg, n: nat, i: nat, c: nat, group: seq<Seg>): seq<Row>
    requires i <= |seg.stmts| && c <= |seg.children|
    decreases seg, 1, |seg.stmts| - i
  {
    if i == |seg.stmts| then Flush(group) + WalkRest(seg, n, c)
    else
      var row := [StmtRow(seg.id, seg.scope, seg.stmts[i])];
      if !OpensBlock(seg.stmts[i]) then Flush(group) + row + WalkFrom(seg, n, i + 1, c, [])
      else if c == |seg.children| then row + WalkFrom(seg, n, i + 1, c, group)
      else
        var child := seg.children[c];
        if child.typ == BranchSeg
        then row + Walk(child, n) + WalkFrom(seg, n, i + 1, c + 1, group + [child])
        else row + Flush(group) + Walk(child, n) + WalkFrom(seg, n, i + 1, c + 1, [])
  }

  // Children no statement claimed.
  function WalkRest(seg: Seg, n: nat, c: nat): seq<Row>
    requires c <= |seg.children|
    decreases seg, 0, |seg.children| - c
  {
    if c == |seg.children| then [] else Walk(seg.children[c], n) + WalkRest(seg, n, c + 1)
  }

  lemma Regroup<T>(rows: seq<T>, a: seq<T>, b: seq<T>)
    ensures rows + (a + b) == rows + a + b
  {}

  method WalkSegment(seg: Seg, n: nat, rows: seq<Row>) returns (rows': seq<Row>)
    ensures rows' == rows + Walk(seg, n)
    decreases seg, 1
  {
    rows' := rows;
    if seg.typ == LoopSeg {
      var written := CollectWrites(seg);
      rows' := rows' + LoopPhis(seg, Ascending(written, n));
    }
    Regroup(rows, EntryPhis(seg, n), WalkFrom(seg, n, 0, 0, []));
    var c: nat, group: seq<Seg> := 0, [];
    for i := 0 to |seg.stmts|
      invariant c <= |seg.children|
      invariant rows' + WalkFrom(seg, n, i, c, group) == rows + Walk(seg, n)
    {
      rows', c, group := WalkStmt(seg, n, i, c, group, rows');
    }
    var phis := FlushBranchGroup(group);
    Regroup(rows', phis, WalkRest(seg, n, c));
    rows' := rows' + phis;
    while c < |seg.children|
      invariant c <= |seg.children|
      invariant rows' + WalkRest(seg, n, c) == rows + Walk(seg, n)
    {
      Regroup(rows', Walk(seg.children[c], n), WalkRest(seg, n, c + 1));
      rows' := WalkSegment(seg.children[c], n, rows');
      c := c + 1;
    }
  }

  // One turn of the walk's statement loop.
  method WalkStmt(seg: Seg, n: nat, i: nat, c: nat, group: seq<Seg>, rows: seq<Row>)
    returns (rows': seq<Row>, c': nat, group': seq<Seg>)
    requires i < |seg.stmts| && c <= |seg.children|
    ensures c' <= |seg.children|
    ensures rows' + WalkFrom(seg, n, i + 1, c', group') == rows + WalkFrom(seg, n, i, c, group)
    decreases seg, 0
  {
    var row := [StmtRow(seg.id, seg.scope, seg.stmts[i])];
    c', group' := c, group;
    if OpensBlock(seg.stmts[i]) {
      rows' := rows + row;
      if c < |seg.children| {
        var child := seg.children[c];
        c' := c + 1;
        if child.typ == BranchSeg {
          group' := group + [child];
          Regroup(rows, row + Walk(child, n), WalkFrom(seg, n, i + 1, c', group'));
          Regroup(rows, row, Walk(child, n));
        } else {
          var phis := FlushBranchGroup(group);
          rows' := rows' + phis;
          group' := [];
          Regroup(rows, row + phis + Walk(child, n), WalkFrom(seg, n, i + 1, c', group'));
          Regroup(rows, row + phis, Walk(child, n));
          Regroup(rows, row, phis);
        }
        rows' := WalkSegment(child, n, rows');
      } else {
        Regroup(rows, row, WalkFrom(seg, n, i + 1, c, group));
      }
    } else {
      var phis := FlushBranchGroup(group);
      group' := [];
      rows' := rows + phis;
      rows' := rows' + row;
      Regroup(rows, phis + row, WalkFrom(seg, n, i + 1, c, []));
      Regroup(rows, phis, row);
    }
  }

  // build_matrix: a root's own statements open no block; then its children are walked.
  function RootRows(root: Seg, n: nat): seq<Row> {
    StmtRows(root, |root.stmts|) + WalkRest(root, n, 0)
  }

  function StmtRows(seg: Seg, k: nat): seq<Row>
    requires k <= |seg.stmts|
  {
    seq(k, i requires 0 <= i < k => StmtRow(seg.id, seg.scope, seg.stmts[i]))
  }

  function MatrixRows(roots: seq<Seg>, n: nat): seq<Row> {
    if roots == [] then []
    else MatrixRows(roots[..|roots| - 1], n) + RootRows(roots[|roots| - 1], n)
  }

  method BuildMatrix(roots: seq<Seg>, n: nat) returns (rows: seq<Row>)
    ensures rows == MatrixRows(roots, n)
  {
    hide Walk;
    rows := [];
    for r := 0 to |roots|
      invariant rows == MatrixRows(roots[..r], n)
    {
      var root := roots[r];
      ghost var before := rows;
      for i := 0 to |root.stmts|
        invariant rows == before + StmtRows(root, i)
      {
        rows := rows + [StmtRow(root.id, root.scope, root.stmts[i])];
      }
      for c := 0 to |root.children|
        invariant rows + WalkRest(root, n, c) == before + RootRows(root, n)
      {
        Regroup(rows, Walk(root.children[c], n), WalkRest(root, n, c + 1));
        rows := WalkSegment(root.children[c], n, rows);
      }
      assert roots[..r + 1][..r] == roots[..r];
    }
    assert roots[..|roots|] == roots;
  }
}
