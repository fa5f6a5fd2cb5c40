// The union-find with path halving that groups Type III clones in cdup/src/detect.py.
module UnionFind {

  type Id = int

  // parent_uf.get(x, x)
  function Up(parent: map<Id, Id>, x: Id): Id {
    if x in parent then parent[x] else x
  }

  function RankOf(rank: map<Id, nat>, x: Id): nat {
    if x in rank then rank[x] else 0
  }

  // Parents rank strictly above their children, and no rank exceeds `top`.
  ghost predicate Ranked(parent: map<Id, Id>, rank: map<Id, nat>, top: nat) {
    (forall x :: x in parent && parent[x] != x ==> RankOf(rank, x) < RankOf(rank, parent[x]))
    && forall x :: x in rank ==> rank[x] <= top
  }

  // The root of x: where the parents lead.
  ghost function Root(parent: map<Id, Id>, rank: map<Id, nat>, top: nat, x: Id): (r: Id)
    requires Ranked(parent, rank, top)
    ensures Up(parent, r) == r
    decreases top - RankOf(rank, x)
  {
    if Up(parent, x) == x then x else Root(parent, rank, top, Up(parent, x))
  }

  // Roots depend on the parents alone.
  lemma {:induction false} RootOfAnyRank(parent: map<Id, Id>, r1: map<Id, nat>, t1: nat, r2: map<Id, nat>, t2: nat,
                                         x: Id)
    requires Ranked(parent, r1, t1) && Ranked(parent, r2, t2)
    ensures Root(parent, r1, t1, x) == Root(parent, r2, t2, x)
    decreases t1 - RankOf(r1, x)
  {
    if Up(parent, x) != x { RootOfAnyRank(parent, r1, t1, r2, t2, Up(parent, x)); }
  }

  // Halving: pointing x at its grandparent keeps every root.
  lemma HalvingRanked(parent: map<Id, Id>, rank: map<Id, nat>, top: nat, x: Id)
    requires Ranked(parent, rank, top) && Up(parent, x) != x
    ensures Ranked(parent[x := Up(parent, Up(parent, x))], rank, top)
  {}

  lemma {:induction false} HalvingKeepsRoots(parent: map<Id, Id>, rank: map<Id, nat>, top: nat, x: Id, y: Id)
    requires Ranked(parent, rank, top) && Up(parent, x) != x
    requires Ranked(parent[x := Up(parent, Up(parent, x))], rank, top)
    ensures Root(parent[x := Up(parent, Up(parent, x))], rank, top, y) == Root(parent, rank, top, y)
    decreases top - RankOf(rank, y)
  {
    var halved := parent[x := Up(parent, Up(parent, x))];
    if Up(parent, y) != y {
      HalvingKeepsRoots(parent, rank, top, x, Up(parent, y));
      if y == x {
        HalvingKeepsRoots(parent, rank, top, x, Up(halved, y));
      }
    }
  }

  // Linking root ra below root rb moves exactly the elements of ra's tree.
  lemma LinkRanked(parent: map<Id, Id>, rank: map<Id, nat>, top: nat, ra: Id, rb: Id)
    requires Ranked(parent, rank, top) && Up(parent, ra) == ra && Up(parent, rb) == rb && ra != rb
    ensures Ranked(parent[ra := rb], rank[rb := top + 1], top + 1)
  {}

  lemma {:induction false} LinkRoots(parent: map<Id, Id>, rank: map<Id, nat>, top: nat, ra: Id, rb: Id, y: Id)
    requires Ranked(parent, rank, top) && Up(parent, ra) == ra && Up(parent, rb) == rb && ra != rb
    requires Ranked(parent[ra := rb], rank[rb := top + 1], top + 1)
    ensures var r := Root(parent, rank, top, y);
            Root(parent[ra := rb], rank[rb := top + 1], top + 1, y) == if r == ra then rb else r
    decreases top - RankOf(rank, y)
  {
    var linked, rank' := parent[ra := rb], rank[rb := top + 1];
    if Up(parent, y) == y {
      if y == ra { assert Root(linked, rank', top + 1, rb) == rb; }
    } else {
      LinkRoots(parent, rank, top, ra, rb, Up(parent, y));
    }
  }

  class Forest {
    var parent: map<Id, Id>
    ghost var rank: map<Id, nat>
    ghost var top: nat

    ghost predicate Valid()
      reads this
    {
      Ranked(parent, rank, top)
    }

    ghost function RootOf(x: Id): Id
      requires Valid()
      reads this
    {
      Root(parent, rank, top, x)
    }

    constructor ()
      ensures Valid() && forall x :: RootOf(x) == x
    {
      parent, rank, top := map[], map[], 0;
    }

    // find with path halving: it ends, returns the root and changes no element's root.
    method Find(x: Id) returns (r: Id)
      requires Valid()
      modifies this
      ensures Valid() && r == old(RootOf(x)) && forall y :: RootOf(y) == old(RootOf(y))
      ensures rank == old(rank) && top == old(top)
    {
      r := x;
      while Up(parent, r) != r
        invariant Valid() && rank == old(rank) && top == old(top)
        invariant RootOf(r) == old(RootOf(x)) && forall y :: RootOf(y) == old(RootOf(y))
        decreases top - RankOf(rank, r)
      {
        HalvingRanked(parent, rank, top, r);
        forall y ensures Root(parent[r := Up(parent, Up(parent, r))], rank, top, y) == Root(parent, rank, top, y) {
          HalvingKeepsRoots(parent, rank, top, r, y);
        }
        parent := parent[r := Up(parent, parent[r])];
        r := parent[r];
      }
    }

    method Union(a: Id, b: Id)
      requires Valid()
      modifies this
      ensures Valid()
      ensures forall y :: RootOf(y) == old(if RootOf(y) == RootOf(a) then RootOf(b) else RootOf(y))
    {
      hide Root;
      var ra := Find(a);
      var rb := Find(b);
      if ra != rb {
        LinkRanked(parent, rank, top, ra, rb);
        forall y ensures Root(parent[ra := rb], rank[rb := top + 1], top + 1, y) ==
                         (if Root(parent, rank, top, y) == ra then rb else Root(parent, rank, top, y)) {
          LinkRoots(parent, rank, top, ra, rb, y);
        }
        parent := parent[ra := rb];
        rank := rank[rb := top + 1];
        top := top + 1;
      }
    }
  }

  // ---- Connected components ---------------------------------------------------------------------------

  datatype Pair = Pair(a: Id, b: Id)

  predicate Linked(pairs: seq<Pair>, x: Id, y: Id) {
    Pair(x, y) in pairs || Pair(y, x) in pairs
  }

  // x and y are joined by a chain of pairs, each used in either direction.
  ghost predicate IsChain(pairs: seq<Pair>, p: seq<Id>, x: Id, y: Id) {
    |p| > 0 && p[0] == x && p[|p| - 1] == y && forall k :: 0 < k < |p| ==> Linked(pairs, p[k - 1], p[k])
  }

  ghost predicate Connected(pairs: seq<Pair>, x: Id, y: Id) { exists p :: IsChain(pairs, p, x, y) }

  lemma ConnectedSelf(pairs: seq<Pair>, x: Id)
    ensures Connected(pairs, x, x)
  {
    assert IsChain(pairs, [x], x, x);
  }

  lemma ConnectedJoin(pairs: seq<Pair>, x: Id, y: Id, z: Id)
    requires Connected(pairs, x, y) && Connected(pairs, y, z)
    ensures Connected(pairs, x, z)
  {
    var p :| IsChain(pairs, p, x, y);
    var q :| IsChain(pairs, q, y, z);
    var r := p + q[1..];
    forall k | 0 < k < |r| ensures Linked(pairs, r[k - 1], r[k]) {
      if k < |p| {
        assert r[k - 1] == p[k - 1] && r[k] == p[k];
      } else {
        var j := k - |p| + 1;
        assert r[k] == q[j] && r[k - 1] == q[j - 1];
      }
    }
    assert IsChain(pairs, r, x, z);
  }

  lemma {:induction false} ConnectedBack(pairs: seq<Pair>, p: seq<Id>, x: Id, y: Id)
    requires IsChain(pairs, p, x, y)
    ensures Connected(pairs, y, x)
    decreases |p|
  {
    if |p| == 1 {
      ConnectedSelf(pairs, x);
    } else {
      var m := |p| - 2;
      assert IsChain(pairs, p[..m + 1], x, p[m]);
      ConnectedBack(pairs, p[..m + 1], x, p[m]);
      assert Linked(pairs, p[m], p[m + 1]);
      assert IsChain(pairs, [y, p[m]], y, p[m]);
      ConnectedJoin(pairs, y, p[m], x);
    }
  }

  lemma ConnectedMore(pairs: seq<Pair>, more: seq<Pair>, x: Id, y: Id)
    requires Connected(pairs, x, y)
    ensures Connected(pairs + more, x, y)
  {
    var p :| IsChain(pairs, p, x, y);
    assert IsChain(pairs + more, p, x, y);
  }

  // Elements with one root are connected, and each root is connected to its elements.
  ghost predicate RootsAreComponents(f: Forest, pairs: seq<Pair>)
    requires f.Valid()
    reads f
  {
    (forall y :: Connected(pairs, y, f.RootOf(y)))
    && forall k :: 0 <= k < |pairs| ==> f.RootOf(pairs[k].a) == f.RootOf(pairs[k].b)
  }

  // Then having one root and being connected are the same.
  lemma OneRootIsConnected(f: Forest, pairs: seq<Pair>, x: Id, y: Id)
    requires f.Valid() && RootsAreComponents(f, pairs)
    ensures f.RootOf(x) == f.RootOf(y) <==> Connected(pairs, x, y)
  {
    if f.RootOf(x) == f.RootOf(y) {
      var p :| IsChain(pairs, p, y, f.RootOf(y));
      ConnectedBack(pairs, p, y, f.RootOf(y));
      ConnectedJoin(pairs, x, f.RootOf(x), y);
    }
    if p :| IsChain(pairs, p, x, y) {
      ChainKeepsRoot(f, pairs, p, x, y);
    }
  }

  lemma {:induction false} ChainKeepsRoot(f: Forest, pairs: seq<Pair>, p: seq<Id>, x: Id, y: Id)
    requires f.Valid() && RootsAreComponents(f, pairs) && IsChain(pairs, p, x, y)
    ensures f.RootOf(x) == f.RootOf(y)
    decreases |p|
  {
    if |p| > 1 {
      var m := |p| - 2;
      ChainKeepsRoot(f, pairs, p[..m + 1], x, p[m]);
      assert Linked(pairs, p[m], p[m + 1]);
    }
  }

  lemma UnionStep(pairs: seq<Pair>, pair: Pair, y: Id, r: Id, ra: Id, rb: Id)
    requires Connected(pairs, y, r) && Connected(pairs, pair.a, ra) && Connected(pairs, pair.b, rb)
    ensures Connected(pairs + [pair], y, if r == ra then rb else r)
  {
    var all := pairs + [pair];
    ConnectedMore(pairs, [pair], y, r);
    if r == ra {
      ConnectedMore(pairs, [pair], pair.a, ra);
      ConnectedMore(pairs, [pair], pair.b, rb);
      var p :| IsChain(all, p, pair.a, ra);
      ConnectedBack(all, p, pair.a, ra);
      assert Linked(all, pair.a, pair.b);
      assert IsChain(all, [pair.a, pair.b], pair.a, pair.b);
      ConnectedJoin(all, y, r, pair.a);
      ConnectedJoin(all, y, pair.a, pair.b);
      ConnectedJoin(all, y, pair.b, rb);
    }
  }

  method UnionAll(pairs: seq<Pair>) returns (f: Forest)
    ensures fresh(f) && f.Valid() && RootsAreComponents(f, pairs)
  {
    f := new Forest();
    forall y ensures Connected([], y, y) { ConnectedSelf([], y); }
    assert pairs[..0] == [];
    for k := 0 to |pairs|
      invariant fresh(f) && f.Valid() && RootsAreComponents(f, pairs[..k])
    {
      var pair := pairs[k];
      label before:
      f.Union(pair.a, pair.b);
      assert pairs[..k + 1] == pairs[..k] + [pair];
      forall y ensures Connected(pairs[..k + 1], y, f.RootOf(y)) {
        UnionStep(pairs[..k], pair, y, old@before(f.RootOf(y)), old@before(f.RootOf(pair.a)),
                  old@before(f.RootOf(pair.b)));
      }
    }
    assert pairs[..|pairs|] == pairs;
  }

  predicate InSomePair(pairs: seq<Pair>, x: Id) {
    exists k :: 0 <= k < |pairs| && (pairs[k].a == x || pairs[k].b == x)
  }

  lemma InSomePairStep(pairs: seq<Pair>, pair: Pair, x: Id)
    ensures InSomePair(pairs + [pair], x) <==> InSomePair(pairs, x) || x == pair.a || x == pair.b
  {
    var all := pairs + [pair];
    if k :| 0 <= k < |pairs| && (pairs[k].a == x || pairs[k].b == x) { assert all[k] == pairs[k]; }
    assert all[|pairs|] == pair;
  }

  predicate InClass(classes: map<Id, set<Id>>, r: Id, x: Id) { r in classes && x in classes[r] }

  // The grouping loop: the classes are the connected components of the pairs, one
  // per root.
  method Components(pairs: seq<Pair>) returns (classes: map<Id, set<Id>>)
    ensures forall r, x :: InClass(classes, r, x) ==> InSomePair(pairs, x)
    ensures forall x :: InSomePair(pairs, x) ==> exists r :: InClass(classes, r, x)
    ensures forall r, x, y :: InClass(classes, r, x) && InSomePair(pairs, y) ==>
              (InClass(classes, r, y) <==> Connected(pairs, x, y))
    ensures forall r, s, x :: InClass(classes, r, x) && InClass(classes, s, x) ==> r == s
  {
    var f := UnionAll(pairs);
    classes := map[];
    assert forall x :: !InSomePair(pairs[..0], x);
    for k := 0 to |pairs|
      invariant fresh(f) && f.Valid() && RootsAreComponents(f, pairs)
      invariant forall r, x :: InClass(classes, r, x) <==> InSomePair(pairs[..k], x) && f.RootOf(x) == r
    {
      assert pairs[..k + 1] == pairs[..k] + [pairs[k]];
      forall x
        ensures InSomePair(pairs[..k + 1], x) <==> InSomePair(pairs[..k], x) || x == pairs[k].a || x == pairs[k].b
      {
        InSomePairStep(pairs[..k], pairs[k], x);
      }
      ghost var before := classes;
      var root := FindRoot(f, pairs, pairs[k].a);
      assert f.RootOf(pairs[k].a) == f.RootOf(pairs[k].b);
      var group := if root in classes then classes[root] else {};
      classes := classes[root := group + {pairs[k].a, pairs[k].b}];
      forall r, x ensures InClass(classes, r, x) <==>
                          InClass(before, r, x) || (r == root && (x == pairs[k].a || x == pairs[k].b)) {}
    }
    assert pairs[..|pairs|] == pairs;
    forall x | InSomePair(pairs, x) ensures exists r :: InClass(classes, r, x) {
      assert InClass(classes, f.RootOf(x), x);
    }
    forall x, y ensures f.RootOf(x) == f.RootOf(y) <==> Connected(pairs, x, y) {
      OneRootIsConnected(f, pairs, x, y);
    }
  }

  method FindRoot(f: Forest, pairs: seq<Pair>, x: Id) returns (r: Id)
    requires f.Valid() && RootsAreComponents(f, pairs)
    modifies f
    ensures f.Valid() && RootsAreComponents(f, pairs) && r == f.RootOf(x)
    ensures forall y :: f.RootOf(y) == old(f.RootOf(y))
  {
    r := f.Find(x);
    forall y ensures Connected(pairs, y, f.RootOf(y)) { assert f.RootOf(y) == old(f.RootOf(y)); }
  }
}
