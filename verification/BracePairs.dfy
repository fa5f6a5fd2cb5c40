// The two stack passes of cdup/src/parse.py as loops, and the sorted pairs.
module BracePairs {
  import opened Wrappers
  import opened Braces

  datatype Block = Block(open: nat, close: nat)

  function Positions(links: seq<Link>, opens: seq<nat>, closes: seq<nat>): seq<Block>
    requires forall l :: l in links ==> 0 <= l.open < |opens| && 0 <= l.close < |closes|
  {
    seq(|links|, k requires 0 <= k < |links| => Block(opens[links[k].open], closes[links[k].close]))
  }

  // Both passes agree with Run on every prefix.
  lemma RunStep(bits: seq<bool>, e: nat)
    requires e < |bits| && Run(bits[..e]).Some?
    ensures Run(bits[..e + 1]) ==
            var s := Run(bits[..e]).value;
            if bits[e] then Some(Push(s)) else if s.stack == [] then None else Some(Pop(s))
  {
    assert bits[..e + 1][..e] == bits[..e];
  }

  // A failed prefix fails the whole list.
  lemma {:induction false} FailureStays(bits: seq<bool>, e: nat)
    requires e <= |bits| && Run(bits[..e]).None?
    ensures Run(bits).None?
    decreases |bits| - e
  {
    if e < |bits| {
      assert bits[..e + 1][..e] == bits[..e];
      FailureStays(bits, e + 1);
    } else {
      assert bits[..e] == bits;
    }
  }

  function CountOpens(bits: seq<bool>): nat {
    if bits == [] then 0 else CountOpens(bits[..|bits| - 1]) + if bits[|bits| - 1] then 1 else 0
  }

  // Numbers on the stack and in the links are numbers of braces already seen.
  ghost predicate Bounded(s: Pass) {
    (forall x :: 0 <= x < |s.stack| ==> s.stack[x] < s.nOpen)
    && forall l :: l in s.links ==> 0 <= l.open < s.nOpen && 0 <= l.close < s.nClose
  }

  lemma {:induction false} RunCounts(bits: seq<bool>)
    requires Run(bits).Some?
    ensures var s := Run(bits).value;
            s.nOpen == CountOpens(bits) && s.nClose == |bits| - CountOpens(bits) && Bounded(s)
  {
    if bits != [] {
      RunCounts(bits[..|bits| - 1]);
      BoundedStep(Run(bits[..|bits| - 1]).value);
    }
  }

  lemma BoundedStep(s: Pass)
    requires Bounded(s)
    ensures Bounded(Push(s)) && (s.stack != [] ==> Bounded(Pop(s)))
  {}

  lemma {:induction false} CountOpensGrows(bits: seq<bool>, e: nat)
    requires e <= |bits|
    ensures CountOpens(bits[..e]) <= CountOpens(bits)
    ensures e - CountOpens(bits[..e]) <= |bits| - CountOpens(bits)
    decreases |bits| - e
  {
    if e < |bits| {
      assert bits[..e + 1][..e] == bits[..e];
      CountOpensGrows(bits, e + 1);
    } else {
      assert bits[..e] == bits;
    }
  }

  // The loop's lists hold source positions where the pass holds numbers.
  ghost predicate Mirrors(s: Pass, opens: seq<nat>, closes: seq<nat>, stack: seq<nat>, done: seq<Block>) {
    s.nOpen <= |opens| && s.nClose <= |closes| && Bounded(s)
    && |stack| == |s.stack| && (forall x :: 0 <= x < |stack| ==> stack[x] == opens[s.stack[x]])
    && done == Positions(s.links, opens, closes)
  }

  lemma MirrorPush(s: Pass, opens: seq<nat>, closes: seq<nat>, stack: seq<nat>, done: seq<Block>)
    requires Mirrors(s, opens, closes, stack, done) && s.nOpen < |opens|
    ensures Mirrors(Push(s), opens, closes, stack + [opens[s.nOpen]], done)
  {
    BoundedStep(s);
  }

  lemma MirrorPop(s: Pass, opens: seq<nat>, closes: seq<nat>, stack: seq<nat>, done: seq<Block>)
    requires Mirrors(s, opens, closes, stack, done) && s.nClose < |closes| && stack != []
    ensures Mirrors(Pop(s), opens, closes, stack[..|stack| - 1],
                    done + [Block(stack[|stack| - 1], closes[s.nClose])])
  {
    BoundedStep(s);
    var r := Pop(s);
    assert Positions(r.links, opens, closes) == done + [Block(stack[|stack| - 1], closes[s.nClose])];
  }

  // _pair_opn_cls; None is the exception of a pop from the empty stack.
  method PairOpnCls(bits: seq<bool>, opens: seq<nat>, closes: seq<nat>) returns (pairs: Option<seq<Block>>)
    requires |opens| == CountOpens(bits) && |closes| == |bits| - CountOpens(bits)
    ensures pairs.None? <==> Run(bits).None?
    ensures pairs.Some? ==> exists stack :: Mirrors(Run(bits).value, opens, closes, stack, pairs.value)
  {
    hide Mirrors, Push, Pop, Bounded;
    var done: seq<Block>, stack: seq<nat>, oidx: nat, cidx: nat := [], [], 0, 0;
    MirrorsStart(opens, closes);
    assert bits[..0] == [];
    for e := 0 to |bits|
      invariant Run(bits[..e]).Some?
      invariant oidx == Run(bits[..e]).value.nOpen && cidx == Run(bits[..e]).value.nClose
      invariant Mirrors(Run(bits[..e]).value, opens, closes, stack, done)
    {
      ghost var s := Run(bits[..e]).value;
      RunStep(bits, e);
      RunCounts(bits[..e]);
      CountOpensGrows(bits, e + 1);
      assert bits[..e + 1][..e] == bits[..e];
      StackSizes(s, opens, closes, stack, done);
      if bits[e] {
        MirrorPush(s, opens, closes, stack, done);
        stack := stack + [opens[oidx]];
        oidx := oidx + 1;
      } else {
        if stack == [] {
          FailureStays(bits, e + 1);
          return None;
        }
        MirrorPop(s, opens, closes, stack, done);
        done := done + [Block(stack[|stack| - 1], closes[cidx])];
        stack := stack[..|stack| - 1];
        cidx := cidx + 1;
      }
    }
    assert bits[..|bits|] == bits;
    return Some(done);
  }

  lemma MirrorsStart(opens: seq<nat>, closes: seq<nat>)
    ensures Mirrors(Pass([], 0, 0, [], []), opens, closes, [], [])
  {}

  lemma StackSizes(s: Pass, opens: seq<nat>, closes: seq<nat>, stack: seq<nat>, done: seq<Block>)
    requires Mirrors(s, opens, closes, stack, done)
    ensures |stack| == |s.stack|
    ensures Push(s).nOpen == s.nOpen + 1 && Push(s).nClose == s.nClose
    ensures s.stack != [] ==> Pop(s).nOpen == s.nOpen && Pop(s).nClose == s.nClose + 1
  {}

  // _find_nested_pairs.  A pop from the empty stack raises here as well.
  method FindNestedPairs(bits: seq<bool>) returns (parents: Option<seq<nat>>)
    ensures parents.None? <==> Run(bits).None?
    ensures parents.Some? ==> parents.value == Run(bits).value.parents
  {
    var list: seq<nat>, stack: seq<nat>, pairIdx: nat := [], [], 0;
    for e := 0 to |bits|
      invariant Run(bits[..e]).Some?
      invariant var s := Run(bits[..e]).value; stack == s.stack && pairIdx == s.nOpen && list == s.parents
    {
      RunStep(bits, e);
      if bits[e] {
        list := list + [if stack != [] then stack[|stack| - 1] else pairIdx];
        stack := stack + [pairIdx];
        pairIdx := pairIdx + 1;
      } else {
        if stack == [] {
          FailureStays(bits, e + 1);
          return None;
        }
        stack := stack[..|stack| - 1];
      }
    }
    assert bits[..|bits|] == bits;
    return Some(list);
  }

  // ---- Sorting the pairs by opening position ------------------------------------------------------

  function InsertByOpen(sorted: seq<Block>, b: Block): seq<Block> {
    if sorted == [] || b.open < sorted[0].open then [b] + sorted else [sorted[0]] + InsertByOpen(sorted[1..], b)
  }

  // sorted(pairs, key=open): stable, ascending.
  function SortByOpen(pairs: seq<Block>): seq<Block> {
    if pairs == [] then [] else InsertByOpen(SortByOpen(pairs[..|pairs| - 1]), pairs[|pairs| - 1])
  }

  ghost predicate Ascending(bs: seq<Block>) {
    forall x, y :: 0 <= x < y < |bs| ==> bs[x].open < bs[y].open
  }

  ghost predicate DistinctOpens(bs: seq<Block>) {
    forall x, y :: 0 <= x < y < |bs| ==> bs[x].open != bs[y].open
  }

  lemma {:induction false} InsertKeeps(sorted: seq<Block>, b: Block)
    requires Ascending(sorted) && forall s :: s in sorted ==> s.open != b.open
    ensures var r := InsertByOpen(sorted, b);
            Ascending(r) && |r| == |sorted| + 1 && forall x :: x in r <==> x in sorted || x == b
  {
    if sorted != [] && b.open >= sorted[0].open {
      var rest := InsertByOpen(sorted[1..], b);
      InsertKeeps(sorted[1..], b);
      assert sorted == [sorted[0]] + sorted[1..];
      assert sorted[0] in sorted;
      forall s | s in sorted[1..] ensures sorted[0].open < s.open {
        var k :| 0 <= k < |sorted[1..]| && sorted[1..][k] == s;
        assert sorted[0].open < sorted[k + 1].open;
      }
      AscendingFrom(sorted[0], rest);
    }
  }

  lemma AscendingFrom(b: Block, rest: seq<Block>)
    requires Ascending(rest) && forall s :: s in rest ==> b.open < s.open
    ensures Ascending([b] + rest)
  {
    var r := [b] + rest;
    forall y | 0 < y < |r| ensures r[0].open < r[y].open {
      assert r[y] == rest[y - 1] && rest[y - 1] in rest;
    }
    assert forall y :: 0 < y < |r| ==> r[y] == rest[y - 1];
  }

  lemma {:induction false} SortKeeps(pairs: seq<Block>)
    requires DistinctOpens(pairs)
    ensures var r := SortByOpen(pairs);
            Ascending(r) && |r| == |pairs| && forall x :: x in r <==> x in pairs
  {
    hide InsertByOpen, DistinctOpens;
    if pairs != [] {
      var m := |pairs| - 1;
      LastOpen(pairs);
      SortKeeps(pairs[..m]);
      InsertKeeps(SortByOpen(pairs[..m]), pairs[m]);
    }
  }

  lemma LastOpen(pairs: seq<Block>)
    requires DistinctOpens(pairs) && pairs != []
    ensures var m := |pairs| - 1;
            DistinctOpens(pairs[..m]) && (forall s :: s in pairs[..m] ==> s.open != pairs[m].open)
            && forall x :: x in pairs <==> x in pairs[..m] || x == pairs[m]
  {
    var m := |pairs| - 1;
    assert pairs == pairs[..m] + [pairs[m]];
    forall s | s in pairs[..m] ensures s.open != pairs[m].open {
      var k :| 0 <= k < m && pairs[..m][k] == s;
      assert pairs[k] == s;
    }
  }

  // Two ascending lists with the same members are the same list.
  lemma {:induction false} AscendingIsUnique(a: seq<Block>, b: seq<Block>)
    requires |a| == |b| && Ascending(a) && Ascending(b) && forall x :: x in a <==> x in b
    ensures a == b
  {
    if a != [] {
      assert a[0] in a && b[0] in b;
      var i :| 0 <= i < |a| && a[i] == b[0];
      var j :| 0 <= j < |b| && b[j] == a[0];
      assert a[0] == b[0];
      forall x ensures x in a[1..] <==> x in b[1..] {
        TailMembers(a, x);
        TailMembers(b, x);
      }
      AscendingIsUnique(a[1..], b[1..]);
      assert a == [a[0]] + a[1..] && b == [b[0]] + b[1..];
    }
  }

  lemma TailMembers(a: seq<Block>, x: Block)
    requires Ascending(a) && a != []
    ensures x in a[1..] <==> x in a && x != a[0]
  {
    assert a == [a[0]] + a[1..];
    if x in a[1..] {
      var k :| 0 <= k < |a[1..]| && a[1..][k] == x;
      assert a[k + 1] == x;
    }
  }
}
