// Repeated blocks in a sequence of statement keys: what the offset scans of
// cdup/legacy/core.py and cdup/src/detect.py look for.
module CloneRuns {
  import opened Wrappers

  // A normalised statement text.
  type Key = string

  // Two equal blocks: [a, a+len) and [b, b+len).
  datatype Pair = Pair(a: int, b: int, len: int)

  // Position i and the one d later.  A position without a key (a barrier, or a statement that is too frequent)
  // matches nothing.
  predicate Match(keys: seq<Option<Key>>, d: int, i: int) {
    0 <= i < i + d < |keys| && keys[i].Some? && keys[i] == keys[i + d]
  }

  ghost predicate Equal(keys: seq<Option<Key>>, d: int, a: int, len: int) {
    forall k :: a <= k < a + len ==> Match(keys, d, k)
  }

  // A repeated block that extends neither to the left nor to the right.
  ghost predicate Maximal(keys: seq<Option<Key>>, p: Pair) {
    0 <= p.a < p.b && 1 <= p.len && Equal(keys, p.b - p.a, p.a, p.len)
    && !Match(keys, p.b - p.a, p.a - 1) && !Match(keys, p.b - p.a, p.a + p.len)
  }

  // Number of consecutive matches at offset d that end just before position i.
  ghost function Run(keys: seq<Option<Key>>, d: int, i: int): (n: nat)
    ensures n <= if i < 0 then 0 else i
    decreases i
  {
    if i <= 0 || !Match(keys, d, i - 1) then 0 else 1 + Run(keys, d, i - 1)
  }

  lemma {:induction false} RunIsEqual(keys: seq<Option<Key>>, d: int, i: nat)
    requires d > 0
    ensures var n := Run(keys, d, i);
            Equal(keys, d, i - n, n) && !Match(keys, d, i - n - 1)
    decreases i
  {
    if i > 0 && Match(keys, d, i - 1) { RunIsEqual(keys, d, i - 1); }
  }

  // A maximal block is the run that ends where it ends.
  lemma {:induction false} MaximalIsRun(keys: seq<Option<Key>>, p: Pair)
    requires Maximal(keys, p)
    ensures Run(keys, p.b - p.a, p.a + p.len) == p.len
  {
    EqualRun(keys, p.b - p.a, p.a, p.len);
  }

  lemma {:induction false} EqualRun(keys: seq<Option<Key>>, d: int, a: nat, len: nat)
    requires d > 0 && !Match(keys, d, a - 1)
    requires Equal(keys, d, a, len)
    ensures Run(keys, d, a + len) == len
  {
    if len > 0 { EqualRun(keys, d, a, len - 1); }
  }

  // The run that ends at position i, as a pair; it is maximal when the match stops there.
  function RunPair(d: int, i: int, n: int): Pair { Pair(i - n, i - n + d, n) }

  lemma RunPairIsMaximal(keys: seq<Option<Key>>, d: int, i: nat)
    requires d > 0 && Run(keys, d, i) >= 1 && !Match(keys, d, i)
    ensures Maximal(keys, RunPair(d, i, Run(keys, d, i)))
  {
    hide Run, Match, Equal;
    RunIsEqual(keys, d, i);
  }

  // Any repeated block lies inside a maximal one at the same offset, and only one.
  lemma BlockLiesInMaximal(keys: seq<Option<Key>>, p: Pair) returns (m: Pair)
    requires 0 <= p.a < p.b && 1 <= p.len && Equal(keys, p.b - p.a, p.a, p.len)
    ensures Maximal(keys, m) && m.b - m.a == p.b - p.a && m.a <= p.a && p.a + p.len <= m.a + m.len
    ensures forall q :: Maximal(keys, q) && q.b - q.a == p.b - p.a && q.a <= p.a && p.a + p.len <= q.a + q.len ==>
              q == m
  {
    var d, end := p.b - p.a, p.a + p.len;
    assert Match(keys, d, end - 1);
    while Match(keys, d, end)
      invariant p.a + p.len <= end < |keys| && Equal(keys, d, p.a, end - p.a)
      decreases |keys| - end
    {
      end := end + 1;
    }
    RunIsEqual(keys, d, end);
    RunReaches(keys, d, p.a, end);
    m := RunPair(d, end, Run(keys, d, end));
    RunPairIsMaximal(keys, d, end);
    forall q | Maximal(keys, q) && q.b - q.a == d && q.a <= p.a && p.a + p.len <= q.a + q.len
      ensures q == m
    {
      SameMaximal(keys, q, m, p.a);
    }
  }

  lemma {:induction false} RunReaches(keys: seq<Option<Key>>, d: int, a: nat, end: nat)
    requires d > 0 && a <= end && Equal(keys, d, a, end - a)
    ensures Run(keys, d, end) >= end - a
    decreases end
  {
    if a < end { RunReaches(keys, d, a, end - 1); }
  }

  // Maximal blocks at one offset do not overlap.
  lemma SameMaximal(keys: seq<Option<Key>>, p: Pair, q: Pair, k: int)
    requires Maximal(keys, p) && Maximal(keys, q) && p.b - p.a == q.b - q.a
    requires p.a <= k < p.a + p.len && q.a <= k < q.a + q.len
    ensures p == q
  {
    var d := p.b - p.a;
    assert p.a < q.a ==> Match(keys, d, q.a - 1);
    assert q.a < p.a ==> Match(keys, d, p.a - 1);
    assert p.a == q.a && p.len < q.len ==> Match(keys, d, p.a + p.len);
    assert p.a == q.a && q.len < p.len ==> Match(keys, d, q.a + q.len);
  }
}
