// Segment extraction of cdup/src/parse.py: what the pairs and parents say about the
// blocks, and the excision that leaves each character in exactly one segment.
module BraceSegments {
  import opened Braces
  import opened BracePairs

  // ---- Blocks and their parents ------------------------------------------------------------------------

  // Any two blocks lie apart, or the later one wholly inside the earlier.
  ghost predicate Bracketing(bs: seq<Block>, len: nat) {
    (forall i :: 0 <= i < |bs| ==> bs[i].open <= bs[i].close < len)
    && Ascending(bs)
    && forall i, j :: 0 <= i < j < |bs| ==> bs[i].close < bs[j].open || bs[j].close < bs[i].close
  }

  // p is the innermost block around j, and j itself when there is none.
  ghost predicate IsParent(bs: seq<Block>, j: int, p: int) {
    0 <= p <= j < |bs|
    && (p < j ==> bs[j].close < bs[p].close)
    && forall i :: 0 <= i < j && (p < j ==> p < i) ==> bs[i].close < bs[j].open
  }

  // The list of parents, which may be longer than the list of blocks, is right for each
  // of them.
  ghost predicate Nested(bs: seq<Block>, parents: seq<nat>, len: nat) {
    Bracketing(bs, len) && |bs| <= |parents|
    && forall j :: 0 <= j < |bs| ==> IsParent(bs, j, parents[j])
  }

  lemma {:induction false} StackCounts(bits: seq<bool>)
    requires Run(bits).Some?
    ensures var s := Run(bits).value; s.nOpen == s.nClose + |s.stack|
  {
    if bits != [] { StackCounts(bits[..|bits| - 1]); }
  }

  lemma LinksInRange(s: Pass, opens: seq<nat>, closes: seq<nat>, limit: nat)
    requires Fits(s, opens, closes, limit)
    ensures forall l :: l in s.links ==>
              ClosedAs(s, l.open, l.close) && 0 <= l.open < |opens| && 0 <= l.close < |closes|
  {
    forall l | l in s.links ensures ClosedAs(s, l.open, l.close) && 0 <= l.open < |opens| && 0 <= l.close < |closes| {
      assert l == Link(l.open, l.close);
      assert ClosedAs(s, l.open, l.close);
    }
  }

  lemma PositionsAreDistinct(s: Pass, opens: seq<nat>, closes: seq<nat>, limit: nat)
    requires Fits(s, opens, closes, limit)
    ensures forall l :: l in s.links ==> 0 <= l.open < |opens| && 0 <= l.close < |closes|
    ensures DistinctOpens(Positions(s.links, opens, closes))
  {
    LinksInRange(s, opens, closes, limit);
    var ps := Positions(s.links, opens, closes);
    forall x, y | 0 <= x < y < |ps| ensures ps[x].open != ps[y].open {
      assert s.links[x].open != s.links[y].open && s.links[x] in s.links && s.links[y] in s.links;
    }
  }

  // Block b joins the opening brace i to the closing brace c.
  ghost predicate Joins(s: Pass, opens: seq<nat>, closes: seq<nat>, b: Block, i: int, c: int) {
    0 <= i < |opens| && 0 <= c < |closes| && ClosedAs(s, i, c) && b == Block(opens[i], closes[c])
  }

  lemma PairJoins(s: Pass, opens: seq<nat>, closes: seq<nat>, limit: nat, b: Block)
    requires Fits(s, opens, closes, limit)
    ensures forall l :: l in s.links ==> 0 <= l.open < |opens| && 0 <= l.close < |closes|
    ensures b in Positions(s.links, opens, closes) ==> exists i, c :: Joins(s, opens, closes, b, i, c)
  {
    hide Fits;
    LinksInRange(s, opens, closes, limit);
    var ps := Positions(s.links, opens, closes);
    if b in ps {
      var k :| 0 <= k < |ps| && ps[k] == b;
      var l := s.links[k];
      assert l in s.links && Joins(s, opens, closes, b, l.open, l.close);
    }
  }

  lemma JoinedNest(s: Pass, opens: seq<nat>, closes: seq<nat>, limit: nat, x: Block, i: int, c: int, y: Block, j: int,
                   d: int)
    requires Fits(s, opens, closes, limit) && Joins(s, opens, closes, x, i, c) && Joins(s, opens, closes, y, j, d)
    ensures x.open <= x.close < limit
    ensures x.open < y.open ==> x.close < y.open || y.close < x.close
  {
    if x.open < y.open {
      assert i < j;
      assert closes[c] < opens[j] || exists d' :: ClosedAs(s, j, d') && closes[d'] < closes[c];
    }
  }

  // The pairs that were closed nest, whether or not every brace is closed.
  lemma PairsNest(s: Pass, opens: seq<nat>, closes: seq<nat>, limit: nat)
    requires Fits(s, opens, closes, limit)
    ensures forall l :: l in s.links ==> 0 <= l.open < |opens| && 0 <= l.close < |closes|
    ensures Bracketing(SortByOpen(Positions(s.links, opens, closes)), limit)
    ensures |SortByOpen(Positions(s.links, opens, closes))| == |s.links|
    ensures forall b :: b in SortByOpen(Positions(s.links, opens, closes)) ==>
              exists i, c :: Joins(s, opens, closes, b, i, c)
  {
    hide Fits, Joins, SortByOpen;
    PositionsAreDistinct(s, opens, closes, limit);
    var ps := Positions(s.links, opens, closes);
    SortKeeps(ps);
    var bs := SortByOpen(ps);
    forall b | b in bs ensures exists i, c :: Joins(s, opens, closes, b, i, c) {
      PairJoins(s, opens, closes, limit, b);
    }
    forall x, y | 0 <= x < |bs| && 0 <= y < |bs|
      ensures bs[x].open <= bs[x].close < limit
      ensures bs[x].open < bs[y].open ==> bs[x].close < bs[y].open || bs[y].close < bs[x].close
    {
      assert bs[x] in bs && bs[y] in bs;
      var i, c :| Joins(s, opens, closes, bs[x], i, c);
      var j, d :| Joins(s, opens, closes, bs[y], j, d);
      JoinedNest(s, opens, closes, limit, bs[x], i, c, bs[y], j, d);
    }
    SpansNest(bs, limit);
  }

  lemma SpansNest(bs: seq<Block>, limit: nat)
    requires Ascending(bs)
    requires forall x, y :: 0 <= x < |bs| && 0 <= y < |bs| ==>
               bs[x].open <= bs[x].close < limit
               && (bs[x].open < bs[y].open ==> bs[x].close < bs[y].open || bs[y].close < bs[x].close)
    ensures Bracketing(bs, limit)
  {}

  // ---- When the unclosed braces come last ---------------------------------------------------------------

  ghost predicate IsClosed(s: Pass, i: int) { exists c :: ClosedAs(s, i, c) }

  ghost function CloseOf(s: Pass, i: int): (c: int)
    ensures IsClosed(s, i) ==> ClosedAs(s, i, c)
  {
    if IsClosed(s, i) then var c :| ClosedAs(s, i, c); c else 0
  }

  // The first braces opened are the ones that were closed.
  predicate ClosedFirst(bits: seq<bool>) {
    Run(bits).Some? && FirstClosed(Run(bits).value)
  }

  predicate FirstClosed(s: Pass) {
    forall i :: 0 <= i < s.nOpen ==> (i in s.stack <==> i >= s.nClose)
  }

  // A text that closes every brace is one case of it.
  lemma WellNestedIsClosedFirst(bits: seq<bool>)
    requires WellNested(bits)
    ensures ClosedFirst(bits) && Run(bits).value.nClose == Run(bits).value.nOpen
  {
    StackCounts(bits);
  }

  ghost predicate Finished(s: Pass, opens: seq<nat>, closes: seq<nat>, limit: nat) {
    Fits(s, opens, closes, limit) && FirstClosed(s) && s.nClose <= s.nOpen
  }

  lemma AllClosed(s: Pass, opens: seq<nat>, closes: seq<nat>, limit: nat)
    requires Finished(s, opens, closes, limit)
    ensures s.nClose == |closes| <= |opens|
    ensures forall i :: 0 <= i < |closes| ==> IsClosed(s, i) && 0 <= CloseOf(s, i) < |closes|
    ensures forall i, c :: ClosedAs(s, i, c) ==> 0 <= i < |closes| && c == CloseOf(s, i)
  {
    forall i | 0 <= i < |closes| ensures IsClosed(s, i) && 0 <= CloseOf(s, i) < |closes| {
      assert i !in s.stack;
    }
    forall i, c | ClosedAs(s, i, c) ensures 0 <= i < |closes| && c == CloseOf(s, i) {
      assert IsClosed(s, i);
      assert 0 <= i < |opens| && i !in s.stack;
    }
  }

  // The pairs by number of the opening brace.
  ghost function ByNumber(s: Pass, opens: seq<nat>, closes: seq<nat>): seq<Block>
    requires |closes| <= |opens| && forall i :: 0 <= i < |closes| ==> 0 <= CloseOf(s, i) < |closes|
  {
    seq(|closes|, i requires 0 <= i < |closes| => Block(opens[i], closes[CloseOf(s, i)]))
  }

  lemma SameMembers(s: Pass, opens: seq<nat>, closes: seq<nat>, limit: nat, b: Block)
    requires Finished(s, opens, closes, limit)
    ensures |closes| <= |opens| && forall i :: 0 <= i < |closes| ==> 0 <= CloseOf(s, i) < |closes|
    ensures forall l :: l in s.links ==> 0 <= l.open < |opens| && 0 <= l.close < |closes|
    ensures b in ByNumber(s, opens, closes) <==> b in Positions(s.links, opens, closes)
  {
    AllClosed(s, opens, closes, limit);
    LinksInRange(s, opens, closes, limit);
    hide Fits;
    var canon, ps := ByNumber(s, opens, closes), Positions(s.links, opens, closes);
    if b in canon {
      var i :| 0 <= i < |canon| && canon[i] == b;
      var k :| 0 <= k < |s.links| && s.links[k] == Link(i, CloseOf(s, i));
      assert ps[k] == b;
    }
    if b in ps {
      var k :| 0 <= k < |ps| && ps[k] == b;
      var l := s.links[k];
      assert l == Link(l.open, l.close) && ClosedAs(s, l.open, l.close);
      assert canon[l.open] == b;
    }
  }

  // Sorting puts the pair of the i-th opening brace at index i.
  lemma SortedPairs(s: Pass, opens: seq<nat>, closes: seq<nat>, limit: nat)
    requires Finished(s, opens, closes, limit)
    ensures |closes| <= |opens| && forall i :: 0 <= i < |closes| ==> 0 <= CloseOf(s, i) < |closes|
    ensures forall l :: l in s.links ==> 0 <= l.open < |opens| && 0 <= l.close < |closes|
    ensures SortByOpen(Positions(s.links, opens, closes)) == ByNumber(s, opens, closes)
  {
    AllClosed(s, opens, closes, limit);
    PositionsAreDistinct(s, opens, closes, limit);
    var ps := Positions(s.links, opens, closes);
    SortKeeps(ps);
    forall b ensures b in ByNumber(s, opens, closes) <==> b in ps {
      SameMembers(s, opens, closes, limit, b);
    }
    AscendingIsUnique(ByNumber(s, opens, closes), SortByOpen(ps));
  }

  // Pairs and recorded parents agree on what encloses what.
  lemma PairsAreNested(s: Pass, opens: seq<nat>, closes: seq<nat>, limit: nat)
    requires Finished(s, opens, closes, limit)
    ensures forall l :: l in s.links ==> 0 <= l.open < |opens| && 0 <= l.close < |closes|
    ensures Nested(SortByOpen(Positions(s.links, opens, closes)), s.parents, limit)
  {
    hide SortByOpen;
    PairsNest(s, opens, closes, limit);
    SortedPairs(s, opens, closes, limit);
    var bs := ByNumber(s, opens, closes);
    forall j | 0 <= j < |bs| ensures IsParent(bs, j, s.parents[j]) {
      ParentIsInnermost(s, opens, closes, limit, j);
    }
  }

  lemma ParentIsInnermost(s: Pass, opens: seq<nat>, closes: seq<nat>, limit: nat, j: nat)
    requires Finished(s, opens, closes, limit) && j < |closes|
    ensures |closes| <= |opens| && forall i :: 0 <= i < |closes| ==> 0 <= CloseOf(s, i) < |closes|
    ensures IsParent(ByNumber(s, opens, closes), j, s.parents[j])
  {
    AllClosed(s, opens, closes, limit);
    var bs, p := ByNumber(s, opens, closes), s.parents[j];
    assert ParentFits(s, opens, closes, j, p);
    if p < j {
      assert IsClosed(s, p) && p !in s.stack;
      assert bs[j].open <= bs[p].close;
      assert ClosedAs(s, p, CloseOf(s, p)) && ClosedAs(s, j, CloseOf(s, j));
    }
    forall i | 0 <= i < j && (p < j ==> p < i) ensures bs[i].close < bs[j].open {
      assert Before(s, opens, closes, i, j);
      var c :| 0 <= c < |closes| && ClosedAs(s, i, c) && closes[c] < opens[j];
    }
  }

  // ---- Owners ---------------------------------------------------------------------------------------

  predicate Holds(b: Block, q: int) { b.open <= q < b.close }

  // The innermost block around character q, -1 for the top level.
  function Owner(bs: seq<Block>, q: int): (i: int)
    ensures -1 <= i < |bs|
  {
    if bs == [] then -1
    else
      var m := |bs| - 1;
      if Holds(bs[m], q) then m else Owner(bs[..m], q)
  }

  lemma {:induction false} OwnerIsLast(bs: seq<Block>, q: int)
    ensures var i := Owner(bs, q);
            (i >= 0 ==> Holds(bs[i], q)) && forall k :: i < k < |bs| ==> !Holds(bs[k], q)
  {
    if bs != [] && !Holds(bs[|bs| - 1], q) {
      OwnerIsLast(bs[..|bs| - 1], q);
      assert forall k :: 0 <= k < |bs| - 1 ==> bs[..|bs| - 1][k] == bs[k];
    }
  }

  // Any other block around q encloses the owner.
  lemma OwnerIsInnermost(bs: seq<Block>, parents: seq<nat>, len: nat, q: int, k: nat)
    requires Nested(bs, parents, len) && k < |bs| && Holds(bs[k], q)
    ensures var i := Owner(bs, q); k <= i && (k < i ==> bs[k].open < bs[i].open && bs[i].close < bs[k].close)
  {
    OwnerIsLast(bs, q);
  }

  // ---- Segments -------------------------------------------------------------------------------------

  // The bounds of a segment: a block, or the whole text for the root (-1).
  function Lo(bs: seq<Block>, p: int): nat requires -1 <= p < |bs| { if p == -1 then 0 else bs[p].open }
  function Hi(bs: seq<Block>, len: nat, p: int): nat requires -1 <= p < |bs| { if p == -1 then len else bs[p].close }

  // Block c is cut out of segment p.
  predicate ChildOf(parents: seq<nat>, c: int, p: int) {
    0 <= c < |parents| && (if p == -1 then parents[c] == c else parents[c] == p && p != c)
  }

  predicate InChildFrom(bs: seq<Block>, parents: seq<nat>, p: int, k: nat, q: int) {
    exists c :: k <= c < |bs| && ChildOf(parents, c, p) && Holds(bs[c], q)
  }

  // The characters of text[lo..hi] outside p's children numbered k and up.
  function Kept<T>(text: seq<T>, bs: seq<Block>, parents: seq<nat>, p: int, k: nat, lo: nat, hi: nat): seq<T>
    requires hi <= |text|
    decreases hi
  {
    if hi <= lo then []
    else
      Kept(text, bs, parents, p, k, lo, hi - 1)
      + if InChildFrom(bs, parents, p, k, hi - 1) then [] else [text[hi - 1]]
  }

  // The characters of text[..hi] that belong to block i.
  function Mine<T>(text: seq<T>, bs: seq<Block>, i: int, hi: nat): seq<T>
    requires hi <= |text|
  {
    if hi == 0 then []
    else Mine(text, bs, i, hi - 1) + if Owner(bs, hi - 1) == i then [text[hi - 1]] else []
  }

  lemma {:induction false} KeptSplit<T>(text: seq<T>, bs: seq<Block>, parents: seq<nat>, p: int, k: nat, lo: nat,
                                        mid: nat, hi: nat)
    requires lo <= mid <= hi <= |text|
    ensures Kept(text, bs, parents, p, k, lo, hi) ==
              Kept(text, bs, parents, p, k, lo, mid) + Kept(text, bs, parents, p, k, mid, hi)
    decreases hi - mid
  {
    if mid < hi { KeptSplit(text, bs, parents, p, k, lo, mid, hi - 1); }
  }

  lemma {:induction false} KeptAll<T>(text: seq<T>, bs: seq<Block>, parents: seq<nat>, p: int, k: nat, lo: nat, hi: nat)
    requires lo <= hi <= |text| && forall q :: lo <= q < hi ==> !InChildFrom(bs, parents, p, k, q)
    ensures Kept(text, bs, parents, p, k, lo, hi) == text[lo..hi]
    decreases hi - lo
  {
    if lo < hi {
      KeptAll(text, bs, parents, p, k, lo, hi - 1);
      assert text[lo..hi] == text[lo..hi - 1] + [text[hi - 1]];
    }
  }

  lemma {:induction false} KeptNone<T>(text: seq<T>, bs: seq<Block>, parents: seq<nat>, p: int, k: nat, lo: nat,
                                       hi: nat)
    requires lo <= hi <= |text| && forall q :: lo <= q < hi ==> InChildFrom(bs, parents, p, k, q)
    ensures Kept(text, bs, parents, p, k, lo, hi) == []
    decreases hi - lo
  {
    if lo < hi { KeptNone(text, bs, parents, p, k, lo, hi - 1); }
  }

  lemma {:induction false} KeptSame<T>(text: seq<T>, bs: seq<Block>, parents: seq<nat>, p: int, k: nat, k': nat,
                                       lo: nat, hi: nat)
    requires lo <= hi <= |text|
    requires forall q :: lo <= q < hi ==> (InChildFrom(bs, parents, p, k, q) <==> InChildFrom(bs, parents, p, k', q))
    ensures Kept(text, bs, parents, p, k, lo, hi) == Kept(text, bs, parents, p, k', lo, hi)
    decreases hi - lo
  {
    if lo < hi { KeptSame(text, bs, parents, p, k, k', lo, hi - 1); }
  }

  // Children of p after i open beyond the end of i.
  lemma LaterChildren(bs: seq<Block>, parents: seq<nat>, len: nat, p: int, i: nat, k: nat)
    requires Nested(bs, parents, len) && i < |bs| && k == i + 1 && ChildOf(parents, i, p)
    ensures forall q :: q <= bs[i].close ==> !InChildFrom(bs, parents, p, k, q)
    ensures forall q :: InChildFrom(bs, parents, p, i, q) <==> Holds(bs[i], q) || InChildFrom(bs, parents, p, k, q)
  {
    forall c | i < c < |bs| && ChildOf(parents, c, p) ensures bs[i].close < bs[c].open {
      assert IsParent(bs, c, parents[c]);
    }
  }

  lemma ChildBounds(bs: seq<Block>, parents: seq<nat>, len: nat, p: int, i: nat)
    requires Nested(bs, parents, len) && i < |bs| && -1 <= p < |bs| && ChildOf(parents, i, p)
    ensures Lo(bs, p) <= bs[i].open <= bs[i].close <= Hi(bs, len, p) <= len
  {
    assert IsParent(bs, i, parents[i]);
  }

  // Segment p before and after child i is cut out: the same text on both sides of it.
  lemma CutStep<T>(text: seq<T>, bs: seq<Block>, parents: seq<nat>, p: int, i: nat, k: nat)
    requires Nested(bs, parents, |text|) && i < |bs| && k == i + 1 && -1 <= p < |bs| && ChildOf(parents, i, p)
    ensures Lo(bs, p) <= bs[i].open <= bs[i].close <= Hi(bs, |text|, p) <= |text|
    ensures var (lo, hi, a, b) := (Lo(bs, p), Hi(bs, |text|, p), bs[i].open, bs[i].close);
            Kept(text, bs, parents, p, k, lo, hi) == text[lo..a] + text[a..b] + Kept(text, bs, parents, p, k, b, hi)
            && Kept(text, bs, parents, p, i, lo, hi) == text[lo..a] + Kept(text, bs, parents, p, k, b, hi)
  {
    hide Nested, InChildFrom, Kept, ChildOf;
    var lo, hi, a, b := Lo(bs, p), Hi(bs, |text|, p), bs[i].open, bs[i].close;
    ChildBounds(bs, parents, |text|, p, i);
    LaterChildren(bs, parents, |text|, p, i, k);
    KeptSplit(text, bs, parents, p, k, lo, b, hi);
    KeptAll(text, bs, parents, p, k, lo, b);
    assert text[lo..b] == text[lo..a] + text[a..b];
    KeptSplit(text, bs, parents, p, i, lo, a, hi);
    KeptSplit(text, bs, parents, p, i, a, b, hi);
    KeptAll(text, bs, parents, p, i, lo, a);
    KeptNone(text, bs, parents, p, i, a, b);
    KeptSame(text, bs, parents, p, i, k, b, hi);
  }
}
