// The excision of cdup/src/parse.py: which segments it leaves, when they partition the
// text, and that they rebuild it.
module BraceLaws {
  import opened Wrappers
  import opened Braces
  import opened BracePairs
  import opened BraceSegments

  // ---- Cutting the children out ---------------------------------------------------------------------

  // Segment p with its children numbered k and up cut out.
  function Cut<T>(text: seq<T>, bs: seq<Block>, parents: seq<nat>, p: int, k: nat): seq<T>
    requires -1 <= p < |bs| && Hi(bs, |text|, p) <= |text|
  {
    Kept(text, bs, parents, p, k, Lo(bs, p), Hi(bs, |text|, p))
  }

  lemma SlicesOfCut<T>(text: seq<T>, bs: seq<Block>, parents: seq<nat>, p: int, i: nat, k: nat)
    requires Nested(bs, parents, |text|) && i < |bs| && k == i + 1 && -1 <= p < |bs| && ChildOf(parents, i, p)
    ensures Hi(bs, |text|, p) <= |text|
    ensures var t := Cut(text, bs, parents, p, k);
            var (s, e) := (bs[i].open - Lo(bs, p), bs[i].close - Lo(bs, p));
            0 <= s <= e <= |t| && Cut(text, bs, parents, p, i) == t[..s] + t[e..]
            && t == Cut(text, bs, parents, p, i)[..s] + text[bs[i].open..bs[i].close]
                    + Cut(text, bs, parents, p, i)[s..]
            && s <= |Cut(text, bs, parents, p, i)|
  {
    hide Nested, ChildOf, Kept;
    CutStep(text, bs, parents, p, i, k);
    var lo, hi, a, b := Lo(bs, p), Hi(bs, |text|, p), bs[i].open, bs[i].close;
    var head, mid, tail := text[lo..a], text[a..b], Kept(text, bs, parents, p, k, b, hi);
    var t := Cut(text, bs, parents, p, k);
    assert t == head + mid + tail;
    assert t[..a - lo] == head && t[b - lo..] == tail;
    var u := Cut(text, bs, parents, p, i);
    assert u == head + tail;
    assert u[..a - lo] == head && u[a - lo..] == tail;
  }

  lemma CutUnchanged<T>(text: seq<T>, bs: seq<Block>, parents: seq<nat>, p: int, i: nat, k: nat)
    requires Nested(bs, parents, |text|) && i < |bs| && k == i + 1 && -1 <= p < |bs| && !ChildOf(parents, i, p)
    ensures Hi(bs, |text|, p) <= |text|
    ensures Cut(text, bs, parents, p, k) == Cut(text, bs, parents, p, i)
  {
    if Lo(bs, p) <= Hi(bs, |text|, p) {
      assert forall q :: InChildFrom(bs, parents, p, i, q) <==> InChildFrom(bs, parents, p, k, q);
      KeptSame(text, bs, parents, p, i, k, Lo(bs, p), Hi(bs, |text|, p));
    }
  }

  lemma CutAtEnd<T>(text: seq<T>, bs: seq<Block>, parents: seq<nat>, p: int, k: nat)
    requires Nested(bs, parents, |text|) && -1 <= p < |bs| && k == |bs|
    ensures Lo(bs, p) <= Hi(bs, |text|, p) <= |text|
    ensures Cut(text, bs, parents, p, k) == text[Lo(bs, p)..Hi(bs, |text|, p)]
  {
    KeptAll(text, bs, parents, p, k, Lo(bs, p), Hi(bs, |text|, p));
  }

  lemma ChildIsLater(bs: seq<Block>, parents: seq<nat>, len: nat, p: int, i: nat)
    requires Nested(bs, parents, len) && i < |bs| && -1 <= p && ChildOf(parents, i, p)
    ensures p < i
  {
    assert IsParent(bs, i, parents[i]);
  }

  // ---- The excision loop -------------------------------------------------------------------------------

  // Slices of a list, cut short where they pass its end: xs[:a] + xs[b:].
  function Without<T>(xs: seq<T>, a: nat, b: nat): seq<T> {
    (if a <= |xs| then xs[..a] else xs) + if b <= |xs| then xs[b..] else []
  }

  // What the loop relies on: a parent is numbered no later than its child.
  ghost predicate Cuttable(bs: seq<Block>, parents: seq<nat>, len: nat) {
    |bs| <= |parents| && Ascending(bs)
    && forall i :: 0 <= i < |bs| ==> parents[i] <= i && bs[i].open <= bs[i].close < len
  }

  // Segment p after the turns of all blocks numbered k and up.
  function Left<T>(text: seq<T>, bs: seq<Block>, parents: seq<nat>, p: int, k: nat): seq<T>
    requires Cuttable(bs, parents, |text|) && -1 <= p < |bs| && k <= |bs|
    decreases |bs| - k
  {
    if k == |bs| then text[Lo(bs, p)..Hi(bs, |text|, p)]
    else
      var t := Left(text, bs, parents, p, k + 1);
      if ChildOf(parents, k, p) then Without(t, bs[k].open - Lo(bs, p), bs[k].close - Lo(bs, p)) else t
  }

  ghost predicate AllLeft(text: string, bs: seq<Block>, parents: seq<nat>, parts: seq<string>, k: nat)
    requires Cuttable(bs, parents, |text|) && k <= |bs|
  {
    |parts| == |bs| && forall p :: 0 <= p < |bs| ==> parts[p] == Left(text, bs, parents, p, k)
  }

  // One turn of the loop.
  method CutFromParent(text: string, bs: seq<Block>, parents: seq<nat>, parts: seq<string>, i: nat)
    returns (parts': seq<string>)
    requires Cuttable(bs, parents, |text|) && i < |bs| && AllLeft(text, bs, parents, parts, i + 1)
    ensures AllLeft(text, bs, parents, parts', i)
  {
    hide Without;
    parts' := parts;
    var parent := parents[i];
    if parent != i {
      var s, e := bs[i].open - bs[parent].open, bs[i].close - bs[parent].open;
      parts' := parts[parent := Without(parts[parent], s, e)];
    }
  }

  // _parse_code_segs.  The pairs come sorted, so descending opening position is
  // descending index.
  method ParseCodeSegs(text: string, bs: seq<Block>, parents: seq<nat>) returns (segs: seq<string>)
    requires Cuttable(bs, parents, |text|)
    ensures |segs| == |bs| + 1
    ensures forall p :: -1 <= p < |bs| ==> segs[p + 1] == Left(text, bs, parents, p, 0)
  {
    hide Left, AllLeft;
    var parts: seq<string> := [];
    for i := 0 to |bs|
      invariant |parts| == i && forall p :: 0 <= p < i ==> parts[p] == text[bs[p].open..bs[p].close]
    {
      parts := parts + [text[bs[i].open..bs[i].close]];
    }
    NothingCut(text, bs, parents, parts);
    for i := |bs| downto 0
      invariant AllLeft(text, bs, parents, parts, i)
    {
      parts := CutFromParent(text, bs, parents, parts, i);
    }
    var root := CutRoot(text, bs, parents);
    segs := [root] + parts;
    AllCutOut(text, bs, parents, parts);
  }

  lemma NothingCut(text: string, bs: seq<Block>, parents: seq<nat>, parts: seq<string>)
    requires Cuttable(bs, parents, |text|)
    requires |parts| == |bs| && forall p :: 0 <= p < |bs| ==> parts[p] == text[bs[p].open..bs[p].close]
    ensures AllLeft(text, bs, parents, parts, |bs|)
  {}

  lemma AllCutOut(text: string, bs: seq<Block>, parents: seq<nat>, parts: seq<string>)
    requires Cuttable(bs, parents, |text|) && AllLeft(text, bs, parents, parts, 0)
    ensures |parts| == |bs| && forall p :: 0 <= p < |bs| ==> parts[p] == Left(text, bs, parents, p, 0)
  {}

  method CutRoot(text: string, bs: seq<Block>, parents: seq<nat>) returns (root: string)
    requires Cuttable(bs, parents, |text|)
    ensures root == Left(text, bs, parents, -1, 0)
  {
    root := text;
    assert text[0..|text|] == text;
    for i := |bs| downto 0
      invariant root == Left(text, bs, parents, -1, i)
    {
      if parents[i] == i {
        root := Without(root, bs[i].open, bs[i].close);
      }
    }
  }

  // With the right parents every turn cuts out exactly its own block.
  lemma {:induction false} LeftIsCut<T>(text: seq<T>, bs: seq<Block>, parents: seq<nat>, p: int, k: nat)
    requires Nested(bs, parents, |text|) && -1 <= p < |bs| && k <= |bs|
    ensures Cuttable(bs, parents, |text|) && Hi(bs, |text|, p) <= |text|
    ensures Left(text, bs, parents, p, k) == Cut(text, bs, parents, p, k)
    decreases |bs| - k
  {
    hide Cut, ChildOf, Nested;
    NestedIsCuttable(bs, parents, |text|);
    CutAtEnd(text, bs, parents, p, |bs|);
    if k == |bs| {
    } else {
      LeftIsCut(text, bs, parents, p, k + 1);
      if ChildOf(parents, k, p) {
        SlicesOfCut(text, bs, parents, p, k, k + 1);
      } else {
        CutUnchanged(text, bs, parents, p, k, k + 1);
      }
    }
  }

  lemma NestedIsCuttable(bs: seq<Block>, parents: seq<nat>, len: nat)
    requires Nested(bs, parents, len)
    ensures Cuttable(bs, parents, len)
  {
    forall i | 0 <= i < |bs| ensures parents[i] <= i {
      assert IsParent(bs, i, parents[i]);
    }
  }

  // ---- Each character lands in the segment of its innermost block --------------------------------------

  lemma {:induction false} ChildAround(bs: seq<Block>, parents: seq<nat>, len: nat, p: int, o: int, q: int)
    requires Nested(bs, parents, len) && -1 <= p < o < |bs| && Holds(bs[o], q) && (p >= 0 ==> Holds(bs[p], q))
    ensures InChildFrom(bs, parents, p, 0, q)
    decreases o
  {
    assert IsParent(bs, o, parents[o]);
    if !ChildOf(parents, o, p) {
      ChildAround(bs, parents, len, p, parents[o], q);
    }
  }

  lemma KeptIsOwned(bs: seq<Block>, parents: seq<nat>, len: nat, p: int, q: int)
    requires Nested(bs, parents, len) && -1 <= p < |bs| && 0 <= q < len
    ensures Owner(bs, q) == p <==> Lo(bs, p) <= q < Hi(bs, len, p) && !InChildFrom(bs, parents, p, 0, q)
  {
    OwnerIsLast(bs, q);
    var o := Owner(bs, q);
    if o == p {
      forall c | 0 <= c < |bs| && ChildOf(parents, c, p) ensures !Holds(bs[c], q) {
        assert IsParent(bs, c, parents[c]);
      }
    } else if Lo(bs, p) <= q < Hi(bs, len, p) {
      ChildAround(bs, parents, len, p, o, q);
    }
  }

  function Clamp(h: nat, lo: nat, hi: nat): nat { if h < lo then lo else if h > hi then hi else h }

  lemma SpanFits(bs: seq<Block>, parents: seq<nat>, len: nat, p: int)
    requires Nested(bs, parents, len) && -1 <= p < |bs|
    ensures Lo(bs, p) <= Hi(bs, len, p) <= len
  {}

  lemma {:induction false} MineIsKept<T>(text: seq<T>, bs: seq<Block>, parents: seq<nat>, p: int, h: nat)
    requires Nested(bs, parents, |text|) && -1 <= p < |bs| && h <= |text|
    ensures Lo(bs, p) <= Hi(bs, |text|, p) <= |text|
    ensures Mine(text, bs, p, h) == Kept(text, bs, parents, p, 0, Lo(bs, p), Clamp(h, Lo(bs, p), Hi(bs, |text|, p)))
  {
    hide Nested, Owner, InChildFrom;
    var lo, hi := Lo(bs, p), Hi(bs, |text|, p);
    SpanFits(bs, parents, |text|, p);
    if h > 0 {
      MineIsKept(text, bs, parents, p, h - 1);
      KeptIsOwned(bs, parents, |text|, p, h - 1);
    }
  }

  // ---- When the segments partition the text ---------------------------------------------------------------

  // The parents the blocks really have.
  function Innermost(bs: seq<Block>, j: nat): nat
    requires j < |bs|
  {
    var p := Owner(bs[..j], bs[j].open);
    if p < 0 then j else p
  }

  function RightParents(bs: seq<Block>): seq<nat> {
    seq(|bs|, j requires 0 <= j < |bs| => Innermost(bs, j))
  }

  lemma RightIsNested(bs: seq<Block>, len: nat)
    requires Bracketing(bs, len)
    ensures Nested(bs, RightParents(bs), len)
  {
    forall j | 0 <= j < |bs| ensures IsParent(bs, j, Innermost(bs, j)) {
      OwnerIsLast(bs[..j], bs[j].open);
      assert forall i :: 0 <= i < j ==> bs[..j][i] == bs[i];
    }
  }

  lemma ParentIsUnique(bs: seq<Block>, len: nat, j: int, p: int, q: int)
    requires Bracketing(bs, len) && IsParent(bs, j, p) && IsParent(bs, j, q)
    ensures p == q
  {}

  // The recorded parents are right, except possibly those of empty blocks.
  ghost predicate ParentsRight(bs: seq<Block>, parents: seq<nat>) {
    |bs| <= |parents|
    && forall k :: 0 <= k < |bs| && bs[k].open < bs[k].close ==> IsParent(bs, k, parents[k])
  }

  lemma {:induction false} LeftSame<T>(text: seq<T>, bs: seq<Block>, parents: seq<nat>, right: seq<nat>, p: int, k: nat)
    requires Cuttable(bs, parents, |text|) && Cuttable(bs, right, |text|) && -1 <= p < |bs| && k <= |bs|
    requires forall j :: 0 <= j < |bs| && bs[j].open < bs[j].close ==> parents[j] == right[j]
    ensures Left(text, bs, parents, p, k) == Left(text, bs, right, p, k)
    decreases |bs| - k
  {
    if k < |bs| {
      LeftSame(text, bs, parents, right, p, k + 1);
      EmptyCut(text, bs, parents, p, k);
      EmptyCut(text, bs, right, p, k);
    }
  }

  lemma EmptyCut<T>(text: seq<T>, bs: seq<Block>, parents: seq<nat>, p: int, k: nat)
    requires Cuttable(bs, parents, |text|) && -1 <= p < |bs| && k < |bs|
    ensures bs[k].open == bs[k].close ==> Left(text, bs, parents, p, k) == Left(text, bs, parents, p, k + 1)
  {
    if bs[k].open == bs[k].close && ChildOf(parents, k, p) {
      var t, a := Left(text, bs, parents, p, k + 1), bs[k].open - Lo(bs, p);
      if a <= |t| { assert t == t[..a] + t[a..]; }
    }
  }

  // With right parents each character lands in the segment of its innermost block.
  lemma SegmentsPartition<T>(text: seq<T>, bs: seq<Block>, parents: seq<nat>, p: int)
    requires Bracketing(bs, |text|) && Cuttable(bs, parents, |text|) && ParentsRight(bs, parents) && -1 <= p < |bs|
    ensures Left(text, bs, parents, p, 0) == Mine(text, bs, p, |text|)
  {
    var right := RightParents(bs);
    RightIsNested(bs, |text|);
    NestedIsCuttable(bs, right, |text|);
    forall j | 0 <= j < |bs| && bs[j].open < bs[j].close ensures parents[j] == right[j] {
      ParentIsUnique(bs, |text|, j, parents[j], right[j]);
    }
    LeftSame(text, bs, parents, right, p, 0);
    LeftIsCut(text, bs, right, p, 0);
    MineIsKept(text, bs, right, p, |text|);
  }

  // The places of a text, one list element each.
  function Places(len: nat): seq<nat> { seq(len, i requires 0 <= i < len => i) }

  ghost predicate Increasing(xs: seq<nat>) { forall i, j :: 0 <= i < j < |xs| ==> xs[i] < xs[j] }

  // Turns that start after place q leave everything up to q where it was.
  lemma {:induction false} LeftKeeps(bs: seq<Block>, parents: seq<nat>, len: nat, p: int, k: nat, q: nat)
    requires Cuttable(bs, parents, len) && -1 <= p < |bs| && k <= |bs| && Lo(bs, p) <= q < Hi(bs, len, p)
    requires forall j :: k <= j < |bs| && ChildOf(parents, j, p) ==> q < bs[j].open
    ensures |Places(len)| == len
    ensures var t := Left(Places(len), bs, parents, p, k); q - Lo(bs, p) < |t| && t[q - Lo(bs, p)] == q
    decreases |bs| - k
  {
    if k < |bs| { LeftKeeps(bs, parents, len, p, k + 1, q); }
  }

  lemma {:induction false} LeftIncreases(bs: seq<Block>, parents: seq<nat>, len: nat, p: int, k: nat)
    requires Cuttable(bs, parents, len) && -1 <= p < |bs| && k <= |bs|
    ensures |Places(len)| == len
    ensures var t := Left(Places(len), bs, parents, p, k); Increasing(t) && |t| <= Hi(bs, len, p) - Lo(bs, p)
    decreases |bs| - k
  {
    if k < |bs| { LeftIncreases(bs, parents, len, p, k + 1); }
  }

  // What was cut out of a list of consecutive places is known from what is left.
  lemma Restored(t: seq<nat>, s: nat, e: nat)
    requires Increasing(t) && s <= e < |t| && t[e] == t[s] + (e - s)
    ensures t == Without(t, s, e)[..s] + seq(e - s, i requires 0 <= i < e - s => t[s] + i) + Without(t, s, e)[s..]
  {
    forall i | s <= i <= e ensures t[i] == t[s] + (i - s) {
      Climbs(t, s, i);
      Climbs(t, i, e);
    }
    assert Without(t, s, e)[..s] == t[..s] && Without(t, s, e)[s..] == t[e..];
  }

  lemma {:induction false} Climbs(t: seq<nat>, i: nat, j: nat)
    requires Increasing(t) && i <= j < |t|
    ensures t[j] >= t[i] + (j - i)
    decreases j - i
  {
    if i < j { Climbs(t, i, j - 1); }
  }

  lemma CutAway(t: seq<nat>, s: nat, e: nat)
    requires Increasing(t) && s < e && s < |t|
    ensures t[s] !in Without(t, s, e)
  {}

  // Block k lies wholly in segment p, or its turn does nothing there.
  lemma InsideOrIdle(bs: seq<Block>, parents: seq<nat>, len: nat, p: int, k: nat)
    requires Bracketing(bs, len) && Cuttable(bs, parents, len) && -1 <= p < |bs| && k < |bs|
    ensures |Places(len)| == len
    ensures (p < k && Lo(bs, p) <= bs[k].open <= bs[k].close < Hi(bs, len, p))
            || Left(Places(len), bs, parents, p, k) == Left(Places(len), bs, parents, p, k + 1)
  {
    LeftIncreases(bs, parents, len, p, k + 1);
  }

  // Block k, which is not empty and lies in segment p, is cut out of both or of neither.
  lemma InsideTurn(bs: seq<Block>, parents: seq<nat>, right: seq<nat>, len: nat, p: int, k: nat)
    requires Nested(bs, right, len) && Cuttable(bs, parents, len) && Cuttable(bs, right, len)
    requires -1 <= p < |bs| && k < |bs| && |Places(len)| == len
    requires p < k && Lo(bs, p) <= bs[k].open < bs[k].close < Hi(bs, len, p)
    requires Left(Places(len), bs, parents, p, k) == Left(Places(len), bs, right, p, k)
    ensures Left(Places(len), bs, parents, p, k + 1) == Left(Places(len), bs, right, p, k + 1)
    ensures ChildOf(right, k, p) ==> ChildOf(parents, k, p)
  {
    hide Nested, Increasing, Without, ChildOf;
    var lo, a, b := Lo(bs, p), bs[k].open, bs[k].close;
    var x, y := Left(Places(len), bs, parents, p, k + 1), Left(Places(len), bs, right, p, k + 1);
    LeftKeeps(bs, parents, len, p, k + 1, a);
    LeftKeeps(bs, right, len, p, k + 1, a);
    LeftIncreases(bs, parents, len, p, k + 1);
    LeftIncreases(bs, right, len, p, k + 1);
    assert a in x && a in y;
    CutAway(x, a - lo, b - lo);
    CutAway(y, a - lo, b - lo);
    assert ChildOf(parents, k, p) <==> ChildOf(right, k, p);
    if ChildOf(right, k, p) {
      LaterOpen(bs, right, len, p, k);
      LeftKeeps(bs, right, len, p, k + 1, b);
      SameBefore(x, y, a - lo, b - lo);
    }
  }

  // If the turns from k on leave the right places, so do those from k + 1 on, and a
  // block of segment p was cut out of it.
  lemma TurnIsRight(bs: seq<Block>, parents: seq<nat>, right: seq<nat>, len: nat, p: int, k: nat)
    requires Nested(bs, right, len) && Cuttable(bs, parents, len) && Cuttable(bs, right, len)
    requires -1 <= p < |bs| && k < |bs| && |Places(len)| == len
    requires Left(Places(len), bs, parents, p, k) == Left(Places(len), bs, right, p, k)
    ensures Left(Places(len), bs, parents, p, k + 1) == Left(Places(len), bs, right, p, k + 1)
    ensures bs[k].open < bs[k].close && ChildOf(right, k, p) ==> ChildOf(parents, k, p)
  {
    hide Left, Nested, ChildOf, Places;
    NestedBracket(bs, right, len);
    if bs[k].open == bs[k].close {
      EmptyCut(Places(len), bs, parents, p, k);
      EmptyCut(Places(len), bs, right, p, k);
    } else if p < k && Lo(bs, p) <= bs[k].open && bs[k].close < Hi(bs, len, p) {
      InsideTurn(bs, parents, right, len, p, k);
    } else {
      InsideOrIdle(bs, parents, len, p, k);
      InsideOrIdle(bs, right, len, p, k);
      if ChildOf(right, k, p) { ChildIsInside(bs, right, len, p, k); }
    }
  }

  lemma NestedBracket(bs: seq<Block>, parents: seq<nat>, len: nat)
    requires Nested(bs, parents, len)
    ensures Bracketing(bs, len)
  {}

  lemma ChildIsInside(bs: seq<Block>, parents: seq<nat>, len: nat, p: int, k: nat)
    requires Nested(bs, parents, len) && -1 <= p < |bs| && k < |bs| && ChildOf(parents, k, p)
    ensures p < k && Lo(bs, p) <= bs[k].open && bs[k].close < Hi(bs, len, p)
  {
    assert IsParent(bs, k, parents[k]);
  }

  lemma LaterOpen(bs: seq<Block>, parents: seq<nat>, len: nat, p: int, k: nat)
    requires Nested(bs, parents, len) && k < |bs| && ChildOf(parents, k, p)
    ensures forall j :: k < j < |bs| && ChildOf(parents, j, p) ==> bs[k].close < bs[j].open
  {
    forall j | k < j < |bs| && ChildOf(parents, j, p) ensures bs[k].close < bs[j].open {
      assert IsParent(bs, j, parents[j]);
    }
  }

  lemma SameBefore(x: seq<nat>, y: seq<nat>, s: nat, e: nat)
    requires Increasing(x) && Increasing(y) && s < e < |y| && s < |x|
    requires x[s] == y[s] && y[e] == y[s] + (e - s) && Without(x, s, e) == Without(y, s, e)
    ensures x == y
  {
    assert Without(y, s, e)[s] == y[e];
    assert |x| > e && Without(x, s, e)[s] == x[e];
    Restored(x, s, e);
    Restored(y, s, e);
  }

  lemma {:induction false} TurnsAreRight(bs: seq<Block>, parents: seq<nat>, right: seq<nat>, len: nat, p: int, k: nat)
    requires Nested(bs, right, len) && Cuttable(bs, parents, len) && Cuttable(bs, right, len)
    requires -1 <= p < |bs| && k < |bs| && |Places(len)| == len
    requires Left(Places(len), bs, parents, p, 0) == Left(Places(len), bs, right, p, 0)
    ensures Left(Places(len), bs, parents, p, k) == Left(Places(len), bs, right, p, k)
    ensures bs[k].open < bs[k].close && ChildOf(right, k, p) ==> ChildOf(parents, k, p)
  {
    hide Left, Places, Nested, Cuttable, ChildOf;
    if k > 0 {
      TurnsAreRight(bs, parents, right, len, p, k - 1);
      TurnIsRight(bs, parents, right, len, p, k - 1);
    }
    TurnIsRight(bs, parents, right, len, p, k);
  }

  lemma RecordedIsRight(bs: seq<Block>, parents: seq<nat>, right: seq<nat>, len: nat, k: nat)
    requires Nested(bs, right, len) && Cuttable(bs, parents, len) && Cuttable(bs, right, len)
    requires k < |bs| && bs[k].open < bs[k].close && |Places(len)| == len
    requires forall p :: -1 <= p < |bs| ==> Left(Places(len), bs, parents, p, 0) == Left(Places(len), bs, right, p, 0)
    ensures parents[k] == right[k]
  {
    hide Left, Places;
    assert IsParent(bs, k, right[k]);
    var p := if right[k] == k then -1 else right[k] as int;
    TurnsAreRight(bs, parents, right, len, p, k);
  }

  // Every place is left in the segment of its innermost block, and in no other, exactly
  // when the recorded parent of each block that is not empty is the block around it.
  lemma PartitionIffParents(bs: seq<Block>, parents: seq<nat>, len: nat)
    requires Bracketing(bs, len) && Cuttable(bs, parents, len)
    ensures |Places(len)| == len
    ensures Partitioned(bs, parents, len) <==> ParentsRight(bs, parents)
  {
    hide Partitioned, Bracketing, Cuttable, ParentsRight;
    if ParentsRight(bs, parents) { RightParentsPartition(bs, parents, len); }
    if Partitioned(bs, parents, len) { PartitionHasRightParents(bs, parents, len); }
  }

  ghost predicate Partitioned(bs: seq<Block>, parents: seq<nat>, len: nat)
    requires Cuttable(bs, parents, len)
  {
    forall p :: -1 <= p < |bs| ==> Left(Places(len), bs, parents, p, 0) == Mine(Places(len), bs, p, len)
  }

  lemma RightParentsPartition(bs: seq<Block>, parents: seq<nat>, len: nat)
    requires Bracketing(bs, len) && Cuttable(bs, parents, len) && ParentsRight(bs, parents)
    ensures Partitioned(bs, parents, len)
  {
    hide Left, Mine, Bracketing, Cuttable, ParentsRight;
    forall p | -1 <= p < |bs| ensures Left(Places(len), bs, parents, p, 0) == Mine(Places(len), bs, p, len) {
      SegmentsPartition(Places(len), bs, parents, p);
    }
  }

  lemma PartitionHasRightParents(bs: seq<Block>, parents: seq<nat>, len: nat)
    requires Bracketing(bs, len) && Cuttable(bs, parents, len) && Partitioned(bs, parents, len)
    ensures ParentsRight(bs, parents)
  {
    var right := RightParents(bs);
    RightIsNested(bs, len);
    NestedIsCuttable(bs, right, len);
    SameLeft(bs, parents, right, len);
    forall k | 0 <= k < |bs| && bs[k].open < bs[k].close ensures IsParent(bs, k, parents[k]) {
      assert IsParent(bs, k, right[k]);
      RecordedIsRight(bs, parents, right, len, k);
    }
  }

  lemma SameLeft(bs: seq<Block>, parents: seq<nat>, right: seq<nat>, len: nat)
    requires Cuttable(bs, parents, len) && Partitioned(bs, parents, len)
    requires Nested(bs, right, len) && Cuttable(bs, right, len)
    ensures forall p :: -1 <= p < |bs| ==> Left(Places(len), bs, parents, p, 0) == Left(Places(len), bs, right, p, 0)
  {
    hide Left, Mine, Bracketing, Cuttable, ParentsRight;
    NestedIsRight(bs, right, len);
    forall p | -1 <= p < |bs| ensures Left(Places(len), bs, parents, p, 0) == Left(Places(len), bs, right, p, 0) {
      SegmentsPartition(Places(len), bs, right, p);
    }
  }

  lemma NestedIsRight(bs: seq<Block>, parents: seq<nat>, len: nat)
    requires Nested(bs, parents, len)
    ensures ParentsRight(bs, parents)
  {}

  // ---- Putting the children back -------------------------------------------------------------------------

  // Segment p with its children numbered below k put back where they were cut out.
  function Rebuild(segs: seq<string>, bs: seq<Block>, parents: seq<nat>, p: int, k: nat): string
    requires |segs| == |bs| + 1 && -1 <= p < |bs| && k <= |bs|
    decreases |bs| - p, k
  {
    if k == 0 then segs[p + 1]
    else
      var t := Rebuild(segs, bs, parents, p, k - 1);
      var s := bs[k - 1].open - Lo(bs, p);
      if p < k - 1 && ChildOf(parents, k - 1, p) && 0 <= s <= |t|
      then t[..s] + Rebuild(segs, bs, parents, k - 1, |bs|) + t[s..]
      else t
  }

  lemma {:induction false} RebuildsText(text: string, bs: seq<Block>, parents: seq<nat>, segs: seq<string>, p: int,
                                        k: nat)
    requires Nested(bs, parents, |text|) && -1 <= p < |bs| && k <= |bs| == |segs| - 1
    requires forall p :: -1 <= p < |bs| ==> Hi(bs, |text|, p) <= |text| && segs[p + 1] == Cut(text, bs, parents, p, 0)
    ensures Hi(bs, |text|, p) <= |text| && Rebuild(segs, bs, parents, p, k) == Cut(text, bs, parents, p, k)
    decreases |bs| - p, k
  {
    hide Nested, ChildOf, Cut;
    if k > 0 {
      var i := k - 1;
      RebuildsText(text, bs, parents, segs, p, i);
      if ChildOf(parents, i, p) {
        ChildIsLater(bs, parents, |text|, p, i);
        RebuildsText(text, bs, parents, segs, i, |bs|);
        CutAtEnd(text, bs, parents, i, |bs|);
        SlicesOfCut(text, bs, parents, p, i, k);
      } else {
        CutUnchanged(text, bs, parents, p, i, k);
      }
    }
  }

  // An empty block has no text, and with right parents nothing is put back into it.
  lemma {:induction false} EmptyRebuild(bs: seq<Block>, parents: seq<nat>, len: nat, segs: seq<string>, p: nat, k: nat)
    requires Bracketing(bs, len) && ParentsRight(bs, parents) && p < |bs| == |segs| - 1 && k <= |bs|
    requires forall j :: 0 <= j < |bs| && bs[j].open == bs[j].close ==> segs[j + 1] == []
    requires bs[p].open == bs[p].close
    ensures Rebuild(segs, bs, parents, p, k) == []
    decreases |bs| - p, k
  {
    hide Rebuild, PutBack, Bracketing, ParentsRight, ChildOf;
    if k == 0 {
      NothingPut(segs, bs, parents, p);
    } else {
      var i := k - 1;
      EmptyRebuild(bs, parents, len, segs, p, i);
      RebuildIs(segs, bs, parents, p, i);
      if p < i && ChildOf(parents, i, p) {
        ChildOfEmpty(bs, parents, len, p, i);
        EmptyRebuild(bs, parents, len, segs, i, |bs|);
        NothingPutBack([], bs[i].open - Lo(bs, p));
      } else {
        NotPutBack([], bs[i].open - Lo(bs, p));
      }
    }
  }

  lemma ChildOfEmpty(bs: seq<Block>, parents: seq<nat>, len: nat, p: nat, c: nat)
    requires Bracketing(bs, len) && ParentsRight(bs, parents) && p < c < |bs| && ChildOf(parents, c, p)
    ensures bs[p].open == bs[p].close ==> bs[c].open == bs[c].close
  {}

  // So the wrong parents do not show.
  lemma {:induction false} RebuildSame(bs: seq<Block>, parents: seq<nat>, right: seq<nat>, len: nat, segs: seq<string>,
                                       p: int, k: nat)
    requires Bracketing(bs, len) && ParentsRight(bs, parents) && ParentsRight(bs, right)
    requires -1 <= p < |bs| == |segs| - 1 && k <= |bs|
    requires forall j :: 0 <= j < |bs| && bs[j].open < bs[j].close ==> parents[j] == right[j]
    requires forall j :: 0 <= j < |bs| && bs[j].open == bs[j].close ==> segs[j + 1] == []
    ensures Rebuild(segs, bs, parents, p, k) == Rebuild(segs, bs, right, p, k)
    decreases |bs| - p, k
  {
    hide Rebuild, PutBack, ParentsRight, ChildOf;
    if k == 0 {
      NothingPut(segs, bs, parents, p);
      NothingPut(segs, bs, right, p);
    } else {
      var i := k - 1;
      RebuildSame(bs, parents, right, len, segs, p, i);
      RebuildIs(segs, bs, parents, p, i);
      RebuildIs(segs, bs, right, p, i);
      if bs[i].open == bs[i].close {
        EmptyRebuild(bs, parents, len, segs, i, |bs|);
        EmptyRebuild(bs, right, len, segs, i, |bs|);
        NothingPutBack(Rebuild(segs, bs, parents, p, i), bs[i].open - Lo(bs, p));
      } else {
        SameChild(bs, parents, right, i, p);
        if p < i { RebuildSame(bs, parents, right, len, segs, i, |bs|); }
        NotPutBack(Rebuild(segs, bs, parents, p, i), bs[i].open - Lo(bs, p));
      }
    }
  }

  function PutBack(t: string, s: int, child: string, here: bool): string {
    if here && 0 <= s <= |t| then t[..s] + child + t[s..] else t
  }

  lemma NothingPutBack(t: string, s: int)
    ensures forall here :: PutBack(t, s, [], here) == t
  {}

  lemma NotPutBack(t: string, s: int)
    ensures forall child :: PutBack(t, s, child, false) == t
  {}

  lemma NothingPut(segs: seq<string>, bs: seq<Block>, parents: seq<nat>, p: int)
    requires |segs| == |bs| + 1 && -1 <= p < |bs|
    ensures Rebuild(segs, bs, parents, p, 0) == segs[p + 1]
  {}

  lemma RebuildIs(segs: seq<string>, bs: seq<Block>, parents: seq<nat>, p: int, i: nat)
    requires |segs| == |bs| + 1 && -1 <= p < |bs| && i < |bs|
    ensures Rebuild(segs, bs, parents, p, i + 1) ==
            PutBack(Rebuild(segs, bs, parents, p, i), bs[i].open - Lo(bs, p), Rebuild(segs, bs, parents, i, |bs|),
                    p < i && ChildOf(parents, i, p))
  {}

  lemma SameChild(bs: seq<Block>, parents: seq<nat>, right: seq<nat>, i: nat, p: int)
    requires ParentsRight(bs, parents) && ParentsRight(bs, right) && i < |bs| && parents[i] == right[i]
    ensures ChildOf(parents, i, p) <==> ChildOf(right, i, p)
  {}

  lemma NothingMine(text: string, bs: seq<Block>, i: nat, h: nat)
    requires i < |bs| && bs[i].open == bs[i].close && h <= |text|
    ensures Mine(text, bs, i, h) == []
  {
    if h > 0 {
      OwnerIsLast(bs, h - 1);
      NothingMine(text, bs, i, h - 1);
    }
  }

  // The segments left by the excision, put back together, are the text of every block.
  lemma RebuildsSpan(text: string, bs: seq<Block>, parents: seq<nat>, segs: seq<string>, p: int)
    requires Bracketing(bs, |text|) && Cuttable(bs, parents, |text|) && ParentsRight(bs, parents)
    requires -1 <= p < |bs| == |segs| - 1
    requires forall p :: -1 <= p < |bs| ==> segs[p + 1] == Left(text, bs, parents, p, 0)
    ensures Lo(bs, p) <= Hi(bs, |text|, p) <= |text|
    ensures Rebuild(segs, bs, parents, p, |bs|) == text[Lo(bs, p)..Hi(bs, |text|, p)]
  {
    hide Left, Mine, Rebuild, ParentsRight, Nested, Cut, Owner;
    var right := RightParents(bs);
    RightIsNested(bs, |text|);
    NestedIsRight(bs, right, |text|);
    NestedIsCuttable(bs, right, |text|);
    SameButEmpty(bs, parents, right, |text|);
    forall j | -1 <= j < |bs| ensures Hi(bs, |text|, j) <= |text| && segs[j + 1] == Cut(text, bs, right, j, 0) {
      LeftSame(text, bs, parents, right, j, 0);
      LeftIsCut(text, bs, right, j, 0);
    }
    forall j | 0 <= j < |bs| && bs[j].open == bs[j].close ensures segs[j + 1] == [] {
      SegmentsPartition(text, bs, parents, j);
      NothingMine(text, bs, j, |text|);
    }
    RebuildsText(text, bs, right, segs, p, |bs|);
    CutAtEnd(text, bs, right, p, |bs|);
    RebuildSame(bs, parents, right, |text|, segs, p, |bs|);
  }

  lemma SameButEmpty(bs: seq<Block>, parents: seq<nat>, right: seq<nat>, len: nat)
    requires Bracketing(bs, len) && ParentsRight(bs, parents) && ParentsRight(bs, right)
    ensures forall j :: 0 <= j < |bs| && bs[j].open < bs[j].close ==> parents[j] == right[j]
  {
    forall j | 0 <= j < |bs| && bs[j].open < bs[j].close ensures parents[j] == right[j] {
      ParentIsUnique(bs, len, j, parents[j], right[j]);
    }
  }

  // ---- The whole pass over a text ------------------------------------------------------------------------

  // PopError is the exception of a "}" or ")" with nothing to close.  With an unclosed
  // "{" there are fewer blocks than parents.
  datatype Segmented = Segments(bs: seq<Block>, parents: seq<nat>, segs: seq<string>, ids: seq<nat>) | PopError

  // Which of the brackets at the given places are opening ones.
  function Kinds(text: string, at: seq<nat>, open: char): seq<bool> {
    seq(|at|, e requires 0 <= e < |at| => at[e] < |text| && text[at[e]] == open)
  }

  function BraceBits(text: string): seq<bool> { Kinds(text, BlockBraces(text, 0, Code, 0), '{') }
  function ParenBits(text: string): seq<bool> { Kinds(text, Parens(text, 0, Code), '(') }

  lemma {:induction false} CountsOfLists(bits: seq<bool>, at: seq<nat>)
    requires |bits| == |at|
    ensures |OpensOf(bits, at)| == CountOpens(bits) && |ClosesOf(bits, at)| == |bits| - CountOpens(bits)
  {
    if bits != [] { CountsOfLists(bits[..|bits| - 1], at[..|at| - 1]); }
  }

  // Segment numbers put the root first: a top-level block's parent is segment 0.
  function ShiftParents(parents: seq<nat>): seq<nat> {
    [0] + seq(|parents|, i requires 0 <= i < |parents| => if parents[i] == i then 0 else parents[i] + 1)
  }

  // The sorted pairs and the parents of a bracket sequence that never closes too much.
  ghost predicate Paired(bits: seq<bool>, at: seq<nat>, bs: seq<Block>, parents: seq<nat>, len: nat) {
    |bits| == |at| && Run(bits).Some?
    && (forall l :: l in Run(bits).value.links ==>
          0 <= l.open < |OpensOf(bits, at)| && 0 <= l.close < |ClosesOf(bits, at)|)
    && bs == SortByOpen(Positions(Run(bits).value.links, OpensOf(bits, at), ClosesOf(bits, at)))
    && parents == Run(bits).value.parents
    && |parents| == CountOpens(bits) && |bs| == |bits| - CountOpens(bits)
    && Bracketing(bs, len) && Cuttable(bs, parents, len)
    && (ClosedFirst(bits) ==> Nested(bs, parents, len))
    && forall b :: b in bs ==> b.open in OpensOf(bits, at) && b.close in ClosesOf(bits, at)
  }

  lemma RunIsPaired(text: string, bits: seq<bool>, at: seq<nat>)
    requires InOrder(text, bits, at, |text|) && Run(bits).Some?
    ensures forall l :: l in Run(bits).value.links ==>
              0 <= l.open < |OpensOf(bits, at)| && 0 <= l.close < |ClosesOf(bits, at)|
    ensures Paired(bits, at, SortByOpen(Positions(Run(bits).value.links, OpensOf(bits, at), ClosesOf(bits, at))),
                   Run(bits).value.parents, |text|)
  {
    hide Run, SortByOpen, Positions, OpensOf, ClosesOf, LinksNest, Joins, IsParent;
    var s, opens, closes := Run(bits).value, OpensOf(bits, at), ClosesOf(bits, at);
    CountsOfLists(bits, at);
    RunFits(text, bits, at, |text|);
    StackCounts(bits);
    RunCounts(bits);
    PairsNest(s, opens, closes, |text|);
    if ClosedFirst(bits) { PairsAreNested(s, opens, closes, |text|); }
    var bs := SortByOpen(Positions(s.links, opens, closes));
    forall b | b in bs ensures b.open in opens && b.close in closes {
      var i, c :| Joins(s, opens, closes, b, i, c);
      JoinsIs(s, opens, closes, b, i, c);
    }
    forall i | 0 <= i < |bs| ensures s.parents[i] <= i {
      assert ParentFits(s, opens, closes, i, s.parents[i]);
    }
  }

  lemma JoinsIs(s: Pass, opens: seq<nat>, closes: seq<nat>, b: Block, i: int, c: int)
    requires Joins(s, opens, closes, b, i, c)
    ensures b.open in opens && b.close in closes
  {}

  // Both passes over one kind of bracket, and the sort.
  method PairBrackets(text: string, f: Found, ghost at: seq<nat>) returns (r: Option<(seq<Block>, seq<nat>)>)
    requires InOrder(text, f.bits, at, |text|) && f.opens == OpensOf(f.bits, at) && f.closes == ClosesOf(f.bits, at)
    ensures r.None? <==> Overclosed(f.bits)
    ensures r.Some? ==> Paired(f.bits, at, r.value.0, r.value.1, |text|)
  {
    hide SortByOpen, Paired, Bounded, Run, Overclosed, Positions;
    CountsOfLists(f.bits, at);
    RunFailsWhenNegative(f.bits);
    var pairs := PairOpnCls(f.bits, f.opens, f.closes);
    var parents := FindNestedPairs(f.bits);
    if pairs.None? || parents.None? { return None; }
    RunIsPaired(text, f.bits, at);
    return Some((SortByOpen(pairs.value), parents.value));
  }

  predicate Encloses(b: Block, c: Block) { b.open < c.open && c.close < b.close }

  // Segment number k is that of block p's parent: 0 for the root when no block encloses p,
  // else one more than the number of the innermost block that does.
  ghost predicate NumbersParent(bs: seq<Block>, ids: seq<nat>, p: int)
    requires 0 <= p < |bs| && p + 1 < |ids|
  {
    IsParentNumber(bs, p, ids[p + 1])
  }

  ghost predicate IsParentNumber(bs: seq<Block>, p: int, k: int)
    requires 0 <= p < |bs|
  {
    if k == 0 then forall q :: 0 <= q < |bs| ==> !Encloses(bs[q], bs[p])
    else
      0 < k <= |bs| && Encloses(bs[k - 1], bs[p])
      && forall q :: 0 <= q < |bs| && q != k - 1 && Encloses(bs[q], bs[p]) ==> Encloses(bs[q], bs[k - 1])
  }

  lemma NumbersAreParents(bs: seq<Block>, parents: seq<nat>, len: nat)
    ensures |ShiftParents(parents)| == |parents| + 1 && ShiftParents(parents)[0] == 0
    ensures Nested(bs, parents, len) ==>
              |bs| <= |parents| && forall p :: 0 <= p < |bs| ==> NumbersParent(bs, ShiftParents(parents), p)
  {
    if Nested(bs, parents, len) {
      forall p | 0 <= p < |bs| ensures NumbersParent(bs, ShiftParents(parents), p) {
        NumberIsParent(bs, parents, len, p);
      }
    }
  }

  lemma NumberIsParent(bs: seq<Block>, parents: seq<nat>, len: nat, p: nat)
    requires Nested(bs, parents, len) && p < |bs|
    ensures IsParentNumber(bs, p, if parents[p] == p then 0 else parents[p] + 1)
  {
    assert IsParent(bs, p, parents[p]);
    var k := if parents[p] == p then 0 else parents[p] + 1;
    forall q | 0 <= q < |bs| && Encloses(bs[q], bs[p])
      ensures k != 0 && (q != k - 1 ==> Encloses(bs[q], bs[k - 1]))
    {
      assert q < p;
    }
  }

  lemma {:induction false} ListsHoldBraces(text: string, bits: seq<bool>, at: seq<nat>, limit: nat)
    requires Located(text, bits, at, limit)
    ensures forall o :: o in OpensOf(bits, at) ==> 1 <= o <= |text| && text[o - 1] == '{'
    ensures forall c :: c in ClosesOf(bits, at) ==> c < |text| && text[c] == '}'
  {
    if bits != [] {
      assert Located(text, bits[..|bits| - 1], at[..|at| - 1], limit);
      ListsHoldBraces(text, bits[..|bits| - 1], at[..|at| - 1], limit);
    }
  }

  // Every block is what stands between a recorded "{" and a recorded "}".
  predicate BetweenBraces(text: string, b: Block) {
    1 <= b.open <= |text| && text[b.open - 1] == '{' && b.close < |text| && text[b.close] == '}'
  }

  // The brackets found by the scan, up to the exception: braces and then parentheses.
  method SegmentText(text: string) returns (r: Segmented)
    ensures r.PopError? <==> Overclosed(BraceBits(text)) || Overclosed(ParenBits(text))
    ensures r.Segments? ==> Paired(BraceBits(text), BlockBraces(text, 0, Code, 0), r.bs, r.parents, |text|)
    ensures r.Segments? ==> forall b :: b in r.bs ==> BetweenBraces(text, b)
    ensures r.Segments? ==> |r.segs| == |r.bs| + 1 && r.ids == ShiftParents(r.parents)
    ensures r.Segments? ==> forall p :: -1 <= p < |r.bs| ==> r.segs[p + 1] == Left(text, r.bs, r.parents, p, 0)
    ensures r.Segments? && ParentsRight(r.bs, r.parents) ==>
              forall p :: -1 <= p < |r.bs| ==> r.segs[p + 1] == Mine(text, r.bs, p, |text|)
    ensures r.Segments? && ParentsRight(r.bs, r.parents) ==>
              Rebuild(r.segs, r.bs, r.parents, -1, |r.bs|) == text
              && forall p :: 0 <= p < |r.bs| ==>
                   text[r.bs[p].open..r.bs[p].close] == Rebuild(r.segs, r.bs, r.parents, p, |r.bs|)
    ensures r.Segments? && Nested(r.bs, r.parents, |text|) ==>
              |r.ids| > |r.bs| && r.ids[0] == 0 && forall p :: 0 <= p < |r.bs| ==> NumbersParent(r.bs, r.ids, p)
    ensures r.Segments? && ClosedFirst(BraceBits(text)) ==>
              Nested(r.bs, r.parents, |text|) && ParentsRight(r.bs, r.parents)
    ensures r.Segments? && WellNested(BraceBits(text)) ==>
              Nested(r.bs, r.parents, |text|) && ParentsRight(r.bs, r.parents) && |r.bs| == |r.parents|
              && |r.ids| == |r.segs|
  {
    hide Left, Mine, Rebuild, Nested, ParentsRight, BetweenBraces, Overclosed, BracesSoFar, ParensSoFar,
         Paired, Bracketing, Cuttable, OpensOf, ClosesOf, Kinds, Located, InOrder, WellNested, ClosedFirst,
         ShiftParents, NumbersParent;
    var braces, parens;
    ghost var at, pat;
    braces, parens, at, pat := ScanBrackets(text);
    ScanIsBits(text, braces, at, parens, pat);
    var blocks := PairBrackets(text, braces, at);
    var groups := PairBrackets(text, parens, pat);
    if blocks.None? || groups.None? { return PopError; }
    var bs, parents := blocks.value.0, blocks.value.1;
    PairedIs(braces.bits, at, bs, parents, |text|);
    PairedIs(parens.bits, pat, groups.value.0, groups.value.1, |text|);
    var segs := ParseCodeSegs(text, bs, parents);
    var _ := ParseCodeSegs(text, groups.value.0, groups.value.1);
    BlocksAreBetween(text, braces.bits, at, bs, parents);
    SegmentsAreRight(text, bs, parents, segs);
    NumbersAreParents(bs, parents, |text|);
    r := Segments(bs, parents, segs, ShiftParents(parents));
  }

  lemma ScanIsBits(text: string, braces: Found, at: seq<nat>, parens: Found, pat: seq<nat>)
    requires BracesSoFar(text, braces, at, |text|) && ParensSoFar(text, parens, pat, |text|)
    ensures |braces.bits| == |at| && |parens.bits| == |pat|
    ensures Located(text, braces.bits, at, |text|) && InOrder(text, braces.bits, at, |text|)
    ensures InOrder(text, parens.bits, pat, |text|)
    ensures braces.opens == OpensOf(braces.bits, at) && braces.closes == ClosesOf(braces.bits, at)
    ensures parens.opens == OpensOf(parens.bits, pat) && parens.closes == ClosesOf(parens.bits, pat)
    ensures braces.bits == Kinds(text, at, '{') && parens.bits == Kinds(text, pat, '(')
  {}

  lemma PairedIs(bits: seq<bool>, at: seq<nat>, bs: seq<Block>, parents: seq<nat>, len: nat)
    requires Paired(bits, at, bs, parents, len)
    ensures Bracketing(bs, len) && Cuttable(bs, parents, len)
    ensures ClosedFirst(bits) ==> Nested(bs, parents, len) && ParentsRight(bs, parents)
    ensures WellNested(bits) ==>
              Nested(bs, parents, len) && ParentsRight(bs, parents) && |bs| == |parents|
              && |ShiftParents(parents)| == |bs| + 1
  {
    if WellNested(bits) {
      WellNestedIsClosedFirst(bits);
      StackCounts(bits);
      RunCounts(bits);
    }
  }

  lemma BlocksAreBetween(text: string, bits: seq<bool>, at: seq<nat>, bs: seq<Block>, parents: seq<nat>)
    requires Located(text, bits, at, |text|) && Paired(bits, at, bs, parents, |text|)
    ensures forall b :: b in bs ==> BetweenBraces(text, b)
  {
    ListsHoldBraces(text, bits, at, |text|);
  }

  lemma SegmentsAreRight(text: string, bs: seq<Block>, parents: seq<nat>, segs: seq<string>)
    requires Bracketing(bs, |text|) && Cuttable(bs, parents, |text|) && |segs| == |bs| + 1
    requires forall p :: -1 <= p < |bs| ==> segs[p + 1] == Left(text, bs, parents, p, 0)
    ensures ParentsRight(bs, parents) ==> forall p :: -1 <= p < |bs| ==> segs[p + 1] == Mine(text, bs, p, |text|)
    ensures ParentsRight(bs, parents) ==>
              Rebuild(segs, bs, parents, -1, |bs|) == text
              && forall p :: 0 <= p < |bs| ==> text[bs[p].open..bs[p].close] == Rebuild(segs, bs, parents, p, |bs|)
  {
    hide Rebuild, Left, Mine, ParentsRight, Bracketing;
    if ParentsRight(bs, parents) {
      forall p | -1 <= p < |bs| ensures segs[p + 1] == Mine(text, bs, p, |text|) {
        SegmentsPartition(text, bs, parents, p);
      }
      RebuildsSpan(text, bs, parents, segs, -1);
      assert text[0..|text|] == text;
      forall p | 0 <= p < |bs| ensures text[bs[p].open..bs[p].close] == Rebuild(segs, bs, parents, p, |bs|) {
        RebuildsSpan(text, bs, parents, segs, p);
      }
    }
  }

  ghost predicate InRange(at: seq<nat>, n: nat) { forall e :: 0 <= e < |at| ==> at[e] < n }

  // Opening less closing brackets among the first k of the given places.
  function Surplus(text: string, at: seq<nat>, k: nat, open: char): int
    requires k <= |at| && InRange(at, |text|)
  {
    if k == 0 then 0 else Surplus(text, at, k - 1, open) + if text[at[k - 1]] == open then 1 else -1
  }

  lemma {:induction false} DepthIsSurplus(text: string, at: seq<nat>, k: nat, open: char)
    requires k <= |at| && InRange(at, |text|)
    ensures Depth(Kinds(text, at, open), k) == Surplus(text, at, k, open)
  {
    if k > 0 { DepthIsSurplus(text, at, k - 1, open); }
  }

  // Up to some place more close than open.
  ghost predicate ClosesTooMuch(text: string, at: seq<nat>, open: char)
    requires InRange(at, |text|)
  {
    exists k: nat :: k <= |at| && Surplus(text, at, k, open) < 0
  }

  lemma OverclosedIs(text: string, at: seq<nat>, open: char)
    requires InRange(at, |text|)
    ensures Overclosed(Kinds(text, at, open)) <==> ClosesTooMuch(text, at, open)
  {
    hide Kinds;
    assert |Kinds(text, at, open)| == |at| by { KindsSize(text, at, open); }
    if Overclosed(Kinds(text, at, open)) {
      var k: nat :| k <= |at| && Depth(Kinds(text, at, open), k) < 0;
      DepthIsSurplus(text, at, k, open);
    }
    if ClosesTooMuch(text, at, open) {
      var k: nat :| k <= |at| && Surplus(text, at, k, open) < 0;
      DepthIsSurplus(text, at, k, open);
    }
  }

  lemma KindsSize(text: string, at: seq<nat>, open: char)
    ensures |Kinds(text, at, open)| == |at|
  {}

  lemma {:induction false} BracesInRange(text: string, i: nat, mode: Mode, d: nat)
    ensures InRange(BlockBraces(text, i, mode, d), |text|)
    decreases |text| - i
  {
    hide NextMode, IsBlockBrace, DepthAfter;
    if i < |text| {
      match NextMode(text, i, mode)
      case Some((m, n)) => BracesInRange(text, n, m, d);
      case None => BracesInRange(text, i + 1, Code, DepthAfter(text, i, d));
    }
  }

  lemma {:induction false} ParensInRange(text: string, i: nat, mode: Mode)
    ensures InRange(Parens(text, i, mode), |text|)
    decreases |text| - i
  {
    hide NextMode;
    if i < |text| {
      match NextMode(text, i, mode)
      case Some((m, n)) => ParensInRange(text, n, m);
      case None => ParensInRange(text, i + 1, Code);
    }
  }

  // Segmentation fails exactly when, up to some place, more block braces close than open,
  // or more parentheses.
  lemma FailureIs(text: string)
    ensures var at, pat := BlockBraces(text, 0, Code, 0), Parens(text, 0, Code);
            InRange(at, |text|) && InRange(pat, |text|)
            && (Overclosed(BraceBits(text)) || Overclosed(ParenBits(text)) <==>
                ClosesTooMuch(text, at, '{') || ClosesTooMuch(text, pat, '('))
  {
    hide BlockBraces, Parens, Overclosed, ClosesTooMuch, Kinds;
    BracesInRange(text, 0, Code, 0);
    ParensInRange(text, 0, Code);
    OverclosedIs(text, BlockBraces(text, 0, Code, 0), '{');
    OverclosedIs(text, Parens(text, 0, Code), '(');
  }
}
