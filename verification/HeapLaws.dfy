// What the interpreter's heap keeps, and what its string builtins mean.
module HeapLaws {
  import opened Wrappers
  import opened Initializers
  import opened Heap

  // ---- Series of allocations ----------------------------------------------------------------------------

  // The cells a series of allocations fills, in order.
  function AllContents(rs: seq<Request>): seq<int>
    requires forall i :: 0 <= i < |rs| ==> Fits(rs[i])
  {
    if rs == [] then [] else AllContents(rs[..|rs| - 1]) + Contents(rs[|rs| - 1])
  }

  // The heap and the counter after a series of allocations.
  function Served(heap: map<int, int>, counter: int, rs: seq<Request>): (map<int, int>, int)
    requires forall i :: 0 <= i < |rs| ==> Fits(rs[i])
  {
    if rs == [] then (heap, counter)
    else
      var (h, n) := Served(heap, counter, rs[..|rs| - 1]);
      var cells := Contents(rs[|rs| - 1]);
      (Placed(h, n, cells), n + |cells|)
  }

  lemma {:induction false} PlacedInTurn(heap: map<int, int>, base: int, a: seq<int>, b: seq<int>)
    ensures Placed(Placed(heap, base, a), base + |a|, b) == Placed(heap, base, a + b)
  {
    if b == [] {
      assert a + b == a;
    } else {
      assert (a + b)[..|a + b| - 1] == a + b[..|b| - 1];
      PlacedInTurn(heap, base, a, b[..|b| - 1]);
    }
  }

  // A series of allocations fills one stretch of the heap, end to end.
  lemma {:induction false} SeriesFillsOneStretch(heap: map<int, int>, counter: int, rs: seq<Request>)
    requires forall i :: 0 <= i < |rs| ==> Fits(rs[i])
    ensures Served(heap, counter, rs) == (Placed(heap, counter, AllContents(rs)), counter + |AllContents(rs)|)
  {
    hide Placed, Contents;
    if rs == [] {
      assert Placed(heap, counter, []) == heap by { PlacedNothing(heap, counter, []); }
    } else {
      var front := rs[..|rs| - 1];
      SeriesFillsOneStretch(heap, counter, front);
      PlacedInTurn(heap, counter, AllContents(front), Contents(rs[|rs| - 1]));
    }
  }

  // Where the `k`-th allocation of a series put its block.
  function BaseOf(counter: int, rs: seq<Request>, k: nat): int
    requires k <= |rs| && forall i :: 0 <= i < |rs| ==> Fits(rs[i])
  {
    counter + |AllContents(rs[..k])|
  }

  lemma {:induction false} ContentsStandInTurn(rs: seq<Request>, k: nat, n: nat)
    requires k < n <= |rs| && forall i :: 0 <= i < |rs| ==> Fits(rs[i])
    ensures var all, from := AllContents(rs[..n]), |AllContents(rs[..k])|;
            from + |Contents(rs[k])| <= |all| && all[from..from + |Contents(rs[k])|] == Contents(rs[k])
  {
    hide Contents;
    assert rs[..n][..n - 1] == rs[..n - 1];
    if k < n - 1 {
      ContentsStandInTurn(rs, k, n - 1);
    }
  }

  // After any series of allocations every block still holds what was put there, no two
  // blocks share a cell, and nothing before the first or behind the last has changed.
  lemma BlocksStayApart(m: Mem, counter: int, rs: seq<Request>, k: nat)
    requires counter > NULL && k < |rs| && forall i :: 0 <= i < |rs| ==> Fits(rs[i])
    ensures var after := m.(heap := Served(m.heap, counter, rs).0);
            after.Stands(BaseOf(counter, rs, k), Contents(rs[k]))
            && forall a :: a < counter || BaseOf(counter, rs, |rs|) <= a ==> after.Read(a) == m.Read(a)
    ensures forall j :: k < j <= |rs| ==> BaseOf(counter, rs, k) + |Contents(rs[k])| <= BaseOf(counter, rs, j)
  {
    hide Placed, Contents, AllContents, Served;
    assert rs[..|rs|] == rs;
    var all, cells, from := AllContents(rs), Contents(rs[k]), |AllContents(rs[..k])|;
    SeriesFillsOneStretch(m.heap, counter, rs);
    ContentsStandInTurn(rs, k, |rs|);
    var after := m.(heap := Served(m.heap, counter, rs).0);
    forall i | 0 <= i < |cells|
      ensures after.At(counter + from, i) == Some(cells[i])
    {
      PlacedAt(m.heap, counter, all, counter + from + i);
      assert all[from..from + |cells|][i] == all[from + i];
    }
    forall a | a < counter || BaseOf(counter, rs, |rs|) <= a
      ensures after.Read(a) == m.Read(a)
    {
      PlacedAt(m.heap, counter, all, a);
    }
    forall j | k < j <= |rs|
      ensures BaseOf(counter, rs, k) + |cells| <= BaseOf(counter, rs, j)
    {
      ContentsStandInTurn(rs, k, j);
    }
  }

  // ---- Lists --------------------------------------------------------------------------------------------

  function Values(items: seq<Init<int>>): (r: seq<int>)
    requires forall i :: 0 <= i < |items| ==> items[i].Scalar?
    ensures |r| == |items| && forall i :: 0 <= i < |r| ==> r[i] == items[i].value
  {
    seq(|items|, i requires 0 <= i < |items| => items[i].value)
  }

  // A flat list is one allocation of its values.
  lemma FlatListIsPlaced(heap: map<int, int>, next: int, items: seq<Init<int>>)
    requires forall i :: 0 <= i < |items| ==> items[i].Scalar?
    ensures Stored(heap, next, items)
            == Placement(Placed(heap, next, Contents(Items(Values(items)))), next + |items|, [Block(next, |items|)])
  {
    hide Placed;
    var vs := Values(items);
    assert Placed(heap, next, vs[..0]) == heap by { PlacedNothing(heap, next, vs); }
    assert vs[..|vs|] == vs;
    FlatFrom(heap, next, 0, items);
  }

  lemma {:induction false} FlatFrom(heap: map<int, int>, next: int, i: nat, items: seq<Init<int>>)
    requires i <= |items| && forall k :: 0 <= k < |items| ==> items[k].Scalar?
    ensures StoredFrom(Placed(heap, next, Values(items)[..i]), next, i, next, items)
            == Placement(Placed(heap, next, Values(items)[..|items|]), next, [])
    decreases |items| - i
  {
    hide Placed;
    if i < |items| {
      PlacedOneMore(heap, next, Values(items), i);
      FlatFrom(heap, next, i + 1, items);
    }
  }

  predicate Apart(b: Block, c: Block) { b.base + b.size <= c.base || c.base + c.size <= b.base }

  predicate AllApart(bs: seq<Block>) {
    forall i, j :: 0 <= i < j < |bs| ==> Apart(bs[i], bs[j])
  }

  predicate EmptyRow(v: Init<int>) { v.Scalar? || v.items == [] }

  // A list's blocks are disjoint exactly when its sublists are empty: the first sublist
  // with anything in it is stored over the list's own cells.
  lemma RowsApartOnlyIfEmpty(heap: map<int, int>, next: int, items: seq<Init<int>>)
    ensures AllApart(Stored(heap, next, items).blocks) <==> forall i :: 0 <= i < |items| ==> EmptyRow(items[i])
  {
    hide Stored, StoredFrom;
    var bs := StoredFrom(heap, next, 0, next, items).blocks;
    var own := Block(next, |items|);
    assert Stored(heap, next, items).blocks == bs + [own] by { StoredUnfolds(heap, next, items); }
    if forall i :: 0 <= i < |items| ==> EmptyRow(items[i]) {
      EmptyRowsTakeNothing(heap, next, 0, next, items);
      EmptiesAreApart(bs, next, |items|);
    } else {
      var k :| 0 <= k < |items| && !EmptyRow(items[k]);
      var j := RowTakesTheBase(heap, next, 0, next, items, k);
      assert (bs + [own])[j] == bs[j] && (bs + [own])[|bs|] == own;
      assert !Apart(bs[j], own);
    }
  }

  lemma StoredUnfolds(heap: map<int, int>, next: int, items: seq<Init<int>>)
    ensures Stored(heap, next, items).blocks
            == StoredFrom(heap, next, 0, next, items).blocks + [Block(next, |items|)]
    ensures Stored(heap, next, items).next == next + |items|
  {}

  predicate AllEmpty(bs: seq<Block>, next: int) {
    forall j :: 0 <= j < |bs| ==> bs[j] == Block(next, 0)
  }

  lemma NoneIsEmpty(next: int)
    ensures AllEmpty([], next)
  {}

  lemma OneMoreEmpty(bs: seq<Block>, next: int)
    requires AllEmpty(bs, next)
    ensures AllEmpty([] + [Block(next, 0)] + bs, next)
  {}

  lemma EmptiesAreApart(bs: seq<Block>, next: int, size: nat)
    requires AllEmpty(bs, next)
    ensures AllApart(bs + [Block(next, size)])
  {}

  lemma {:induction false} EmptyRowsTakeNothing(heap: map<int, int>, base: int, i: nat, next: int,
                                                items: seq<Init<int>>)
    requires i <= |items| && forall k :: 0 <= k < |items| ==> EmptyRow(items[k])
    ensures AllEmpty(StoredFrom(heap, base, i, next, items).blocks, next)
    decreases |items| - i
  {
    hide AllEmpty;
    if i == |items| {
      assert AllEmpty([], next) by { NoneIsEmpty(next); }
    } else {
      match items[i]
      case Scalar(v) =>
        EmptyRowsTakeNothing(heap[base + i := v], base, i + 1, next, items);
      case Nested(row) =>
        var p := Stored(heap, next, row);
        assert row == [] && StoredFrom(heap, next, 0, next, row) == Placement(heap, next, []);
        StoredUnfolds(heap, next, row);
        EmptyRowsTakeNothing(p.heap[base + i := next], base, i + 1, next, items);
        OneMoreEmpty(StoredFrom(p.heap[base + i := next], base, i + 1, next, items).blocks, next);
    }
  }

  lemma {:induction false} RowTakesTheBase(heap: map<int, int>, base: int, i: nat, next: int, items: seq<Init<int>>,
                                           k: nat)
    returns (j: nat)
    requires i <= k < |items| && !EmptyRow(items[k])
    ensures var bs := StoredFrom(heap, base, i, next, items).blocks;
            j < |bs| && bs[j].base == next && bs[j].size > 0
    decreases |items| - i
  {
    match items[i]
    case Scalar(v) =>
      j := RowTakesTheBase(heap[base + i := v], base, i + 1, next, items, k);
    case Nested(row) =>
      var p := Stored(heap, next, row);
      StoredUnfolds(heap, next, row);
      if row == [] {
        j := RowTakesTheBase(p.heap[base + i := next], base, i + 1, next, items, k);
        j := j + |p.blocks|;
      } else {
        j := |p.blocks| - 1;
      }
  }

  // So the one row of `{{x}}` is lost: its cell ends up holding its own address.
  lemma RowIsOverwritten(heap: map<int, int>, next: int, x: int)
    ensures var p := Stored(heap, next, [Nested([Scalar(x)])]);
            next in p.heap && p.heap[next] == next && p.blocks == [Block(next, 1), Block(next, 1)]
  {
    var row := [Scalar(x)];
    var items := [Nested(row)];
    assert StoredFrom(heap[next := x], next, 1, next, row) == Placement(heap[next := x], next, []);
    assert StoredFrom(heap, next, 0, next, row) == Placement(heap[next := x], next, []);
    var p := Stored(heap, next, row);
    assert p == Placement(heap[next := x], next + 1, [] + [Block(next, 1)]);
    var q := p.heap[next := next];
    assert StoredFrom(q, next, 1, p.next, items) == Placement(q, p.next, []);
    assert StoredFrom(heap, next, 0, next, items) == Placement(q, p.next, p.blocks);
  }

  // ---- Strings ------------------------------------------------------------------------------------------

  predicate NulFree(s: seq<int>) { forall i :: 0 <= i < |s| ==> s[i] > 0 }

  lemma StringRuns(m: Mem, a: int, s: seq<int>)
    requires NulFree(s) && m.Stands(a, s + [0])
    ensures m.Runs(a, |s|) && m.At(a, |s|) == Some(0) && forall i :: 0 <= i < |s| ==> m.At(a, i) == Some(s[i])
  {
    assert forall i :: 0 <= i <= |s| ==> m.At(a, i) == Some((s + [0])[i]);
  }

  // strlen gives the length, up to its cap.
  lemma LengthIsCapped(m: Mem, a: int, s: seq<int>, r: Option<int>)
    requires NulFree(s) && m.Stands(a, s + [0]) && LengthAnswer(m, a, r)
    ensures r == Some(if |s| <= 100000 then |s| else 100001)
  {
    StringRuns(m, a, s);
  }

  // The order of C strings: by the first difference, a prefix before its extensions.
  predicate Less(s: seq<int>, t: seq<int>) {
    t != [] && (s == [] || s[0] < t[0] || (s[0] == t[0] && Less(s[1..], t[1..])))
  }

  lemma {:induction false} FirstDifference(s: seq<int>, t: seq<int>, n: nat)
    requires n <= |s| && n <= |t| && s[..n] == t[..n]
    ensures Less(s, t) <==> Less(s[n..], t[n..])
    ensures s == t <==> s[n..] == t[n..]
  {
    if n > 0 {
      assert s[0] == s[..n][0] && t[0] == t[..n][0];
      assert s[1..][..n - 1] == s[..n][1..] && t[1..][..n - 1] == t[..n][1..];
      FirstDifference(s[1..], t[1..], n - 1);
      assert s[1..][n - 1..] == s[n..] && t[1..][n - 1..] == t[n..];
      assert s == [s[0]] + s[1..] && t == [t[0]] + t[1..];
    } else {
      assert s[0..] == s && t[0..] == t;
    }
  }

  // strcmp is 0 exactly on equal strings and negative exactly when the first comes first.
  lemma CompareIsOrder(m: Mem, a: int, s: seq<int>, b: int, t: seq<int>, r: Option<int>)
    requires NulFree(s) && m.Stands(a, s + [0]) && NulFree(t) && m.Stands(b, t + [0])
    requires CompareAnswer(m, a, b, r)
    ensures r.Some? && (r.value == 0 <==> s == t) && (r.value < 0 <==> Less(s, t)) && (r.value > 0 <==> Less(t, s))
  {
    StringRuns(m, a, s);
    StringRuns(m, b, t);
    var n :| n >= 0 && m.Agree(a, b, n) && match r
      case Some(d) => Decides(m, a, b, n, d)
      case None => m.At(a, n) == None || m.At(b, n) == None;
    AgreementIsPrefix(m, a, s, b, t, n);
    FirstDifference(s, t, n);
    FirstDifference(t, s, n);
  }

  lemma AgreementIsPrefix(m: Mem, a: int, s: seq<int>, b: int, t: seq<int>, n: int)
    requires NulFree(s) && m.Stands(a, s + [0]) && NulFree(t) && m.Stands(b, t + [0])
    requires n >= 0 && m.Agree(a, b, n)
    ensures n <= |s| && n <= |t| && s[..n] == t[..n]
    ensures m.At(a, n) == Some((s + [0])[n]) && m.At(b, n) == Some((t + [0])[n])
  {
    StringRuns(m, a, s);
    StringRuns(m, b, t);
    assert n > |s| ==> m.At(a, |s|) != Some(0);
    assert n > |t| ==> m.At(a, |t|) != Some(0) && m.At(a, |t|) == m.At(b, |t|);
    assert forall i :: 0 <= i < n ==> m.At(a, i) == Some(s[i]) && m.At(a, i) == m.At(b, i);
  }

  // strcpy into a block of enough cells apart from the source leaves the string in both
  // places and every other cell as it was.
  lemma CopyIsString(was: Mem, m: Mem, dst: int, src: int, s: seq<int>)
    requires NulFree(s) && was.Stands(src, s + [0])
    requires forall i :: 0 <= i <= |s| ==> was.At(dst, i).Some?
    requires dst + |s| < src || src + |s| < dst
    ensures CanCopy(was, dst, src, |s|)
    ensures Copied(was, m, dst, src, |s| + 1) ==> m.Stands(dst, s + [0]) && m.Stands(src, s + [0])
  {
    StringRuns(was, src, s);
    if Copied(was, m, dst, src, |s| + 1) {
      forall i | 0 <= i <= |s|
        ensures m.At(dst, i) == Some((s + [0])[i]) && m.At(src, i) == Some((s + [0])[i])
      {
        assert m.At(dst, i) == was.At(src, i);
        assert m.Read(src + i) == was.Read(src + i);
      }
    }
  }

  // The block malloc gives for `count` bytes is sized in four-byte cells, so a string of
  // `length` characters and its terminator fit only with four times the bytes.
  lemma StringFitsBlock(count: int, length: nat)
    ensures length + 1 <= CellCount(count, 4) <==> length == 0 || count >= 4 * (length + 1)
  {}

  // What an allocation at the counter leaves there: zeroes for malloc, one cell for each
  // whole element and at least one; the characters and a terminator for a string.
  lemma AllocationHolds(m: Mem, counter: int, r: Request)
    requires counter > NULL && Fits(r)
    ensures var after := m.(heap := Placed(m.heap, counter, Contents(r)));
            match r
            case Bytes(count, size) =>
              |Contents(r)| == (if count < size then 1 else count / size)
              && forall a :: counter <= a < counter + |Contents(r)| ==> after.Read(a) == Some(0)
            case Text(codes) => |Contents(r)| == |codes| + 1 && after.Stands(counter, codes + [0])
            case Items(values) => |Contents(r)| == |values| && after.Stands(counter, values)
  {
    hide Placed;
    var cells := Contents(r);
    if r.Bytes? && r.count < r.size {
      assert r.count / r.size < 1;
    }
    forall i | 0 <= i < |cells|
      ensures m.(heap := Placed(m.heap, counter, cells)).At(counter, i) == Some(cells[i])
    {
      PlacedAt(m.heap, counter, cells, counter + i);
    }
    forall a | counter <= a < counter + |cells|
      ensures m.(heap := Placed(m.heap, counter, cells)).Read(a) == Some(cells[a - counter])
    {
      PlacedAt(m.heap, counter, cells, a);
    }
  }

  // Two strings interned one after the other are read back as they were: by strlen, up to
  // its cap, and by strcmp.
  lemma InternedAreRead(m: Mem, counter: int, s: seq<int>, t: seq<int>, length: Option<int>, order: Option<int>)
    requires counter > NULL && NulFree(s) && NulFree(t)
    ensures var b := counter + |s| + 1;
            var after := m.(heap := Served(m.heap, counter, [Text(s), Text(t)]).0);
            (LengthAnswer(after, b, length) ==> length == Some(if |t| <= 100000 then |t| else 100001))
            && (CompareAnswer(after, counter, b, order) ==>
                  order.Some? && (order.value == 0 <==> s == t) && (order.value < 0 <==> Less(s, t))
                  && (order.value > 0 <==> Less(t, s)))
  {
    hide Served, LengthAnswer, CompareAnswer, Less, Placed;
    var rs := [Text(s), Text(t)];
    var b := counter + |s| + 1;
    var after := m.(heap := Served(m.heap, counter, rs).0);
    BlocksStayApart(m, counter, rs, 0);
    BlocksStayApart(m, counter, rs, 1);
    TwoBases(counter, s, t);
    if LengthAnswer(after, b, length) { LengthIsCapped(after, b, t, length); }
    if CompareAnswer(after, counter, b, order) { CompareIsOrder(after, counter, s, b, t, order); }
  }

  lemma TwoBases(counter: int, s: seq<int>, t: seq<int>)
    ensures var rs := [Text(s), Text(t)];
            BaseOf(counter, rs, 0) == counter && BaseOf(counter, rs, 1) == counter + |s| + 1
  {
    var rs := [Text(s), Text(t)];
    assert rs[..0] == [] && rs[..1] == [Text(s)];
    assert [Text(s)][..0] == [];
  }
}
