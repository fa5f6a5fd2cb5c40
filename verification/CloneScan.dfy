// One position of the offset scan that find_clones (cdup/legacy/core.py) and
// detect_clones (cdup/src/detect.py) share in shape.
module CloneScan {
  import opened Wrappers
  import opened CloneRuns

  predicate Ascending(xs: seq<nat>) {
    forall i, j :: 0 <= i < j < |xs| ==> xs[i] < xs[j]
  }

  // xs lists the positions below n whose key is k.
  ghost predicate Lists(xs: seq<nat>, keys: seq<Option<Key>>, k: Key, n: nat)
    requires n <= |keys|
  {
    Ascending(xs)
    && (forall j :: j in xs ==> j < n && keys[j] == Some(k))
    && (forall j :: 0 <= j < n && keys[j] == Some(k) ==> j in xs)
  }

  // How many of the first n positions hold key k.
  function Count(keys: seq<Option<Key>>, k: Key, n: nat): nat
    requires n <= |keys|
  {
    if n == 0 then 0 else Count(keys, k, n - 1) + if keys[n - 1] == Some(k) then 1 else 0
  }

  lemma ListsStep(xs: seq<nat>, keys: seq<Option<Key>>, k: Key, n: nat)
    requires n < |keys| && Lists(xs, keys, k, n)
    ensures Lists(if keys[n] == Some(k) then xs + [n] else xs, keys, k, n + 1)
  {
    forall i, j | 0 <= i < j < |xs + [n]| ensures (xs + [n])[i] < (xs + [n])[j] {
      assert xs[i] in xs;
    }
    assert (xs + [n])[|xs|] == n;
  }

  lemma {:induction false} ListsCount(xs: seq<nat>, keys: seq<Option<Key>>, k: Key, n: nat)
    requires n <= |keys| && Lists(xs, keys, k, n)
    ensures |xs| == Count(keys, k, n)
  {
    if n == 0 {
      var first := (xs + [0])[0];
      assert xs != [] ==> first in xs;
    } else if keys[n - 1] == Some(k) {
      var m := |xs| - 1;
      var j :| 0 <= j < |xs| && xs[j] == n - 1;
      assert xs[m] in xs;
      assert forall x :: x in xs[..m] ==> x in xs && x != n - 1;
      forall x | 0 <= x < n - 1 && keys[x] == Some(k) ensures x in xs[..m] {
        var i :| 0 <= i < |xs| && xs[i] == x;
        assert xs[..m][i] == x;
      }
      ListsCount(xs[..m], keys, k, n - 1);
    } else {
      ListsCount(xs, keys, k, n - 1);
    }
  }

  lemma NoneListed(keys: seq<Option<Key>>, k: Key, n: nat)
    requires n <= |keys| && Some(k) !in keys[..n]
    ensures Lists([], keys, k, n)
  {
    assert forall j :: 0 <= j < n ==> keys[..n][j] == keys[j];
  }

  method InvertedIndex(keys: seq<Option<Key>>) returns (index: map<Key, seq<nat>>)
    ensures forall k :: k in index <==> Some(k) in keys
    ensures forall k :: k in index ==> Lists(index[k], keys, k, |keys|)
  {
    hide Lists;
    index := map[];
    for i := 0 to |keys|
      invariant forall k :: k in index <==> Some(k) in keys[..i]
      invariant forall k :: k in index ==> Lists(index[k], keys, k, i)
    {
      assert keys[..i + 1] == keys[..i] + [keys[i]];
      forall k | k in index
        ensures Lists(if keys[i] == Some(k) then index[k] + [i] else index[k], keys, k, i + 1)
      {
        ListsStep(index[k], keys, k, i);
      }
      if keys[i].Some? {
        var k := keys[i].value;
        if k !in index {
          NoneListed(keys, k, i);
          ListsStep([], keys, k, i);
          index := index[k := []];
        }
        index := index[k := index[k] + [i]];
      }
    }
    assert keys[..|keys|] == keys;
  }

  // The positions listed after i are those that i matches.
  ghost predicate LaterMatches(matches: seq<nat>, keys: seq<Option<Key>>, i: nat) {
    forall j :: j in matches && j > i <==> Match(keys, j - i, i)
  }

  lemma ListedAreMatches(matches: seq<nat>, keys: seq<Option<Key>>, i: nat)
    requires i < |keys| && keys[i].Some? && Lists(matches, keys, keys[i].value, |keys|)
    ensures Ascending(matches) && LaterMatches(matches, keys, i)
  {}

  // The map from offset to run length, as it stands before position i is read.
  ghost predicate Tracks(active: map<nat, nat>, keys: seq<Option<Key>>, i: nat) {
    (forall d :: d in active <==> d > 0 && Run(keys, d, i) > 0)
    && (forall d :: d in active ==> active[d] == Run(keys, d, i))
  }

  // The offsets at which position i matches a later one.
  ghost predicate IsOffsets(offsets: set<nat>, keys: seq<Option<Key>>, i: nat) {
    forall d :: d in offsets <==> d > 0 && Match(keys, d, i)
  }

  // The pairs completed before position i is read, each once.
  ghost predicate Completed(done: seq<Pair>, keys: seq<Option<Key>>, i: int, minLength: int) {
    (forall p :: p in done <==> Maximal(keys, p) && p.len >= minLength && p.a + p.len < i)
    && (forall x, y :: 0 <= x < y < |done| ==> done[x] != done[y])
  }

  // The inner loop over the positions that share the current key.
  method CountMatches(ghost keys: seq<Option<Key>>, i: nat, matches: seq<nat>, active: map<nat, nat>)
    returns (grown: map<nat, nat>, offsets: set<nat>)
    requires i < |keys| && Tracks(active, keys, i) && Ascending(matches)
    requires LaterMatches(matches, keys, i)
    ensures IsOffsets(offsets, keys, i)
    ensures forall d :: d in grown <==> d in active || d in offsets
    ensures forall d :: d in grown ==> grown[d] == Run(keys, d, i) + if d in offsets then 1 else 0
  {
    hide Run, Match;
    grown, offsets := active, {};
    for m := 0 to |matches|
      invariant forall d :: d in offsets <==> d > 0 && i + d in matches[..m]
      invariant forall d :: d in grown <==> d in active || d in offsets
      invariant forall d :: d in grown ==> grown[d] == Run(keys, d, i) + if d in offsets then 1 else 0
    {
      var j := matches[m];
      assert matches[..m + 1] == matches[..m] + [j];
      if j <= i { continue; }
      var d := j - i;
      assert i + d !in matches[..m];
      offsets := offsets + {d};
      if d in grown {
        grown := grown[d := grown[d] + 1];
      } else {
        grown := grown[d := 1];
      }
    }
    assert matches[..|matches|] == matches;
    forall d ensures d in offsets <==> d > 0 && Match(keys, d, i) {
      assert d > 0 ==> (i + d in matches <==> Match(keys, d, i));
    }
  }

  lemma NothingYet(keys: seq<Option<Key>>, minLength: int)
    ensures Tracks(map[], keys, 0) && Completed([], keys, 0, minLength)
  {}

  // At a barrier, and at the end, no offset matches and no run goes on.
  lemma NothingPasses(keys: seq<Option<Key>>, i: nat)
    requires i <= |keys| && (i < |keys| ==> keys[i].None?)
    ensures IsOffsets({}, keys, i) && Tracks(map[], keys, i + 1)
  {}

  // The same while position i is being read: blocks that end here are completed
  // once their offset has been taken from the set still to be looked at.
  ghost predicate ClosedSoFar(done: seq<Pair>, keys: seq<Option<Key>>, i: int, minLength: int, todo: set<nat>) {
    (forall p :: p in done <==> Maximal(keys, p) && p.len >= minLength
                                && (p.a + p.len < i || (p.a + p.len == i && p.b - p.a !in todo)))
    && (forall x, y :: 0 <= x < y < |done| ==> done[x] != done[y])
  }

  lemma ClosesOne(done: seq<Pair>, keys: seq<Option<Key>>, i: nat, minLength: int, todo: set<nat>, d: nat)
    requires ClosedSoFar(done, keys, i, minLength, todo)
    requires d in todo && d > 0 && Run(keys, d, i) > 0 && !Match(keys, d, i)
    ensures var pair := RunPair(d, i, Run(keys, d, i));
            ClosedSoFar(if pair.len >= minLength then done + [pair] else done, keys, i, minLength, todo - {d})
  {
    hide Maximal, Run, Match;
    var pair := RunPair(d, i, Run(keys, d, i));
    RunPairIsMaximal(keys, d, i);
    forall p | Maximal(keys, p) && p.a + p.len == i && p.b - p.a == d ensures p == pair {
      MaximalIsRun(keys, p);
    }
    assert pair !in done;
  }

  lemma KeepsOne(done: seq<Pair>, keys: seq<Option<Key>>, i: nat, minLength: int, todo: set<nat>, d: nat)
    requires ClosedSoFar(done, keys, i, minLength, todo) && Match(keys, d, i)
    ensures ClosedSoFar(done, keys, i, minLength, todo - {d})
  {}

  // The scan at a position that carries a statement.
  method ScanStep(ghost keys: seq<Option<Key>>, i: nat, matches: seq<nat>, active: map<nat, nat>, minLength: int,
                  done: seq<Pair>)
    returns (done': seq<Pair>, active': map<nat, nat>)
    requires i < |keys| && Tracks(active, keys, i) && Completed(done, keys, i, minLength) && Ascending(matches)
    requires LaterMatches(matches, keys, i)
    ensures Tracks(active', keys, i + 1) && Completed(done', keys, i + 1, minLength)
  {
    hide LaterMatches, Completed, Match, Run;
    var grown, offsets := CountMatches(keys, i, matches, active);
    done', active' := CloseRuns(keys, i, grown, offsets, minLength, done);
  }

  lemma ClosingStarts(done: seq<Pair>, keys: seq<Option<Key>>, i: nat, minLength: int, todo: set<nat>)
    requires Completed(done, keys, i, minLength) && i <= |keys|
    requires forall d: nat :: d > 0 && Run(keys, d, i) > 0 ==> d in todo
    ensures ClosedSoFar(done, keys, i, minLength, todo)
  {
    forall p | Maximal(keys, p) && p.a + p.len == i ensures p.b - p.a in todo {
      MaximalIsRun(keys, p);
    }
  }

  lemma ClosingEnds(done: seq<Pair>, keys: seq<Option<Key>>, i: nat, minLength: int)
    requires ClosedSoFar(done, keys, i, minLength, {})
    ensures Completed(done, keys, i + 1, minLength)
  {}

  // The two loops that complete every open run: at a barrier, and after the scan.
  method FlushRuns(ghost keys: seq<Option<Key>>, i: nat, active: map<nat, nat>, minLength: int, done: seq<Pair>)
    returns (done': seq<Pair>)
    requires i <= |keys| && IsOffsets({}, keys, i) && Completed(done, keys, i, minLength)
    requires Tracks(active, keys, i)
    ensures Completed(done', keys, i + 1, minLength)
  {
    hide Completed, ClosedSoFar, Run, Maximal, Match;
    done' := done;
    var todo: set<nat> := active.Keys;
    ClosingStarts(done, keys, i, minLength, todo);
    while todo != {}
      invariant todo <= active.Keys
      invariant ClosedSoFar(done', keys, i, minLength, todo)
      decreases todo
    {
      var d :| d in todo;
      ClosesOne(done', keys, i, minLength, todo, d);
      if active[d] >= minLength { done' := done' + [Pair(i - active[d], i - active[d] + d, active[d])]; }
      todo := todo - {d};
    }
    ClosingEnds(done', keys, i, minLength);
  }

  // The loop over the map that closes every run without a match at position i.
  method CloseRuns(ghost keys: seq<Option<Key>>, i: nat, active: map<nat, nat>, offsets: set<nat>, minLength: int,
                   done: seq<Pair>)
    returns (done': seq<Pair>, kept: map<nat, nat>)
    requires i <= |keys| && IsOffsets(offsets, keys, i) && Completed(done, keys, i, minLength)
    requires forall d :: d in active <==> d > 0 && (Run(keys, d, i) > 0 || d in offsets)
    requires forall d :: d in active ==> active[d] == Run(keys, d, i) + if d in offsets then 1 else 0
    ensures Completed(done', keys, i + 1, minLength)
    ensures Tracks(kept, keys, i + 1)
  {
    hide Completed, ClosedSoFar, Maximal, Match, Run, Tracks;
    done' := done;
    var todo: set<nat>, toRemove: seq<nat> := active.Keys, [];
    ClosingStarts(done, keys, i, minLength, todo);
    while todo != {}
      invariant todo <= active.Keys
      invariant forall d :: d in toRemove <==> d in active && d !in offsets && d !in todo
      invariant ClosedSoFar(done', keys, i, minLength, todo)
      decreases todo
    {
      var d :| d in todo;
      if d !in offsets {
        ClosesOne(done', keys, i, minLength, todo, d);
        if active[d] >= minLength { done' := done' + [Pair(i - active[d], i - active[d] + d, active[d])]; }
        toRemove := toRemove + [d];
      } else {
        KeepsOne(done', keys, i, minLength, todo, d);
      }
      todo := todo - {d};
    }
    ClosingEnds(done', keys, i, minLength);
    kept := DeleteKeys(active, toRemove);
    KeptAreOpen(keys, i, active, offsets, kept);
  }

  // What is left are the offsets that matched, one longer.
  lemma KeptAreOpen(keys: seq<Option<Key>>, i: nat, active: map<nat, nat>, offsets: set<nat>, kept: map<nat, nat>)
    requires IsOffsets(offsets, keys, i)
    requires forall d :: d in active <==> d > 0 && (Run(keys, d, i) > 0 || d in offsets)
    requires forall d :: d in active ==> active[d] == Run(keys, d, i) + if d in offsets then 1 else 0
    requires forall d :: d in kept <==> d in active && d in offsets
    requires forall d :: d in kept ==> kept[d] == active[d]
    ensures Tracks(kept, keys, i + 1)
  {}

  method DeleteKeys(active: map<nat, nat>, toRemove: seq<nat>) returns (kept: map<nat, nat>)
    ensures forall d :: d in kept <==> d in active && d !in toRemove
    ensures forall d :: d in kept ==> kept[d] == active[d]
  {
    kept := active;
    for r := 0 to |toRemove|
      invariant forall d :: d in kept <==> d in active && d !in toRemove[..r]
      invariant forall d :: d in kept ==> kept[d] == active[d]
    {
      assert toRemove[..r + 1] == toRemove[..r] + [toRemove[r]];
      kept := kept - {toRemove[r]};
    }
    assert toRemove[..|toRemove|] == toRemove;
  }
}
