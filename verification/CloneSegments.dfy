// The classes of detect_clones (cdup/src/detect.py), stated over the segments alone: no
// flat sequence, barrier or position.
module CloneSegments {
  import opened Wrappers
  import opened CloneRuns
  import opened CloneScan
  import opened CloneDetect

  // ---- Repeated stretches ------------------------------------------------------------------

  // The stretches of len statements from statement a of segs[i] and b of segs[j].
  datatype Twin = Twin(i: int, a: int, j: int, b: int, len: int)

  predicate Fits(segs: seq<Segment>, i: int, a: int, len: int) {
    0 <= i < |segs| && 0 <= a && 0 <= len && a + len <= |segs[i].stmts|
  }

  // How often a statement text occurs in the segments.
  function Frequency(segs: seq<Segment>, k: Key): nat {
    if segs == [] then 0 else Frequency(segs[..|segs| - 1], k) + multiset(segs[|segs| - 1].stmts)[k]
  }

  predicate Admitted(segs: seq<Segment>, maxFreq: int, k: Key) {
    maxFreq > 0 ==> Frequency(segs, k) <= maxFreq
  }

  // Two stretches at different places with the same texts, none of them too frequent.
  ghost predicate Repeats(segs: seq<Segment>, maxFreq: int, t: Twin) {
    Fits(segs, t.i, t.a, t.len) && Fits(segs, t.j, t.b, t.len) && (t.i, t.a) != (t.j, t.b)
    && forall k :: 0 <= k < t.len ==> SameAt(segs, maxFreq, t, k)
  }

  predicate SameAt(segs: seq<Segment>, maxFreq: int, t: Twin, k: int) {
    SameText(segs, maxFreq, t.i, t.a + k, t.j, t.b + k)
  }

  // Two statements have one text, and it is not too frequent.
  predicate SameText(segs: seq<Segment>, maxFreq: int, i: int, a: int, j: int, b: int) {
    0 <= i < |segs| && 0 <= a < |segs[i].stmts| && 0 <= j < |segs| && 0 <= b < |segs[j].stmts|
    && segs[i].stmts[a] == segs[j].stmts[b] && Admitted(segs, maxFreq, segs[i].stmts[a])
  }

  function Left(t: Twin): Twin { Twin(t.i, t.a - 1, t.j, t.b - 1, t.len + 1) }
  function Right(t: Twin): Twin { t.(len := t.len + 1) }

  // Not part of a longer repetition at the same distance.
  ghost predicate Longest(segs: seq<Segment>, maxFreq: int, t: Twin) {
    t.len >= 1 && Repeats(segs, maxFreq, t) && !Repeats(segs, maxFreq, Left(t)) && !Repeats(segs, maxFreq, Right(t))
  }

  lemma {:induction false} Widened(segs: seq<Segment>, maxFreq: int, t: Twin) returns (m: Twin)
    requires t.len >= 1 && Repeats(segs, maxFreq, t)
    ensures Longest(segs, maxFreq, m) && m.i == t.i && m.j == t.j && m.b - m.a == t.b - t.a
    ensures m.a <= t.a && t.a + t.len <= m.a + m.len
    decreases |segs[t.i].stmts| - t.len
  {
    if Repeats(segs, maxFreq, Left(t)) {
      m := Widened(segs, maxFreq, Left(t));
    } else if Repeats(segs, maxFreq, Right(t)) {
      m := Widened(segs, maxFreq, Right(t));
    } else {
      m := t;
    }
  }

  // ---- Positions in the flat sequence ---------------------------------------------------------

  function Base(segs: seq<Segment>, i: int): nat
    requires 0 <= i <= |segs|
  {
    |Flat(segs[..i])|
  }

  lemma BaseIs(segs: seq<Segment>)
    ensures Base(segs, |segs|) == |Flat(segs)|
    ensures segs != [] ==> Base(segs, |segs| - 1) == |Flat(segs[..|segs| - 1])|
  {
    assert segs[..|segs|] == segs;
  }

  // The entries of a segment, and a barrier, follow the entries of those before.
  lemma FlatStep(segs: seq<Segment>, i: int)
    requires 0 <= i < |segs|
    ensures Flat(segs[..i + 1]) == Flat(segs[..i]) + Entries(segs[i], |segs[i].stmts|) + [None]
  {
    assert segs[..i + 1][..i] == segs[..i];
  }

  lemma {:induction false} FlatPrefix(segs: seq<Segment>, i: int, j: int)
    requires 0 <= i <= j <= |segs|
    ensures Flat(segs[..i]) <= Flat(segs[..j])
    decreases j - i
  {
    hide Flat;
    if i < j {
      FlatPrefix(segs, i, j - 1);
      FlatStep(segs, j - 1);
    }
  }

  lemma FlatAt(segs: seq<Segment>, i: int)
    requires 0 <= i < |segs|
    ensures Base(segs, i + 1) == Base(segs, i) + |segs[i].stmts| + 1 <= |Flat(segs)|
    ensures forall k :: 0 <= k < |segs[i].stmts| ==>
              Flat(segs)[Base(segs, i) + k] == Some(Entry(segs[i].id, k, segs[i].stmts[k]))
    ensures Flat(segs)[Base(segs, i) + |segs[i].stmts|] == None
    ensures i > 0 ==> Base(segs, i) > 0 && Flat(segs)[Base(segs, i) - 1] == None
  {
    hide Flat;
    FlatPrefix(segs, i + 1, |segs|);
    FlatStep(segs, i);
    assert segs[..|segs|] == segs;
    PieceAt(Flat(segs), Flat(segs[..i]), Entries(segs[i], |segs[i].stmts|));
    if i > 0 {
      FlatPrefix(segs, i, |segs|);
      FlatStep(segs, i - 1);
      PieceAt(Flat(segs), Flat(segs[..i - 1]), Entries(segs[i - 1], |segs[i - 1].stmts|));
    }
  }

  lemma PieceAt(whole: seq<Option<Entry>>, before: seq<Option<Entry>>, es: seq<Option<Entry>>)
    requires before + es + [None] <= whole
    ensures |before| + |es| + 1 <= |whole| && whole[|before| + |es|] == None
    ensures forall k :: 0 <= k < |es| ==> whole[|before| + k] == es[k]
  {
    var part := before + es + [None];
    assert forall x :: 0 <= x < |part| ==> whole[x] == part[x];
    forall k | 0 <= k < |es| ensures whole[|before| + k] == es[k] {
      assert part[|before| + k] == es[k];
    }
    assert part[|before| + |es|] == None;
  }

  lemma {:induction false} BasesGrow(segs: seq<Segment>, i: int, j: int)
    requires 0 <= i < j <= |segs|
    ensures Base(segs, i) + |segs[i].stmts| + 1 <= Base(segs, j)
    decreases j - i
  {
    hide Flat, Base;
    FlatAt(segs, j - 1);
    FlatAt(segs, i);
    if i < j - 1 { BasesGrow(segs, i, j - 1); }
  }

  // Every statement position is that of one statement.
  lemma {:induction false} LocatedBelow(segs: seq<Segment>, q: int, n: int) returns (i: int, a: int)
    requires 0 <= n <= |segs| && 0 <= q < Base(segs, n) <= |Flat(segs)| && Flat(segs)[q].Some?
    ensures 0 <= i < |segs| && 0 <= a < |segs[i].stmts| && q == Base(segs, i) + a
    decreases n
  {
    hide Flat, Base;
    if n == 0 {
      BaseOfNone(segs);
    } else {
      FlatAt(segs, n - 1);
      if q < Base(segs, n - 1) {
        i, a := LocatedBelow(segs, q, n - 1);
      } else {
        i, a := n - 1, q - Base(segs, n - 1);
      }
    }
  }

  lemma BaseOfNone(segs: seq<Segment>)
    ensures Base(segs, 0) == 0
  {}

  lemma Located(segs: seq<Segment>, q: int) returns (i: int, a: int)
    requires 0 <= q < |Flat(segs)| && Flat(segs)[q].Some?
    ensures 0 <= i < |segs| && 0 <= a < |segs[i].stmts| && q == Base(segs, i) + a
  {
    hide Flat;
    BaseIs(segs);
    i, a := LocatedBelow(segs, q, |segs|);
  }

  lemma {:induction false} EntriesCount(keys: seq<Option<Key>>, k: Key, n: nat, m: nat, stmts: seq<Key>)
    requires n + m <= |keys| && m <= |stmts|
    requires forall x :: 0 <= x < m ==> keys[n + x] == Some(stmts[x])
    ensures Count(keys, k, n + m) == Count(keys, k, n) + multiset(stmts[..m])[k]
  {
    if m > 0 {
      EntriesCount(keys, k, n, m - 1, stmts);
      assert stmts[..m] == stmts[..m - 1] + [stmts[m - 1]];
    }
  }

  lemma {:induction false} CountPrefix(keys: seq<Option<Key>>, more: seq<Option<Key>>, k: Key, n: nat)
    requires n <= |keys|
    ensures Count(keys + more, k, n) == Count(keys, k, n)
  {
    if n > 0 { CountPrefix(keys, more, k, n - 1); }
  }

  lemma NormsAppend(a: seq<Option<Entry>>, b: seq<Option<Entry>>)
    ensures Norms(a + b) == Norms(a) + Norms(b)
  {}

  lemma EntryKeys(s: Segment)
    ensures var keys := Norms(Entries(s, |s.stmts|));
            |keys| == |s.stmts| && forall x :: 0 <= x < |s.stmts| ==> keys[x] == Some(s.stmts[x])
    ensures Norms([None]) == [None]
  {}

  // The keys of the last segment follow those of the others.
  lemma LastKeys(segs: seq<Segment>)
    requires segs != []
    ensures var m := |segs| - 1;
            Norms(Flat(segs)) == Norms(Flat(segs[..m])) + Norms(Entries(segs[m], |segs[m].stmts|)) + [None]
  {
    hide Norms, Entries;
    var m := |segs| - 1;
    NormsAppend(Flat(segs[..m]), Entries(segs[m], |segs[m].stmts|));
    NormsAppend(Flat(segs[..m]) + Entries(segs[m], |segs[m].stmts|), [None]);
    EntryKeys(segs[m]);
  }

  lemma LastCount(front: seq<Option<Key>>, own: seq<Option<Key>>, k: Key, stmts: seq<Key>)
    requires |own| == |stmts| && forall x :: 0 <= x < |own| ==> own[x] == Some(stmts[x])
    ensures var keys := front + own + [None]; Count(keys, k, |keys|) == Count(front, k, |front|) + multiset(stmts)[k]
  {
    var keys := front + own + [None];
    assert keys == front + (own + [None]);
    CountPrefix(front, own + [None], k, |front|);
    EntriesCount(keys, k, |front|, |own|, stmts);
    assert stmts[..|own|] == stmts;
  }

  // The scan counts the texts of the segments.
  lemma {:induction false} CountIsFrequency(segs: seq<Segment>, k: Key)
    ensures Count(Norms(Flat(segs)), k, |Norms(Flat(segs))|) == Frequency(segs, k)
  {
    hide Norms, Flat, Count, Entries;
    if segs == [] {
      NoKeys(k);
    } else {
      var m := |segs| - 1;
      CountIsFrequency(segs[..m], k);
      LastKeys(segs);
      EntryKeys(segs[m]);
      LastCount(Norms(Flat(segs[..m])), Norms(Entries(segs[m], |segs[m].stmts|)), k, segs[m].stmts);
    }
  }

  lemma NoKeys(k: Key)
    ensures Count(Norms(Flat([])), k, |Norms(Flat([]))|) == 0
  {}

  // The keys the scan compares.
  function Keys(segs: seq<Segment>, maxFreq: int): seq<Option<Key>> { Rare(Norms(Flat(segs)), maxFreq) }

  lemma KeyAt(segs: seq<Segment>, maxFreq: int, i: int, a: int)
    requires 0 <= i < |segs| && 0 <= a < |segs[i].stmts|
    ensures |Keys(segs, maxFreq)| == |Flat(segs)| && Base(segs, i) + a < |Flat(segs)|
    ensures Keys(segs, maxFreq)[Base(segs, i) + a] ==
            if Admitted(segs, maxFreq, segs[i].stmts[a]) then Some(segs[i].stmts[a]) else None
  {
    hide Flat, Frequency, Count;
    FlatAt(segs, i);
    CountIsFrequency(segs, segs[i].stmts[a]);
  }

  // Two statements match exactly when they have one admitted text.
  lemma MatchAt(segs: seq<Segment>, maxFreq: int, i: int, a: int, j: int, b: int)
    requires 0 <= i < |segs| && 0 <= a < |segs[i].stmts| && 0 <= j < |segs| && 0 <= b < |segs[j].stmts|
    requires Base(segs, i) + a < Base(segs, j) + b
    ensures Match(Keys(segs, maxFreq), Base(segs, j) + b - (Base(segs, i) + a), Base(segs, i) + a) <==>
            SameText(segs, maxFreq, i, a, j, b)
  {
    hide Base, Keys, Admitted;
    KeyAt(segs, maxFreq, i, a);
    KeyAt(segs, maxFreq, j, b);
  }

  // A position without a statement matches nothing.
  lemma NoMatch(segs: seq<Segment>, maxFreq: int, d: int, q: int)
    requires d > 0 && (q < 0 || q + d >= |Flat(segs)| || Flat(segs)[q].None? || Flat(segs)[q + d].None?)
    ensures !Match(Keys(segs, maxFreq), d, q)
  {
    hide Flat, Count;
  }

  // ---- Repeated stretches are repeated blocks ---------------------------------------------------

  // The block of a twin whose first stretch stands first.
  function BlockOf(segs: seq<Segment>, t: Twin): Pair
    requires 0 <= t.i < |segs| && 0 <= t.j < |segs|
  {
    Pair(Base(segs, t.i) + t.a, Base(segs, t.j) + t.b, t.len)
  }

  predicate InPlace(segs: seq<Segment>, t: Twin) {
    Fits(segs, t.i, t.a, t.len) && Fits(segs, t.j, t.b, t.len) && Base(segs, t.i) + t.a < Base(segs, t.j) + t.b
  }

  lemma SameIsMatch(segs: seq<Segment>, maxFreq: int, t: Twin, k: int)
    requires InPlace(segs, t) && 0 <= k < t.len
    ensures var p := BlockOf(segs, t); SameAt(segs, maxFreq, t, k) <==> Match(Keys(segs, maxFreq), p.b - p.a, p.a + k)
  {
    hide Base, Keys, SameText, Match;
    MatchAt(segs, maxFreq, t.i, t.a + k, t.j, t.b + k);
  }

  lemma RepeatsIsEqual(segs: seq<Segment>, maxFreq: int, t: Twin)
    requires InPlace(segs, t)
    ensures var p := BlockOf(segs, t); Repeats(segs, maxFreq, t) <==> Equal(Keys(segs, maxFreq), p.b - p.a, p.a, p.len)
  {
    hide Base, Keys, SameAt, Match;
    var p := BlockOf(segs, t);
    var keys, d := Keys(segs, maxFreq), p.b - p.a;
    if Repeats(segs, maxFreq, t) {
      forall q | p.a <= q < p.a + p.len ensures Match(keys, d, q) {
        SameIsMatch(segs, maxFreq, t, q - p.a);
      }
    }
    if Equal(Keys(segs, maxFreq), p.b - p.a, p.a, p.len) {
      forall k | 0 <= k < t.len ensures SameAt(segs, maxFreq, t, k) {
        SameIsMatch(segs, maxFreq, t, k);
      }
    }
  }

  lemma LeftIsMatch(segs: seq<Segment>, maxFreq: int, t: Twin)
    requires InPlace(segs, t) && Repeats(segs, maxFreq, t)
    ensures var p := BlockOf(segs, t);
            Repeats(segs, maxFreq, Left(t)) <==> Match(Keys(segs, maxFreq), p.b - p.a, p.a - 1)
  {
    hide Base, Keys, Admitted, Match, SameText, Flat;
    var p := BlockOf(segs, t);
    FlatAt(segs, t.i);
    FlatAt(segs, t.j);
    if t.a == 0 || t.b == 0 {
      BaseOfNone(segs);
      NoMatch(segs, maxFreq, p.b - p.a, p.a - 1);
    } else {
      MatchAt(segs, maxFreq, t.i, t.a - 1, t.j, t.b - 1);
      LeftIs(segs, maxFreq, t);
    }
  }

  lemma LeftIs(segs: seq<Segment>, maxFreq: int, t: Twin)
    requires Repeats(segs, maxFreq, t) && t.a > 0 && t.b > 0
    ensures Repeats(segs, maxFreq, Left(t)) <==> SameText(segs, maxFreq, t.i, t.a - 1, t.j, t.b - 1)
  {
    hide SameText;
    var l := Left(t);
    assert SameAt(segs, maxFreq, l, 0) <==> SameText(segs, maxFreq, t.i, t.a - 1, t.j, t.b - 1);
    forall k | 0 < k < l.len ensures SameAt(segs, maxFreq, l, k) {
      assert SameAt(segs, maxFreq, t, k - 1);
    }
  }

  lemma RightIs(segs: seq<Segment>, maxFreq: int, t: Twin)
    requires Repeats(segs, maxFreq, t) && t.a + t.len < |segs[t.i].stmts| && t.b + t.len < |segs[t.j].stmts|
    ensures Repeats(segs, maxFreq, Right(t)) <==> SameText(segs, maxFreq, t.i, t.a + t.len, t.j, t.b + t.len)
  {
    hide SameText;
    var r := Right(t);
    assert SameAt(segs, maxFreq, r, t.len) <==> SameText(segs, maxFreq, t.i, t.a + t.len, t.j, t.b + t.len);
    forall k | 0 <= k < t.len ensures SameAt(segs, maxFreq, r, k) {
      assert SameAt(segs, maxFreq, t, k);
    }
  }

  lemma RightIsMatch(segs: seq<Segment>, maxFreq: int, t: Twin)
    requires InPlace(segs, t) && Repeats(segs, maxFreq, t)
    ensures var p := BlockOf(segs, t);
            Repeats(segs, maxFreq, Right(t)) <==> Match(Keys(segs, maxFreq), p.b - p.a, p.a + p.len)
  {
    hide Base, Keys, Admitted, Match, SameText, Flat;
    var p := BlockOf(segs, t);
    FlatAt(segs, t.i);
    FlatAt(segs, t.j);
    if t.a + t.len == |segs[t.i].stmts| || t.b + t.len == |segs[t.j].stmts| {
      NoMatch(segs, maxFreq, p.b - p.a, p.a + p.len);
    } else {
      MatchAt(segs, maxFreq, t.i, t.a + t.len, t.j, t.b + t.len);
      RightIs(segs, maxFreq, t);
    }
  }

  lemma LongestIsMaximal(segs: seq<Segment>, maxFreq: int, t: Twin)
    requires InPlace(segs, t)
    ensures Longest(segs, maxFreq, t) <==> Maximal(Keys(segs, maxFreq), BlockOf(segs, t))
  {
    hide Base, Keys, Repeats, Equal, Match;
    RepeatsIsEqual(segs, maxFreq, t);
    if Repeats(segs, maxFreq, t) {
      LeftIsMatch(segs, maxFreq, t);
      RightIsMatch(segs, maxFreq, t);
    }
  }

  // Every maximal block is the block of a twin.
  lemma BlockIsTwin(segs: seq<Segment>, maxFreq: int, p: Pair) returns (t: Twin)
    requires Maximal(Keys(segs, maxFreq), p)
    ensures InPlace(segs, t) && BlockOf(segs, t) == p && Longest(segs, maxFreq, t)
  {
    hide Base, Flat, Longest, Equal, Match, Rare, Norms, IsStretch;
    MaximalIsAllSome(Flat(segs), maxFreq, p);
    MaximalIsPair(Keys(segs, maxFreq), p);
    var i, a := Located(segs, p.a);
    var j, b := Located(segs, p.b);
    StaysInSegment(segs, i, a, p.len);
    StaysInSegment(segs, j, b, p.len);
    t := Twin(i, a, j, b, p.len);
    LongestIsMaximal(segs, maxFreq, t);
  }

  // A stretch without a barrier does not leave its segment.
  lemma StaysInSegment(segs: seq<Segment>, i: int, a: int, len: int)
    requires 0 <= i < |segs| && 0 <= a < |segs[i].stmts| && len >= 1
    requires Base(segs, i) + a + len <= |Flat(segs)|
    requires forall q :: Base(segs, i) + a <= q < Base(segs, i) + a + len ==> Flat(segs)[q].Some?
    ensures a + len <= |segs[i].stmts|
  {
    hide Flat, Base;
    FlatAt(segs, i);
  }

  // What is reported of a stretch: where it stands and what it says.
  lemma StretchAt(segs: seq<Segment>, i: int, a: int, len: int)
    requires Fits(segs, i, a, len) && len >= 1
    ensures Base(segs, i) + a + len <= |Flat(segs)|
    ensures OccurrenceAt(Flat(segs), Base(segs, i) + a, len) == Occurrence(segs[i].id, a, a + len - 1)
    ensures Content(Flat(segs), Base(segs, i) + a, len) == segs[i].stmts[a..a + len]
  {
    hide Content, Flat, Base, IsStretch, OccurrenceAt;
    SegmentStretch(segs, i, a, len);
    ContentIsSlice(Flat(segs), Base(segs, i) + a, len, segs[i], a);
    OccurrenceIs(Flat(segs), Base(segs, i) + a, len, segs[i], a);
  }

  lemma SegmentStretch(segs: seq<Segment>, i: int, a: int, len: int)
    requires Fits(segs, i, a, len)
    ensures IsStretch(Flat(segs), Base(segs, i) + a, len, segs[i], a) && Base(segs, i) + a + len <= |Flat(segs)|
  {
    hide Flat, Base;
    FlatAt(segs, i);
    var q := Base(segs, i) + a;
    forall x | q <= x < q + len
      ensures Flat(segs)[x] == Some(Entry(segs[i].id, a + (x - q), segs[i].stmts[a + (x - q)]))
    {
      assert x == Base(segs, i) + (a + (x - q));
    }
  }

  lemma OccurrenceIs(flat: seq<Option<Entry>>, start: nat, len: nat, s: Segment, first: nat)
    requires IsStretch(flat, start, len, s, first) && len >= 1
    ensures OccurrenceAt(flat, start, len) == Occurrence(s.id, first, first + len - 1)
  {
    assert flat[start] == Some(Entry(s.id, first + (start - start), s.stmts[first + (start - start)]));
    assert flat[start + len - 1].Some?;
  }

  // ---- The reported classes ------------------------------------------------------------------------

  // The first stretch of t is occurrence o of the class of the given content.
  ghost predicate Shows(segs: seq<Segment>, maxFreq: int, t: Twin, content: seq<Key>, o: Occurrence) {
    Longest(segs, maxFreq, t) && content == segs[t.i].stmts[t.a..t.a + t.len]
    && o == Occurrence(segs[t.i].id, t.a, t.a + t.len - 1)
  }

  function Swapped(t: Twin): Twin { Twin(t.j, t.b, t.i, t.a, t.len) }

  lemma RepeatsSwapped(segs: seq<Segment>, maxFreq: int, t: Twin)
    ensures Repeats(segs, maxFreq, t) <==> Repeats(segs, maxFreq, Swapped(t))
  {
    hide Admitted;
    var u := Swapped(t);
    assert forall k :: SameAt(segs, maxFreq, u, k) <==> SameAt(segs, maxFreq, t, k);
  }

  lemma LongestSwapped(segs: seq<Segment>, maxFreq: int, t: Twin)
    ensures Longest(segs, maxFreq, t) <==> Longest(segs, maxFreq, Swapped(t))
  {
    hide Repeats;
    RepeatsSwapped(segs, maxFreq, t);
    RepeatsSwapped(segs, maxFreq, Left(t));
    RepeatsSwapped(segs, maxFreq, Right(t));
  }

  lemma SameTexts(segs: seq<Segment>, maxFreq: int, t: Twin)
    requires Repeats(segs, maxFreq, t)
    ensures segs[t.i].stmts[t.a..t.a + t.len] == segs[t.j].stmts[t.b..t.b + t.len]
  {
    var x, y := segs[t.i].stmts[t.a..t.a + t.len], segs[t.j].stmts[t.b..t.b + t.len];
    forall k | 0 <= k < t.len ensures x[k] == y[k] {
      assert SameAt(segs, maxFreq, t, k);
    }
  }

  // Two different places have different positions.
  lemma PlacesApart(segs: seq<Segment>, t: Twin)
    requires Fits(segs, t.i, t.a, t.len) && Fits(segs, t.j, t.b, t.len) && (t.i, t.a) != (t.j, t.b) && t.len >= 1
    ensures InPlace(segs, t) || InPlace(segs, Swapped(t))
  {
    hide Base;
    if t.i < t.j { BasesGrow(segs, t.i, t.j); }
    if t.j < t.i { BasesGrow(segs, t.j, t.i); }
  }

  lemma ShowsPuts(segs: seq<Segment>, maxFreq: int, t: Twin, content: seq<Key>, o: Occurrence) returns (p: Pair)
    requires Shows(segs, maxFreq, t, content, o)
    ensures Maximal(Keys(segs, maxFreq), p) && p.len == t.len && PutsOccurrence(Flat(segs), p, content, o)
  {
    hide Base, Keys, Flat, Maximal, Content, OccurrenceAt, Admitted;
    PlacesApart(segs, t);
    SameTexts(segs, maxFreq, t);
    StretchAt(segs, t.i, t.a, t.len);
    StretchAt(segs, t.j, t.b, t.len);
    var u := if InPlace(segs, t) then t else Swapped(t);
    LongestSwapped(segs, maxFreq, t);
    LongestIsMaximal(segs, maxFreq, u);
    p := BlockOf(segs, u);
  }

  lemma PutsShows(segs: seq<Segment>, maxFreq: int, p: Pair, content: seq<Key>, o: Occurrence) returns (t: Twin)
    requires Maximal(Keys(segs, maxFreq), p) && PutsOccurrence(Flat(segs), p, content, o)
    ensures Shows(segs, maxFreq, t, content, o) && t.len == p.len
  {
    hide Base, Keys, Flat, Maximal, Content, OccurrenceAt, Admitted;
    var u := BlockIsTwin(segs, maxFreq, p);
    SameTexts(segs, maxFreq, u);
    StretchAt(segs, u.i, u.a, u.len);
    StretchAt(segs, u.j, u.b, u.len);
    LongestSwapped(segs, maxFreq, u);
    t := if o == OccurrenceAt(Flat(segs), p.a, p.len) then u else Swapped(u);
  }

  // Occurrence o contains the len statements from a of a segment.
  predicate Covers(o: Occurrence, id: int, a: int, len: int) {
    o.seg == id && o.first <= a && a + len - 1 <= o.last
  }

  // Some class holds occurrences that contain both stretches.
  ghost predicate ReportsBoth(classes: map<seq<Key>, set<Occurrence>>, segs: seq<Segment>, t: Twin)
    requires 0 <= t.i < |segs| && 0 <= t.j < |segs|
  {
    exists c, o, o' :: In(classes, c, o) && In(classes, c, o')
                       && Covers(o, segs[t.i].id, t.a, t.len) && Covers(o', segs[t.j].id, t.b, t.len)
  }

  // The classes hold exactly the longest repetitions of the wanted length.
  ghost predicate HoldsLongest(classes: map<seq<Key>, set<Occurrence>>, segs: seq<Segment>, maxFreq: int,
                               minLength: int)
  {
    forall c, o :: In(classes, c, o) <==> exists t :: Shows(segs, maxFreq, t, c, o) && t.len >= minLength
  }

  lemma RepetitionsAreReported(classes: map<seq<Key>, set<Occurrence>>, segs: seq<Segment>, maxFreq: int,
                               minLength: int, t: Twin)
    requires HoldsLongest(classes, segs, maxFreq, minLength)
    requires Repeats(segs, maxFreq, t) && t.len >= 1 && t.len >= minLength
    ensures ReportsBoth(classes, segs, t)
  {
    hide Repeats, Longest, In;
    var m := Widened(segs, maxFreq, t);
    LongestFits(segs, maxFreq, m);
    LongestSwapped(segs, maxFreq, m);
    var c := segs[m.i].stmts[m.a..m.a + m.len];
    var o, o' := Occurrence(segs[m.i].id, m.a, m.a + m.len - 1), Occurrence(segs[m.j].id, m.b, m.b + m.len - 1);
    assert Shows(segs, maxFreq, m, c, o) && Shows(segs, maxFreq, Swapped(m), c, o');
    assert In(classes, c, o) && In(classes, c, o');
    assert Covers(o, segs[t.i].id, t.a, t.len) && Covers(o', segs[t.j].id, t.b, t.len);
  }

  lemma LongestFits(segs: seq<Segment>, maxFreq: int, t: Twin)
    requires Longest(segs, maxFreq, t)
    ensures t.len >= 1 && Fits(segs, t.i, t.a, t.len) && Fits(segs, t.j, t.b, t.len)
    ensures segs[t.i].stmts[t.a..t.a + t.len] == segs[t.j].stmts[t.b..t.b + t.len]
  {
    SameTexts(segs, maxFreq, t);
  }

  lemma BlocksAreLongest(classes: map<seq<Key>, set<Occurrence>>, segs: seq<Segment>, maxFreq: int, minLength: int)
    requires forall c, o :: In(classes, c, o) <==>
               exists p :: Maximal(Keys(segs, maxFreq), p) && p.len >= minLength && PutsOccurrence(Flat(segs), p, c, o)
    ensures HoldsLongest(classes, segs, maxFreq, minLength)
  {
    hide Shows, Maximal, PutsOccurrence, Keys, Flat, In;
    forall c, o
      ensures In(classes, c, o) <==> exists t :: Shows(segs, maxFreq, t, c, o) && t.len >= minLength
    {
      if p :| Maximal(Keys(segs, maxFreq), p) && p.len >= minLength && PutsOccurrence(Flat(segs), p, c, o) {
        var t := PutsShows(segs, maxFreq, p, c, o);
      }
      if t :| Shows(segs, maxFreq, t, c, o) && t.len >= minLength {
        var p := ShowsPuts(segs, maxFreq, t, c, o);
      }
    }
  }

  method DetectClones(segs: seq<Segment>, minLength: int, maxFreq: int)
    returns (classes: map<seq<Key>, set<Occurrence>>)
    ensures HoldsLongest(classes, segs, maxFreq, minLength)
    ensures forall t :: Repeats(segs, maxFreq, t) && t.len >= 1 && t.len >= minLength ==> ReportsBoth(classes, segs, t)
  {
    hide Maximal, Rare, Norms, Flat, Content, OccurrenceAt;
    var flat := Flatten(segs);
    var done := ScanFlat(flat, minLength, maxFreq);
    classes := map[];
    for n := 0 to |done|
      invariant forall c, o :: In(classes, c, o) <==> exists p :: p in done[..n] && PutsOccurrence(flat, p, c, o)
    {
      var p := done[n];
      assert p in done;
      MaximalIsPair(Rare(Norms(flat), maxFreq), p);
      MaximalEndsEarly(Rare(Norms(flat), maxFreq), p);
      NormsFit(flat, maxFreq);
      var content := ContentOf(flat, p.a, p.len);
      var before := if content in classes then classes[content] else {};
      ghost var old' := classes;
      classes := classes[content := before + {OccurrenceAt(flat, p.a, p.len), OccurrenceAt(flat, p.b, p.len)}];
      assert done[..n + 1] == done[..n] + [p];
      forall c, o ensures In(classes, c, o) <==> In(old', c, o) || PutsOccurrence(flat, p, c, o) {}
    }
    assert done[..|done|] == done;
    BlocksAreLongest(classes, segs, maxFreq, minLength);
    forall t | Repeats(segs, maxFreq, t) && t.len >= 1 && t.len >= minLength ensures ReportsBoth(classes, segs, t) {
      RepetitionsAreReported(classes, segs, maxFreq, minLength, t);
    }
  }
}
