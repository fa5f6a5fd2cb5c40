// find_clones (cdup/legacy/core.py) and the Type I path of detect_clones
// (cdup/src/detect.py), each against the definition of a maximal repeated block.
module CloneDetect {
  import opened Wrappers
  import opened CloneRuns
  import opened CloneScan

  // The completed pairs after a whole scan: every maximal block of the wanted
  // length, each once.
  ghost predicate AllMaximal(done: seq<Pair>, keys: seq<Option<Key>>, minLength: int) {
    (forall p :: p in done <==> Maximal(keys, p) && p.len >= minLength)
    && (forall x, y :: 0 <= x < y < |done| ==> done[x] != done[y])
  }

  lemma MaximalEndsEarly(keys: seq<Option<Key>>, p: Pair)
    requires Maximal(keys, p)
    ensures p.a + p.len < p.b + p.len <= |keys|
  {
    assert Match(keys, p.b - p.a, p.a + p.len - 1);
  }

  lemma CompletedIsAll(done: seq<Pair>, keys: seq<Option<Key>>, i: int, minLength: int)
    requires i >= |keys| && Completed(done, keys, i, minLength)
    ensures AllMaximal(done, keys, minLength)
  {
    forall p | Maximal(keys, p) ensures p.a + p.len < i {
      MaximalEndsEarly(keys, p);
    }
  }

  // The flush after the scan finds no open run: a run that reached the last
  // position would match a position beyond it.
  lemma NothingLeftToFlush(active: map<nat, nat>, keys: seq<Option<Key>>)
    requires Tracks(active, keys, |keys|)
    ensures active == map[]
  {
    assert forall d: nat :: d > 0 ==> Run(keys, d, |keys|) == 0;
  }

  // ---- legacy/core.py ----------------------------------------------------------------

  function Keyed(lines: seq<Key>): (keys: seq<Option<Key>>)
    ensures |keys| == |lines| && forall i :: 0 <= i < |lines| ==> keys[i] == Some(lines[i])
  {
    seq(|lines|, i requires 0 <= i < |lines| => Some(lines[i]))
  }

  method ScanLines(lines: seq<Key>) returns (done: seq<Pair>)
    ensures AllMaximal(done, Keyed(lines), 2)
  {
    hide Tracks, Completed, AllMaximal, Maximal, LaterMatches, Match;
    var keys := Keyed(lines);
    NothingYet(keys, 2);
    var index := InvertedIndex(keys);
    var active: map<nat, nat> := map[];
    done := [];
    for i := 0 to |lines|
      invariant Tracks(active, keys, i) && Completed(done, keys, i, 2)
    {
      assert keys[i] in keys;
      ListedAreMatches(index[lines[i]], keys, i);
      done, active := ScanStep(keys, i, index[lines[i]], active, 2, done);
    }
    NothingPasses(keys, |lines|);
    done := FlushRuns(keys, |lines|, active, 2, done);
    CompletedIsAll(done, keys, |lines| + 1, 2);
  }

  datatype Spot = Spot(start: int, len: int)

  predicate In<O(==)>(classes: map<seq<Key>, set<O>>, content: seq<Key>, o: O) {
    content in classes && o in classes[content]
  }

  // Block p puts o into the class of the given content.
  ghost predicate Puts(lines: seq<Key>, p: Pair, content: seq<Key>, o: Spot) {
    0 <= p.a && 0 <= p.len && p.a + p.len <= |lines| && content == lines[p.a..p.a + p.len]
    && (o == Spot(p.a, p.len) || o == Spot(p.b, p.len))
  }

  method FindClones(lines: seq<Key>) returns (classes: map<seq<Key>, set<Spot>>)
    ensures forall c, o :: In(classes, c, o) <==>
              exists p :: Maximal(Keyed(lines), p) && p.len >= 2 && Puts(lines, p, c, o)
  {
    var done := ScanLines(lines);
    classes := map[];
    for n := 0 to |done|
      invariant forall c, o :: In(classes, c, o) <==> exists p :: p in done[..n] && Puts(lines, p, c, o)
    {
      var p := done[n];
      assert p in done;
      MaximalEndsEarly(Keyed(lines), p);
      var content := lines[p.a..p.a + p.len];
      var before := if content in classes then classes[content] else {};
      ghost var old' := classes;
      classes := classes[content := before + {Spot(p.a, p.len), Spot(p.b, p.len)}];
      assert done[..n + 1] == done[..n] + [p];
      forall c, o ensures In(classes, c, o) <==> In(old', c, o) || Puts(lines, p, c, o) {}
    }
    assert done[..|done|] == done;
  }

  // Every spot of a class holds the class's content, and has a twin elsewhere.
  lemma SpotsHoldTheContent(lines: seq<Key>, p: Pair, content: seq<Key>, o: Spot)
    requires Maximal(Keyed(lines), p) && Puts(lines, p, content, o)
    ensures 0 <= o.start && o.start + o.len <= |lines| && lines[o.start..o.start + o.len] == content
    ensures Puts(lines, p, content, Spot(p.a, p.len)) && Puts(lines, p, content, Spot(p.b, p.len)) && p.a != p.b
  {
    MaximalEndsEarly(Keyed(lines), p);
    var d := p.b - p.a;
    forall k | p.a <= k < p.a + p.len ensures lines[k] == lines[k + d] {
      assert Match(Keyed(lines), d, k);
    }
    assert lines[p.b..p.b + p.len] == lines[p.a..p.a + p.len];
  }

  // No repetition is missed: two equal stretches of two or more lines lie, at the
  // same distance, inside one reported pair.
  lemma RepetitionIsReported(lines: seq<Key>, a: nat, b: nat, len: nat) returns (m: Pair)
    requires a < b && 2 <= len && b + len <= |lines| && lines[a..a + len] == lines[b..b + len]
    ensures Maximal(Keyed(lines), m) && m.len >= 2 && m.b - m.a == b - a && m.a <= a && a + len <= m.a + m.len
    ensures m.a + m.len <= |lines| && Puts(lines, m, lines[m.a..m.a + m.len], Spot(m.a, m.len))
  {
    var keys, d := Keyed(lines), b - a;
    forall k | a <= k < a + len ensures Match(keys, d, k) {
      assert lines[a..a + len][k - a] == lines[b..b + len][k - a];
    }
    m := BlockLiesInMaximal(keys, Pair(a, b, len));
    MaximalEndsEarly(keys, m);
  }

  // ---- detect.py -------------------------------------------------------------------------

  // A segment with its statements already normalised.
  datatype Segment = Segment(id: int, stmts: seq<Key>)
  datatype Entry = Entry(seg: int, stmt: nat, norm: Key)
  datatype Occurrence = Occurrence(seg: int, first: nat, last: nat)

  function Entries(s: Segment, n: nat): (es: seq<Option<Entry>>)
    requires n <= |s.stmts|
    ensures |es| == n && forall k :: 0 <= k < n ==> es[k] == Some(Entry(s.id, k, s.stmts[k]))
  {
    seq(n, k requires 0 <= k < n => Some(Entry(s.id, k, s.stmts[k])))
  }

  // The statements of all segments, a barrier after each segment.
  function Flat(segs: seq<Segment>): seq<Option<Entry>> {
    if segs == [] then []
    else
      var last := segs[|segs| - 1];
      Flat(segs[..|segs| - 1]) + Entries(last, |last.stmts|) + [None]
  }

  method Flatten(segs: seq<Segment>) returns (flat: seq<Option<Entry>>)
    ensures flat == Flat(segs)
  {
    flat := [];
    for i := 0 to |segs|
      invariant flat == Flat(segs[..i])
    {
      var s := segs[i];
      for k := 0 to |s.stmts|
        invariant flat == Flat(segs[..i]) + Entries(s, k)
      {
        flat := flat + [Some(Entry(s.id, k, s.stmts[k]))];
        assert Entries(s, k + 1) == Entries(s, k) + [Some(Entry(s.id, k, s.stmts[k]))];
      }
      flat := flat + [None];
      assert segs[..i + 1][..i] == segs[..i];
    }
    assert segs[..|segs|] == segs;
  }

  function Norms(flat: seq<Option<Entry>>): (keys: seq<Option<Key>>)
    ensures |keys| == |flat|
    ensures forall i :: 0 <= i < |flat| ==> keys[i] == if flat[i].Some? then Some(flat[i].value.norm) else None
  {
    seq(|flat|, i requires 0 <= i < |flat| => if flat[i].Some? then Some(flat[i].value.norm) else None)
  }

  // Statements occurring more than maxFreq times lose their key; 0 switches the filter off.
  function Rare(keys: seq<Option<Key>>, maxFreq: int): (r: seq<Option<Key>>)
    ensures |r| == |keys|
    ensures forall i :: 0 <= i < |keys| ==>
              r[i] == if keys[i].Some? && maxFreq > 0 && Count(keys, keys[i].value, |keys|) > maxFreq then None
                      else keys[i]
  {
    seq(|keys|, i requires 0 <= i < |keys| =>
      if keys[i].Some? && maxFreq > 0 && Count(keys, keys[i].value, |keys|) > maxFreq then None else keys[i])
  }

  // What the filtered index returns for a statement is where its remaining key matches.
  lemma RareMatches(norms: seq<Option<Key>>, maxFreq: int, i: nat, norm: Key, matches: seq<nat>)
    requires i < |norms| && norms[i] == Some(norm)
    requires if maxFreq > 0 && Count(norms, norm, |norms|) > maxFreq then matches == []
             else Lists(matches, norms, norm, |norms|)
    ensures Ascending(matches) && LaterMatches(matches, Rare(norms, maxFreq), i)
  {
    hide Count, Rare, Match, Lists;
    ListsAscend(matches, norms, norm);
    forall j ensures j in matches && j > i <==> Match(Rare(norms, maxFreq), j - i, i) {
      RareMatch(norms, maxFreq, i, j);
      if !(maxFreq > 0 && Count(norms, norm, |norms|) > maxFreq) { ListsHolds(matches, norms, norm, j); }
    }
  }

  lemma ListsAscend(matches: seq<nat>, norms: seq<Option<Key>>, norm: Key)
    ensures Lists(matches, norms, norm, |norms|) ==> Ascending(matches)
    ensures Ascending([])
  {}

  lemma ListsHolds(matches: seq<nat>, norms: seq<Option<Key>>, norm: Key, j: int)
    requires Lists(matches, norms, norm, |norms|)
    ensures j in matches <==> 0 <= j < |norms| && norms[j] == Some(norm)
  {}

  lemma RareMatch(norms: seq<Option<Key>>, maxFreq: int, i: nat, j: int)
    requires i < |norms| && norms[i].Some?
    ensures Match(Rare(norms, maxFreq), j - i, i) <==>
            i < j < |norms| && norms[j] == norms[i]
            && !(maxFreq > 0 && Count(norms, norms[i].value, |norms|) > maxFreq)
  {
    hide Count;
  }

  method ScanFlat(flat: seq<Option<Entry>>, minLength: int, maxFreq: int) returns (done: seq<Pair>)
    ensures AllMaximal(done, Rare(Norms(flat), maxFreq), minLength)
  {
    hide LaterMatches, Completed, AllMaximal, Maximal, Tracks;
    var index := InvertedIndex(Norms(flat));
    ghost var norms := Norms(flat);
    forall k | k in index ensures |index[k]| == Count(norms, k, |norms|) {
      ListsCount(index[k], norms, k, |norms|);
    }
    ghost var whole := index;
    if maxFreq > 0 {
      index := map k | k in index && |index[k]| <= maxFreq :: index[k];
    }
    ghost var keys := Rare(norms, maxFreq);
    var active: map<nat, nat> := map[];
    done := [];
    NothingYet(keys, minLength);
    for i := 0 to |flat|
      invariant Tracks(active, keys, i) && Completed(done, keys, i, minLength)
    {
      if flat[i].None? {
        NothingPasses(keys, i);
        done := FlushRuns(keys, i, active, minLength, done);
        active := map[];
        continue;
      }
      var norm := flat[i].value.norm;
      var matches := if norm in index then index[norm] else [];
      assert norms[i] in norms;
      assert norm in whole;
      RareMatches(norms, maxFreq, i, norm, matches);
      done, active := ScanStep(keys, i, matches, active, minLength, done);
    }
    NothingPasses(keys, |flat|);
    done := FlushRuns(keys, |flat|, active, minLength, done);
    CompletedIsAll(done, keys, |flat| + 1, minLength);
  }

  // Block p puts occurrence o into the class of the given content.
  ghost predicate PutsOccurrence(flat: seq<Option<Entry>>, p: Pair, content: seq<Key>, o: Occurrence) {
    content == Content(flat, p.a, p.len) && (o == OccurrenceAt(flat, p.a, p.len) || o == OccurrenceAt(flat, p.b, p.len))
  }

  // The statements of a stretch; barriers are skipped.
  function Content(flat: seq<Option<Entry>>, start: int, len: int): seq<Key>
    decreases len
  {
    if len <= 0 then []
    else
      var i := start + len - 1;
      Content(flat, start, len - 1) + if 0 <= i < |flat| && flat[i].Some? then [flat[i].value.norm] else []
  }

  // flat_range_to_occurrence
  function OccurrenceAt(flat: seq<Option<Entry>>, start: int, len: int): Occurrence {
    if 0 <= start < |flat| && 0 <= start + len - 1 < |flat| && flat[start].Some? && flat[start + len - 1].Some?
    then Occurrence(flat[start].value.seg, flat[start].value.stmt, flat[start + len - 1].value.stmt)
    else Occurrence(0, 0, 0)
  }

  method ContentOf(flat: seq<Option<Entry>>, start: nat, len: nat) returns (content: seq<Key>)
    requires start + len <= |flat|
    ensures content == Content(flat, start, len)
  {
    content := [];
    for n := 0 to len
      invariant content == Content(flat, start, n)
    {
      if flat[start + n].Some? { content := content + [flat[start + n].value.norm]; }
    }
  }

  // The len positions from start are the statements of s from first on.
  ghost predicate IsStretch(flat: seq<Option<Entry>>, start: nat, len: nat, s: Segment, first: nat) {
    start + len <= |flat| && first + len <= |s.stmts|
    && forall i :: start <= i < start + len ==>
         flat[i] == Some(Entry(s.id, first + (i - start), s.stmts[first + (i - start)]))
  }

  // A stretch without a barrier is a run of consecutive statements of one segment.
  lemma {:induction false} StretchIsInOneSegment(segs: seq<Segment>, start: nat, len: nat)
    returns (s: Segment, first: nat)
    requires len >= 1 && start + len <= |Flat(segs)|
    requires forall k :: start <= k < start + len ==> Flat(segs)[k].Some?
    ensures s in segs && IsStretch(Flat(segs), start, len, s, first)
  {
    var last := segs[|segs| - 1];
    var before := Flat(segs[..|segs| - 1]);
    var n := |before|;
    assert Flat(segs)[n + |last.stmts|].None?;
    if start < n {
      FlatEndsWithBarrier(segs[..|segs| - 1]);
      assert Flat(segs)[n - 1].None?;
      assert forall k :: start <= k < start + len ==> Flat(segs)[k] == before[k];
      s, first := StretchIsInOneSegment(segs[..|segs| - 1], start, len);
    } else {
      s, first := last, start - n;
    }
  }

  lemma FlatEndsWithBarrier(segs: seq<Segment>)
    requires Flat(segs) != []
    ensures Flat(segs)[|Flat(segs)| - 1].None?
  {}

  lemma {:induction false} ContentIsSlice(flat: seq<Option<Entry>>, start: nat, len: nat, s: Segment, first: nat)
    requires IsStretch(flat, start, len, s, first)
    ensures Content(flat, start, len) == s.stmts[first..first + len]
  {
    if len > 0 {
      ContentIsSlice(flat, start, len - 1, s, first);
    }
  }

  lemma SameContent(flat: seq<Option<Entry>>, p: Pair, sa: Segment, fa: nat, sb: Segment, fb: nat)
    requires 0 <= p.a < p.b && 1 <= p.len
    requires IsStretch(flat, p.a, p.len, sa, fa) && IsStretch(flat, p.b, p.len, sb, fb)
    requires var d := p.b - p.a; forall k :: p.a <= k < p.a + p.len ==> Norms(flat)[k] == Norms(flat)[k + d]
    ensures sa.stmts[fa..fa + p.len] == sb.stmts[fb..fb + p.len]
  {
    var d := p.b - p.a;
    forall i | fa <= i < fa + p.len ensures sa.stmts[i] == sb.stmts[i - fa + fb] {
      var k := p.a + (i - fa);
      assert Norms(flat)[k] == Norms(flat)[k + d];
      assert flat[k].value.norm == sa.stmts[i];
      assert flat[k + d].value.norm == sb.stmts[i - fa + fb];
    }
  }

  lemma MaximalIsAllSome(flat: seq<Option<Entry>>, maxFreq: int, p: Pair)
    requires Maximal(Rare(Norms(flat), maxFreq), p)
    ensures p.b + p.len <= |flat|
    ensures forall k :: p.a <= k < p.a + p.len ==> flat[k].Some?
    ensures forall k :: p.b <= k < p.b + p.len ==> flat[k].Some?
    ensures var d := p.b - p.a; forall k :: p.a <= k < p.a + p.len ==> Norms(flat)[k] == Norms(flat)[k + d]
  {
    var keys, d := Rare(Norms(flat), maxFreq), p.b - p.a;
    MaximalEndsEarly(keys, p);
    forall k | p.a <= k < p.a + p.len ensures keys[k].Some? && keys[k] == keys[k + d] {
      assert Match(keys, d, k);
    }
    forall k | p.b <= k < p.b + p.len ensures flat[k].Some? {
      assert keys[k - d].Some?;
    }
  }

  // The stretch that one end of a reported pair stands on.
  lemma EndIsStretch(segs: seq<Segment>, start: nat, len: nat) returns (s: Segment, first: nat)
    requires len >= 1 && start + len <= |Flat(segs)|
    requires forall k :: start <= k < start + len ==> Flat(segs)[k].Some?
    ensures s in segs && IsStretch(Flat(segs), start, len, s, first)
    ensures OccurrenceAt(Flat(segs), start, len) == Occurrence(s.id, first, first + len - 1)
    ensures Content(Flat(segs), start, len) == s.stmts[first..first + len]
  {
    s, first := StretchIsInOneSegment(segs, start, len);
    ContentIsSlice(Flat(segs), start, len, s, first);
    hide Flat;
    assert Flat(segs)[start] == Some(Entry(s.id, first, s.stmts[first]));
    assert Flat(segs)[start + len - 1] == Some(Entry(s.id, first + len - 1, s.stmts[first + len - 1]));
  }

  // Both occurrences of a reported pair are stretches of one segment each, of the
  // block's length, and both hold the class's content.
  lemma OccurrencesAreStretches(segs: seq<Segment>, maxFreq: int, p: Pair, content: seq<Key>, o: Occurrence)
    returns (s: Segment)
    requires Maximal(Rare(Norms(Flat(segs)), maxFreq), p) && PutsOccurrence(Flat(segs), p, content, o)
    ensures s in segs && s.id == o.seg && o.last - o.first + 1 == p.len == |content|
    ensures o.last < |s.stmts| && s.stmts[o.first..o.last + 1] == content
  {
    hide Flat, IsStretch, Maximal, Content, OccurrenceAt, Rare, Norms;
    MaximalIsAllSome(Flat(segs), maxFreq, p);
    MaximalIsPair(Rare(Norms(Flat(segs)), maxFreq), p);
    var sa, fa := EndIsStretch(segs, p.a, p.len);
    var sb, fb := EndIsStretch(segs, p.b, p.len);
    StretchFits(Flat(segs), p.a, p.len, sa, fa);
    StretchFits(Flat(segs), p.b, p.len, sb, fb);
    SameContent(Flat(segs), p, sa, fa, sb, fb);
    s := if o == OccurrenceAt(Flat(segs), p.a, p.len) then sa else sb;
  }

  lemma NormsFit(flat: seq<Option<Entry>>, maxFreq: int)
    ensures |Rare(Norms(flat), maxFreq)| == |flat|
  {}

  lemma MaximalIsPair(keys: seq<Option<Key>>, p: Pair)
    requires Maximal(keys, p)
    ensures 0 <= p.a < p.b && 1 <= p.len
  {}

  lemma StretchFits(flat: seq<Option<Entry>>, start: nat, len: nat, s: Segment, first: nat)
    requires IsStretch(flat, start, len, s, first)
    ensures first + len <= |s.stmts|
  {}
}
