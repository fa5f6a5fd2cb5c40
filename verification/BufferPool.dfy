// The LRU buffer pool of test_code/failure_codes/buffer_pool.cpp.
module BufferPool {
  import opened Wrappers

  datatype Page = Page(id: int)

  // How the two allocations of a load come out: the page struct, then its buffer.
  datatype Alloc = Loads | NoStruct | NoBuffer

  datatype State = State(capacity: int, lru: seq<int>, hits: nat, misses: nat, evictions: nat, failures: nat,
                         healthy: bool)

  function Without(xs: seq<int>, x: int): seq<int> {
    if xs == [] then []
    else if xs[0] == x then Without(xs[1..], x) else [xs[0]] + Without(xs[1..], x)
  }

  function Fresh(capacity: int): State {
    State(capacity, [], 0, 0, 0, 0, capacity > 0)
  }

  // A miss makes room by dropping the least recently used page.
  function AfterEviction(s: State): State {
    if |s.lru| >= s.capacity && s.lru != []
    then s.(lru := s.lru[..|s.lru| - 1], evictions := s.evictions + 1) else s
  }

  function Fetched(s: State, id: int, alloc: Alloc): State {
    if !s.healthy then s
    else if id in s.lru then s.(lru := [id] + Without(s.lru, id), hits := s.hits + 1)
    else Missed(s, id, alloc)
  }

  function Missed(s: State, id: int, alloc: Alloc): State {
    var e := AfterEviction(s.(misses := s.misses + 1));
    if alloc == Loads then e.(lru := [id] + e.lru, failures := 0)
    else e.(failures := e.failures + 1, healthy := e.failures + 1 < 3)
  }

  predicate Distinct(xs: seq<int>) {
    forall i, j :: 0 <= i < j < |xs| ==> xs[i] != xs[j]
  }

  // What every reachable pool satisfies.
  predicate Sound(s: State) {
    Distinct(s.lru) && (s.capacity <= 0 ==> !s.healthy && s.lru == [])
    && (s.capacity > 0 ==> |s.lru| <= s.capacity && (s.healthy <==> s.failures < 3))
  }

  lemma {:induction false} WithoutIs(xs: seq<int>, x: int)
    requires Distinct(xs)
    ensures Distinct(Without(xs, x)) && forall y :: y in Without(xs, x) <==> y in xs && y != x
    ensures |Without(xs, x)| == |xs| - if x in xs then 1 else 0
  {
    if xs != [] {
      WithoutIs(xs[1..], x);
      assert xs == [xs[0]] + xs[1..];
      assert xs[0] !in xs[1..];
    }
  }

  lemma SoundIs(s: State)
    requires Sound(s)
    ensures Distinct(s.lru) && (s.healthy ==> s.capacity > 0 && s.failures < 3)
  {}

  lemma FetchedIsSound(s: State, id: int, alloc: Alloc)
    requires Sound(s)
    ensures Sound(Fetched(s, id, alloc))
  {
    WithoutIs(s.lru, id);
    if s.healthy && id in s.lru {
      assert id !in Without(s.lru, id);
    }
  }

  ghost predicate Agree(pages: map<int, Page>, lru: seq<int>) {
    |pages| == |lru| && (forall id :: id in pages <==> id in lru) && forall id :: id in pages ==> pages[id] == Page(id)
  }

  lemma AgreeMore(pages: map<int, Page>, lru: seq<int>, id: int)
    requires Agree(pages, lru) && id !in pages
    ensures Agree(pages[id := Page(id)], [id] + lru)
  {
    assert forall y :: y in [id] + lru <==> y == id || y in lru;
  }

  lemma AgreeSizes(pages: map<int, Page>, lru: seq<int>)
    requires Agree(pages, lru)
    ensures |pages| == |lru|
  {}

  lemma OneLess(pages: map<int, Page>, id: int)
    requires id in pages
    ensures |pages - {id}| == |pages| - 1
  {
    var rest := pages - {id};
    assert rest.Keys == pages.Keys - {id};
    assert |rest.Keys| == |rest| && |pages.Keys| == |pages|;
  }

  lemma AgreeLess(pages: map<int, Page>, lru: seq<int>)
    requires Agree(pages, lru) && Distinct(lru) && lru != []
    ensures var m := |lru| - 1; lru[m] in pages && Agree(pages - {lru[m]}, lru[..m]) && Distinct(lru[..m])
  {
    LastIsOnce(lru);
    var m := |lru| - 1;
    assert lru[m] in lru;
    OneLess(pages, lru[m]);
    assert |lru[..m]| == m;
    forall i, j | 0 <= i < j < m ensures lru[..m][i] != lru[..m][j] {
      assert lru[..m][i] == lru[i] && lru[..m][j] == lru[j];
    }
  }

  class Pool {
    const capacity: int
    var hits: nat
    var misses: nat
    var evictions: nat
    var allocFailures: nat
    var healthy: bool
    var pages: map<int, Page>
    var lruOrder: seq<int>

    function Now(): State
      reads this
    {
      State(capacity, lruOrder, hits, misses, evictions, allocFailures, healthy)
    }

    // The page table holds exactly the pages of the recency list.
    ghost predicate Valid()
      reads this
    {
      Sound(Now()) && Paired()
    }

    constructor (cap: int)
      ensures Valid() && Now() == Fresh(cap)
    {
      capacity := cap;
      hits, misses, evictions, allocFailures := 0, 0, 0, 0;
      healthy := cap > 0;
      pages, lruOrder := map[], [];
    }

    // std::list::remove
    method Remove(id: int)
      modifies this`lruOrder
      ensures lruOrder == Without(old(lruOrder), id)
    {
      var kept := [];
      for i := |lruOrder| downto 0
        invariant lruOrder == old(lruOrder) && kept == Without(lruOrder[i..], id)
      {
        assert lruOrder[i..][1..] == lruOrder[i + 1..];
        if lruOrder[i] != id { kept := [lruOrder[i]] + kept; }
      }
      lruOrder := kept;
    }

    // Fails only on an empty list, or when the last page is not in the table.
    method Evict() returns (done: bool)
      modifies this
      ensures done <==> old(lruOrder) != [] && old(lruOrder[|lruOrder| - 1] in pages)
      ensures done ==> lruOrder == old(lruOrder)[..|old(lruOrder)| - 1] && evictions == old(evictions) + 1
      ensures done ==> pages == old(pages) - {old(lruOrder[|lruOrder| - 1])}
      ensures hits == old(hits) && misses == old(misses) && allocFailures == old(allocFailures)
              && healthy == old(healthy)
    {
      if lruOrder == [] { return false; }
      var victim := lruOrder[|lruOrder| - 1];
      lruOrder := lruOrder[..|lruOrder| - 1];
      if victim !in pages { return false; }
      pages := pages - {victim};
      evictions := evictions + 1;
      return true;
    }

    // A failed load counts; the third one since the last load stops the pool.
    method NoteFailure()
      modifies this
      ensures allocFailures == old(allocFailures) + 1 && healthy == (old(healthy) && allocFailures < 3)
      ensures unchanged(`hits, `misses, `evictions, `pages, `lruOrder)
    {
      allocFailures := allocFailures + 1;
      if allocFailures >= 3 { healthy := false; }
    }

    // The table and the list agree, in contents and in size.
    ghost predicate Paired()
      reads this
    {
      Agree(pages, lruOrder)
    }

    method Hit(id: int) returns (page: Page)
      requires Distinct(lruOrder) && Paired() && id in pages
      modifies this
      ensures Paired() && page == Page(id)
      ensures lruOrder == [id] + Without(old(lruOrder), id) && hits == old(hits) + 1
      ensures unchanged(`misses, `evictions, `allocFailures, `healthy, `pages)
    {
      WithoutIs(lruOrder, id);
      hits := hits + 1;
      Remove(id);
      lruOrder := [id] + lruOrder;
      return pages[id];
    }

    // A failed eviction would mark the pool unhealthy and stop the fetch; it cannot happen.
    method MakeRoom()
      requires Distinct(lruOrder) && Paired() && capacity > 0
      modifies this
      ensures Distinct(lruOrder) && Paired() && pages.Keys <= old(pages.Keys)
      ensures if |old(lruOrder)| >= capacity
              then lruOrder == old(lruOrder)[..|old(lruOrder)| - 1] && evictions == old(evictions) + 1
              else lruOrder == old(lruOrder) && evictions == old(evictions)
      ensures unchanged(`hits, `misses, `allocFailures, `healthy)
    {
      hide Agree, Distinct;
      AgreeSizes(pages, lruOrder);
      if |pages| >= capacity {
        AgreeLess(pages, lruOrder);
        var done := Evict();
        if !done { assert false; }
      }
    }

    // The rest of a fetch, for a page that is not resident.
    method Load(id: int, alloc: Alloc) returns (page: Option<Page>)
      requires Distinct(lruOrder) && Paired() && healthy && capacity > 0 && id !in pages && allocFailures < 3
      modifies this
      ensures Paired() && Now() == Missed(old(Now()), id, alloc)
      ensures page == if alloc == Loads then Some(Page(id)) else None
      ensures page.Some? ==> id in pages
    {
      hide Distinct, Agree;
      misses := misses + 1;
      MakeRoom();
      if alloc == NoStruct || alloc == NoBuffer {
        NoteFailure();
        return None;
      }
      allocFailures := 0;
      AgreeMore(pages, lruOrder, id);
      pages := pages[id := Page(id)];
      lruOrder := [id] + lruOrder;
      return Some(Page(id));
    }

    method Fetch(id: int, alloc: Alloc) returns (page: Option<Page>)
      requires Valid()
      modifies this
      ensures Valid() && Now() == Fetched(old(Now()), id, alloc)
      ensures page.Some? <==> old(healthy) && (id in old(lruOrder) || alloc == Loads)
      ensures page.Some? ==> page.value == Page(id) && id in pages
    {
      hide Sound, Distinct, Without, Missed;
      FetchedIsSound(Now(), id, alloc);
      SoundIs(Now());
      if !healthy { return None; }
      if id in pages {
        var p := Hit(id);
        return Some(p);
      }
      page := Load(id, alloc);
    }
  }

  lemma LastIsOnce(xs: seq<int>)
    requires Distinct(xs) && xs != []
    ensures var m := |xs| - 1; forall y :: y in xs[..m] <==> y in xs && y != xs[m]
  {
    assert xs == xs[..|xs| - 1] + [xs[|xs| - 1]];
  }

  // ---- Traces --------------------------------------------------------------------------------------

  datatype Event = Event(id: int, alloc: Alloc)

  // The pool after a trace of fetches.
  function After(capacity: int, trace: seq<Event>): State {
    if trace == [] then Fresh(capacity)
    else
      var last := trace[|trace| - 1];
      Fetched(After(capacity, trace[..|trace| - 1]), last.id, last.alloc)
  }

  lemma {:induction false} AfterIsSound(capacity: int, trace: seq<Event>)
    ensures Sound(After(capacity, trace)) && After(capacity, trace).capacity == capacity
  {
    if trace != [] {
      var front := trace[..|trace| - 1];
      AfterIsSound(capacity, front);
      FetchedIsSound(After(capacity, front), trace[|trace| - 1].id, trace[|trace| - 1].alloc);
    }
  }

  // The pages of a trace, most recently used first.
  function Recent(ids: seq<int>): seq<int> {
    if ids == [] then []
    else
      var m := |ids| - 1;
      [ids[m]] + Without(Recent(ids[..m]), ids[m])
  }

  // Position of the last use.
  function LastUse(ids: seq<int>, x: int): int {
    if ids == [] then -1
    else if ids[|ids| - 1] == x then |ids| - 1 else LastUse(ids[..|ids| - 1], x)
  }

  lemma {:induction false} LastUseBounds(ids: seq<int>, x: int)
    ensures -1 <= LastUse(ids, x) < |ids| && (LastUse(ids, x) >= 0 <==> x in ids)
  {
    if ids != [] {
      LastUseBounds(ids[..|ids| - 1], x);
      assert ids == ids[..|ids| - 1] + [ids[|ids| - 1]];
    }
  }

  ghost predicate ByLastUse(ids: seq<int>, xs: seq<int>) {
    forall i, j :: 0 <= i < j < |xs| ==> LastUse(ids, xs[i]) > LastUse(ids, xs[j])
  }

  lemma {:induction false} WithoutKeepsOrder(ids: seq<int>, xs: seq<int>, x: int)
    requires Distinct(xs) && ByLastUse(ids, xs)
    ensures ByLastUse(ids, Without(xs, x))
  {
    if xs != [] {
      assert Distinct(xs[1..]) && ByLastUse(ids, xs[1..]);
      WithoutKeepsOrder(ids, xs[1..], x);
      WithoutIs(xs[1..], x);
      var rest := Without(xs[1..], x);
      forall j | 0 <= j < |rest| ensures LastUse(ids, xs[0]) > LastUse(ids, rest[j]) {
        assert rest[j] in rest && rest[j] in xs[1..];
      }
    }
  }

  // Recent lists each page of the trace once, latest use first.
  lemma {:induction false} RecentIs(ids: seq<int>)
    ensures Distinct(Recent(ids)) && ByLastUse(ids, Recent(ids))
    ensures forall x :: x in Recent(ids) <==> x in ids
  {
    if ids != [] {
      var m := |ids| - 1;
      var front, x := ids[..m], ids[m];
      RecentIs(front);
      WithoutIs(Recent(front), x);
      WithoutKeepsOrder(front, Recent(front), x);
      var rest := Without(Recent(front), x);
      assert ids == front + [x];
      forall y | y in rest ensures LastUse(ids, y) == LastUse(front, y) < m {
        LastUseBounds(front, y);
      }
      LatestFirst(ids, rest, x);
    }
  }

  // The page just used, before the others.
  lemma LatestFirst(ids: seq<int>, rest: seq<int>, x: int)
    requires Distinct(rest) && x !in rest && ByLastUse(ids, rest)
             && forall y :: y in rest ==> LastUse(ids, y) < LastUse(ids, x)
    ensures Distinct([x] + rest) && ByLastUse(ids, [x] + rest)
  {
    hide LastUse;
    var r := [x] + rest;
    forall i, j | 0 <= i < j < |r| ensures r[i] != r[j] && LastUse(ids, r[i]) > LastUse(ids, r[j]) {
      assert r[j] == rest[j - 1] && rest[j - 1] in rest;
      if i > 0 { assert r[i] == rest[i - 1]; }
    }
  }

  function Take(xs: seq<int>, n: int): seq<int> {
    if n <= 0 then [] else if n >= |xs| then xs else xs[..n]
  }

  function Good(ids: seq<int>): seq<Event> {
    seq(|ids|, i requires 0 <= i < |ids| => Event(ids[i], Loads))
  }

  lemma {:induction false} WithoutAbsent(xs: seq<int>, x: int)
    requires x !in xs
    ensures Without(xs, x) == xs
  {
    if xs != [] { WithoutAbsent(xs[1..], x); }
  }

  lemma {:induction false} TakeWithout(xs: seq<int>, n: nat, x: int)
    requires Distinct(xs) && n <= |xs| && x in xs[..n]
    ensures |Without(xs, x)| == |xs| - 1 && Without(xs[..n], x) == Without(xs, x)[..n - 1]
  {
    WithoutIs(xs, x);
    assert xs[..n] == [xs[0]] + xs[1..][..n - 1];
    if xs[0] == x {
      WithoutAbsent(xs[1..], x);
      WithoutAbsent(xs[1..][..n - 1], x);
    } else {
      TakeWithout(xs[1..], n - 1, x);
    }
  }

  lemma {:induction false} TakeUntouched(xs: seq<int>, n: nat, x: int)
    requires Distinct(xs) && n <= |xs| && x !in xs[..n]
    ensures n <= |Without(xs, x)| && Without(xs, x)[..n] == xs[..n]
  {
    if n > 0 {
      assert xs[..n] == [xs[0]] + xs[1..][..n - 1];
      TakeUntouched(xs[1..], n - 1, x);
    }
  }

  // One more use of x, seen through the first `capacity` entries.
  lemma TakeStep(r: seq<int>, capacity: int, x: int)
    requires Distinct(r) && capacity > 0
    ensures var cur := Take(r, capacity);
            Take([x] + Without(r, x), capacity) ==
            [x] + if x in cur then Without(cur, x) else if |cur| >= capacity then cur[..|cur| - 1] else cur
  {
    var n := if capacity >= |r| then |r| else capacity;
    assert Take(r, capacity) == r[..n];
    WithoutIs(r, x);
    if x in r[..n] {
      TakeWithout(r, n, x);
    } else {
      TakeUntouched(r, n, x);
      if n == |r| { WithoutAbsent(r, x); }
    }
  }

  // With no allocation failure the resident pages are exactly the `capacity` most
  // recently used distinct pages.
  lemma {:induction false} ResidentAreRecent(capacity: int, ids: seq<int>)
    requires capacity > 0
    ensures var s := After(capacity, Good(ids));
            s.healthy && s.failures == 0 && s.capacity == capacity && s.lru == Take(Recent(ids), capacity)
  {
    if ids != [] {
      var m := |ids| - 1;
      assert Good(ids)[..m] == Good(ids[..m]);
      ResidentAreRecent(capacity, ids[..m]);
      RecentIs(ids[..m]);
      TakeStep(Recent(ids[..m]), capacity, ids[m]);
    }
  }

  // A larger pool holds at least the pages of a smaller one, in the same order.
  lemma LargerPoolIncludes(small: int, large: int, ids: seq<int>)
    requires 0 < small <= large
    ensures After(small, Good(ids)).lru <= After(large, Good(ids)).lru
  {
    ResidentAreRecent(small, ids);
    ResidentAreRecent(large, ids);
  }

  // ... and never has fewer hits.
  lemma {:induction false} LargerPoolHitsMore(small: int, large: int, ids: seq<int>)
    requires 0 < small <= large
    ensures After(small, Good(ids)).hits <= After(large, Good(ids)).hits
    ensures After(small, Good(ids)).misses >= After(large, Good(ids)).misses
  {
    if ids != [] {
      var front := ids[..|ids| - 1];
      assert Good(ids)[..|ids| - 1] == Good(front);
      LargerPoolHitsMore(small, large, front);
      LargerPoolIncludes(small, large, front);
      ResidentAreRecent(small, front);
      ResidentAreRecent(large, front);
    }
  }

  // ---- Failures ------------------------------------------------------------------------------------

  // Failed loads since the last load that worked; hits do not count either way.
  function FailedSinceLoad(capacity: int, trace: seq<Event>): nat {
    if trace == [] then 0
    else
      var m := |trace| - 1;
      var before := After(capacity, trace[..m]);
      if !before.healthy || trace[m].id in before.lru then FailedSinceLoad(capacity, trace[..m])
      else if trace[m].alloc == Loads then 0 else FailedSinceLoad(capacity, trace[..m]) + 1
  }

  // The pool stops exactly when three loads have failed with no load in between.
  lemma {:induction false} StopsAfterThreeFailures(capacity: int, trace: seq<Event>)
    requires capacity > 0
    ensures After(capacity, trace).failures == FailedSinceLoad(capacity, trace) <= 3
    ensures After(capacity, trace).healthy <==> FailedSinceLoad(capacity, trace) < 3
    ensures After(capacity, trace).evictions <= After(capacity, trace).misses
  {
    if trace != [] {
      StopsAfterThreeFailures(capacity, trace[..|trace| - 1]);
      AfterIsSound(capacity, trace[..|trace| - 1]);
    }
  }

  // ---- Counters ------------------------------------------------------------------------------------

  // How many of the requests ask for one of the `capacity` most recently used pages.
  function HitsOf(capacity: int, ids: seq<int>): nat {
    if ids == [] then 0
    else
      var m := |ids| - 1;
      HitsOf(capacity, ids[..m]) + if ids[m] in Take(Recent(ids[..m]), capacity) then 1 else 0
  }

  // Without failures every request is a hit or a miss, the hits are exactly those, and
  // every page missed is resident or was evicted.
  lemma {:induction false} CountersAre(capacity: int, ids: seq<int>)
    requires capacity > 0
    ensures var s := After(capacity, Good(ids));
            s.hits == HitsOf(capacity, ids) && s.hits + s.misses == |ids| && s.misses == s.evictions + |s.lru|
  {
    if ids != [] {
      var m := |ids| - 1;
      assert Good(ids)[..m] == Good(ids[..m]);
      CountersAre(capacity, ids[..m]);
      ResidentAreRecent(capacity, ids[..m]);
      AfterIsSound(capacity, Good(ids[..m]));
      WithoutIs(After(capacity, Good(ids[..m])).lru, ids[m]);
    }
  }

  // Whatever fails, a healthy pool has counted every request.
  lemma {:induction false} RequestsAreCounted(capacity: int, trace: seq<Event>)
    ensures var s := After(capacity, trace); s.healthy ==> s.hits + s.misses == |trace|
  {
    if trace != [] { RequestsAreCounted(capacity, trace[..|trace| - 1]); }
  }
}
