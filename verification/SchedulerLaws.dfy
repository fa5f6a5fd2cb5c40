// What every interleaving of the scheduler keeps, and what holds when it ends.
module SchedulerLaws {
  import opened Wrappers
  import opened Scheduler

  // ---- The flag protocol --------------------------------------------------------------------------------

  // In each phase the shared flag is the current producer's, and a scheduler that has
  // exited saw everything pushed.
  predicate Flags(c: Setup, s: State) {
    s.next1 <= |c.procs| && s.next2 <= |c.procs|
    && (s.flagged1 ==> s.next1 == |c.procs|) && (s.flagged2 ==> s.next2 == |c.procs|)
    && (!s.second ==> s.next2 == 0 && !s.flagged2 && s.rr.NotStarted? && s.submitted == s.flagged1)
    && (s.second ==> s.flagged1 && s.fcfs.Exited? && !s.rr.NotStarted? && s.submitted == s.flagged2)
    && !s.fcfs.NotStarted? && (s.fcfs.Exited? ==> s.flagged1 && s.fcfsQueue == multiset{})
    && (s.rr.Exited? ==> s.flagged2 && s.rrQueue == [])
  }

  lemma FlagsKept(c: Setup, s: State, step: Step)
    requires Flags(c, s) && CanStep(c, s, step)
    ensures Flags(c, Apply(c, s, step))
  {}

  // ---- Bookkeeping --------------------------------------------------------------------------------------

  function InHand(w: Worker): seq<Job> { if w.Running? then [w.job] else [] }

  function Procs(jobs: seq<Job>): multiset<Proc> {
    if jobs == [] then multiset{} else Procs(jobs[1..]) + multiset{jobs[0].proc}
  }

  function Left(jobs: seq<Job>): int {
    if jobs == [] then 0 else Left(jobs[1..]) + jobs[0].remaining
  }

  function Bursts(ps: seq<Proc>): int {
    if ps == [] then 0 else Bursts(ps[..|ps| - 1]) + ps[|ps| - 1].burst
  }

  lemma {:induction false} JobsAppend(a: seq<Job>, b: seq<Job>)
    ensures Procs(a + b) == Procs(a) + Procs(b) && Left(a + b) == Left(a) + Left(b)
  {
    if a == [] {
      assert a + b == b;
    } else {
      assert (a + b)[1..] == a[1..] + b;
      JobsAppend(a[1..], b);
    }
  }

  lemma OneJob(j: Job)
    ensures Procs([j]) == multiset{j.proc} && Left([j]) == j.remaining
  {
    assert [j][1..] == [];
  }

  // One more process pushed.
  lemma OneMore(ps: seq<Proc>, n: nat)
    requires n < |ps|
    ensures Bursts(ps[..n + 1]) == Bursts(ps[..n]) + ps[n].burst
    ensures multiset(ps[..n + 1]) == multiset(ps[..n]) + multiset{ps[n]}
  {
    assert ps[..n + 1] == ps[..n] + [ps[n]];
    assert ps[..n + 1][..n] == ps[..n];
  }

  // ---- Slices -------------------------------------------------------------------------------------------

  // Slices needed for a burst: at least one, even for an empty one.
  function SlicesNeeded(burst: int, quantum: int): int
    requires quantum > 0
  {
    if burst <= 0 then 1 else (burst + quantum - 1) / quantum
  }

  // A waiting job has had full slices only and has something left, unless it is new.
  predicate Waiting(c: Setup, j: Job) {
    j.remaining == j.proc.burst - j.slices * c.quantum && j.proc.burst >= 0
    && (j.slices == 0 || j.remaining > 0)
  }

  predicate Done(c: Setup, j: Job)
    requires c.quantum > 0
  {
    j.remaining == 0 && j.proc.burst >= 0 && j.slices == SlicesNeeded(j.proc.burst, c.quantum)
  }

  // The job a slice turns `j` into.
  function AfterSlice(c: Setup, j: Job): Job {
    j.(remaining := j.remaining - SliceOf(c, j), slices := j.slices + 1)
  }

  lemma AtLeastOnce(x: int, d: int)
    requires x >= 1 && d >= 1
    ensures x * d >= d
  {
    assert (x - 1) * d >= 0;
  }

  lemma QuotientIs(q: int, d: int, r: int)
    requires 0 <= r < d
    ensures (q * d + r) / d == q
  {
    var k, m := (q * d + r) / d, (q * d + r) % d;
    assert k * d + m == q * d + r;
    assert (k - q) * d == r - m && (q - k) * d == m - r;
    if k > q {
      AtLeastOnce(k - q, d);
    } else if k < q {
      AtLeastOnce(q - k, d);
    }
  }

  // A slice leaves a job waiting with one more full slice, or done after exactly as
  // many slices as its burst needs.
  lemma SliceServes(c: Setup, j: Job)
    requires c.quantum > 0 && Waiting(c, j)
    ensures AfterSlice(c, j).remaining > 0 ==> Waiting(c, AfterSlice(c, j))
    ensures AfterSlice(c, j).remaining <= 0 ==> Done(c, AfterSlice(c, j))
  {
    var n := j.slices + 1;
    assert n * c.quantum == j.slices * c.quantum + c.quantum;
    if 0 < j.remaining <= c.quantum {
      QuotientIs(n, c.quantum, j.remaining - 1);
    } else if j.remaining <= 0 {
      assert j.slices * c.quantum == 0;
    }
  }

  // ---- Tallies ------------------------------------------------------------------------------------------

  // What was pushed is queued, in hand or completed, once each, and the clock is the work
  // pushed less the work left.
  predicate Tally(queue: seq<Job>, hand: seq<Job>, completed: seq<Job>, pushed: multiset<Proc>, clock: int, work: int) {
    Procs(queue) + Procs(hand) + Procs(completed) == pushed
    && clock + Left(queue) + Left(hand) == work
  }

  lemma TallyPush(queue: seq<Job>, hand: seq<Job>, completed: seq<Job>, pushed: multiset<Proc>, clock: int, work: int,
                  p: Proc)
    requires Tally(queue, hand, completed, pushed, clock, work)
    ensures Tally(queue + [Fresh(p)], hand, completed, pushed + multiset{p}, clock, work + p.burst)
  {
    JobsAppend(queue, [Fresh(p)]);
    OneJob(Fresh(p));
  }

  lemma TallyTake(queue: seq<Job>, completed: seq<Job>, pushed: multiset<Proc>, clock: int, work: int)
    requires queue != [] && Tally(queue, [], completed, pushed, clock, work)
    ensures Tally(queue[1..], [queue[0]], completed, pushed, clock, work)
  {
    OneJob(queue[0]);
  }

  lemma TallyRequeue(queue: seq<Job>, completed: seq<Job>, pushed: multiset<Proc>, clock: int, work: int, j: Job,
                     k: Job)
    requires Tally(queue, [j], completed, pushed, clock, work) && k.proc == j.proc
    ensures Tally(queue + [k], [], completed, pushed, clock + j.remaining - k.remaining, work)
  {
    JobsAppend(queue, [k]);
    OneJob(j);
    OneJob(k);
  }

  lemma TallyComplete(queue: seq<Job>, completed: seq<Job>, pushed: multiset<Proc>, clock: int, work: int, j: Job,
                      k: Job)
    requires Tally(queue, [j], completed, pushed, clock, work) && k.proc == j.proc
    ensures Tally(queue, [], completed + [k], pushed, clock + j.remaining, work)
  {
    JobsAppend(completed, [k]);
    OneJob(j);
    OneJob(k);
  }

  // The first scheduler's queue is ordered by arrival, not by age.
  predicate FcfsTally(queue: multiset<Proc>, hand: seq<Job>, completed: seq<Job>, pushed: multiset<Proc>) {
    queue + Procs(hand) + Procs(completed) == pushed
  }

  lemma FcfsTallyTake(queue: multiset<Proc>, completed: seq<Job>, pushed: multiset<Proc>, p: Proc)
    requires p in queue && FcfsTally(queue, [], completed, pushed)
    ensures FcfsTally(queue - multiset{p}, [Fresh(p)], completed, pushed)
  {
    OneJob(Fresh(p));
  }

  lemma FcfsTallyComplete(queue: multiset<Proc>, completed: seq<Job>, pushed: multiset<Proc>, j: Job, k: Job)
    requires FcfsTally(queue, [j], completed, pushed) && k.proc == j.proc
    ensures FcfsTally(queue, [], completed + [k], pushed)
  {
    JobsAppend(completed, [k]);
    OneJob(j);
    OneJob(k);
  }

  // ---- The invariant ------------------------------------------------------------------------------------

  function Pushed(c: Setup, n: nat): multiset<Proc>
    requires n <= |c.procs|
  {
    multiset(c.procs[..n])
  }

  function Work(c: Setup, n: nat): int
    requires n <= |c.procs|
  {
    Bursts(c.procs[..n])
  }

  // First phase: both queues get every process; the round-robin queue is not served.
  predicate FirstPhase(c: Setup, s: State)
    requires Flags(c, s)
  {
    FcfsTally(s.fcfsQueue, InHand(s.fcfs), s.completed, Pushed(c, s.next1))
    && Tally(s.rrQueue, [], [], Pushed(c, s.next1), 0, Work(c, s.next1))
  }

  // Second phase: every process is pushed once more.
  predicate SecondPhase(c: Setup, s: State)
    requires Flags(c, s)
  {
    Tally(s.rrQueue, InHand(s.rr), s.completed, Pushed(c, s.next1) + Pushed(c, s.next2), s.clock,
          Work(c, s.next1) + Work(c, s.next2))
  }

  ghost predicate Served(c: Setup, s: State) {
    c.quantum > 0
    && (forall j :: j in s.rrQueue ==> Waiting(c, j)) && (s.rr.Running? ==> Waiting(c, s.rr.job))
    && (s.second ==> forall j :: j in s.completed ==> Done(c, j))
  }

  predicate Counted(c: Setup, s: State) {
    Flags(c, s) && if s.second then SecondPhase(c, s) else FirstPhase(c, s)
  }

  ghost predicate Inv(c: Setup, s: State) {
    Fits(c) && Counted(c, s) && Served(c, s)
  }

  lemma InitHolds(c: Setup)
    requires Fits(c)
    ensures Inv(c, Init())
  {
    assert c.procs[..0] == [];
  }

  lemma PushedMore(c: Setup, n: nat)
    requires n < |c.procs|
    ensures Pushed(c, n + 1) == Pushed(c, n) + multiset{c.procs[n]}
    ensures Work(c, n + 1) == Work(c, n) + c.procs[n].burst
  {
    OneMore(c.procs, n);
  }

  lemma PushKeepsCount(c: Setup, s: State, step: Step)
    requires Counted(c, s) && CanStep(c, s, step) && (step.Push1? || step.Push2?)
    ensures Counted(c, Apply(c, s, step))
  {
    hide Tally, FcfsTally, Procs, Left, Bursts, Pushed, Work;
    FlagsKept(c, s, step);
    var n := if step.Push1? then s.next1 else s.next2;
    var p := c.procs[n];
    PushedMore(c, n);
    if step.Push1? {
      TallyPush(s.rrQueue, [], [], Pushed(c, n), 0, Work(c, n), p);
      FcfsTallyPush(s.fcfsQueue, InHand(s.fcfs), s.completed, Pushed(c, n), p);
    } else {
      TallyPush(s.rrQueue, InHand(s.rr), s.completed, Pushed(c, s.next1) + Pushed(c, n), s.clock,
                Work(c, s.next1) + Work(c, n), p);
      assert Pushed(c, s.next1) + (Pushed(c, n) + multiset{p}) == Pushed(c, s.next1) + Pushed(c, n) + multiset{p};
    }
  }

  lemma FcfsTallyPush(queue: multiset<Proc>, hand: seq<Job>, completed: seq<Job>, pushed: multiset<Proc>, p: Proc)
    requires FcfsTally(queue, hand, completed, pushed)
    ensures FcfsTally(queue + multiset{p}, hand, completed, pushed + multiset{p})
  {}

  lemma FcfsKeepsCount(c: Setup, s: State, step: Step)
    requires Counted(c, s) && CanStep(c, s, step) && (step.FcfsTake? || step.FcfsFinish?)
    ensures Counted(c, Apply(c, s, step))
  {
    hide Tally, FcfsTally, Procs, Left, Bursts, Pushed, Work;
    FlagsKept(c, s, step);
    if step.FcfsTake? {
      FcfsTallyTake(s.fcfsQueue, s.completed, Pushed(c, s.next1), step.proc);
    } else {
      var j := s.fcfs.job;
      FcfsTallyComplete(s.fcfsQueue, s.completed, Pushed(c, s.next1), j, j.(completion := s.clock + j.proc.burst));
    }
  }

  lemma RrKeepsCount(c: Setup, s: State, step: Step)
    requires Counted(c, s) && Served(c, s) && CanStep(c, s, step) && (step.RrTake? || step.RrFinish?)
    ensures Counted(c, Apply(c, s, step))
  {
    hide Tally, FcfsTally, Procs, Left, Bursts, Pushed, Work, Done, Waiting;
    FlagsKept(c, s, step);
    var pushed, work := Pushed(c, s.next1) + Pushed(c, s.next2), Work(c, s.next1) + Work(c, s.next2);
    if step.RrTake? {
      TallyTake(s.rrQueue, s.completed, pushed, s.clock, work);
    } else {
      var j := s.rr.job;
      var k := AfterSlice(c, j);
      SliceServes(c, j);
      if k.remaining > 0 {
        TallyRequeue(s.rrQueue, s.completed, pushed, s.clock, work, j, k);
      } else {
        TallyComplete(s.rrQueue, s.completed, pushed, s.clock, work, j, k.(completion := s.clock + SliceOf(c, j)));
      }
    }
  }

  lemma ResetKeepsCount(c: Setup, s: State)
    requires Counted(c, s) && CanStep(c, s, Reset)
    ensures Counted(c, Apply(c, s, Reset))
  {
    FlagsKept(c, s, Reset);
    assert c.procs[..0] == [];
  }

  lemma StepKeepsCount(c: Setup, s: State, step: Step)
    requires Counted(c, s) && Served(c, s) && CanStep(c, s, step)
    ensures Counted(c, Apply(c, s, step))
  {
    hide Tally, FcfsTally, Procs, Left, Bursts, Pushed, Work, Served;
    FlagsKept(c, s, step);
    match step
    case Push1 => PushKeepsCount(c, s, step);
    case Push2 => PushKeepsCount(c, s, step);
    case FcfsTake(_) => FcfsKeepsCount(c, s, step);
    case FcfsFinish => FcfsKeepsCount(c, s, step);
    case Reset => ResetKeepsCount(c, s);
    case RrTake => RrKeepsCount(c, s, step);
    case RrFinish => RrKeepsCount(c, s, step);
    case _ =>
  }

  lemma StepKeepsServed(c: Setup, s: State, step: Step)
    requires Fits(c) && Flags(c, s) && Served(c, s) && CanStep(c, s, step)
    ensures Served(c, Apply(c, s, step))
  {
    hide SlicesNeeded, Procs, Left;
    if step.RrFinish? {
      SliceServes(c, s.rr.job);
    }
  }

  lemma StepKeeps(c: Setup, s: State, step: Step)
    requires Inv(c, s) && CanStep(c, s, step)
    ensures Inv(c, Apply(c, s, step))
  {
    hide Served, FirstPhase, SecondPhase, CanStep, Apply, Fits;
    StepKeepsCount(c, s, step);
    StepKeepsServed(c, s, step);
  }

  lemma {:induction false} RunKeeps(c: Setup, steps: seq<Step>, s: State)
    requires Fits(c) && Run(c, Init(), steps) == Some(s)
    ensures Inv(c, s)
  {
    hide Inv, CanStep, Apply, Fits, Init;
    if steps == [] {
      InitHolds(c);
    } else {
      var t := Run(c, Init(), steps[..|steps| - 1]).value;
      RunKeeps(c, steps[..|steps| - 1], t);
      StepKeeps(c, t, steps[|steps| - 1]);
    }
  }

  // ---- Conservation, in every interleaving --------------------------------------------------------------

  // When the first scheduler exits it has run every process once and its exit leaves
  // the round-robin queue holding all of them, untouched.
  lemma FirstSchedulerCompletesAll(c: Setup, steps: seq<Step>, s: State)
    requires Fits(c) && Run(c, Init(), steps) == Some(s)
    requires s.fcfs.Exited? && !s.second
    ensures Procs(s.completed) == multiset(c.procs) && Procs(s.rrQueue) == multiset(c.procs)
  {
    RunKeeps(c, steps, s);
    assert c.procs[..|c.procs|] == c.procs;
  }

  // In the round-robin phase no copy is lost or doubled, and the clock is the work pushed
  // less the work left.
  lemma RoundRobinConserves(c: Setup, steps: seq<Step>, s: State)
    requires Fits(c) && Run(c, Init(), steps) == Some(s) && s.second
    ensures s.next2 <= |c.procs|
    ensures Procs(s.rrQueue) + Procs(InHand(s.rr)) + Procs(s.completed)
            == multiset(c.procs) + multiset(c.procs[..s.next2])
    ensures s.clock + Left(s.rrQueue) + Left(InHand(s.rr)) == Bursts(c.procs) + Bursts(c.procs[..s.next2])
  {
    RunKeeps(c, steps, s);
    assert c.procs[..|c.procs|] == c.procs;
  }

  // When the round-robin scheduler exits, every process has been completed twice, once
  // for each producer, each copy after the slices its burst needs.
  lemma RoundRobinCompletesAll(c: Setup, steps: seq<Step>, s: State)
    requires Fits(c) && Run(c, Init(), steps) == Some(s) && s.rr.Exited?
    ensures Procs(s.completed) == multiset(c.procs) + multiset(c.procs)
    ensures s.clock == Bursts(c.procs) + Bursts(c.procs)
    ensures forall j :: j in s.completed ==> j.slices == SlicesNeeded(j.proc.burst, c.quantum)
  {
    RunKeeps(c, steps, s);
    assert c.procs[..|c.procs|] == c.procs;
  }

  // ---- Completion times ---------------------------------------------------------------------------------

  function BurstsOf(jobs: seq<Job>): int {
    if jobs == [] then 0 else BurstsOf(jobs[..|jobs| - 1]) + jobs[|jobs| - 1].proc.burst
  }

  // First come, first served: each process completes at the sum of the bursts run up to
  // and including its own.  Round robin: completion times are recorded in order.
  predicate FcfsStamped(done: seq<Job>, clock: int) {
    clock == BurstsOf(done)
    && forall i :: 0 <= i < |done| ==> done[i].completion == BurstsOf(done[..i]) + done[i].proc.burst
  }

  predicate RrStamped(done: seq<Job>, clock: int) {
    (forall i :: 0 <= i < |done| ==> done[i].completion <= clock)
    && forall i, k :: 0 <= i < k < |done| ==> done[i].completion <= done[k].completion
  }

  predicate Stamped(s: State) {
    if s.second then RrStamped(s.completed, s.clock) else FcfsStamped(s.completed, s.clock)
  }

  lemma FcfsStampsNext(done: seq<Job>, clock: int, j: Job)
    requires FcfsStamped(done, clock) && j.completion == clock + j.proc.burst
    ensures FcfsStamped(done + [j], clock + j.proc.burst)
  {
    var all := done + [j];
    assert all[..|done|] == done;
    forall i | 0 <= i < |all|
      ensures all[i].completion == BurstsOf(all[..i]) + all[i].proc.burst
    {
      assert all[..i] == done[..i];
    }
  }

  lemma RrStampsNext(done: seq<Job>, clock: int, j: Job, now: int)
    requires RrStamped(done, clock) && clock <= now && j.completion == now
    ensures RrStamped(done, now) && RrStamped(done + [j], now)
  {}

  lemma StampedKept(c: Setup, s: State, step: Step)
    requires c.quantum > 0 && Flags(c, s) && (s.rr.Running? ==> Waiting(c, s.rr.job))
    requires Stamped(s) && CanStep(c, s, step)
    ensures Stamped(Apply(c, s, step))
  {
    hide FcfsStamped, RrStamped;
    if step.FcfsFinish? {
      var j := s.fcfs.job;
      FcfsStampsNext(s.completed, s.clock, j.(completion := s.clock + j.proc.burst));
    } else if step.Reset? {
      assert RrStamped([], 0) by { NothingStamped(); }
    } else if step.RrFinish? {
      var now := s.clock + SliceOf(c, s.rr.job);
      SliceIsForward(c, s.rr.job);
      RrStampsNext(s.completed, s.clock, AfterSlice(c, s.rr.job).(completion := now), now);
    }
  }

  lemma NothingStamped()
    ensures RrStamped([], 0) && FcfsStamped([], 0)
  {}

  lemma SliceIsForward(c: Setup, j: Job)
    requires c.quantum > 0 && Waiting(c, j)
    ensures SliceOf(c, j) >= 0
  {
    assert j.slices == 0 ==> j.slices * c.quantum == 0;
  }

  lemma {:induction false} CompletionsAreStamped(c: Setup, steps: seq<Step>, s: State)
    requires Fits(c) && Run(c, Init(), steps) == Some(s)
    ensures Stamped(s)
  {
    hide FcfsStamped, RrStamped, CanStep, Apply, Flags;
    if steps == [] {
      assert Stamped(s) by { NothingStamped(); }
    } else {
      var t := Run(c, Init(), steps[..|steps| - 1]).value;
      CompletionsAreStamped(c, steps[..|steps| - 1], t);
      RunKeeps(c, steps[..|steps| - 1], t);
      StampedKept(c, t, steps[|steps| - 1]);
    }
  }

  // ---- Every run ends -----------------------------------------------------------------------------------

  lemma {:induction false} EarliestExists(q: multiset<Proc>) returns (p: Proc)
    requires q != multiset{}
    ensures p in q && forall k :: k in q ==> p.arrival <= k.arrival
    decreases |q|
  {
    p :| p in q;
    var rest := q - multiset{p};
    assert forall k :: k in q ==> k == p || k in rest;
    if rest != multiset{} {
      var r := EarliestExists(rest);
      if r.arrival < p.arrival {
        p := r;
      }
    }
  }

  // No deadlock: until the round-robin scheduler has exited some step is enabled.
  lemma SomeStepIsEnabled(c: Setup, s: State) returns (step: Step)
    requires Flags(c, s) && !s.rr.Exited?
    ensures CanStep(c, s, step)
  {
    if !s.second {
      if s.fcfs.Running? {
        step := FcfsFinish;
      } else if s.fcfs.Exited? {
        step := Reset;
      } else if !s.flagged1 {
        step := if s.next1 < |c.procs| then Push1 else Raise1;
      } else if s.fcfsQueue == multiset{} {
        step := FcfsExit;
      } else {
        var p := EarliestExists(s.fcfsQueue);
        step := FcfsTake(p);
      }
    } else if s.rr.Running? {
      step := RrFinish;
    } else if !s.flagged2 {
      step := if s.next2 < |c.procs| then Push2 else Raise2;
    } else {
      step := if s.rrQueue == [] then RrExit else RrTake;
    }
  }

  // Steps a schedule can still take.
  function QueueRank(jobs: seq<Job>): nat {
    if jobs == [] then 0 else QueueRank(jobs[1..]) + JobRank(jobs[0])
  }

  function JobRank(j: Job): nat { 2 * ((if j.remaining < 0 then 0 else j.remaining) + 1) }

  function PushRank(ps: seq<Proc>): nat {
    if ps == [] then 0 else PushRank(ps[1..]) + JobRank(Fresh(ps[0])) + 3
  }

  function Rank(c: Setup, s: State): nat
    requires s.next1 <= |c.procs| && s.next2 <= |c.procs|
  {
    PushRank(c.procs[s.next1..]) + PushRank(c.procs[s.next2..])
    + 2 * |s.fcfsQueue| + (if s.fcfs.Running? then 1 else 0)
    + QueueRank(s.rrQueue) + (if s.rr.Running? then JobRank(s.rr.job) - 1 else 0)
    + (if s.flagged1 then 0 else 1) + (if s.flagged2 then 0 else 1) + (if s.second then 0 else 1)
    + (if s.fcfs.Exited? then 0 else 1) + (if s.rr.Exited? then 0 else 1)
  }

  lemma {:induction false} QueueRankAppend(a: seq<Job>, b: Job)
    ensures QueueRank(a + [b]) == QueueRank(a) + JobRank(b)
  {
    if a == [] {
      assert (a + [b])[1..] == [];
    } else {
      assert (a + [b])[1..] == a[1..] + [b];
      QueueRankAppend(a[1..], b);
    }
  }

  lemma PushDropsRank(c: Setup, s: State, step: Step)
    requires Flags(c, s) && CanStep(c, s, step) && (step.Push1? || step.Push2?)
    ensures Flags(c, Apply(c, s, step)) && Rank(c, Apply(c, s, step)) < Rank(c, s)
  {
    FlagsKept(c, s, step);
    var n := if step.Push1? then s.next1 else s.next2;
    assert c.procs[n..][1..] == c.procs[n + 1..];
    QueueRankAppend(s.rrQueue, Fresh(c.procs[n]));
  }

  lemma FinishDropsRank(c: Setup, s: State)
    requires c.quantum > 0 && Flags(c, s) && CanStep(c, s, RrFinish)
    ensures Flags(c, Apply(c, s, RrFinish)) && Rank(c, Apply(c, s, RrFinish)) < Rank(c, s)
  {
    FlagsKept(c, s, RrFinish);
    QueueRankAppend(s.rrQueue, AfterSlice(c, s.rr.job));
  }

  // Every step uses up rank.
  lemma RankDrops(c: Setup, s: State, step: Step)
    requires c.quantum > 0 && Flags(c, s) && CanStep(c, s, step)
    ensures Flags(c, Apply(c, s, step)) && Rank(c, Apply(c, s, step)) < Rank(c, s)
  {
    hide JobRank, PushRank;
    FlagsKept(c, s, step);
    if step.Push1? || step.Push2? {
      PushDropsRank(c, s, step);
    } else if step.RrFinish? {
      FinishDropsRank(c, s);
    } else if step.RrTake? {
      assert QueueRank(s.rrQueue) == QueueRank(s.rrQueue[1..]) + JobRank(s.rrQueue[0]);
    }
  }

  lemma {:induction false} RunIsShort(c: Setup, steps: seq<Step>, s: State)
    requires Fits(c) && Run(c, Init(), steps) == Some(s)
    ensures Flags(c, s) && |steps| <= Rank(c, Init()) - Rank(c, s)
  {
    hide CanStep, Apply, Rank, Flags;
    if steps == [] {
      assert Flags(c, s) by { InitHolds(c); }
    } else {
      var t := Run(c, Init(), steps[..|steps| - 1]).value;
      RunIsShort(c, steps[..|steps| - 1], t);
      RankDrops(c, t, steps[|steps| - 1]);
    }
  }

  // Every schedule is of bounded length, and one that cannot be extended has ended with
  // the round-robin scheduler's exit: all the work is done in every interleaving.
  lemma EveryRunEndsDone(c: Setup, steps: seq<Step>, s: State)
    requires Fits(c) && Run(c, Init(), steps) == Some(s)
    ensures |steps| <= Rank(c, Init())
    ensures (forall step :: !CanStep(c, s, step)) ==>
              Procs(s.completed) == multiset(c.procs) + multiset(c.procs)
  {
    hide Rank, CanStep;
    RunIsShort(c, steps, s);
    if !s.rr.Exited? {
      var step := SomeStepIsEnabled(c, s);
    } else {
      RoundRobinCompletesAll(c, steps, s);
    }
  }

  // ---- First in, first out ------------------------------------------------------------------------------

  function Takes(steps: seq<Step>): nat {
    if steps == [] then 0
    else Takes(steps[..|steps| - 1]) + if steps[|steps| - 1].RrTake? then 1 else 0
  }

  function Finishes(steps: seq<Step>): nat {
    if steps == [] then 0
    else Finishes(steps[..|steps| - 1]) + if steps[|steps| - 1].RrFinish? then 1 else 0
  }

  function Busy(s: State): nat { if s.rr.Running? then 1 else 0 }

  lemma QueueStep(c: Setup, s: State, step: Step, k: nat)
    requires CanStep(c, s, step) && k < |s.rrQueue| && (step.RrTake? ==> k > 0)
    ensures var i := if step.RrTake? then k - 1 else k;
            i < |Apply(c, s, step).rrQueue| && Apply(c, s, step).rrQueue[i] == s.rrQueue[k]
  {}

  // A queued job moves up by one at every take and by nothing else.
  lemma {:induction false} QueueMovesUp(c: Setup, s: State, steps: seq<Step>, t: State, k: nat)
    requires Run(c, s, steps) == Some(t) && k < |s.rrQueue| && Takes(steps) <= k
    ensures k - Takes(steps) < |t.rrQueue| && t.rrQueue[k - Takes(steps)] == s.rrQueue[k]
  {
    hide CanStep, Apply;
    if steps != [] {
      var u := Run(c, s, steps[..|steps| - 1]).value;
      QueueMovesUp(c, s, steps[..|steps| - 1], u, k);
      QueueStep(c, u, steps[|steps| - 1], k - Takes(steps[..|steps| - 1]));
    }
  }

  lemma {:induction false} TakesAreFinished(c: Setup, s: State, steps: seq<Step>, t: State)
    requires Flags(c, s) && Run(c, s, steps) == Some(t)
    ensures Flags(c, t) && Busy(s) + Takes(steps) == Finishes(steps) + Busy(t)
  {
    if steps != [] {
      var u := Run(c, s, steps[..|steps| - 1]).value;
      TakesAreFinished(c, s, steps[..|steps| - 1], u);
      FlagsKept(c, u, steps[|steps| - 1]);
    }
  }

  // A job with k others ahead of it gets the processor after exactly k further slices
  // (and the one in progress, if there is one), whatever the producer does meanwhile.
  lemma WaitsForThoseAhead(c: Setup, s: State, steps: seq<Step>, t: State, k: nat)
    requires Flags(c, s) && Run(c, s, steps) == Some(t) && k < |s.rrQueue|
    requires Takes(steps) == k && CanStep(c, t, RrTake)
    ensures Apply(c, t, RrTake).rr == Running(s.rrQueue[k])
    ensures Finishes(steps) == k + Busy(s)
  {
    QueueMovesUp(c, s, steps, t, k);
    TakesAreFinished(c, s, steps, t);
  }

  // ---- Who is served, and when it is stamped -------------------------------------------------------------

  // The first scheduler takes a process exactly when it is free and no process pushed and
  // not yet served has arrived earlier.
  lemma FcfsTakesEarliest(c: Setup, steps: seq<Step>, s: State, p: Proc)
    requires Fits(c) && Run(c, Init(), steps) == Some(s) && !s.second
    ensures s.next1 <= |c.procs|
    ensures var left := multiset(c.procs[..s.next1]) - Procs(s.completed);
            CanStep(c, s, FcfsTake(p)) <==>
            s.fcfs.Idle? && p in left && forall q :: q in left ==> p.arrival <= q.arrival
  {
    hide Procs, Left, Bursts;
    RunKeeps(c, steps, s);
    if s.fcfs.Idle? {
      NoneInHand();
      assert s.fcfsQueue == multiset(c.procs[..s.next1]) - Procs(s.completed);
    }
  }

  lemma NoneInHand()
    ensures Procs([]) == multiset{}
  {}

  // A round-robin slice adds the job to the completed ones exactly when nothing of it is
  // left, stamped with the work done so far; other steps stamp nothing in that phase.
  lemma RrStampsWorkDone(c: Setup, steps: seq<Step>, s: State, step: Step)
    requires Fits(c) && Run(c, Init(), steps) == Some(s) && s.second && CanStep(c, s, step)
    ensures s.next2 <= |c.procs|
    ensures var t := Apply(c, s, step);
            t.completed == s.completed
            || (t.completed == s.completed + [t.completed[|s.completed|]] && step.RrFinish?
                && t.completed[|s.completed|].proc == s.rr.job.proc
                && t.completed[|s.completed|].completion ==
                   Bursts(c.procs) + Bursts(c.procs[..s.next2]) - Left(t.rrQueue))
    ensures step.RrFinish? ==>
              (Apply(c, s, step).completed == s.completed <==> s.rr.job.remaining > c.quantum)
  {
    hide Bursts, Procs, Left;
    RoundRobinConserves(c, steps, s);
    RunKeeps(c, steps, s);
    if step.RrFinish? { LeftInHand(s.rr.job); }
  }

  lemma LeftInHand(j: Job)
    ensures Left([j]) == j.remaining
  {
    OneJob(j);
  }
}
