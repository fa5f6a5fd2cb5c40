// The two-phase scheduler of test_code/labs/labchat/main.cpp as interleaved steps.
// Every locked region of a thread is one step.
module Scheduler {
  import opened Wrappers

  datatype Proc = Proc(id: int, arrival: int, burst: int)

  // A queued copy of a process.  `slices` counts the time slices it has had; the
  // program keeps no such counter.
  datatype Job = Job(proc: Proc, remaining: int, slices: nat, completion: int)

  datatype Worker = NotStarted | Idle | Running(job: Job) | Exited

  datatype State = State(
    next1: nat, flagged1: bool,     // first producer: processes pushed, flag raised
    fcfs: Worker, fcfsQueue: multiset<Proc>,
    second: bool,                   // main has joined the first scheduler and reset
    next2: nat, flagged2: bool,     // second producer
    rr: Worker, rrQueue: seq<Job>,
    submitted: bool, clock: int, completed: seq<Job>)

  datatype Setup = Setup(procs: seq<Proc>, quantum: int)

  predicate Fits(c: Setup) {
    c.quantum > 0 && forall p :: p in c.procs ==> p.burst >= 0
  }

  function Fresh(p: Proc): Job { Job(p, p.burst, 0, 0) }

  function Init(): State {
    State(0, false, Idle, multiset{}, false, 0, false, NotStarted, [], false, 0, [])
  }

  datatype Step =
    | Push1 | Raise1 | FcfsTake(proc: Proc) | FcfsFinish | FcfsExit | Reset
    | Push2 | Raise2 | RrTake | RrFinish | RrExit

  // std::min(time_quantum, remaining_time)
  function SliceOf(c: Setup, j: Job): int {
    if j.remaining < c.quantum then j.remaining else c.quantum
  }

  predicate CanStep(c: Setup, s: State, step: Step) {
    match step
    case Push1 => s.next1 < |c.procs|
    case Raise1 => s.next1 == |c.procs| && !s.flagged1
    case FcfsTake(p) => s.fcfs.Idle? && p in s.fcfsQueue && forall q :: q in s.fcfsQueue ==> p.arrival <= q.arrival
    case FcfsFinish => s.fcfs.Running?
    case FcfsExit => s.fcfs.Idle? && s.fcfsQueue == multiset{} && s.submitted
    case Reset => s.fcfs.Exited? && !s.second
    case Push2 => s.second && s.next2 < |c.procs|
    case Raise2 => s.second && s.next2 == |c.procs| && !s.flagged2
    case RrTake => s.rr.Idle? && s.rrQueue != []
    case RrFinish => s.rr.Running?
    case RrExit => s.rr.Idle? && s.rrQueue == [] && s.submitted
  }

  function Apply(c: Setup, s: State, step: Step): State
    requires CanStep(c, s, step)
  {
    match step
    case Push1 =>
      var p := c.procs[s.next1];
      s.(next1 := s.next1 + 1, fcfsQueue := s.fcfsQueue + multiset{p}, rrQueue := s.rrQueue + [Fresh(p)])
    case Raise1 => s.(flagged1 := true, submitted := true)
    case FcfsTake(p) => s.(fcfs := Running(Fresh(p)), fcfsQueue := s.fcfsQueue - multiset{p})
    case FcfsFinish =>
      var j := s.fcfs.job;
      var end := s.clock + j.proc.burst;
      s.(fcfs := Idle, clock := end, completed := s.completed + [j.(completion := end)])
    case FcfsExit => s.(fcfs := Exited)
    case Reset => s.(second := true, rr := Idle, clock := 0, completed := [], submitted := false)
    case Push2 => s.(next2 := s.next2 + 1, rrQueue := s.rrQueue + [Fresh(c.procs[s.next2])])
    case Raise2 => s.(flagged2 := true, submitted := true)
    case RrTake => s.(rr := Running(s.rrQueue[0]), rrQueue := s.rrQueue[1..])
    case RrFinish =>
      var e := SliceOf(c, s.rr.job);
      var j := s.rr.job.(remaining := s.rr.job.remaining - e, slices := s.rr.job.slices + 1);
      var now := s.clock + e;
      if j.remaining <= 0
      then s.(rr := Idle, clock := now, completed := s.completed + [j.(completion := now)])
      else s.(rr := Idle, clock := now, rrQueue := s.rrQueue + [j])
    case RrExit => s.(rr := Exited)
  }

  // The state after a schedule begun in `s`; None when some step was not enabled.
  function Run(c: Setup, s: State, steps: seq<Step>): Option<State> {
    if steps == [] then Some(s)
    else
      match Run(c, s, steps[..|steps| - 1])
      case None => None
      case Some(t) =>
        var step := steps[|steps| - 1];
        if CanStep(c, t, step) then Some(Apply(c, t, step)) else None
  }
}
