/**
 Bounded concurrent work (maskguard/api/concurrency.py, maskguard/api/routes/_shared.py).

 A slot is taken before a worker starts and given back only after the worker has really
 finished, however long ago its request timed out.  `Steps` interleaves any number of
 requests, timeouts, completions and releases.
 */
module JobSlots {
  import opened Models

  class ConcurrencyLimiter {
    const max: int
    var count: int

    ghost predicate Valid()
      reads this
    {
      max >= 1 && 0 <= count <= max
    }

    constructor (maxConcurrent: int)
      ensures Valid() && max == Max(1, maxConcurrent) && count == 0
    {
      max, count := Max(1, maxConcurrent), 0;
    }

    method TryAcquire() returns (acquired: bool)
      requires Valid()
      modifies this`count
      ensures Valid()
      ensures acquired <==> old(count) < max
      ensures count == old(count) + if acquired then 1 else 0
    {
      if count >= max {
        return false;
      }
      count := count + 1;
      return true;
    }

    method Release()
      requires Valid()
      modifies this`count
      ensures Valid() && count == Max(0, old(count) - 1)
    {
      count := Max(0, count - 1);
    }
  }

  /** `waiting`: requests still waiting for their worker; `running`: workers not yet finished;
      `finished`: workers whose release has been scheduled but not yet happened. */
  datatype Slots = Slots(count: int, waiting: set<nat>, running: set<nat>, finished: set<nat>)

  datatype Step = Request(job: nat) | Timeout(job: nat) | Finish(job: nat) | Release(job: nat)

  /** One step of the event loop; a step that cannot happen changes nothing. */
  function Next(s: Slots, max: int, step: Step): Slots {
    match step
    case Request(job) =>
      if s.count >= max || job in s.running || job in s.finished then s
      else s.(count := s.count + 1, waiting := s.waiting + {job}, running := s.running + {job})
    case Timeout(job) => s.(waiting := s.waiting - {job})
    case Finish(job) =>
      if job !in s.running then s
      else s.(waiting := s.waiting - {job}, running := s.running - {job}, finished := s.finished + {job})
    case Release(job) =>
      if job !in s.finished then s
      else s.(count := Max(0, s.count - 1), finished := s.finished - {job})
  }

  /** `run_with_timeout`, cut where the event loop may switch to another request. */
  class JobRunner {
    const limiter: ConcurrencyLimiter
    var waiting: set<nat>
    var running: set<nat>
    var finished: set<nat>

    ghost function State(): Slots
      reads this, limiter
    {
      Slots(limiter.count, waiting, running, finished)
    }

    constructor (limiter: ConcurrencyLimiter)
      ensures this.limiter == limiter && State() == Slots(limiter.count, {}, {}, {})
    {
      this.limiter, waiting, running, finished := limiter, {}, {}, {};
    }

    /** Take a slot and start the worker, or refuse. */
    method Start(job: nat) returns (started: bool)
      requires limiter.Valid() && job !in running && job !in finished
      modifies this, limiter`count
      ensures limiter.Valid() && State() == Next(old(State()), limiter.max, Request(job))
      ensures started <==> job in running
    {
      started := limiter.TryAcquire();
      if !started {
        return;
      }
      waiting, running := waiting + {job}, running + {job};
    }

    /** The request gives up; its worker goes on. */
    method GiveUp(job: nat)
      modifies this`waiting
      ensures State() == Next(old(State()), limiter.max, Timeout(job))
    {
      waiting := waiting - {job};
    }

    /** The worker is done: its callback schedules the release. */
    method Done(job: nat)
      requires job in running
      modifies this
      ensures State() == Next(old(State()), limiter.max, Finish(job))
    {
      waiting, running, finished := waiting - {job}, running - {job}, finished + {job};
    }

    /** The scheduled release happens. */
    method GiveBack(job: nat)
      requires limiter.Valid() && job in finished
      modifies this, limiter`count
      ensures limiter.Valid() && State() == Next(old(State()), limiter.max, Step.Release(job))
    {
      limiter.Release();
      finished := finished - {job};
    }
  }

  function Steps(max: int, steps: seq<Step>): Slots {
    if steps == [] then Slots(0, {}, {}, {}) else Next(Steps(max, steps[..|steps| - 1]), max, steps[|steps| - 1])
  }

  ghost predicate InFlight(s: Slots, max: int) {
    && s.running !! s.finished && s.waiting <= s.running
    && s.count == |s.running| + |s.finished| <= max
  }

  lemma {:induction false} Moved(from: set<nat>, to: set<nat>, job: nat)
    requires job in from && job !in to
    ensures |from - {job}| == |from| - 1 && |to + {job}| == |to| + 1
  {}

  lemma {:induction false} RequestKeepsCount(s: Slots, max: int, job: nat)
    requires InFlight(s, max)
    ensures InFlight(Next(s, max, Request(job)), max)
  {}

  lemma {:induction false} FinishKeepsCount(s: Slots, max: int, job: nat)
    requires InFlight(s, max)
    ensures InFlight(Next(s, max, Finish(job)), max)
  {
    if job in s.running {
      Moved(s.running, s.finished, job);
    }
  }

  lemma {:induction false} ReleaseKeepsCount(s: Slots, max: int, job: nat)
    requires InFlight(s, max)
    ensures InFlight(Next(s, max, Step.Release(job)), max)
  {
    if job in s.finished {
      Moved(s.finished, {}, job);
    }
  }

  lemma {:induction false} StepKeepsCount(s: Slots, max: int, step: Step)
    requires InFlight(s, max)
    ensures InFlight(Next(s, max, step), max)
  {
    match step {
      case Request(job) => RequestKeepsCount(s, max, job);
      case Timeout(job) =>
      case Finish(job) => FinishKeepsCount(s, max, job);
      case Release(job) => ReleaseKeepsCount(s, max, job);
    }
  }

  /** The count is exactly the work in flight, so no slot is lost or given back twice, and
      timeouts do not let more than `max` workers run. */
  lemma {:induction false} CountIsWorkInFlight(max: int, steps: seq<Step>)
    requires max >= 1
    ensures InFlight(Steps(max, steps), max)
    decreases |steps|
  {
    if steps != [] {
      CountIsWorkInFlight(max, steps[..|steps| - 1]);
      StepKeepsCount(Steps(max, steps[..|steps| - 1]), max, steps[|steps| - 1]);
    }
  }

  /** A request is refused exactly when `max` workers are still running or about to give back their slot. */
  lemma {:induction false} RefusedExactlyWhenFull(max: int, steps: seq<Step>, job: nat)
    requires max >= 1 && job !in Steps(max, steps).running && job !in Steps(max, steps).finished
    ensures var s := Steps(max, steps);
            job in Next(s, max, Request(job)).running <==> |s.running| + |s.finished| < max
  {
    CountIsWorkInFlight(max, steps);
  }
}
