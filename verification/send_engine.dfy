/**
 The send loop of backend/whatsapp.py (`send_batch`) as a deterministic step
 function over a job and the loop's own position.

 The loop suspends only at its `await`s: the login check before the loop, the
 0.3-second poll inside `while job.paused and not job.cancelled`, and the delay
 sleep after each item. One `Tick` runs the code from one suspension point to
 the next; control requests (`Signal`) arrive between ticks. The dispatch's own
 `await`s are folded into the tick that starts it: a control request arriving
 during a dispatch only flips a flag that is next read after the delay sleep,
 so it has the same effect as arriving during that sleep.
 */
module SendEngine {
  import opened Results
  import opened SendJobs

  /** What the channel did with one dispatch: delivered, or raised an exception
      whose text is `message`. */
  datatype Outcome = Delivered | Raised(message: string)

  /** Where the loop is suspended. */
  datatype Phase =
    | Starting                  // task created; login not yet checked
    | PauseWait(index: nat)     // waiting in the pause loop before item `index`
    | DelaySleep(index: nat)    // sleeping the delay after item `index`
    | Finished                  // `send_batch` has returned

  /** The loop's position and the number of delay sleeps it has completed. */
  datatype Task = Task(phase: Phase, sleeps: nat)

  /** One dispatch of item `index` and its outcome. */
  datatype Attempt = Attempt(index: nat, outcome: Outcome)

  /** The state after one tick, with the dispatch it made, if any. */
  datatype Step = Step(job: SendJob, task: Task, attempt: Option<Attempt>)

  const NotLoggedInError: string := "No logueado en WhatsApp Web. Escanea el QR."

  const InitialTask: Task := Task(Starting, 0)

  /** The `try`/`except` around one dispatch. */
  function Record(job: SendJob, outcome: Outcome): SendJob {
    match outcome
    case Delivered => job.(sent := job.sent + 1)
    case Raised(m) => job.(failed := job.failed + 1, lastError := Some(m))
  }

  function Finish(job: SendJob, sleeps: nat): Step {
    Step(job.(running := false), Task(Finished, sleeps), None)
  }

  /** The pause check of iteration `i`, then the dispatch if it does not block. */
  function CheckPause(job: SendJob, sleeps: nat, i: nat, outcome: Outcome): Step
    requires i < |job.items|
  {
    if job.paused && !job.cancelled then Step(job, Task(PauseWait(i), sleeps), None)
    else Step(Record(job, outcome), Task(DelaySleep(i), sleeps), Some(Attempt(i, outcome)))
  }

  /** The top of iteration `i`: the loop ends when the items are exhausted or the
      job is cancelled, and clears `running` either way. */
  function TopOfLoop(job: SendJob, sleeps: nat, i: nat, outcome: Outcome): Step {
    if i >= |job.items| || job.cancelled then Finish(job, sleeps)
    else CheckPause(job, sleeps, i, outcome)
  }

  /** The states the loop can be in: how far it got is written in the counters
      and in the number of sleeps, and `running` holds exactly while the loop
      is inside its `for`. */
  predicate Inv(job: SendJob, task: Task) {
    var n := |job.items|;
    var done := Attempted(job);
    match task.phase
    case Starting => done == 0 && task.sleeps == 0 && !job.running
    case PauseWait(i) => i < n && done == i && task.sleeps == i && job.running
    case DelaySleep(i) => i < n && done == i + 1 && task.sleeps == i && job.running
    case Finished => done <= n && task.sleeps == done && !job.running
  }

  /** Run the loop to its next suspension point. `loggedIn` is the answer of the
      login check; `outcome` is what the channel does if this tick dispatches. */
  function Advance(job: SendJob, task: Task, loggedIn: bool, outcome: Outcome): (r: Step)
    ensures r.job.id == job.id && r.job.items == job.items && r.job.delaySeconds == job.delaySeconds
    ensures r.job.paused == job.paused && r.job.cancelled == job.cancelled
    ensures r.attempt.None? ==> r.job.sent == job.sent && r.job.failed == job.failed
    ensures r.attempt.Some? ==>
      && r.attempt.value.outcome == outcome
      && r.attempt.value.index < |job.items|
      && r.task.phase == DelaySleep(r.attempt.value.index)
      && (outcome.Delivered? ==>
            r.job.sent == job.sent + 1 && r.job.failed == job.failed && r.job.lastError == job.lastError)
      && (outcome.Raised? ==>
            r.job.failed == job.failed + 1 && r.job.sent == job.sent && r.job.lastError == Some(outcome.message))
    ensures job.paused && !job.cancelled ==> r.attempt.None?
    ensures task.phase == Finished ==> r == Step(job, task, None)
  {
    match task.phase
    case Starting =>
      if !loggedIn then Step(job.(lastError := Some(NotLoggedInError)), task.(phase := Finished), None)
      else TopOfLoop(job.(running := true), task.sleeps, 0, outcome)
    case PauseWait(i) =>
      if i < |job.items| then CheckPause(job, task.sleeps, i, outcome) else Finish(job, task.sleeps)
    case DelaySleep(i) =>
      TopOfLoop(job, task.sleeps + 1, i + 1, outcome)
    case Finished =>
      Step(job, task, None)
  }

  /** What drives the loop: a tick of the loop (carrying the channel's answer
      should it dispatch) or a control request reaching the job. */
  datatype Event = Tick(outcome: Outcome) | Signal(control: Control)

  /** The final state and every dispatch made, in order. */
  datatype Trace = Trace(job: SendJob, task: Task, attempts: seq<Attempt>)

  function DeliveredCount(attempts: seq<Attempt>): (r: nat)
    ensures r <= |attempts|
  {
    if attempts == [] then 0
    else (if attempts[0].outcome.Delivered? then 1 else 0) + DeliveredCount(attempts[1..])
  }

  function AttemptOf(a: Option<Attempt>): seq<Attempt> {
    match a
    case None => []
    case Some(x) => [x]
  }

  /** A tick keeps the loop in a reachable state, and what it dispatches is the
      next item not yet attempted. */
  lemma AdvanceKeepsInv(job: SendJob, task: Task, loggedIn: bool, outcome: Outcome)
    requires Inv(job, task)
    ensures Inv(Advance(job, task, loggedIn, outcome).job, Advance(job, task, loggedIn, outcome).task)
    ensures Advance(job, task, loggedIn, outcome).attempt.Some? ==>
      Advance(job, task, loggedIn, outcome).attempt.value.index == Attempted(job)
  {
  }

  lemma DeliveredCountSplit(a: Option<Attempt>, rest: seq<Attempt>)
    ensures DeliveredCount(AttemptOf(a) + rest) == DeliveredCount(AttemptOf(a)) + DeliveredCount(rest)
  {
    if a.Some? {
      assert (AttemptOf(a) + rest)[1..] == rest;
    } else {
      assert AttemptOf(a) + rest == rest;
    }
  }

  /** Drive the loop with a sequence of events. Every dispatch increments exactly
      one counter, and only control requests touch the flags `paused` and
      `cancelled`; `cancelled` is never reset. */
  function Run(job: SendJob, task: Task, loggedIn: bool, events: seq<Event>): (r: Trace)
    ensures r.job.id == job.id && r.job.items == job.items && r.job.delaySeconds == job.delaySeconds
    ensures r.job.sent == job.sent + DeliveredCount(r.attempts)
    ensures r.job.failed == job.failed + (|r.attempts| - DeliveredCount(r.attempts))
    ensures job.cancelled ==> r.job.cancelled
    decreases |events|
  {
    if events == [] then Trace(job, task, [])
    else
      match events[0]
      case Signal(c) =>
        Run(ApplyControl(job, c), task, loggedIn, events[1..])
      case Tick(o) =>
        var s := Advance(job, task, loggedIn, o);
        var rest := Run(s.job, s.task, loggedIn, events[1..]);
        DeliveredCountSplit(s.attempt, rest.attempts);
        Trace(rest.job, rest.task, AttemptOf(s.attempt) + rest.attempts)
  }

  /** From a reachable state every run ends in a reachable state, whatever the
      outcomes and whatever requests arrive in between. */
  lemma {:induction false} RunKeepsInv(job: SendJob, task: Task, loggedIn: bool, events: seq<Event>)
    requires Inv(job, task)
    ensures Inv(Run(job, task, loggedIn, events).job, Run(job, task, loggedIn, events).task)
    decreases |events|
  {
    if events != [] {
      match events[0]
      case Signal(c) =>
        RunKeepsInv(ApplyControl(job, c), task, loggedIn, events[1..]);
      case Tick(o) =>
        var s := Advance(job, task, loggedIn, o);
        AdvanceKeepsInv(job, task, loggedIn, o);
        RunKeepsInv(s.job, s.task, loggedIn, events[1..]);
    }
  }

  /** The attempts are of the consecutive items `base`, `base + 1`, ... */
  predicate Consecutive(attempts: seq<Attempt>, base: nat) {
    forall k :: 0 <= k < |attempts| ==> attempts[k].index == base + k
  }

  lemma ConsecutiveConcat(head: seq<Attempt>, rest: seq<Attempt>, base: nat)
    requires Consecutive(head, base) && Consecutive(rest, base + |head|)
    ensures Consecutive(head + rest, base)
  {
    forall k | 0 <= k < |head + rest|
      ensures (head + rest)[k].index == base + k
    {
      if k >= |head| {
        assert (head + rest)[k] == rest[k - |head|];
      }
    }
  }

  /** From a reachable state the dispatches of a run are the consecutive items
      following those already attempted. */
  lemma {:induction false} RunAttemptsConsecutive(job: SendJob, task: Task, loggedIn: bool, events: seq<Event>)
    requires Inv(job, task)
    ensures Consecutive(Run(job, task, loggedIn, events).attempts, Attempted(job))
    decreases |events|
  {
    if events != [] {
      match events[0]
      case Signal(c) =>
        RunAttemptsConsecutive(ApplyControl(job, c), task, loggedIn, events[1..]);
        assert Run(job, task, loggedIn, events) == Run(ApplyControl(job, c), task, loggedIn, events[1..]);
        assert Attempted(ApplyControl(job, c)) == Attempted(job);
      case Tick(o) =>
        var s := Advance(job, task, loggedIn, o);
        AdvanceKeepsInv(job, task, loggedIn, o);
        RunAttemptsConsecutive(s.job, s.task, loggedIn, events[1..]);
        var head := AttemptOf(s.attempt);
        var rest := Run(s.job, s.task, loggedIn, events[1..]).attempts;
        assert Run(job, task, loggedIn, events).attempts == head + rest;
        assert Consecutive(head, Attempted(job));
        assert Attempted(s.job) == Attempted(job) + |head|;
        ConsecutiveConcat(head, rest, Attempted(job));
    }
  }
}
