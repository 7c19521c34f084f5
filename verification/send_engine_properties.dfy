/**
 What the send loop of backend/whatsapp.py guarantees over whole runs:
 cancellation, pausing, the login check, completion, and worked scenarios.
 */
module SendEngineProperties {
  import opened Results
  import opened SendJobs
  import opened SendEngine

  /** Number of loop ticks among the events. */
  function Ticks(events: seq<Event>): nat {
    if events == [] then 0 else (if events[0].Tick? then 1 else 0) + Ticks(events[1..])
  }

  predicate OnlyTicks(events: seq<Event>) {
    forall k :: 0 <= k < |events| ==> events[k].Tick?
  }

  /** `n` ticks on which the channel always delivers. */
  function DeliveredTicks(n: nat): (events: seq<Event>)
    ensures |events| == n && OnlyTicks(events)
  {
    seq(n, _ => Tick(Delivered))
  }

  /** Driving the loop with `e1` then `e2` is driving it with `e1 + e2`. */
  lemma {:induction false} RunAppend(job: SendJob, task: Task, loggedIn: bool, e1: seq<Event>, e2: seq<Event>)
    ensures Run(job, task, loggedIn, e1 + e2) ==
      var r1 := Run(job, task, loggedIn, e1);
      var r2 := Run(r1.job, r1.task, loggedIn, e2);
      Trace(r2.job, r2.task, r1.attempts + r2.attempts)
    decreases |e1|
  {
    if e1 == [] {
      assert e1 + e2 == e2;
    } else {
      assert (e1 + e2)[0] == e1[0] && (e1 + e2)[1..] == e1[1..] + e2;
      match e1[0]
      case Signal(c) =>
        RunAppend(ApplyControl(job, c), task, loggedIn, e1[1..], e2);
      case Tick(o) =>
        var s := Advance(job, task, loggedIn, o);
        var tail1 := Run(s.job, s.task, loggedIn, e1[1..]);
        var r2 := Run(tail1.job, tail1.task, loggedIn, e2);
        assert Run(job, task, loggedIn, e1 + e2)
            == Trace(r2.job, r2.task, AttemptOf(s.attempt) + (tail1.attempts + r2.attempts)) by {
          RunAppend(s.job, s.task, loggedIn, e1[1..], e2);
        }
        assert AttemptOf(s.attempt) + (tail1.attempts + r2.attempts)
            == (AttemptOf(s.attempt) + tail1.attempts) + r2.attempts;
    }
  }

  /** The loop itself never writes the control flags. */
  lemma {:induction false} TicksKeepFlags(job: SendJob, task: Task, loggedIn: bool, events: seq<Event>)
    requires OnlyTicks(events)
    ensures var r := Run(job, task, loggedIn, events);
      r.job.paused == job.paused && r.job.cancelled == job.cancelled
    decreases |events|
  {
    if events != [] {
      var s := Advance(job, task, loggedIn, events[0].outcome);
      TicksKeepFlags(s.job, s.task, loggedIn, events[1..]);
    }
  }

  /** Only a cancel request sets `cancelled`. */
  lemma {:induction false} OnlyCancelCancels(job: SendJob, task: Task, loggedIn: bool, events: seq<Event>)
    requires forall k :: 0 <= k < |events| ==> events[k] != Signal(Cancel)
    ensures Run(job, task, loggedIn, events).job.cancelled == job.cancelled
    decreases |events|
  {
    if events != [] {
      assert events[0] != Signal(Cancel);
      match events[0]
      case Signal(c) =>
        OnlyCancelCancels(ApplyControl(job, c), task, loggedIn, events[1..]);
      case Tick(o) =>
        var s := Advance(job, task, loggedIn, o);
        OnlyCancelCancels(s.job, s.task, loggedIn, events[1..]);
    }
  }

  /** Once `send_batch` has returned, nothing the loop does changes the job:
      only control requests still flip flags. */
  lemma {:induction false} FinishedStaysFinished(job: SendJob, task: Task, loggedIn: bool, events: seq<Event>)
    requires task.phase == Finished
    ensures var r := Run(job, task, loggedIn, events);
      && r.task == task && r.attempts == []
      && r.job.sent == job.sent && r.job.failed == job.failed
      && r.job.running == job.running && r.job.lastError == job.lastError
    decreases |events|
  {
    if events != [] {
      match events[0]
      case Signal(c) =>
        FinishedStaysFinished(ApplyControl(job, c), task, loggedIn, events[1..]);
      case Tick(o) =>
        FinishedStaysFinished(job, task, loggedIn, events[1..]);
    }
  }

  /** Once cancelled, the loop dispatches nothing more, except that a loop
      waiting in the pause loop leaves it and dispatches its current item once. */
  lemma {:induction false} CancelStopsDispatch(job: SendJob, task: Task, loggedIn: bool, events: seq<Event>)
    requires job.cancelled
    ensures var r := Run(job, task, loggedIn, events);
      && |r.attempts| <= (if task.phase.PauseWait? then 1 else 0)
      && forall k :: 0 <= k < |r.attempts| ==> r.attempts[k].index == task.phase.index
    decreases |events|
  {
    if events != [] {
      match events[0]
      case Signal(c) =>
        CancelStopsDispatch(ApplyControl(job, c), task, loggedIn, events[1..]);
      case Tick(o) =>
        var s := Advance(job, task, loggedIn, o);
        assert !s.task.phase.PauseWait?;
        CancelStopsDispatch(s.job, s.task, loggedIn, events[1..]);
    }
  }

  /** Ticks a cancelled loop needs before `send_batch` returns. */
  function CancelDistance(p: Phase): nat {
    match p
    case Starting => 1
    case PauseWait(_) => 2
    case DelaySleep(_) => 1
    case Finished => 0
  }

  /** Cancellation is terminal: within two ticks of the loop the job stops
      running, and `cancelled` is never reset. */
  lemma {:induction false} CancelEndsLoop(job: SendJob, task: Task, loggedIn: bool, events: seq<Event>)
    requires Inv(job, task) && job.cancelled
    requires Ticks(events) >= CancelDistance(task.phase)
    ensures var r := Run(job, task, loggedIn, events);
      r.task.phase == Finished && !r.job.running && r.job.cancelled
    decreases |events|
  {
    if task.phase == Finished {
      FinishedStaysFinished(job, task, loggedIn, events);
    } else {
      match events[0]
      case Signal(c) =>
        CancelEndsLoop(ApplyControl(job, c), task, loggedIn, events[1..]);
      case Tick(o) =>
        var s := Advance(job, task, loggedIn, o);
        AdvanceKeepsInv(job, task, loggedIn, o);
        CancelEndsLoop(s.job, s.task, loggedIn, events[1..]);
    }
  }

  /** Requests that leave a paused job paused and not cancelled. */
  predicate KeepsPaused(e: Event) {
    e != Signal(Resume) && e != Signal(Cancel)
  }

  /** A paused, uncancelled job dispatches nothing until it is resumed or
      cancelled, and its counters stay put. */
  lemma {:induction false} PauseHaltsDispatch(job: SendJob, task: Task, loggedIn: bool, events: seq<Event>)
    requires job.paused && !job.cancelled
    requires forall k :: 0 <= k < |events| ==> KeepsPaused(events[k])
    ensures var r := Run(job, task, loggedIn, events);
      r.attempts == [] && r.job.sent == job.sent && r.job.failed == job.failed
    decreases |events|
  {
    if events != [] {
      assert KeepsPaused(events[0]);
      match events[0]
      case Signal(c) =>
        PauseHaltsDispatch(ApplyControl(job, c), task, loggedIn, events[1..]);
      case Tick(o) =>
        var s := Advance(job, task, loggedIn, o);
        PauseHaltsDispatch(s.job, s.task, loggedIn, events[1..]);
    }
  }

  /** A paused job with items left waits before its next item (or has not yet
      started) however long the pause lasts. */
  lemma {:induction false} PausedLoopWaits(job: SendJob, task: Task, events: seq<Event>)
    requires Inv(job, task) && job.paused && !job.cancelled
    requires task.phase == Starting || task.phase == PauseWait(Attempted(job))
    requires Attempted(job) < |job.items|
    requires forall k :: 0 <= k < |events| ==> KeepsPaused(events[k])
    ensures var r := Run(job, task, true, events);
      r.task.phase == Starting || r.task.phase == PauseWait(Attempted(job))
    decreases |events|
  {
    if events != [] {
      assert KeepsPaused(events[0]);
      match events[0]
      case Signal(c) =>
        PausedLoopWaits(ApplyControl(job, c), task, events[1..]);
      case Tick(o) =>
        var s := Advance(job, task, true, o);
        AdvanceKeepsInv(job, task, true, o);
        PausedLoopWaits(s.job, s.task, events[1..]);
    }
  }

  /** Without a login the job only records the error: nothing is dispatched,
      the counters stay zero and `running` is never set. */
  lemma {:induction false} NotLoggedInSendsNothing(job: SendJob, events: seq<Event>)
    requires Inv(job, InitialTask)
    requires Ticks(events) > 0
    ensures var r := Run(job, InitialTask, false, events);
      && r.attempts == [] && r.job.sent == 0 && r.job.failed == 0
      && !r.job.running && r.task.phase == Finished
      && r.job.lastError == Some(NotLoggedInError)
    decreases |events|
  {
    match events[0]
    case Signal(c) =>
      NotLoggedInSendsNothing(ApplyControl(job, c), events[1..]);
    case Tick(o) =>
      var s := Advance(job, InitialTask, false, o);
      FinishedStaysFinished(s.job, s.task, false, events[1..]);
  }

  /** Ticks an unpaused, uncancelled loop needs to finish. */
  function Remaining(job: SendJob, task: Task): int {
    var n := |job.items|;
    match task.phase
    case Starting => n + 1
    case PauseWait(i) => n - i + 1
    case DelaySleep(i) => n - i
    case Finished => 0
  }

  /** Left alone, a logged-in loop attempts every item exactly once, sleeps the
      delay after every item including the last, and ends with `running` false. */
  lemma {:induction false} UninterruptedRunCompletes(job: SendJob, task: Task, events: seq<Event>)
    requires Inv(job, task) && task.phase != Finished
    requires !job.paused && !job.cancelled
    requires OnlyTicks(events) && |events| >= Remaining(job, task)
    ensures var r := Run(job, task, true, events);
      && r.task.phase == Finished && !r.job.running
      && Attempted(r.job) == |job.items| && r.task.sleeps == |job.items|
      && r.job.paused == job.paused && r.job.cancelled == job.cancelled
    decreases |events|
  {
    assert events[0].Tick?;
    var s := Advance(job, task, true, events[0].outcome);
    AdvanceKeepsInv(job, task, true, events[0].outcome);
    if s.task.phase == Finished {
      FinishedStaysFinished(s.job, s.task, true, events[1..]);
      TicksKeepFlags(s.job, s.task, true, events[1..]);
    } else {
      UninterruptedRunCompletes(s.job, s.task, events[1..]);
    }
  }

  /** If the channel never raises, nothing is counted as failed. */
  lemma {:induction false} DeliveredOnlyNoFailures(job: SendJob, task: Task, loggedIn: bool, events: seq<Event>)
    requires forall k :: 0 <= k < |events| ==> events[k] == Tick(Delivered) || events[k].Signal?
    ensures Run(job, task, loggedIn, events).job.failed == job.failed
    decreases |events|
  {
    if events != [] {
      match events[0]
      case Signal(c) =>
        DeliveredOnlyNoFailures(ApplyControl(job, c), task, loggedIn, events[1..]);
      case Tick(o) =>
        var s := Advance(job, task, loggedIn, o);
        DeliveredOnlyNoFailures(s.job, s.task, loggedIn, events[1..]);
    }
  }

  /** Three items, no delay, a channel that always delivers: the job ends with
      three sent, none failed, neither running nor paused. */
  lemma ThreeDeliveredScenario(id: string, a: SendItem, b: SendItem, c: SendItem)
    ensures var r := Run(NewJob(id, [a, b, c], 0), InitialTask, true, DeliveredTicks(4));
      && r.job.sent == 3 && r.job.failed == 0
      && !r.job.running && !r.job.paused
  {
    var job := NewJob(id, [a, b, c], 0);
    UninterruptedRunCompletes(job, InitialTask, DeliveredTicks(4));
    DeliveredOnlyNoFailures(job, InitialTask, true, DeliveredTicks(4));
  }

  /** Two items, the first raising: one sent, one failed, the error kept, and the
      loop still finishes. */
  lemma FailureThenDeliveryScenario(id: string, a: SendItem, b: SendItem, err: string)
    ensures var r := Run(NewJob(id, [a, b], 0), InitialTask, true,
                         [Tick(Raised(err)), Tick(Delivered), Tick(Delivered)]);
      && r.job.sent == 1 && r.job.failed == 1
      && r.job.lastError == Some(err) && !r.job.running
  {
    var job := NewJob(id, [a, b], 0);
    var s1 := Advance(job, InitialTask, true, Raised(err));
    var s2 := Advance(s1.job, s1.task, true, Delivered);
    var s3 := Advance(s2.job, s2.task, true, Delivered);
    assert s1.task.phase == DelaySleep(0);
    assert s2.task.phase == DelaySleep(1);
    assert s3.task.phase == Finished;
    var events := [Tick(Raised(err)), Tick(Delivered), Tick(Delivered)];
    assert events[1..] == [Tick(Delivered), Tick(Delivered)];
    assert events[1..][1..] == [Tick(Delivered)];
    assert Run(s2.job, s2.task, true, [Tick(Delivered)]).job == s3.job;
    assert Run(s1.job, s1.task, true, events[1..]).job == s3.job;
    assert Run(job, InitialTask, true, events).job == s3.job;
  }

  /** Cancelling a job that waits in the pause loop before item `i` ends the
      wait, but item `i` is still dispatched, once; the next tick then finds the
      job cancelled and the loop returns. */
  lemma CancelDuringPauseScenario(job: SendJob, i: nat, o1: Outcome, o2: Outcome)
    requires Inv(job, Task(PauseWait(i), i)) && job.paused
    ensures var r := Run(job, Task(PauseWait(i), i), true, [Signal(Cancel), Tick(o1), Tick(o2)]);
      && r.attempts == [Attempt(i, o1)]
      && Attempted(r.job) == i + 1 && r.job.cancelled
      && r.task.phase == Finished && !r.job.running
  {
    var task := Task(PauseWait(i), i);
    var events := [Signal(Cancel), Tick(o1), Tick(o2)];
    var c := ApplyControl(job, Cancel);
    var s1 := Advance(c, task, true, o1);
    var s2 := Advance(s1.job, s1.task, true, o2);
    assert s1.attempt == Some(Attempt(i, o1)) && s1.task.phase == DelaySleep(i);
    assert s2.attempt == None && s2.task.phase == Finished;
    assert events[1..] == [Tick(o1), Tick(o2)];
    assert events[1..][1..] == [Tick(o2)];
    assert [Tick(o2)][1..] == [];
    assert Run(s1.job, s1.task, true, [Tick(o2)]) == Trace(s2.job, s2.task, []);
    assert Run(c, task, true, events[1..]) == Trace(s2.job, s2.task, [Attempt(i, o1)]);
  }

  /** A job paused before its first item dispatches nothing however long the
      pause lasts, and its loop stays inside, ready to go on. */
  lemma PauseBeforeStartWaits(job: SendJob, waiting: nat)
    requires Inv(job, InitialTask) && |job.items| > 0
    requires !job.paused && !job.cancelled
    ensures var mid := Run(job, InitialTask, true, [Signal(Pause)] + DeliveredTicks(waiting));
      && mid.attempts == [] && mid.job.sent == 0 && mid.job.failed == 0
      && Inv(mid.job, mid.task) && mid.task.phase != Finished
      && mid.job.paused && !mid.job.cancelled && mid.job.items == job.items
  {
    var paused := ApplyControl(job, Pause);
    var ticks := DeliveredTicks(waiting);
    assert ([Signal(Pause)] + ticks)[1..] == ticks;
    assert Run(job, InitialTask, true, [Signal(Pause)] + ticks) == Run(paused, InitialTask, true, ticks);
    PauseHaltsDispatch(paused, InitialTask, true, ticks);
    PausedLoopWaits(paused, InitialTask, ticks);
    TicksKeepFlags(paused, InitialTask, true, ticks);
    RunKeepsInv(paused, InitialTask, true, ticks);
  }

  /** A waiting loop that has not failed yet, resumed and left alone for
      long enough, sends every remaining item and finishes. */
  lemma ResumeCompletes(job: SendJob, task: Task)
    requires Inv(job, task) && task.phase != Finished
    requires !job.cancelled && job.failed == 0
    ensures var fin := Run(job, task, true, [Signal(Resume)] + DeliveredTicks(|job.items| + 1));
      && fin.task.phase == Finished && !fin.job.running
      && fin.job.sent == |job.items| && fin.job.failed == 0
  {
    var resumed := ApplyControl(job, Resume);
    var rest := DeliveredTicks(|job.items| + 1);
    assert Run(job, task, true, [Signal(Resume)] + rest) == Run(resumed, task, true, rest) by {
      assert ([Signal(Resume)] + rest)[1..] == rest;
    }
    assert Remaining(resumed, task) <= |rest|;
    UninterruptedRunCompletes(resumed, task, rest);
    DeliveredOnlyNoFailures(resumed, task, true, rest);
  }

  /** After such a pause, a resume followed by enough ticks sends every item. */
  lemma PauseThenResumeScenario(job: SendJob, waiting: nat)
    requires Inv(job, InitialTask) && |job.items| > 0
    requires !job.paused && !job.cancelled
    ensures var mid := Run(job, InitialTask, true, [Signal(Pause)] + DeliveredTicks(waiting));
      var fin := Run(mid.job, mid.task, true, [Signal(Resume)] + DeliveredTicks(|job.items| + 1));
      && fin.task.phase == Finished && !fin.job.running
      && fin.job.sent == |job.items| && fin.job.failed == 0
  {
    PauseBeforeStartWaits(job, waiting);
    var mid := Run(job, InitialTask, true, [Signal(Pause)] + DeliveredTicks(waiting));
    ResumeCompletes(mid.job, mid.task);
  }
}
