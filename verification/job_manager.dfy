/**
 The in-memory job manager of backend/whatsapp.py: jobs by id, each with the
 loop task that drives it.
 */
module JobManager {
  import opened Results
  import opened SendJobs
  import opened SendEngine

  /** `jobs` and `tasks` of the manager, keyed by job id. */
  datatype Manager = Manager(jobs: map<string, SendJob>, tasks: map<string, Task>)

  const Empty: Manager := Manager(map[], map[])

  /** Every stored job is filed under its own id and has exactly one loop, in a
      state the loop can reach. */
  predicate Valid(m: Manager) {
    && m.jobs.Keys == m.tasks.Keys
    && forall id :: id in m.jobs ==> m.jobs[id].id == id && Inv(m.jobs[id], m.tasks[id])
  }

  lemma EmptyIsValid()
    ensures Valid(Empty)
  {
  }

  /** `get`: the stored job, or nothing for an unknown id. */
  function Get(m: Manager, id: string): (r: Option<SendJob>)
    ensures r.Some? <==> id in m.jobs
    ensures r.Some? ==> r.value == m.jobs[id]
  {
    if id in m.jobs then Some(m.jobs[id]) else None
  }

  /** `create_and_run`: file the job under its own id, replacing whatever was
      there, and start a fresh loop for it. Other jobs are untouched. */
  function CreateAndRun(m: Manager, job: SendJob): (r: (Manager, string))
    ensures r.1 == job.id
    ensures job.id in r.0.jobs && r.0.jobs[job.id] == job
    ensures job.id in r.0.tasks && r.0.tasks[job.id] == InitialTask
    ensures r.0.jobs.Keys == m.jobs.Keys + {job.id}
    ensures forall id :: id in m.jobs && id != job.id ==> r.0.jobs[id] == m.jobs[id]
    ensures r.0.tasks.Keys == m.tasks.Keys + {job.id}
    ensures forall id :: id in m.tasks && id != job.id ==> r.0.tasks[id] == m.tasks[id]
    ensures Valid(m) && Inv(job, InitialTask) ==> Valid(r.0)
  {
    (Manager(m.jobs[job.id := job], m.tasks[job.id := InitialTask]), job.id)
  }

  /** `pause`, `resume` and `cancel`: a silent no-op for an unknown id; otherwise
      only the named job's own flag changes, and no loop is touched. */
  function ControlJob(m: Manager, id: string, c: Control): (r: Manager)
    ensures id !in m.jobs ==> r == m
    ensures r.tasks == m.tasks && r.jobs.Keys == m.jobs.Keys
    ensures id in m.jobs ==> r.jobs[id] == ApplyControl(m.jobs[id], c)
    ensures forall other :: other in m.jobs && other != id ==> r.jobs[other] == m.jobs[other]
    ensures Valid(m) ==> Valid(r)
  {
    match Get(m, id)
    case Some(j) => m.(jobs := m.jobs[id := ApplyControl(j, c)])
    case None => m
  }

  /** Repeating a control request has no further effect. */
  lemma {:induction false} ControlJobIdempotent(m: Manager, id: string, c: Control)
    ensures ControlJob(ControlJob(m, id, c), id, c) == ControlJob(m, id, c)
  {
    if id in m.jobs {
      ControlIdempotent(m.jobs[id], c);
    }
  }

  /** One tick of the loop of the stored job `id`; other jobs are untouched. */
  function TickJob(m: Manager, id: string, loggedIn: bool, outcome: Outcome): (r: (Manager, Option<Attempt>))
    ensures id !in m.jobs || id !in m.tasks ==> r == (m, None)
    ensures r.0.jobs.Keys == m.jobs.Keys && r.0.tasks.Keys == m.tasks.Keys
    ensures forall other :: other in m.jobs && other != id ==> r.0.jobs[other] == m.jobs[other]
    ensures forall other :: other in m.tasks && other != id ==> r.0.tasks[other] == m.tasks[other]
    ensures id in m.jobs && id in m.tasks ==>
      var s := Advance(m.jobs[id], m.tasks[id], loggedIn, outcome);
      r.0.jobs[id] == s.job && r.0.tasks[id] == s.task && r.1 == s.attempt
  {
    if id in m.jobs && id in m.tasks then
      var s := Advance(m.jobs[id], m.tasks[id], loggedIn, outcome);
      (Manager(m.jobs[id := s.job], m.tasks[id := s.task]), s.attempt)
    else
      (m, None)
  }

  /** A tick keeps the store well-formed, and a dispatch it reports is of the
      job's next unattempted item. */
  lemma TickJobKeepsValid(m: Manager, id: string, loggedIn: bool, outcome: Outcome)
    requires Valid(m)
    ensures Valid(TickJob(m, id, loggedIn, outcome).0)
    ensures TickJob(m, id, loggedIn, outcome).1.Some? ==>
      id in m.jobs && TickJob(m, id, loggedIn, outcome).1.value.index == Attempted(m.jobs[id])
  {
    if id in m.jobs {
      AdvanceKeepsInv(m.jobs[id], m.tasks[id], loggedIn, outcome);
      var r := TickJob(m, id, loggedIn, outcome).0;
      forall other | other in r.jobs
        ensures r.jobs[other].id == other && Inv(r.jobs[other], r.tasks[other])
      {
      }
    }
  }
}
