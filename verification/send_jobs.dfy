/**
 The send job record of the backend and the three control operations that flip
 its flags (backend/whatsapp.py).
 */
module SendJobs {
  import opened Results

  /** One message to deliver: recipient, resolved text and an optional image data URL. */
  datatype SendItem = SendItem(to: string, text: string, imageDataUrl: Option<string>)

  /** One send campaign. The counters and flags are written by the send loop and
      by the control operations. */
  datatype SendJob = SendJob(
    id: string,
    items: seq<SendItem>,
    delaySeconds: int,
    sent: nat,
    failed: nat,
    running: bool,
    paused: bool,
    cancelled: bool,
    lastError: Option<string>)

  /** A job as the dataclass defaults build it: no progress, no flag set. */
  function NewJob(id: string, items: seq<SendItem>, delaySeconds: int): SendJob {
    SendJob(id, items, delaySeconds, 0, 0, false, false, false, None)
  }

  /** Number of items the loop has attempted so far. */
  function Attempted(job: SendJob): nat {
    job.sent + job.failed
  }

  /** The user's control requests. */
  datatype Control = Pause | Resume | Cancel

  /** Everything except the three control flags is equal. */
  predicate SameProgress(a: SendJob, b: SendJob) {
    && a.id == b.id
    && a.items == b.items
    && a.delaySeconds == b.delaySeconds
    && a.sent == b.sent
    && a.failed == b.failed
    && a.running == b.running
    && a.lastError == b.lastError
  }

  /** `pause`, `resume` and `cancel` on a job that exists: each sets its own flag. */
  function ApplyControl(job: SendJob, c: Control): (r: SendJob)
    ensures SameProgress(job, r)
    ensures c == Pause ==> r.paused && r.cancelled == job.cancelled
    ensures c == Resume ==> !r.paused && r.cancelled == job.cancelled
    ensures c == Cancel ==> r.cancelled && r.paused == job.paused
    ensures job.cancelled ==> r.cancelled
  {
    match c
    case Pause => job.(paused := true)
    case Resume => job.(paused := false)
    case Cancel => job.(cancelled := true)
  }

  /** Repeating a control request changes nothing more. */
  lemma ControlIdempotent(job: SendJob, c: Control)
    ensures ApplyControl(ApplyControl(job, c), c) == ApplyControl(job, c)
  {
  }
}
