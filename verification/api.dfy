/**
 The HTTP endpoints of backend/main.py as operations on the job manager:
 request validation and item mapping for `/send`, the `/progress` projection,
 the control endpoints and `/status`.
 */
module Api {
  import opened Results
  import opened SendJobs
  import opened SendEngine
  import opened JobManager

  datatype ImagePayload = ImagePayload(dataUrl: string)

  /** One message of a `/send` request. */
  datatype OutMessage = OutMessage(to: string, text: string, image: Option<ImagePayload>)

  datatype SendRequest = SendRequest(messages: seq<OutMessage>, delaySeconds: int)

  /** An `HTTPException`: status code and detail text. */
  datatype HttpError = HttpError(status: int, detail: string)

  datatype ProgressResponse = ProgressResponse(
    total: nat, sent: nat, failed: nat, paused: bool, running: bool, lastError: Option<string>)

  /** The `{"ok": True}` body of the control endpoints. */
  datatype Ack = Ack(ok: bool)

  datatype StatusResponse = StatusResponse(loggedIn: bool, queueSize: nat, running: bool)

  /** The manager after a request, and the response body or error. */
  datatype Reply<T> = Reply(manager: Manager, body: Result<T, HttpError>)

  const NoMessages: HttpError := HttpError(400, "No hay mensajes para enviar")

  const JobNotFound: HttpError := HttpError(404, "Job no encontrado")

  function ToItem(msg: OutMessage): SendItem {
    SendItem(msg.to, msg.text, match msg.image case Some(img) => Some(img.dataUrl) case None => None)
  }

  function MapItems(messages: seq<OutMessage>): (items: seq<SendItem>)
    ensures |items| == |messages|
    ensures forall k :: 0 <= k < |messages| ==> items[k] == ToItem(messages[k])
  {
    seq(|messages|, k requires 0 <= k < |messages| => ToItem(messages[k]))
  }

  /** `/send`: an empty message list is rejected with 400 and nothing is
      stored; otherwise a new job under `freshId` (the generated uuid) holds one
      item per message in the same order, with the delay clamped at zero. */
  function Send(m: Manager, req: SendRequest, freshId: string): (r: Reply<string>)
    ensures r.body.Failure? <==> |req.messages| == 0
    ensures r.body.Failure? ==> r.manager == m && r.body.error.status == 400
    ensures r.body.Success? ==>
      && r.body.value == freshId
      && freshId in r.manager.jobs
      && var job := r.manager.jobs[freshId];
      && |job.items| == |req.messages|
      && (forall k :: 0 <= k < |job.items| ==>
            && job.items[k].to == req.messages[k].to
            && job.items[k].text == req.messages[k].text
            && (job.items[k].imageDataUrl.Some? <==> req.messages[k].image.Some?)
            && (req.messages[k].image.Some? ==>
                  job.items[k].imageDataUrl.value == req.messages[k].image.value.dataUrl))
      && job.delaySeconds >= 0 && job.delaySeconds >= req.delaySeconds
      && (job.delaySeconds == 0 || job.delaySeconds == req.delaySeconds)
      && Attempted(job) == 0 && !job.running && !job.paused && !job.cancelled
      && job.lastError == None
    ensures r.body.Success? ==> freshId in r.manager.tasks && r.manager.tasks[freshId] == InitialTask
    ensures r.body.Success? ==>
      && r.manager.jobs.Keys == m.jobs.Keys + {freshId}
      && r.manager.tasks.Keys == m.tasks.Keys + {freshId}
      && (forall id :: id in m.jobs && id != freshId ==> r.manager.jobs[id] == m.jobs[id])
      && (forall id :: id in m.tasks && id != freshId ==> r.manager.tasks[id] == m.tasks[id])
    ensures Valid(m) ==> Valid(r.manager)
  {
    if |req.messages| == 0 then
      Reply(m, Failure(NoMessages))
    else
      var delay := if req.delaySeconds > 0 then req.delaySeconds else 0;
      var job := NewJob(freshId, MapItems(req.messages), delay);
      var (m', id) := CreateAndRun(m, job);
      Reply(m', Success(id))
  }

  /** `/progress`: 404 for an unknown id; otherwise the job's counters and flags
      as they are, with the number of items as the total. */
  function Progress(m: Manager, jobId: string): (r: Result<ProgressResponse, HttpError>)
    ensures r.Failure? <==> jobId !in m.jobs
    ensures r.Failure? ==> r.error == JobNotFound
    ensures r.Success? ==>
      var job := m.jobs[jobId];
      r.value == ProgressResponse(|job.items|, job.sent, job.failed, job.paused, job.running, job.lastError)
  {
    match Get(m, jobId)
    case None => Failure(JobNotFound)
    case Some(job) =>
      Success(ProgressResponse(|job.items|, job.sent, job.failed, job.paused, job.running, job.lastError))
  }

  /** Every snapshot of a well-formed store counts no more attempts than items. */
  lemma ProgressBounded(m: Manager, jobId: string)
    requires Valid(m)
    ensures Progress(m, jobId).Success? ==>
      Progress(m, jobId).value.sent + Progress(m, jobId).value.failed <= Progress(m, jobId).value.total
  {
  }

  /** `/pause`, `/resume`, `/cancel`: apply the request to the manager and
      acknowledge, whether or not the id is known. */
  function ControlEndpoint(m: Manager, jobId: string, c: Control): (r: (Manager, Ack))
    ensures r.1.ok
    ensures jobId !in m.jobs ==> r.0 == m
    ensures r.0 == ControlJob(m, jobId, c)
  {
    (ControlJob(m, jobId, c), Ack(true))
  }

  /** `/status`: the login answer, the number of stored jobs, and whether any
      stored job is running. */
  method Status(m: Manager, loggedIn: bool) returns (s: StatusResponse)
    ensures s.loggedIn == loggedIn && s.queueSize == |m.jobs|
    ensures s.running <==> exists id :: id in m.jobs && m.jobs[id].running
  {
    var running := false;
    var rest := m.jobs.Keys;
    while rest != {}
      invariant rest <= m.jobs.Keys
      invariant running <==> exists id :: id in m.jobs.Keys - rest && m.jobs[id].running
      decreases rest
    {
      var id :| id in rest;
      running := running || m.jobs[id].running;
      rest := rest - {id};
    }
    s := StatusResponse(loggedIn, |m.jobs|, running);
  }

  /** In a well-formed store a job reports `running` exactly while its loop is
      inside the `for`: waiting out a pause or sleeping the delay. */
  lemma RunningMeansLoopActive(m: Manager, id: string)
    requires Valid(m) && id in m.jobs
    ensures m.jobs[id].running <==> (m.tasks[id].phase.PauseWait? || m.tasks[id].phase.DelaySleep?)
  {
  }
}
