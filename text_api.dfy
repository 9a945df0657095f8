/*
 * The visualisation service (text_api.py): the in-memory job store with its
 * one-hour eviction, the round-robin pool of chat clients, and the
 * background task that records each job's terminal state.  The HTTP routes
 * are modelled as methods over the store; the clock, the job id, the chat
 * service's reply and the renderer's outcome are inputs.
 */
module TextApi {
  import opened Wrappers
  import opened Strings
  import ClaudeApi
  import ManimExec

  // ---------------------------------------------------------------------------
  // Jobs

  /** One hour, the age past which a job is evicted; times are microseconds. */
  const MaxJobAge: int := 3_600_000_000

  datatype Status = Pending | Completed | Failed

  /** The `result` payload of a completed job. */
  datatype JobResult = JobResult(success: bool, filename: string)

  /** A `JobStatus` record. */
  datatype Job = Job(status: Status, result: Option<JobResult>, error: Option<string>, createdAt: int)

  /** The `JobStatus` constructor: pending, no result, no error, created now. */
  function NewJob(now: int): (job: Job)
    ensures job.status == Pending && job.result.None? && job.error.None? && job.createdAt == now
  {
    Job(Pending, None, None, now)
  }

  /** A pending job has neither result nor error, a completed one has a
      result and a failed one an error. */
  predicate WellFormed(job: Job)
  {
    (job.status == Pending ==> job.result.None? && job.error.None?)
    && (job.status == Completed ==> job.result.Some?)
    && (job.status == Failed ==> job.error.Some?)
  }

  /** Older than one hour, strictly. */
  predicate IsStale(job: Job, now: int)
  {
    now - job.createdAt > MaxJobAge
  }

  /** The store after `cleanup_old_jobs`: every job at most one hour old,
      untouched, and no other. */
  function Evict(jobs: map<string, Job>, now: int): (kept: map<string, Job>)
    ensures forall id :: id in kept <==> id in jobs && !IsStale(jobs[id], now)
    ensures forall id :: id in kept ==> kept[id] == jobs[id]
  {
    map id | id in jobs && !IsStale(jobs[id], now) :: jobs[id]
  }

  /** What the background task ends with: the renderer's `(success, message)`
      pair, or the message of an exception it caught. */
  datatype PipelineOutcome = Rendered(success: bool, message: string) | Threw(message: string)

  /** The result file named after a job: the visualisation name as given,
      not the sanitised name the renderer wrote. */
  function ResultFilename(visualizationName: string): (f: string)
    ensures StartsWith(f, visualizationName) && f[|visualizationName|..] == ".mp4"
  {
    visualizationName + ".mp4"
  }

  /** The job after the background task records `outcome`. */
  function Settle(job: Job, outcome: PipelineOutcome, visualizationName: string): (settled: Job)
    ensures settled.status != Pending && settled.createdAt == job.createdAt
    ensures settled.status == Completed <==> outcome.Rendered? && outcome.success
    ensures settled.status == Completed ==>
      settled.result == Some(JobResult(true, ResultFilename(visualizationName))) && settled.error == job.error
    ensures settled.status == Failed ==> settled.error == Some(outcome.message) && settled.result == job.result
    ensures WellFormed(settled)
  {
    if outcome.Rendered? && outcome.success then
      job.(status := Completed, result := Some(JobResult(true, ResultFilename(visualizationName))))
    else
      job.(status := Failed, error := Some(outcome.message))
  }

  /** The fields `get_job_status` returns. */
  datatype StatusView = StatusView(status: Status, result: Option<JobResult>, error: Option<string>)

  const NotFound: int := 404

  /** The lookup in `get_job_status`: the job's fields, or 404. */
  function Lookup(jobs: map<string, Job>, jobId: string): (r: Result<StatusView, int>)
    ensures r.Failure? <==> jobId !in jobs
    ensures r.Failure? ==> r.error == NotFound
    ensures r.Success? ==> r.value == StatusView(jobs[jobId].status, jobs[jobId].result, jobs[jobId].error)
  {
    if jobId in jobs then
      var job := jobs[jobId];
      Success(StatusView(job.status, job.result, job.error))
    else
      Failure(NotFound)
  }

  /** The job store. */
  class JobStore
  {
    var jobs: map<string, Job>

    ghost predicate Valid()
      reads this
    {
      forall id :: id in jobs ==> WellFormed(jobs[id])
    }

    constructor()
      ensures jobs == map[] && Valid()
    {
      jobs := map[];
    }

    /** `cleanup_old_jobs`: collects the ids of the stale jobs, then deletes
        them one by one. */
    method CleanupOldJobs(now: int)
      modifies this
      ensures jobs == Evict(old(jobs), now)
      ensures old(Valid()) ==> Valid()
    {
      var jobsToRemove := set id | id in jobs && IsStale(jobs[id], now);
      var remaining := jobsToRemove;
      while remaining != {}
        invariant remaining <= jobsToRemove
        invariant jobs == old(jobs) - (jobsToRemove - remaining)
        decreases remaining
      {
        var id :| id in remaining;
        jobs := jobs - {id};
        remaining := remaining - {id};
      }
      assert jobs == Evict(old(jobs), now);
    }
  }

  // ---------------------------------------------------------------------------
  // Client pool

  /** `ClaudeAPIPool`: a fixed list of clients and a cursor.  `handedOut`
      records, for the proof, the index of every client handed out so far. */
  class ClientPool
  {
    const clients: seq<ClaudeApi.Client>
    const poolSize: nat
    var current: nat
    ghost var handedOut: seq<nat>

    /** The cursor is the number of hand-outs so far modulo the pool size,
        and the n-th hand-out used client n modulo the pool size. */
    ghost predicate Valid()
      reads this
    {
      poolSize == |clients|
      && (poolSize == 0 ==> current == 0 && handedOut == [])
      && (poolSize > 0 ==>
            current < poolSize && current == |handedOut| % poolSize
            && forall n :: 0 <= n < |handedOut| ==> handedOut[n] == n % poolSize)
    }

    constructor(clients: seq<ClaudeApi.Client>)
      ensures this.clients == clients && poolSize == |clients|
      ensures current == 0 && handedOut == [] && Valid()
    {
      this.clients := clients;
      poolSize := |clients|;
      current := 0;
      handedOut := [];
    }

    /** `get_client`: the client under the cursor, advancing the cursor
        cyclically; an empty pool raises IndexError (None). */
    method GetClient() returns (client: Option<ClaudeApi.Client>)
      requires Valid()
      modifies this
      ensures Valid()
      ensures poolSize == 0 ==> client.None? && current == old(current) && handedOut == old(handedOut)
      ensures poolSize > 0 ==>
        client == Some(clients[old(current)])
        && current == (old(current) + 1) % poolSize
        && handedOut == old(handedOut) + [old(current)]
    {
      if poolSize == 0 {
        return None;
      }
      client := Some(clients[current]);
      NextCursor(|handedOut|, poolSize);
      handedOut := handedOut + [current];
      current := (current + 1) % poolSize;
    }
  }

  lemma ModSmall(r: int, size: int)
    requires 0 <= r < size
    ensures r % size == r && r / size == 0
  {
  }

  lemma {:induction false} MulAtLeast(k: int, size: int)
    requires k >= 1 && size > 0
    ensures k * size >= size
    decreases k
  {
    if k > 1 {
      MulAtLeast(k - 1, size);
      assert k * size == (k - 1) * size + size;
    }
  }

  lemma ModMultiplePlus(q: nat, size: int, r: int)
    requires 0 <= r < size
    ensures (q * size + r) % size == r
    ensures (q * size + r) / size == q
  {
    var x := q * size + r;
    var d, m := x / size, x % size;
    assert x == d * size + m;
    assert (d - q) * size == r - m;
    if d > q {
      MulAtLeast(d - q, size);
    } else if d < q {
      MulAtLeast(q - d, size);
    }
  }

  lemma NextCursor(count: nat, size: nat)
    requires size > 0
    ensures (count % size + 1) % size == (count + 1) % size
  {
    var q, r := count / size, count % size;
    assert count == q * size + r;
    if r + 1 < size {
      ModMultiplePlus(q, size, r + 1);
      ModSmall(r + 1, size);
    } else {
      ModMultiplePlus(q + 1, size, 0);
      assert count + 1 == (q + 1) * size + 0;
      ModSmall(0, size);
    }
  }

  /** Among any `size` consecutive hand-outs of a pool of `size` clients,
      every client appears. */
  lemma RoundRobinWindow(handedOut: seq<nat>, size: nat, start: nat, i: nat)
    requires size > 0 && start + size <= |handedOut| && i < size
    requires forall n :: 0 <= n < |handedOut| ==> handedOut[n] == n % size
    ensures exists n :: start <= n < start + size && handedOut[n] == i
  {
    var n := WindowIndex(start, size, i);
    assert handedOut[n] == i;
  }

  /** The index in `[start, start + size)` that is `i` modulo `size`. */
  lemma WindowIndex(start: nat, size: nat, i: nat) returns (n: nat)
    requires size > 0 && i < size
    ensures start <= n < start + size && n % size == i
  {
    var q, r := start / size, start % size;
    assert start == q * size + r;
    if r <= i {
      n := start + (i - r);
      assert n == q * size + i;
      ModMultiplePlus(q, size, i);
    } else {
      n := start + (size - r) + i;
      assert (q + 1) * size == q * size + size;
      assert n == (q + 1) * size + i;
      ModMultiplePlus(q + 1, size, i);
    }
  }

  // ---------------------------------------------------------------------------
  // Requests

  const MaxNameLength: nat := 50

  /** The request fields the pipeline reads: the query and the optional name.
      Theme, colour, resolution and instructions only fill the prompt. */
  datatype InputParams = InputParams(query: string, name: Option<string>)

  /** The request validation's `max_length=50` on `name`. */
  predicate ValidParams(params: InputParams)
  {
    params.name.Some? ==> |params.name.value| <= MaxNameLength
  }

  /** `params.name if params.name else params.query[:50]`. */
  function VisualizationName(params: InputParams): (name: string)
    ensures params.name.Some? && params.name.value != [] ==> name == params.name.value
    ensures !(params.name.Some? && params.name.value != []) ==>
      StartsWith(params.query, name) && (|name| == MaxNameLength || name == params.query)
    ensures ValidParams(params) ==> |name| <= MaxNameLength
  {
    if params.name.Some? && params.name.value != [] then params.name.value
    else Take(params.query, MaxNameLength)
  }

  /** `JobResponse`. */
  datatype JobResponse = JobResponse(jobId: string, status: Status)

  /** `generate_visualization`: stores a new pending job under a fresh id.
      Scheduling the background task is the caller's next step,
      ProcessVisualization. */
  method GenerateVisualization(store: JobStore, jobId: string, now: int) returns (response: JobResponse)
    requires jobId !in store.jobs
    modifies store
    ensures store.jobs == old(store.jobs)[jobId := NewJob(now)]
    ensures response == JobResponse(jobId, Pending)
    ensures old(store.Valid()) ==> store.Valid()
  {
    store.jobs := store.jobs[jobId := NewJob(now)];
    response := JobResponse(jobId, Pending);
  }

  /** `get_job_status`: evicts stale jobs, then looks the id up. */
  method GetJobStatus(store: JobStore, jobId: string, now: int) returns (r: Result<StatusView, int>)
    modifies store
    ensures store.jobs == Evict(old(store.jobs), now)
    ensures r == Lookup(store.jobs, jobId)
    ensures old(store.Valid()) ==> store.Valid()
    ensures old(store.Valid()) && r.Success? ==>
      (r.value.status == Completed ==> r.value.result.Some?) && (r.value.status == Failed ==> r.value.error.Some?)
  {
    store.CleanupOldJobs(now);
    var job := if jobId in store.jobs then Some(store.jobs[jobId]) else None;
    if job.None? {
      return Failure(NotFound);
    }
    r := Success(StatusView(job.value.status, job.value.result, job.value.error));
  }

  /** The message of the IndexError `get_client` raises on an empty pool. */
  const IndexErrorMessage := "list index out of range"

  /** What the background task ends with, given whether the pool had a
      client, the chat service's reply (its text, or the message of the
      exception a request raised) and the renderer's outcome. */
  function Outcome(clientAvailable: bool, reply: Result<string, string>, render: ManimExec.RenderOutcome): (o: PipelineOutcome)
    ensures o.Rendered? <==> clientAvailable && reply.Success? && !ManimExec.RunResultOf(reply.value, render).Raised?
    ensures o.Rendered? && o.success <==>
      clientAvailable && reply.Success? && ManimExec.RunResultOf(reply.value, render) == ManimExec.Returned(true, o.message)
    ensures !clientAvailable ==> o == Threw(IndexErrorMessage)
    ensures clientAvailable && reply.Failure? ==> o == Threw(reply.error)
    ensures clientAvailable && reply.Success? ==> o.message == ManimExec.RunResultOf(reply.value, render).message
  {
    if !clientAvailable then Threw(IndexErrorMessage)
    else
      match reply
      case Failure(m) => Threw(m)
      case Success(text) =>
        match ManimExec.RunResultOf(text, render)
        case Returned(success, message) => Rendered(success, message)
        case Raised(message) => Threw(message)
  }

  /** The renderer runs exactly when the pool had a client and the chat
      service's reply holds a code block. */
  predicate RendersCode(poolSize: nat, reply: Result<string, string>)
  {
    poolSize > 0 && reply.Success? && ManimExec.ExtractCode(reply.value).Some?
  }

  /** The one renderer invocation of a job: the reply's code in the
      temporary script, under the output name made from the visualisation
      name. */
  function RenderOf(text: string, visualizationName: string, tempPath: string): ManimExec.RenderCommand
    requires ManimExec.ExtractCode(text).Some?
  {
    ManimExec.RenderCommand(tempPath, ManimExec.ExtractCode(text).value, ManimExec.SceneName,
                            ManimExec.OutputName(visualizationName))
  }

  /** The `try` block of `process_visualization` up to the recorded outcome:
      takes a client from the pool, then renders the code of the chat
      service's reply under the visualisation name.  Every exception on the
      way becomes a `Threw` outcome.  The temporary script is gone on every
      path. */
  method RunPipeline(pool: ClientPool, host: ManimExec.Host, visualizationName: string,
                     reply: Result<string, string>, render: ManimExec.RenderOutcome, tempPath: string)
    returns (outcome: PipelineOutcome)
    requires pool.Valid() && tempPath !in host.files
    modifies pool, host
    ensures outcome == Outcome(pool.poolSize > 0, reply, render)
    ensures pool.Valid()
    ensures pool.poolSize > 0 ==> pool.handedOut == old(pool.handedOut) + [old(pool.current)]
    ensures host.files == old(host.files)
    ensures RendersCode(pool.poolSize, reply) ==>
      host.renders == old(host.renders) + [RenderOf(reply.value, visualizationName, tempPath)]
    ensures !RendersCode(pool.poolSize, reply) ==> host.renders == old(host.renders)
  {
    var claudeClient := pool.GetClient();
    if claudeClient.None? {
      return Threw(IndexErrorMessage);
    }
    match reply {
      case Failure(m) =>
        outcome := Threw(m);
      case Success(response) =>
        var ran := ManimExec.RunManimCode(host, response, visualizationName, tempPath, render);
        match ran {
          case Returned(success, message) => outcome := Rendered(success, message);
          case Raised(message) => outcome := Threw(message);
        }
    }
  }

  /** `process_visualization`: runs the pipeline and records its outcome on
      the job, field by field.  The job is looked up only when the outcome
      is recorded; a missing id raises KeyError there and again in the
      exception handler, so it escapes the background job (`escaped`) and the store is
      unchanged. */
  method ProcessVisualization(store: JobStore, pool: ClientPool, host: ManimExec.Host, jobId: string,
                              params: InputParams, reply: Result<string, string>,
                              render: ManimExec.RenderOutcome, tempPath: string)
    returns (escaped: bool)
    requires pool.Valid() && tempPath !in host.files
    modifies store, pool, host
    ensures pool.Valid()
    ensures pool.poolSize > 0 ==> pool.handedOut == old(pool.handedOut) + [old(pool.current)]
    ensures host.files == old(host.files)
    ensures escaped <==> jobId !in old(store.jobs)
    ensures escaped ==> store.jobs == old(store.jobs)
    ensures !escaped ==> store.jobs == old(store.jobs)[jobId :=
      Settle(old(store.jobs)[jobId], Outcome(pool.poolSize > 0, reply, render), VisualizationName(params))]
    ensures old(store.Valid()) ==> store.Valid()
    ensures RendersCode(pool.poolSize, reply) ==>
      host.renders == old(host.renders) + [RenderOf(reply.value, VisualizationName(params), tempPath)]
    ensures !RendersCode(pool.poolSize, reply) ==> host.renders == old(host.renders)
  {
    var visualizationName := VisualizationName(params);
    var outcome := RunPipeline(pool, host, visualizationName, reply, render, tempPath);
    if jobId !in store.jobs {
      return true;
    }
    var job := store.jobs[jobId];
    if outcome.Rendered? && outcome.success {
      job := job.(status := Completed);
      job := job.(result := Some(JobResult(true, ResultFilename(visualizationName))));
    } else {
      job := job.(status := Failed);
      job := job.(error := Some(outcome.message));
    }
    assert job == Settle(store.jobs[jobId], outcome, visualizationName);
    store.jobs := store.jobs[jobId := job];
    escaped := false;
  }

  // ---------------------------------------------------------------------------
  // Properties of the job life cycle

  /** A job exactly one hour old survives eviction; one a microsecond older
      does not. */
  lemma EvictBoundary(jobs: map<string, Job>, id: string, now: int)
    requires id in jobs
    ensures jobs[id].createdAt == now - MaxJobAge ==> id in Evict(jobs, now)
    ensures jobs[id].createdAt == now - MaxJobAge - 1 ==> id !in Evict(jobs, now)
  {
  }

  /** Evicting twice at the same time evicts nothing more. */
  lemma EvictIdempotent(jobs: map<string, Job>, now: int)
    ensures Evict(Evict(jobs, now), now) == Evict(jobs, now)
  {
  }

  /** A status query answers 404 exactly for an unknown id or a stale job,
      and otherwise the job's own fields. */
  lemma QueryNotFoundIff(jobs: map<string, Job>, jobId: string, now: int)
    ensures Lookup(Evict(jobs, now), jobId).Failure? <==> jobId !in jobs || IsStale(jobs[jobId], now)
    ensures Lookup(Evict(jobs, now), jobId).Success? ==>
      Lookup(Evict(jobs, now), jobId).value == StatusView(jobs[jobId].status, jobs[jobId].result, jobs[jobId].error)
  {
  }

  /** Submitting and then querying within the hour answers pending. */
  lemma SubmitThenQueryIsPending(jobs: map<string, Job>, jobId: string, submitted: int, now: int)
    requires jobId !in jobs && submitted <= now <= submitted + MaxJobAge
    ensures Lookup(Evict(jobs[jobId := NewJob(submitted)], now), jobId) == Success(StatusView(Pending, None, None))
  {
  }

  /** Submitting, rendering successfully and querying within the hour
      answers completed, naming the file after the visualisation name. */
  lemma SubmitRenderQuery(jobs: map<string, Job>, jobId: string, submitted: int, now: int,
                          params: InputParams, text: string, stdout: string, stderr: string)
    requires jobId !in jobs && submitted <= now <= submitted + MaxJobAge
    requires ManimExec.ExtractCode(text).Some?
    ensures
      var outcome := Outcome(true, Success(text), ManimExec.Exited(0, stdout, stderr));
      var settled := Settle(NewJob(submitted), outcome, VisualizationName(params));
      Lookup(Evict(jobs[jobId := settled], now), jobId)
        == Success(StatusView(Completed, Some(JobResult(true, VisualizationName(params) + ".mp4")), None))
  {
  }

  /** Recording an outcome never leaves a job pending, and recording the
      same outcome again changes nothing. */
  lemma SettleTerminal(job: Job, outcome: PipelineOutcome, name: string)
    ensures Settle(job, outcome, name).status in {Completed, Failed}
    ensures Settle(Settle(job, outcome, name), outcome, name) == Settle(job, outcome, name)
  {
  }

  /** A failed render always leaves a non-empty error; an exception with an
      empty message leaves an empty one. */
  lemma FailedErrorMessages(job: Job, reply: Result<string, string>, render: ManimExec.RenderOutcome, name: string)
    ensures var o := Outcome(true, reply, render);
      o.Rendered? && !o.success ==> Settle(job, o, name).error.value != []
    ensures Settle(job, Threw(""), name).status == Failed && Settle(job, Threw(""), name).error == Some("")
  {
    if reply.Success? {
      ManimExec.RunFailureMessageNonEmpty(reply.value, render);
    }
  }

  /** The result file carries the name the renderer wrote exactly when the
      visualisation name is already a safe name of at most 20 characters. */
  lemma FilenameMatchesRenderIff(name: string)
    ensures ResultFilename(name) == ManimExec.OutputName(name) + ".mp4" <==>
      ManimExec.IsSafeName(name) && |name| <= ManimExec.MaxOutputName
  {
    var out := ManimExec.OutputName(name);
    if ResultFilename(name) == out + ".mp4" {
      assert name == (name + ".mp4")[..|name|];
      assert out == (out + ".mp4")[..|out|];
      assert |name| == |out|;
      assert name == out;
      var s := ManimExec.Sanitize(name);
      assert |s| <= |name|;
      assert out == s;
      ManimExec.SanitizeFixedPoints(name);
    } else if ManimExec.IsSafeName(name) && |name| <= ManimExec.MaxOutputName {
      ManimExec.SanitizeFixedPoints(name);
    }
  }

  /** A title of words separated by single spaces and ending in
      punctuation, such as "My Cool Viz!!", is rendered under its words
      joined by `_` (here `My_Cool_Viz`) but recorded under the title itself
      (`My Cool Viz!!.mp4`). */
  lemma SpacedTitleFilename(words: seq<string>, punct: string)
    requires words != [] && ManimExec.AreWords(words)
    requires punct != [] && forall k :: 0 <= k < |punct| ==> !ManimExec.IsWordChar(punct[k])
    requires |ManimExec.Joined(words, "_")| <= ManimExec.MaxOutputName
    ensures var title := ManimExec.Joined(words, " ") + punct;
      ManimExec.OutputName(title) == ManimExec.Joined(words, "_")
      && ResultFilename(title) == title + ".mp4"
      && ResultFilename(title) != ManimExec.OutputName(title) + ".mp4"
  {
    var title := ManimExec.Joined(words, " ") + punct;
    ManimExec.SanitizeSpacedWords(words, punct);
    FilenameMatchesRenderIff(title);
    assert title[|title| - 1] == punct[|punct| - 1];
  }
}
