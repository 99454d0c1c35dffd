/**
 * The collection runner (CollectionRunnerModal.tsx): `runAll` runs a folder's
 * requests strictly in order against the selected environment, keeping one
 * result per request that goes `pending` -> `running` -> `success` | `error`;
 * every failure of one item (a re-parse failure during resolution, a thrown
 * transport call, an error response) is recorded on that item and the loop
 * goes on. The summary counts passed and failed entries.
 */
module CollectionRunner {
  import opened Wrappers
  import opened Json
  import opened Model
  import opened Text
  import opened Substitution
  import opened Resolve

  datatype RequestStatus = Pending | Running | Success | Error

  datatype RequestResult = RequestResult(
    request: HttpRequest,
    status: RequestStatus,
    statusCode: Option<int>,
    duration: Option<int>,
    error: Option<string>)

  function PendingResult(req: HttpRequest): RequestResult {
    RequestResult(req, Pending, None, None, None)
  }

  /** `folder.requests.map(req => ({ request: req, status: "pending" }))`. */
  function Pendings(reqs: seq<HttpRequest>): (rs: seq<RequestResult>)
    ensures |rs| == |reqs| && forall j | 0 <= j < |reqs| :: rs[j] == PendingResult(reqs[j])
  {
    seq(|reqs|, j requires 0 <= j < |reqs| => PendingResult(reqs[j]))
  }

  /** `response.error || (response.status && response.status >= 400)`: an error string that is not empty, or an HTTP error status. */
  predicate IsFailure(resp: Response) {
    || (resp.error.Some? && resp.error.value != "")
    || (resp.status.Some? && resp.status.value >= 400)
  }

  function InterpolatedNumber(n: Option<int>): string {
    match n
    case None => "undefined"
    case Some(v) => IntToString(v)
  }

  /** `response.error || \`HTTP ${response.status}: ${response.statusText}\``. */
  function FailureMessage(resp: Response): string {
    if resp.error.Some? && resp.error.value != "" then resp.error.value
    else "HTTP " + InterpolatedNumber(resp.status) + ": " + Interpolated(resp.statusText)
  }

  /** What the `try` block of one item ends with: a caught exception, or the transport's response. */
  datatype Attempt = Caught(message: string) | Responded(response: Response, elapsed: int)

  /** Resolve item `i`'s request and, if that does not throw, send it as the `i`-th transport call. */
  function ItemAttempt(i: nat, req: HttpRequest, env: Env, codec: Codec, transport: Transport): Attempt {
    match Resolved(req, env, codec)
    case Err(m) => Caught(m)
    case Ok(sent) =>
      match transport(i, sent)
      case Threw(m) => Caught(m)
      case Answered(resp, elapsed) => Responded(resp, elapsed)
  }

  /** The running entry of a request, `{ ...pending, status: "running" }`. */
  function RunningResult(req: HttpRequest): RequestResult {
    PendingResult(req).(status := Running)
  }

  /** The entry an item settles on: `{ ...r, status, ... }` over its running entry `r`. */
  function Settle(r: RequestResult, a: Attempt): RequestResult {
    match a
    case Caught(m) => r.(status := Error, error := Some(m))
    case Responded(resp, elapsed) =>
      if IsFailure(resp) then
        r.(status := Error, statusCode := resp.status, error := Some(FailureMessage(resp)), duration := Some(elapsed))
      else
        r.(status := Success, statusCode := resp.status, duration := Some(elapsed))
  }

  function ItemResult(reqs: seq<HttpRequest>, i: nat, env: Env, codec: Codec, transport: Transport): RequestResult
    requires i < |reqs|
  {
    Settle(RunningResult(reqs[i]), ItemAttempt(i, reqs[i], env, codec, transport))
  }

  /** The results once the first `k` items have settled: those settled, the rest still pending. */
  function StateAt(reqs: seq<HttpRequest>, k: nat, env: Env, codec: Codec, transport: Transport): seq<RequestResult> {
    seq(|reqs|, j requires 0 <= j < |reqs| =>
      if j < k then ItemResult(reqs, j, env, codec, transport) else PendingResult(reqs[j]))
  }

  /** What a run leaves behind. */
  function FinalResults(reqs: seq<HttpRequest>, env: Env, codec: Codec, transport: Transport): seq<RequestResult> {
    StateAt(reqs, |reqs|, env, codec, transport)
  }

  /** What a run does, in order: the flag writes, the result writes and the transport calls. */
  datatype Event = RunningFlag(on: bool) | ResultsSet(results: seq<RequestResult>) | Dispatched(index: nat, sent: HttpRequest)

  /** The loop body's first write: entry `i` becomes `{ ...entry, status: "running" }`. */
  function MarkRunning(rs: seq<RequestResult>, i: nat): seq<RequestResult>
    requires i < |rs|
  {
    rs[i := rs[i].(status := Running)]
  }

  /** The loop body's last write: entry `i`, already running, settles on the outcome of item `i`. */
  function MarkSettled(rs: seq<RequestResult>, reqs: seq<HttpRequest>, i: nat, env: Env, codec: Codec, transport: Transport): seq<RequestResult>
    requires i < |rs| && i < |reqs|
  {
    var running := MarkRunning(rs, i);
    running[i := Settle(running[i], ItemAttempt(i, reqs[i], env, codec, transport))]
  }

  /** The loop body's events from results `rs`: the running write, the transport call unless resolution threw, the settled write. */
  function StepEvents(rs: seq<RequestResult>, reqs: seq<HttpRequest>, i: nat, env: Env, codec: Codec, transport: Transport): seq<Event>
    requires i < |rs| && i < |reqs|
  {
    var resolved := Resolved(reqs[i], env, codec);
    [ResultsSet(MarkRunning(rs, i))]
      + (if resolved.Ok? then [Dispatched(i, resolved.value)] else [])
      + [ResultsSet(MarkSettled(rs, reqs, i, env, codec, transport))]
  }

  /** Item `k`'s part of a run: mark it running, send the resolved request if resolution did not throw, record its result. */
  function ItemEvents(reqs: seq<HttpRequest>, k: nat, env: Env, codec: Codec, transport: Transport): seq<Event>
    requires k < |reqs|
  {
    StepEvents(StateAt(reqs, k, env, codec, transport), reqs, k, env, codec, transport)
  }

  /** Items `0`, `1`, ..., `k - 1`, in that order. */
  function ItemsEvents(reqs: seq<HttpRequest>, k: nat, env: Env, codec: Codec, transport: Transport): seq<Event>
    requires k <= |reqs|
  {
    if k == 0 then [] else ItemsEvents(reqs, k - 1, env, codec, transport) + ItemEvents(reqs, k - 1, env, codec, transport)
  }

  /** A whole run: raise the flag, reset every result to pending, process every item, lower the flag. */
  function RunEvents(reqs: seq<HttpRequest>, env: Env, codec: Codec, transport: Transport): seq<Event> {
    [RunningFlag(true), ResultsSet(Pendings(reqs))] + ItemsEvents(reqs, |reqs|, env, codec, transport) + [RunningFlag(false)]
  }

  /** The number of entries with status `s`. */
  function CountStatus(rs: seq<RequestResult>, s: RequestStatus): nat {
    if rs == [] then 0 else (if rs[0].status == s then 1 else 0) + CountStatus(rs[1..], s)
  }

  /** `results.filter(r => r.status === "success").length`. */
  function PassedCount(rs: seq<RequestResult>): nat {
    CountStatus(rs, Success)
  }

  /** `results.filter(r => r.status === "error").length`. */
  function FailedCount(rs: seq<RequestResult>): nat {
    CountStatus(rs, Error)
  }

  /** The modal's state: the folder and project it was opened on, the results, the running flag and the environment selector. */
  class Runner {
    const folder: Folder
    const project: Project
    var results: seq<RequestResult>
    var isRunning: bool
    var selectedEnv: EnvName
    /** Every write and every transport call made so far. */
    ghost var trace: seq<Event>

    constructor (folder: Folder, project: Project)
      ensures this.folder == folder && this.project == project
      ensures results == Pendings(folder.requests) && !isRunning && selectedEnv == Dev && trace == []
    {
      this.folder := folder;
      this.project := project;
      results := Pendings(folder.requests);
      isRunning := false;
      selectedEnv := Dev;
      trace := [];
    }

    /** The environment selector, disabled while a run is in progress. */
    method SelectEnvironment(env: EnvName)
      requires !isRunning
      modifies this`selectedEnv
      ensures selectedEnv == env
    {
      selectedEnv := env;
    }

    /** `runAll`, started from the "Run All" button (disabled while a run is in progress). */
    method RunAll(codec: Codec, transport: Transport)
      requires !isRunning
      requires LiteralEnv(EnvVars(project, selectedEnv))
      modifies this`results, this`isRunning, this`trace
      ensures !isRunning
      ensures results == FinalResults(folder.requests, EnvVars(project, selectedEnv), codec, transport)
      ensures trace == old(trace) + RunEvents(folder.requests, EnvVars(project, selectedEnv), codec, transport)
    {
      var envVars := EnvVars(project, selectedEnv);
      isRunning := true;
      trace := trace + [RunningFlag(true)];
      results := Pendings(folder.requests);
      trace := trace + [ResultsSet(results)];
      RunItems(envVars, codec, transport);
      isRunning := false;
      trace := trace + [RunningFlag(false)];
    }

    /** The `for` loop of `runAll`, from every entry pending to every entry settled. */
    method RunItems(envVars: Env, codec: Codec, transport: Transport)
      requires LiteralEnv(envVars)
      requires results == Pendings(folder.requests)
      modifies this`results, this`trace
      ensures results == FinalResults(folder.requests, envVars, codec, transport)
      ensures trace == old(trace) + ItemsEvents(folder.requests, |folder.requests|, envVars, codec, transport)
    {
      var reqs := folder.requests;
      ghost var head := trace;
      assert results == StateAt(reqs, 0, envVars, codec, transport);
      for i := 0 to |reqs|
        invariant results == StateAt(reqs, i, envVars, codec, transport)
        invariant trace == head + ItemsEvents(reqs, i, envVars, codec, transport)
      {
        ghost var before := trace;
        RunItem(i, envVars, codec, transport);
        StepMatchesItemEvents(reqs, i, envVars, codec, transport);
        assert trace == before + ItemEvents(reqs, i, envVars, codec, transport);
        assert ItemsEvents(reqs, i + 1, envVars, codec, transport)
            == ItemsEvents(reqs, i, envVars, codec, transport) + ItemEvents(reqs, i, envVars, codec, transport);
      }
    }

    /** One pass of the loop body: item `i` of the folder, against the variables `envVars`. */
    method RunItem(i: nat, envVars: Env, codec: Codec, transport: Transport)
      requires i < |folder.requests| == |results|
      requires LiteralEnv(envVars)
      modifies this`results, this`trace
      ensures results == MarkSettled(old(results), folder.requests, i, envVars, codec, transport)
      ensures trace == old(trace) + StepEvents(old(results), folder.requests, i, envVars, codec, transport)
    {
      var request := folder.requests[i];

      // Update status to running
      results := results[i := results[i].(status := Running)];
      trace := trace + [ResultsSet(results)];

      var resolved := ResolveRequest(request, envVars, codec);
      if resolved.Err? {
        results := results[i := results[i].(status := Error, error := Some(resolved.message))];
      } else {
        trace := trace + [Dispatched(i, resolved.value)];
        var exchange := transport(i, resolved.value);
        match exchange
        case Threw(m) =>
          results := results[i := results[i].(status := Error, error := Some(m))];
        case Answered(response, duration) =>
          if IsFailure(response) {
            results := results[i := results[i].(
              status := Error,
              statusCode := response.status,
              error := Some(FailureMessage(response)),
              duration := Some(duration))];
          } else {
            results := results[i := results[i].(
              status := Success,
              statusCode := response.status,
              duration := Some(duration))];
          }
      }
      trace := trace + [ResultsSet(results)];
    }
  }


  /** The loop body, applied to the results after `k` items, gives the results after `k + 1`. */
  lemma StepMatchesItemEvents(reqs: seq<HttpRequest>, k: nat, env: Env, codec: Codec, transport: Transport)
    requires k < |reqs|
    ensures MarkSettled(StateAt(reqs, k, env, codec, transport), reqs, k, env, codec, transport)
         == StateAt(reqs, k + 1, env, codec, transport)
  {
    var before := StateAt(reqs, k, env, codec, transport);
    assert before[k] == PendingResult(reqs[k]);
    assert MarkRunning(before, k)[k] == RunningResult(reqs[k]);
  }

  /**
   * A run's per-item block: item `k` is marked running while every other
   * entry keeps its value; the transport is called with the resolved request
   * exactly when resolution did not throw; the final write changes entry `k`
   * alone and leaves it `success` or `error`.
   */
  lemma ItemEventsShape(reqs: seq<HttpRequest>, k: nat, env: Env, codec: Codec, transport: Transport)
    requires k < |reqs|
    ensures var es := ItemEvents(reqs, k, env, codec, transport);
      var before := StateAt(reqs, k, env, codec, transport);
      var after := StateAt(reqs, k + 1, env, codec, transport);
      && 2 <= |es| <= 3
      && es[0].ResultsSet? && |es[0].results| == |before|
      && es[0].results[k].status == Running && es[0].results[k].request == reqs[k]
      && (forall j | 0 <= j < |before| && j != k :: es[0].results[j] == before[j])
      && (|es| == 3 <==> Resolved(reqs[k], env, codec).Ok?)
      && (|es| == 3 ==> es[1] == Dispatched(k, Resolved(reqs[k], env, codec).value))
      && es[|es| - 1] == ResultsSet(after) && |after| == |before|
      && (forall j | 0 <= j < |after| && j != k :: after[j] == es[0].results[j])
      && after[k].status in {Success, Error} && after[k].request == reqs[k]
  {
  }

  /**
   * How an item settles. It is `error` exactly when resolution or the transport
   * threw or the response is a failure (an error string, or a status of 400 or
   * more), `success` otherwise. A caught exception records its message and no
   * status code or duration; a response records its status and duration, and
   * on failure the response's error text or `HTTP <status>: <statusText>`.
   */
  lemma ItemResultClassified(reqs: seq<HttpRequest>, i: nat, env: Env, codec: Codec, transport: Transport)
    requires i < |reqs|
    ensures var r := ItemResult(reqs, i, env, codec, transport);
      var a := ItemAttempt(i, reqs[i], env, codec, transport);
      && r.request == reqs[i]
      && (r.status == Error <==> a.Caught? || IsFailure(a.response))
      && (r.status == Success <==> a.Responded? && !IsFailure(a.response))
      && (a.Caught? ==> r.error == Some(a.message) && r.duration.None? && r.statusCode.None?)
      && (a.Responded? ==> r.statusCode == a.response.status && r.duration == Some(a.elapsed))
      && (a.Responded? && IsFailure(a.response) ==> r.error == Some(FailureMessage(a.response)))
      && (a.Responded? && !IsFailure(a.response) ==> r.error.None?)
  {
  }

  /**
   * The failure text is the response's error when it is a non-empty string,
   * otherwise built from the status line. This unfolds the definition case by
   * case: a reading aid, not an independent partner.
   */
  lemma FailureMessageCases(resp: Response)
    requires IsFailure(resp)
    ensures resp.error.Some? && resp.error.value != "" ==> FailureMessage(resp) == resp.error.value
    ensures (resp.error.None? || resp.error.value == "") ==>
      FailureMessage(resp) == "HTTP " + IntToString(resp.status.value) + ": " + Interpolated(resp.statusText)
  {
  }

  /**
   * The three ways an item can fail, as an item attempt tells them. This
   * unfolds the definition case by case: a reading aid, not an independent partner.
   */
  lemma ItemAttemptCases(i: nat, req: HttpRequest, env: Env, codec: Codec, transport: Transport)
    ensures var a := ItemAttempt(i, req, env, codec, transport);
      && (Resolved(req, env, codec).Err? ==> a == Caught(Resolved(req, env, codec).message))
      && (Resolved(req, env, codec).Ok? ==> match transport(i, Resolved(req, env, codec).value)
            case Threw(m) => a == Caught(m)
            case Answered(resp, d) => a == Responded(resp, d))
  {
  }

  /** Passed and failed entries never outnumber the entries. */
  lemma {:induction false} CountsBounded(rs: seq<RequestResult>)
    ensures PassedCount(rs) + FailedCount(rs) <= |rs|
    ensures PassedCount(rs) + FailedCount(rs) + CountStatus(rs, Pending) + CountStatus(rs, Running) == |rs|
  {
    if rs != [] {
      CountsBounded(rs[1..]);
    }
  }

  /** Every entry with a settled status adds up: one with no pending or running entry splits into passed and failed. */
  lemma {:induction false} CountsOfSettled(rs: seq<RequestResult>)
    requires forall j | 0 <= j < |rs| :: rs[j].status in {Success, Error}
    ensures PassedCount(rs) + FailedCount(rs) == |rs|
  {
    if rs != [] {
      CountsOfSettled(rs[1..]);
    }
  }

  /**
   * After a run every request has a `success` or `error` entry for itself, in
   * folder order, whatever happened to the earlier ones; so passed plus
   * failed is the total.
   */
  lemma RunSettlesEveryItem(reqs: seq<HttpRequest>, env: Env, codec: Codec, transport: Transport)
    ensures var rs := FinalResults(reqs, env, codec, transport);
      && |rs| == |reqs|
      && (forall j | 0 <= j < |reqs| :: rs[j].request == reqs[j] && rs[j].status in {Success, Error})
      && PassedCount(rs) + FailedCount(rs) == |reqs|
  {
    var rs := FinalResults(reqs, env, codec, transport);
    forall j | 0 <= j < |reqs|
      ensures rs[j].request == reqs[j] && rs[j].status in {Success, Error}
    {
      ItemResultClassified(reqs, j, env, codec, transport);
    }
    CountsOfSettled(rs);
  }

  /** Two requests, the first answered with status 500 and the second with 200: one passed, one failed. */
  lemma RunOneFailOnePass(reqs: seq<HttpRequest>, env: Env, codec: Codec, transport: Transport)
    requires |reqs| == 2
    requires var a := ItemAttempt(0, reqs[0], env, codec, transport);
      a.Responded? && a.response.error.None? && a.response.status == Some(500)
    requires var a := ItemAttempt(1, reqs[1], env, codec, transport);
      a.Responded? && a.response.error.None? && a.response.status == Some(200)
    ensures var rs := FinalResults(reqs, env, codec, transport);
      PassedCount(rs) == 1 && FailedCount(rs) == 1 && rs[0].error == Some(FailureMessage(ItemAttempt(0, reqs[0], env, codec, transport).response))
  {
    var rs := FinalResults(reqs, env, codec, transport);
    assert rs[0].status == Error;
    assert rs[1].status == Success;
    assert rs[1..] == [rs[1]];
    assert rs[1..][1..] == [];
    assert CountStatus(rs[1..], Success) == 1 && CountStatus(rs[1..], Error) == 0;
  }
}
