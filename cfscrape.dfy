/**
 * The decision logic of `CloudflareScraper`, a requests session that
 * recognises Cloudflare's "I'm Under Attack" interstitial, waits, submits
 * the solved challenge and fetches the page again. HTTP goes through an
 * abstract transport: every request sent and every pause is logged, and
 * the response to the `n`-th request is an arbitrary function of `n` and
 * the request. The external challenge solver is an arbitrary function too.
 */
module CloudflareScrape {
  import opened Common
  import opened Text

  // ---------------------------------------------------------------------------
  // Values, requests and responses

  /** The Python values the model passes around: keyword arguments and session attributes. */
  datatype Value = Null | Bool(on: bool) | Str(text: string) | Dict(entries: map<string, string>)

  /** Python truthiness: `None`, `False`, the empty string and the empty dictionary are false. */
  predicate Truthy(v: Value)
  {
    match v
    case Null => false
    case Bool(b) => b
    case Str(s) => s != ""
    case Dict(d) => d != map[]
  }

  /** The keyword arguments of a request. */
  type Kwargs = map<string, Value>

  /** A response: status code, headers, body, final url, and the method of the request that produced it. */
  datatype Response = Response(status: int, headers: map<string, string>, content: string, url: string, verb: string)

  /** One request handed to the transport. */
  datatype Call = Call(verb: string, url: string, kwargs: Kwargs)

  /** Why a request fails. */
  datatype Failure =
    | AnswerNotAccepted   // the `ValueError(ANSWER_ACCEPT_ERROR)` of `request`, never raised (RequestNeverRejectsAnswer)
    | HeadersNotMapping   // the caller's `headers` argument cannot take a `Referer` entry
    | MissingLocation     // the `KeyError` when the submission's response has no `Location` header
    | OutOfFuel           // the model's bound on nested challenges is used up
    | NoCloudflareCookies // the `ValueError` of `get_tokens`

  datatype Outcome = Returned(resp: Response) | Raised(failure: Failure)

  /** `headers.get(name, default)`. */
  function HeaderOr(headers: map<string, string>, name: string, default: string): string
  {
    if name in headers then headers[name] else default
  }

  // ---------------------------------------------------------------------------
  // is_cloudflare_challenge

  /** `is_cloudflare_challenge`: a 503 from a Cloudflare server whose body carries both challenge fields. */
  predicate IsCloudflareChallenge(resp: Response)
  {
    && resp.status == 503
    && StartsWith(HeaderOr(resp.headers, "Server", ""), "cloudflare")
    && Contains(resp.content, "jschl_vc")
    && Contains(resp.content, "jschl_answer")
  }

  /**
   * A challenge is exactly a 503 whose `Server` header is present and starts
   * with `cloudflare`, with both field names somewhere in the body: a missing
   * header counts as the empty string, which never matches.
   */
  lemma ChallengeExactly(resp: Response)
    ensures IsCloudflareChallenge(resp) <==>
      && resp.status == 503
      && "Server" in resp.headers && OccursAt(resp.headers["Server"], 0, "cloudflare")
      && (exists i :: OccursAt(resp.content, i, "jschl_vc"))
      && (exists j :: OccursAt(resp.content, j, "jschl_answer"))
  {
    assert !OccursAt("", 0, "cloudflare");
    ContainsMeaning(resp.content, "jschl_vc");
    ContainsMeaning(resp.content, "jschl_answer");
  }

  // ---------------------------------------------------------------------------
  // The submission's keyword arguments

  /**
   * `cloudflare_kwargs` in `solve_cf_challenge`: a copy of the caller's
   * arguments with `params` defaulted to `{}`, `headers` defaulted to `{}`
   * and given `Referer`, and `allow_redirects` set to `False`. Headers that
   * are not a dictionary cannot take the `Referer` entry.
   */
  function SubmissionKwargs(original: Kwargs, referer: string): Result<Kwargs, Failure>
  {
    var withParams := if "params" in original then original else original["params" := Dict(map[])];
    var withHeaders := if "headers" in withParams then withParams else withParams["headers" := Dict(map[])];
    var headers := withHeaders["headers"];
    if !headers.Dict? then Err(HeadersNotMapping)
    else Ok(withHeaders["headers" := Dict(headers.entries["Referer" := referer])]["allow_redirects" := Bool(false)])
  }

  /**
   * The submission arguments keep every argument of the caller and add
   * `params`, `headers` and `allow_redirects`; the headers gain `Referer` and
   * keep every other entry.
   */
  lemma SubmissionKwargsMeaning(original: Kwargs, referer: string)
    ensures SubmissionKwargs(original, referer).Ok? <==> "headers" !in original || original["headers"].Dict?
    ensures SubmissionKwargs(original, referer).Err? ==> SubmissionKwargs(original, referer).error == HeadersNotMapping
    ensures SubmissionKwargs(original, referer).Ok? ==>
      && SubmissionKwargs(original, referer).value.Keys == original.Keys + {"params", "headers", "allow_redirects"}
      && SubmissionKwargs(original, referer).value["allow_redirects"] == Bool(false)
      && SubmissionKwargs(original, referer).value["params"] == (if "params" in original then original["params"] else Dict(map[]))
      && SubmissionKwargs(original, referer).value["headers"].Dict?
      && SubmissionKwargs(original, referer).value["headers"].entries.Keys == {"Referer"} + (if "headers" in original then original["headers"].entries.Keys else {})
      && SubmissionKwargs(original, referer).value["headers"].entries["Referer"] == referer
      && (forall h :: h in SubmissionKwargs(original, referer).value["headers"].entries && h != "Referer" ==> SubmissionKwargs(original, referer).value["headers"].entries[h] == original["headers"].entries[h])
      && (forall k :: k in original && k !in {"params", "headers", "allow_redirects"} ==> SubmissionKwargs(original, referer).value[k] == original[k])
  {
  }

  /**
   * The steps `solve_cf_challenge` takes on its copy of the arguments: the
   * two `setdefault` calls, the `Referer` written into the headers and the
   * `allow_redirects` flag. Working on a value, the caller's arguments are
   * left as they were. Proved equal to `SubmissionKwargs`.
   */
  method BuildSubmissionKwargs(original: Kwargs, referer: string) returns (r: Result<Kwargs, Failure>)
    ensures r == SubmissionKwargs(original, referer)
  {
    var cloudflareKwargs := original;
    if "params" !in cloudflareKwargs {
      cloudflareKwargs := cloudflareKwargs["params" := Dict(map[])];
    }
    if "headers" !in cloudflareKwargs {
      cloudflareKwargs := cloudflareKwargs["headers" := Dict(map[])];
    }
    var headers := cloudflareKwargs["headers"];
    if !headers.Dict? {
      return Err(HeadersNotMapping);
    }
    cloudflareKwargs := cloudflareKwargs["headers" := Dict(headers.entries["Referer" := referer])];
    cloudflareKwargs := cloudflareKwargs["allow_redirects" := Bool(false)];
    return Ok(cloudflareKwargs);
  }

  // ---------------------------------------------------------------------------
  // request and solve_cf_challenge, as functions of the transport

  /** What a request does: its outcome, the requests it sends, in order, and the pauses it makes, in seconds. */
  datatype Trace = Trace(outcome: Outcome, calls: seq<Call>, sleeps: seq<nat>)

  /**
   * `request`: send `call` as the `n`-th request; a challenge is solved and
   * the solved response rechecked. `fuel` bounds how deeply challenges may
   * nest; the source itself has no bound.
   */
  function RequestTrace(reply: (nat, Call) -> Response, solver: Response -> string, n: nat, call: Call, fuel: nat): Trace
    decreases fuel, 0
  {
    var resp := reply(n, call);
    if !IsCloudflareChallenge(resp) then Trace(Returned(resp), [call], [])
    else if fuel == 0 then Trace(Raised(OutOfFuel), [call], [])
    else
      var t := SolveTrace(reply, solver, n + 1, resp, call.kwargs, fuel - 1);
      var outcome := if t.outcome.Returned? && IsCloudflareChallenge(t.outcome.resp) then Raised(AnswerNotAccepted) else t.outcome;
      Trace(outcome, [call] + t.calls, t.sleeps)
  }

  /**
   * `solve_cf_challenge`: pause five seconds, submit the solver's answer with
   * the submission arguments and redirects off, then request the submission
   * response's `Location` with the caller's own method and arguments.
   */
  function SolveTrace(reply: (nat, Call) -> Response, solver: Response -> string, n: nat, resp: Response, kwargs: Kwargs, fuel: nat): Trace
    decreases fuel, 2
  {
    match SubmissionKwargs(kwargs, resp.url)
    case Err(e) => Trace(Raised(e), [], [5])
    case Ok(cloudflareKwargs) =>
      var t := SubmitTrace(reply, solver, n, resp, cloudflareKwargs, kwargs, fuel);
      Trace(t.outcome, t.calls, [5] + t.sleeps)
  }

  /**
   * The part of `solve_cf_challenge` after the pause, once the submission
   * arguments are built: submit, then follow the `Location`.
   */
  function SubmitTrace(reply: (nat, Call) -> Response, solver: Response -> string, n: nat, resp: Response,
                       cloudflareKwargs: Kwargs, kwargs: Kwargs, fuel: nat): Trace
    decreases fuel, 1
  {
    var submit := RequestTrace(reply, solver, n, Call(resp.verb, solver(resp), cloudflareKwargs), fuel);
    if submit.outcome.Raised? then submit
    else if "Location" !in submit.outcome.resp.headers then Trace(Raised(MissingLocation), submit.calls, submit.sleeps)
    else
      var final := RequestTrace(reply, solver, n + |submit.calls|, Call(resp.verb, submit.outcome.resp.headers["Location"], kwargs), fuel);
      Trace(final.outcome, submit.calls + final.calls, submit.sleeps + final.sleeps)
  }

  /** The three ways `request` goes, one equation each. */
  lemma RequestTraceCases(reply: (nat, Call) -> Response, solver: Response -> string, n: nat, call: Call, fuel: nat)
    ensures !IsCloudflareChallenge(reply(n, call)) ==>
      RequestTrace(reply, solver, n, call, fuel) == Trace(Returned(reply(n, call)), [call], [])
    ensures IsCloudflareChallenge(reply(n, call)) && fuel == 0 ==>
      RequestTrace(reply, solver, n, call, fuel) == Trace(Raised(OutOfFuel), [call], [])
    ensures IsCloudflareChallenge(reply(n, call)) && fuel > 0 ==>
      var t := SolveTrace(reply, solver, n + 1, reply(n, call), call.kwargs, fuel - 1);
      RequestTrace(reply, solver, n, call, fuel)
        == Trace(if t.outcome.Returned? && IsCloudflareChallenge(t.outcome.resp) then Raised(AnswerNotAccepted) else t.outcome,
                 [call] + t.calls, t.sleeps)
  {
  }

  /** The three ways the submission goes, one equation each. */
  lemma SubmitTraceCases(reply: (nat, Call) -> Response, solver: Response -> string, n: nat, resp: Response,
                         cloudflareKwargs: Kwargs, kwargs: Kwargs, fuel: nat, submit: Trace)
    requires submit == RequestTrace(reply, solver, n, Call(resp.verb, solver(resp), cloudflareKwargs), fuel)
    ensures submit.outcome.Raised? ==> SubmitTrace(reply, solver, n, resp, cloudflareKwargs, kwargs, fuel) == submit
    ensures submit.outcome.Returned? && "Location" !in submit.outcome.resp.headers ==>
      SubmitTrace(reply, solver, n, resp, cloudflareKwargs, kwargs, fuel) == Trace(Raised(MissingLocation), submit.calls, submit.sleeps)
    ensures submit.outcome.Returned? && "Location" in submit.outcome.resp.headers ==>
      var final := RequestTrace(reply, solver, n + |submit.calls|, Call(resp.verb, submit.outcome.resp.headers["Location"], kwargs), fuel);
      SubmitTrace(reply, solver, n, resp, cloudflareKwargs, kwargs, fuel) == Trace(final.outcome, submit.calls + final.calls, submit.sleeps + final.sleeps)
  {
  }

  // ---------------------------------------------------------------------------
  // Properties of request

  /** A response that is not a challenge is returned as it is, after one request and no pause. */
  lemma RequestPassesThrough(reply: (nat, Call) -> Response, solver: Response -> string, n: nat, call: Call, fuel: nat)
    requires !IsCloudflareChallenge(reply(n, call))
    ensures RequestTrace(reply, solver, n, call, fuel) == Trace(Returned(reply(n, call)), [call], [])
  {
  }

  /** `request` pauses exactly when the first response is a challenge it still has fuel to solve. */
  lemma RequestPausesOnlyForChallenges(reply: (nat, Call) -> Response, solver: Response -> string, n: nat, call: Call, fuel: nat)
    ensures RequestTrace(reply, solver, n, call, fuel).sleeps != [] <==> IsCloudflareChallenge(reply(n, call)) && fuel > 0
  {
  }

  /**
   * `request` never hands back a challenge, and its recheck of the solved
   * response raises `AnswerNotAccepted`. That recheck never fires: the
   * solved response comes from a nested `request`, which is never a
   * challenge (SolveReturnsNoChallenge). The second clause models the
   * recheck as written and is vacuous: its premise never holds
   * (RequestNeverRejectsAnswer).
   */
  lemma RequestNeverReturnsChallenge(reply: (nat, Call) -> Response, solver: Response -> string, n: nat, call: Call, fuel: nat)
    ensures RequestTrace(reply, solver, n, call, fuel).outcome.Returned? ==>
      !IsCloudflareChallenge(RequestTrace(reply, solver, n, call, fuel).outcome.resp)
    ensures (&& IsCloudflareChallenge(reply(n, call)) && fuel > 0
             && SolveTrace(reply, solver, n + 1, reply(n, call), call.kwargs, fuel - 1).outcome.Returned?
             && IsCloudflareChallenge(SolveTrace(reply, solver, n + 1, reply(n, call), call.kwargs, fuel - 1).outcome.resp))
            ==> RequestTrace(reply, solver, n, call, fuel).outcome == Raised(AnswerNotAccepted)
  {
  }

  /** What `solve_cf_challenge` returns is the outcome of a nested `request`, so it is never a challenge. */
  lemma SolveReturnsNoChallenge(reply: (nat, Call) -> Response, solver: Response -> string, n: nat, resp: Response, kwargs: Kwargs, fuel: nat)
    ensures SolveTrace(reply, solver, n, resp, kwargs, fuel).outcome.Returned? ==>
      !IsCloudflareChallenge(SolveTrace(reply, solver, n, resp, kwargs, fuel).outcome.resp)
  {
    match SubmissionKwargs(kwargs, resp.url)
    case Err(_) =>
    case Ok(cloudflareKwargs) =>
      var submit := RequestTrace(reply, solver, n, Call(resp.verb, solver(resp), cloudflareKwargs), fuel);
      SubmitTraceCases(reply, solver, n, resp, cloudflareKwargs, kwargs, fuel, submit);
      if submit.outcome.Returned? && "Location" in submit.outcome.resp.headers {
        var finalCall := Call(resp.verb, submit.outcome.resp.headers["Location"], kwargs);
        RequestNeverReturnsChallenge(reply, solver, n + |submit.calls|, finalCall, fuel);
      }
  }

  /**
   * The `ValueError(ANSWER_ACCEPT_ERROR)` of `request` is never raised,
   * however deeply challenges nest: a rejected answer is met by the nested
   * `request` with another challenge, which is solved again.
   */
  lemma {:induction false} RequestNeverRejectsAnswer(reply: (nat, Call) -> Response, solver: Response -> string, n: nat, call: Call, fuel: nat)
    ensures RequestTrace(reply, solver, n, call, fuel).outcome != Raised(AnswerNotAccepted)
    decreases fuel, 0
  {
    var resp := reply(n, call);
    if IsCloudflareChallenge(resp) && fuel > 0 {
      SolveNeverRejectsAnswer(reply, solver, n + 1, resp, call.kwargs, fuel - 1);
      SolveReturnsNoChallenge(reply, solver, n + 1, resp, call.kwargs, fuel - 1);
    }
  }

  lemma {:induction false} SolveNeverRejectsAnswer(reply: (nat, Call) -> Response, solver: Response -> string, n: nat, resp: Response, kwargs: Kwargs, fuel: nat)
    ensures SolveTrace(reply, solver, n, resp, kwargs, fuel).outcome != Raised(AnswerNotAccepted)
    decreases fuel, 2
  {
    match SubmissionKwargs(kwargs, resp.url)
    case Err(_) =>
    case Ok(cloudflareKwargs) =>
      SubmitNeverRejectsAnswer(reply, solver, n, resp, cloudflareKwargs, kwargs, fuel);
  }

  lemma {:induction false} SubmitNeverRejectsAnswer(reply: (nat, Call) -> Response, solver: Response -> string, n: nat, resp: Response,
                                                    cloudflareKwargs: Kwargs, kwargs: Kwargs, fuel: nat)
    ensures SubmitTrace(reply, solver, n, resp, cloudflareKwargs, kwargs, fuel).outcome != Raised(AnswerNotAccepted)
    decreases fuel, 1
  {
    var submitCall := Call(resp.verb, solver(resp), cloudflareKwargs);
    var submit := RequestTrace(reply, solver, n, submitCall, fuel);
    SubmitTraceCases(reply, solver, n, resp, cloudflareKwargs, kwargs, fuel, submit);
    RequestNeverRejectsAnswer(reply, solver, n, submitCall, fuel);
    if submit.outcome.Returned? && "Location" in submit.outcome.resp.headers {
      RequestNeverRejectsAnswer(reply, solver, n + |submit.calls|, Call(resp.verb, submit.outcome.resp.headers["Location"], kwargs), fuel);
    }
  }

  /**
   * Against a server that answers every request with a challenge, `request`
   * solves again and again, one five-second pause per round, until the fuel
   * is used up: the source would loop for ever.
   */
  lemma {:induction false} ChallengeForeverRunsOutOfFuel(reply: (nat, Call) -> Response, solver: Response -> string, n: nat, call: Call, fuel: nat)
    requires forall m: nat, c: Call :: IsCloudflareChallenge(reply(m, c))
    requires "headers" !in call.kwargs || call.kwargs["headers"].Dict?
    ensures RequestTrace(reply, solver, n, call, fuel).outcome == Raised(OutOfFuel)
    ensures |RequestTrace(reply, solver, n, call, fuel).sleeps| == fuel
    ensures |RequestTrace(reply, solver, n, call, fuel).calls| == fuel + 1
    decreases fuel
  {
    var resp := reply(n, call);
    assert IsCloudflareChallenge(resp);
    if fuel > 0 {
      SubmissionKwargsMeaning(call.kwargs, resp.url);
      var cloudflareKwargs := SubmissionKwargs(call.kwargs, resp.url).value;
      var submitCall := Call(resp.verb, solver(resp), cloudflareKwargs);
      ChallengeForeverRunsOutOfFuel(reply, solver, n + 1, submitCall, fuel - 1);
      var submit := RequestTrace(reply, solver, n + 1, submitCall, fuel - 1);
      SubmitTraceCases(reply, solver, n + 1, resp, cloudflareKwargs, call.kwargs, fuel - 1, submit);
    }
  }

  /** Every request starts by sending its own call. */
  lemma RequestSendsCallFirst(reply: (nat, Call) -> Response, solver: Response -> string, n: nat, call: Call, fuel: nat)
    ensures |RequestTrace(reply, solver, n, call, fuel).calls| >= 1
    ensures RequestTrace(reply, solver, n, call, fuel).calls[0] == call
  {
  }

  /** Every pause in `sleeps` is five seconds. */
  predicate AllFive(sleeps: seq<nat>)
  {
    forall i :: 0 <= i < |sleeps| ==> sleeps[i] == 5
  }

  lemma AllFiveAppend(xs: seq<nat>, ys: seq<nat>)
    requires AllFive(xs) && AllFive(ys)
    ensures AllFive(xs + ys)
  {
    forall i | 0 <= i < |xs + ys|
      ensures (xs + ys)[i] == 5
    {
      if i >= |xs| {
        assert (xs + ys)[i] == ys[i - |xs|];
      }
    }
  }

  /** Every pause is the literal five seconds, whatever the scraper's `delay`, however deeply challenges nest. */
  lemma {:induction false} RequestSleepsFive(reply: (nat, Call) -> Response, solver: Response -> string, n: nat, call: Call, fuel: nat)
    ensures AllFive(RequestTrace(reply, solver, n, call, fuel).sleeps)
    decreases fuel, 0
  {
    var resp := reply(n, call);
    if IsCloudflareChallenge(resp) && fuel > 0 {
      SolveSleepsFive(reply, solver, n + 1, resp, call.kwargs, fuel - 1);
    }
  }

  lemma {:induction false} SolveSleepsFive(reply: (nat, Call) -> Response, solver: Response -> string, n: nat, resp: Response, kwargs: Kwargs, fuel: nat)
    ensures AllFive(SolveTrace(reply, solver, n, resp, kwargs, fuel).sleeps)
    decreases fuel, 2
  {
    match SubmissionKwargs(kwargs, resp.url)
    case Err(_) =>
    case Ok(cloudflareKwargs) =>
      SubmitSleepsFive(reply, solver, n, resp, cloudflareKwargs, kwargs, fuel);
      AllFiveAppend([5], SubmitTrace(reply, solver, n, resp, cloudflareKwargs, kwargs, fuel).sleeps);
  }

  lemma {:induction false} SubmitSleepsFive(reply: (nat, Call) -> Response, solver: Response -> string, n: nat, resp: Response,
                                            cloudflareKwargs: Kwargs, kwargs: Kwargs, fuel: nat)
    ensures AllFive(SubmitTrace(reply, solver, n, resp, cloudflareKwargs, kwargs, fuel).sleeps)
    decreases fuel, 1
  {
    var submitCall := Call(resp.verb, solver(resp), cloudflareKwargs);
    var submit := RequestTrace(reply, solver, n, submitCall, fuel);
    SubmitTraceCases(reply, solver, n, resp, cloudflareKwargs, kwargs, fuel, submit);
    RequestSleepsFive(reply, solver, n, submitCall, fuel);
    if submit.outcome.Returned? && "Location" in submit.outcome.resp.headers {
      var finalCall := Call(resp.verb, submit.outcome.resp.headers["Location"], kwargs);
      RequestSleepsFive(reply, solver, n + |submit.calls|, finalCall, fuel);
      AllFiveAppend(submit.sleeps, RequestTrace(reply, solver, n + |submit.calls|, finalCall, fuel).sleeps);
    }
  }

  /**
   * The requests `solve_cf_challenge` sends: after the five-second pause,
   * the solver's url with the submission arguments and the challenge's
   * method; once the submission answers with a `Location`, that url with the
   * same method and the caller's unchanged arguments.
   */
  lemma SolveRequests(reply: (nat, Call) -> Response, solver: Response -> string, n: nat, resp: Response, kwargs: Kwargs, fuel: nat,
                      cloudflareKwargs: Kwargs, submit: Trace)
    requires SubmissionKwargs(kwargs, resp.url) == Ok(cloudflareKwargs)
    requires submit == RequestTrace(reply, solver, n, Call(resp.verb, solver(resp), cloudflareKwargs), fuel)
    ensures |SolveTrace(reply, solver, n, resp, kwargs, fuel).sleeps| >= 1 && |SolveTrace(reply, solver, n, resp, kwargs, fuel).calls| >= 1
    ensures SolveTrace(reply, solver, n, resp, kwargs, fuel).sleeps[0] == 5
    ensures SolveTrace(reply, solver, n, resp, kwargs, fuel).calls[0] == Call(resp.verb, solver(resp), cloudflareKwargs)
    ensures submit.outcome.Returned? && "Location" in submit.outcome.resp.headers ==>
      && |SolveTrace(reply, solver, n, resp, kwargs, fuel).calls| > |submit.calls|
      && SolveTrace(reply, solver, n, resp, kwargs, fuel).calls[|submit.calls|]
           == Call(resp.verb, submit.outcome.resp.headers["Location"], kwargs)
  {
    RequestSendsCallFirst(reply, solver, n, Call(resp.verb, solver(resp), cloudflareKwargs), fuel);
    SubmitTraceCases(reply, solver, n, resp, cloudflareKwargs, kwargs, fuel, submit);
    if submit.outcome.Returned? && "Location" in submit.outcome.resp.headers {
      var finalCall := Call(resp.verb, submit.outcome.resp.headers["Location"], kwargs);
      RequestSendsCallFirst(reply, solver, n + |submit.calls|, finalCall, fuel);
    }
  }

  /** Headers that cannot take a `Referer` stop `solve_cf_challenge` after its pause, before anything is sent. */
  lemma SolveRejectsHeaders(reply: (nat, Call) -> Response, solver: Response -> string, n: nat, resp: Response, kwargs: Kwargs, fuel: nat)
    requires SubmissionKwargs(kwargs, resp.url).Err?
    ensures SolveTrace(reply, solver, n, resp, kwargs, fuel) == Trace(Raised(HeadersNotMapping), [], [5])
  {
    SubmissionKwargsMeaning(kwargs, resp.url);
  }

  // ---------------------------------------------------------------------------
  // The transport

  /** HTTP as the model sees it: the reply to each request, and a log of requests sent and pauses made. */
  class Transport {
    const reply: (nat, Call) -> Response
    var sent: seq<Call>
    var slept: seq<nat>

    constructor (reply: (nat, Call) -> Response)
      ensures this.reply == reply && sent == [] && slept == []
    {
      this.reply := reply;
      sent := [];
      slept := [];
    }

    /** Sends `call` and returns the reply to it. */
    method Send(call: Call) returns (resp: Response)
      modifies this
      ensures resp == reply(|old(sent)|, call)
      ensures sent == old(sent) + [call] && slept == old(slept)
    {
      resp := reply(|sent|, call);
      sent := sent + [call];
    }

    /** `sleep(seconds)`. */
    method Sleep(seconds: nat)
      modifies this
      ensures slept == old(slept) + [seconds] && sent == old(sent)
    {
      slept := slept + [seconds];
    }
  }

  // ---------------------------------------------------------------------------
  // The scraper

  const DefaultUserAgents: seq<string> := [
    "Mozilla/5.0 (Windows NT 6.1) AppleWebKit/537.36 (KHTML, like Gecko) Chrome/41.0.2228.0 Safari/537.36",
    "Mozilla/5.0 (Macintosh; Intel Mac OS X 10_10_5) AppleWebKit/537.36 (KHTML, like Gecko) Chrome/50.0.2661.102 Safari/537.36",
    "Mozilla/5.0 (Windows NT 6.1; WOW64) AppleWebKit/537.36 (KHTML, like Gecko) Chrome/52.0.2743.116 Safari/537.36",
    "Mozilla/5.0 (Windows NT 6.1; WOW64; rv:46.0) Gecko/20100101 Firefox/46.0",
    "Mozilla/5.0 (X11; Ubuntu; Linux x86_64; rv:41.0) Gecko/20100101 Firefox/41.0"
  ]

  /** `DEFAULT_USER_AGENT`, the list entry `random.choice` picks; `choice` stands for the random draw. */
  function DefaultUserAgent(choice: nat): string
  {
    DefaultUserAgents[choice % |DefaultUserAgents|]
  }

  /** The headers after `__init__`: a User-Agent mentioning `requests` (the library's own) replaced by the default. */
  function AgentHeaders(headers: map<string, string>, choice: nat): map<string, string>
    requires "User-Agent" in headers
  {
    if Contains(headers["User-Agent"], "requests") then headers["User-Agent" := DefaultUserAgent(choice)] else headers
  }

  /**
   * Only the User-Agent can change, only when it mentions `requests`, and
   * then to one of the built-in agents.
   */
  lemma AgentHeadersMeaning(headers: map<string, string>, choice: nat)
    requires "User-Agent" in headers
    ensures AgentHeaders(headers, choice).Keys == headers.Keys
    ensures forall h :: h in headers && h != "User-Agent" ==> AgentHeaders(headers, choice)[h] == headers[h]
    ensures !Contains(headers["User-Agent"], "requests") ==> AgentHeaders(headers, choice) == headers
    ensures Contains(headers["User-Agent"], "requests") ==>
      AgentHeaders(headers, choice)["User-Agent"] == DefaultUserAgent(choice) && DefaultUserAgent(choice) in DefaultUserAgents
  {
  }

  /** Session attributes with a header dictionary that has a User-Agent, as `requests.Session()` sets them up. */
  predicate HasAgent(attrs: map<string, Value>)
  {
    "headers" in attrs && attrs["headers"].Dict? && "User-Agent" in attrs["headers"].entries
  }

  /** The attributes `__init__` leaves: the session's, with the User-Agent rule applied to its headers. */
  function InitialAttrs(session: map<string, Value>, choice: nat): map<string, Value>
    requires HasAgent(session)
  {
    session["headers" := Dict(AgentHeaders(session["headers"].entries, choice))]
  }

  /** The attributes `create_scraper` copies from another session. */
  const CopiedAttributes: seq<string> := ["auth", "cert", "cookies", "headers", "hooks", "params", "proxies", "data"]

  /** `getattr(obj, name, None)`. */
  function Getattr(obj: map<string, Value>, name: string): Value
  {
    if name in obj then obj[name] else Null
  }

  /** The attributes after the copying loop has run over `names`. */
  function CopyTruthy(attrs: map<string, Value>, sess: map<string, Value>, names: seq<string>): map<string, Value>
    decreases |names|
  {
    if names == [] then attrs
    else
      var before := CopyTruthy(attrs, sess, names[..|names| - 1]);
      var name := names[|names| - 1];
      if Truthy(Getattr(sess, name)) then before[name := Getattr(sess, name)] else before
  }

  /**
   * Copying takes a listed attribute from `sess` exactly when it is truthy
   * there; every other attribute keeps its value, present or absent.
   */
  lemma {:induction false} CopyTruthyMeaning(attrs: map<string, Value>, sess: map<string, Value>, names: seq<string>)
    ensures forall k :: k in names && Truthy(Getattr(sess, k)) ==>
      k in CopyTruthy(attrs, sess, names) && CopyTruthy(attrs, sess, names)[k] == sess[k]
    ensures forall k :: !(k in names && Truthy(Getattr(sess, k))) ==>
      Getattr(CopyTruthy(attrs, sess, names), k) == Getattr(attrs, k)
    ensures forall k :: k in CopyTruthy(attrs, sess, names) <==> k in attrs || (k in names && Truthy(Getattr(sess, k)))
    decreases |names|
  {
    if names != [] {
      var front := names[..|names| - 1];
      CopyTruthyMeaning(attrs, sess, front);
      assert forall k :: k in names <==> k in front || k == names[|names| - 1];
    }
  }

  /** A `CloudflareScraper`: the transport its requests go through, the `delay` setting and the session attributes. */
  class Scraper {
    const net: Transport
    var delay: nat
    var attrs: map<string, Value>

    /**
     * `__init__`: `delay` defaults to 5; the session's User-Agent is replaced
     * when it is the library's own. The attributes it leaves are `InitialAttrs`.
     */
    constructor (net: Transport, session: map<string, Value>, delay: Option<nat>, choice: nat)
      requires HasAgent(session)
      ensures this.net == net
      ensures this.delay == (if delay.Some? then delay.value else 5)
      ensures attrs == InitialAttrs(session, choice)
    {
      this.net := net;
      this.delay := if delay.Some? then delay.value else 5;
      var headers := session["headers"].entries;
      if Contains(headers["User-Agent"], "requests") {
        headers := headers["User-Agent" := DefaultUserAgent(choice)];
      }
      attrs := session["headers" := Dict(headers)];
    }

    /** `request`: send, and solve and recheck when the response is a challenge. */
    method Request(solver: Response -> string, call: Call, fuel: nat) returns (r: Outcome)
      modifies net
      ensures r == RequestTrace(net.reply, solver, |old(net.sent)|, call, fuel).outcome
      ensures net.sent == old(net.sent) + RequestTrace(net.reply, solver, |old(net.sent)|, call, fuel).calls
      ensures net.slept == old(net.slept) + RequestTrace(net.reply, solver, |old(net.sent)|, call, fuel).sleeps
      decreases fuel, 0
    {
      ghost var sent, slept := net.sent, net.slept;
      RequestTraceCases(net.reply, solver, |sent|, call, fuel);
      var resp := net.Send(call);
      if !IsCloudflareChallenge(resp) {
        return Returned(resp);
      }
      if fuel == 0 {
        return Raised(OutOfFuel);
      }
      ghost var t := SolveTrace(net.reply, solver, |sent| + 1, resp, call.kwargs, fuel - 1);
      ghost var sentNow := net.sent;
      assert sentNow == sent + [call] && |sentNow| == |sent| + 1;
      r := SolveChallenge(solver, resp, call.kwargs, fuel - 1);
      assert net.sent == sentNow + t.calls;
      AppendAssociative(sent, [call], t.calls);
      var challenged := r.Returned? && IsCloudflareChallenge(r.resp);
      if challenged {
        r := Raised(AnswerNotAccepted);
      }
    }

    /** `solve_cf_challenge`. */
    method SolveChallenge(solver: Response -> string, resp: Response, originalKwargs: Kwargs, fuel: nat) returns (r: Outcome)
      modifies net
      ensures r == SolveTrace(net.reply, solver, |old(net.sent)|, resp, originalKwargs, fuel).outcome
      ensures net.sent == old(net.sent) + SolveTrace(net.reply, solver, |old(net.sent)|, resp, originalKwargs, fuel).calls
      ensures net.slept == old(net.slept) + SolveTrace(net.reply, solver, |old(net.sent)|, resp, originalKwargs, fuel).sleeps
      decreases fuel, 2
    {
      ghost var sent, slept := net.sent, net.slept;
      net.Sleep(5);
      var cloudflareKwargs := BuildSubmissionKwargs(originalKwargs, resp.url);
      if cloudflareKwargs.Err? {
        assert net.sent == sent + [];
        return Raised(cloudflareKwargs.error);
      }
      ghost var t := SubmitTrace(net.reply, solver, |sent|, resp, cloudflareKwargs.value, originalKwargs, fuel);
      r := Submit(solver, resp, cloudflareKwargs.value, originalKwargs, fuel);
      AppendAssociative(slept, [5], t.sleeps);
    }

    /** The submission and the redirect it answers with, once the submission arguments are built. */
    method Submit(solver: Response -> string, resp: Response, cloudflareKwargs: Kwargs, originalKwargs: Kwargs, fuel: nat) returns (r: Outcome)
      modifies net
      ensures r == SubmitTrace(net.reply, solver, |old(net.sent)|, resp, cloudflareKwargs, originalKwargs, fuel).outcome
      ensures net.sent == old(net.sent) + SubmitTrace(net.reply, solver, |old(net.sent)|, resp, cloudflareKwargs, originalKwargs, fuel).calls
      ensures net.slept == old(net.slept) + SubmitTrace(net.reply, solver, |old(net.sent)|, resp, cloudflareKwargs, originalKwargs, fuel).sleeps
      decreases fuel, 1
    {
      ghost var sent, slept := net.sent, net.slept;
      var submitUrl := solver(resp);
      ghost var submit := RequestTrace(net.reply, solver, |sent|, Call(resp.verb, submitUrl, cloudflareKwargs), fuel);
      SubmitTraceCases(net.reply, solver, |sent|, resp, cloudflareKwargs, originalKwargs, fuel, submit);
      var redirect := Request(solver, Call(resp.verb, submitUrl, cloudflareKwargs), fuel);
      assert redirect == submit.outcome && net.sent == sent + submit.calls && net.slept == slept + submit.sleeps;
      if redirect.Raised? {
        return redirect;
      }
      if "Location" !in redirect.resp.headers {
        return Raised(MissingLocation);
      }
      var finalCall := Call(resp.verb, redirect.resp.headers["Location"], originalKwargs);
      ghost var final := RequestTrace(net.reply, solver, |sent| + |submit.calls|, finalCall, fuel);
      assert |net.sent| == |sent| + |submit.calls|;
      r := Request(solver, finalCall, fuel);
      AppendAssociative(sent, submit.calls, final.calls);
      AppendAssociative(slept, submit.sleeps, final.sleeps);
    }
  }

  /**
   * `create_scraper`: a new scraper, then, given another session, each
   * listed attribute that is truthy there copied over.
   */
  method CreateScraper(net: Transport, session: map<string, Value>, choice: nat, delay: Option<nat>, sess: Option<map<string, Value>>)
    returns (scraper: Scraper)
    requires HasAgent(session)
    ensures fresh(scraper) && scraper.net == net
    ensures scraper.delay == (if delay.Some? then delay.value else 5)
    ensures scraper.attrs == (if sess.Some? then CopyTruthy(InitialAttrs(session, choice), sess.value, CopiedAttributes)
                              else InitialAttrs(session, choice))
  {
    scraper := new Scraper(net, session, delay, choice);
    if sess.Some? {
      for i := 0 to |CopiedAttributes|
        invariant scraper.delay == (if delay.Some? then delay.value else 5)
        invariant scraper.attrs == CopyTruthy(InitialAttrs(session, choice), sess.value, CopiedAttributes[..i])
      {
        var attr := CopiedAttributes[i];
        var val := Getattr(sess.value, attr);
        assert CopiedAttributes[..i + 1][..i] == CopiedAttributes[..i];
        if Truthy(val) {
          scraper.attrs := scraper.attrs[attr := val];
        }
      }
      assert CopiedAttributes[..|CopiedAttributes|] == CopiedAttributes;
    }
  }

  // ---------------------------------------------------------------------------
  // get_tokens and get_cookie_string

  /** A cookie in the session's jar; the jar lists its cookies in this order. */
  datatype Cookie = Cookie(name: string, value: string, domain: string)

  /** `cookies.list_domains()`: each domain once, in the order of its first cookie. */
  function ListDomains(jar: seq<Cookie>): (ds: seq<string>)
    ensures forall d :: d in ds <==> exists i :: 0 <= i < |jar| && jar[i].domain == d
    ensures forall i, j :: 0 <= i < j < |ds| ==> ds[i] != ds[j]
    decreases |jar|
  {
    if jar == [] then []
    else
      var front := jar[..|jar| - 1];
      var before := ListDomains(front);
      assert forall i :: 0 <= i < |front| ==> front[i] == jar[i];
      if jar[|jar| - 1].domain in before then before else before + [jar[|jar| - 1].domain]
  }

  /** The test in `get_tokens`' loop: the domain starts with a dot and lies within `"." + host`. */
  predicate CookieDomainFor(d: string, host: string)
  {
    StartsWith(d, ".") && Contains("." + host, d)
  }

  /** The domain the loop stops at, if any. */
  function FirstCookieDomain(ds: seq<string>, host: string): Option<string>
    decreases |ds|
  {
    if ds == [] then None
    else if CookieDomainFor(ds[0], host) then Some(ds[0])
    else FirstCookieDomain(ds[1..], host)
  }

  /** Some cookie of domain `a` comes before every cookie of domain `b`. */
  predicate DomainPrecedes(jar: seq<Cookie>, a: string, b: string)
  {
    exists p :: 0 <= p < |jar| && jar[p].domain == a && forall q :: 0 <= q <= p ==> jar[q].domain != b
  }

  /** `list_domains()` lists the domains in the order of their first cookies. */
  lemma {:induction false} ListDomainsOrder(jar: seq<Cookie>)
    ensures forall i, j :: 0 <= i < j < |ListDomains(jar)| ==> DomainPrecedes(jar, ListDomains(jar)[i], ListDomains(jar)[j])
    decreases |jar|
  {
    if jar != [] {
      var front := jar[..|jar| - 1];
      var last := jar[|jar| - 1].domain;
      var before := ListDomains(front);
      ListDomainsOrder(front);
      assert forall k :: 0 <= k < |front| ==> front[k] == jar[k];
      var ds := ListDomains(jar);
      forall i, j | 0 <= i < j < |ds|
        ensures DomainPrecedes(jar, ds[i], ds[j])
      {
        if j < |before| {
          assert ds[i] == before[i] && ds[j] == before[j];
          assert DomainPrecedes(front, before[i], before[j]);
          var p :| 0 <= p < |front| && front[p].domain == before[i] && forall q :: 0 <= q <= p ==> front[q].domain != before[j];
          assert jar[p].domain == ds[i];
        } else {
          assert last !in before && ds[j] == last && ds[i] == before[i];
          assert before[i] in before;
          var p :| 0 <= p < |front| && front[p].domain == before[i];
          forall q | 0 <= q <= p
            ensures jar[q].domain != last
          {
            assert front[q].domain in before;
          }
          assert jar[p].domain == ds[i];
        }
      }
    }
  }

  /** The loop picks the first domain that passes the test, and finds none exactly when none passes. */
  lemma {:induction false} FirstCookieDomainMeaning(ds: seq<string>, host: string)
    ensures FirstCookieDomain(ds, host).None? <==> forall i :: 0 <= i < |ds| ==> !CookieDomainFor(ds[i], host)
    ensures FirstCookieDomain(ds, host).Some? ==>
      exists i :: 0 <= i < |ds| && ds[i] == FirstCookieDomain(ds, host).value && CookieDomainFor(ds[i], host)
        && forall k :: 0 <= k < i ==> !CookieDomainFor(ds[k], host)
    decreases |ds|
  {
    if ds != [] && !CookieDomainFor(ds[0], host) {
      FirstCookieDomainMeaning(ds[1..], host);
      assert forall i :: 1 <= i < |ds| ==> ds[i] == ds[1..][i - 1];
      if FirstCookieDomain(ds, host).Some? {
        var i :| 0 <= i < |ds[1..]| && ds[1..][i] == FirstCookieDomain(ds, host).value && CookieDomainFor(ds[1..][i], host)
          && forall k :: 0 <= k < i ==> !CookieDomainFor(ds[1..][k], host);
        assert ds[i + 1] == ds[1..][i];
      }
    }
  }

  /** `cookies.get(name, "", domain=domain)`: the value of the first cookie of that name and domain, else the empty string. */
  function CookieValue(jar: seq<Cookie>, name: string, domain: string): (v: string)
    ensures v == "" || exists i :: 0 <= i < |jar| && jar[i].name == name && jar[i].domain == domain && jar[i].value == v
    decreases |jar|
  {
    if jar == [] then ""
    else if jar[0].name == name && jar[0].domain == domain then jar[0].value
    else
      var v := CookieValue(jar[1..], name, domain);
      assert forall i :: 1 <= i < |jar| ==> jar[i] == jar[1..][i - 1];
      v
  }

  /** Whether `c` is the cookie `name` for `domain`. */
  predicate CookieIs(c: Cookie, name: string, domain: string)
  {
    c.name == name && c.domain == domain
  }

  /**
   * The lookup finds `""` when no cookie of the jar has that name and domain,
   * and otherwise the value of the first one that has.
   */
  lemma {:induction false} CookieValueMeaning(jar: seq<Cookie>, name: string, domain: string)
    ensures (forall i :: 0 <= i < |jar| ==> !CookieIs(jar[i], name, domain)) ==> CookieValue(jar, name, domain) == ""
    ensures (exists i :: 0 <= i < |jar| && CookieIs(jar[i], name, domain)) ==>
      exists i :: 0 <= i < |jar| && CookieIs(jar[i], name, domain) && jar[i].value == CookieValue(jar, name, domain)
        && forall k :: 0 <= k < i ==> !CookieIs(jar[k], name, domain)
    decreases |jar|
  {
    if jar != [] && !CookieIs(jar[0], name, domain) {
      var rest := jar[1..];
      CookieValueMeaning(rest, name, domain);
      assert forall i :: 1 <= i < |jar| ==> jar[i] == rest[i - 1];
      if exists i :: 0 <= i < |jar| && CookieIs(jar[i], name, domain) {
        var j :| 0 <= j < |jar| && CookieIs(jar[j], name, domain);
        assert CookieIs(rest[j - 1], name, domain);
        var i :| 0 <= i < |rest| && CookieIs(rest[i], name, domain) && rest[i].value == CookieValue(jar, name, domain)
          && forall k :: 0 <= k < i ==> !CookieIs(rest[k], name, domain);
        assert jar[i + 1] == rest[i];
      }
    }
  }

  /** The two Cloudflare cookies `get_tokens` reads, in the order it writes them. */
  function TokenPairs(jar: seq<Cookie>, domain: string): seq<(string, string)>
  {
    [("__cfduid", CookieValue(jar, "__cfduid", domain)), ("cf_clearance", CookieValue(jar, "cf_clearance", domain))]
  }

  /** What `get_tokens` returns once the page has been fetched: the tokens for the first fitting domain, and the agent. */
  function TokensFor(jar: seq<Cookie>, host: string, agent: string): Result<(seq<(string, string)>, string), Failure>
  {
    match FirstCookieDomain(ListDomains(jar), host)
    case None => Err(NoCloudflareCookies)
    case Some(d) => Ok((TokenPairs(jar, d), agent))
  }

  /**
   * The part of `get_tokens` after the page has been fetched: the `for`/`else`
   * search of the jar's domains, then the two cookies of the domain found.
   * `agent` is the scraper's User-Agent, replaced by `userAgent` when that is
   * given and not empty. Proved equal to `TokensFor`.
   */
  method GetTokens(jar: seq<Cookie>, host: string, agent: string, userAgent: Option<string>)
    returns (r: Result<(seq<(string, string)>, string), Failure>)
    ensures r == TokensFor(jar, host, if userAgent.Some? && userAgent.value != "" then userAgent.value else agent)
  {
    var scraperAgent := agent;
    if userAgent.Some? && userAgent.value != "" {
      scraperAgent := userAgent.value;
    }
    var domains := ListDomains(jar);
    var cookieDomain: Option<string> := None;
    for i := 0 to |domains|
      invariant cookieDomain.None?
      invariant FirstCookieDomain(domains, host) == FirstCookieDomain(domains[i..], host)
    {
      if StartsWith(domains[i], ".") && Contains("." + host, domains[i]) {
        cookieDomain := Some(domains[i]);
        break;
      }
    }
    if cookieDomain.None? {
      return Err(NoCloudflareCookies);
    }
    return Ok((TokenPairs(jar, cookieDomain.value), scraperAgent));
  }

  /** `"; ".join("=".join(pair) for pair in tokens.items())`. */
  function CookieString(pairs: seq<(string, string)>): string
  {
    Join(CookieParts(pairs), "; ")
  }

  /** Each pair written `name=value`. */
  function CookieParts(pairs: seq<(string, string)>): (parts: seq<string>)
    ensures |parts| == |pairs|
    ensures forall i :: 0 <= i < |pairs| ==> parts[i] == pairs[i].0 + "=" + pairs[i].1
  {
    seq(|pairs|, i requires 0 <= i < |pairs| => pairs[i].0 + "=" + pairs[i].1)
  }

  /** `get_cookie_string`: the Cookie header for the tokens, and the agent. */
  function CookieStringFor(jar: seq<Cookie>, host: string, agent: string): Result<(string, string), Failure>
  {
    match TokensFor(jar, host, agent)
    case Err(e) => Err(e)
    case Ok(tokens) => Ok((CookieString(tokens.0), tokens.1))
  }

  /** Without `;` in the names and values, splitting the header at `"; "` gives back each `name=value`, in order. */
  lemma CookieStringSplits(pairs: seq<(string, string)>)
    requires |pairs| >= 1
    requires forall i :: 0 <= i < |pairs| ==> ';' !in pairs[i].0 && ';' !in pairs[i].1
    ensures SplitOn(CookieString(pairs), "; ") == CookieParts(pairs)
  {
    var parts := CookieParts(pairs);
    forall i | 0 <= i < |parts|
      ensures ';' !in parts[i]
    {
      assert parts[i] == pairs[i].0 + "=" + pairs[i].1;
    }
    SplitOnJoin(parts, "; ");
  }

  /** `get_cookie_string` fails exactly when `get_tokens` finds no Cloudflare domain. */
  lemma CookieStringFails(jar: seq<Cookie>, host: string, agent: string)
    ensures CookieStringFor(jar, host, agent).Err? <==>
      forall i :: 0 <= i < |ListDomains(jar)| ==> !CookieDomainFor(ListDomains(jar)[i], host)
    ensures CookieStringFor(jar, host, agent).Err? ==> CookieStringFor(jar, host, agent).error == NoCloudflareCookies
  {
    FirstCookieDomainMeaning(ListDomains(jar), host);
    assert CookieStringFor(jar, host, agent).Err? <==> FirstCookieDomain(ListDomains(jar), host).None?;
  }

  /** The Cookie header carries the two Cloudflare tokens of the first domain found. */
  lemma CookieStringOfTokens(jar: seq<Cookie>, host: string, agent: string, d: string)
    requires FirstCookieDomain(ListDomains(jar), host) == Some(d)
    ensures CookieStringFor(jar, host, agent) ==
      Ok(("__cfduid=" + CookieValue(jar, "__cfduid", d) + "; cf_clearance=" + CookieValue(jar, "cf_clearance", d), agent))
  {
    assert TokensFor(jar, host, agent) == Ok((TokenPairs(jar, d), agent));
    TwoTokensString(CookieValue(jar, "__cfduid", d), CookieValue(jar, "cf_clearance", d));
  }

  /** The header written for the two Cloudflare tokens. */
  lemma TwoTokensString(uid: string, clearance: string)
    ensures CookieString([("__cfduid", uid), ("cf_clearance", clearance)]) == "__cfduid=" + uid + "; cf_clearance=" + clearance
  {
    var parts := CookieParts([("__cfduid", uid), ("cf_clearance", clearance)]);
    var first := "__cfduid=" + uid;
    var second := "cf_clearance=" + clearance;
    assert |parts| == 2 && parts[0] == first && parts[1] == second;
    assert parts[1..] == [second];
    assert Join(parts, "; ") == first + "; " + second;
    assert "; " + "cf_clearance=" == "; cf_clearance=";
    AppendAssociative(first, "; ", second);
    AppendAssociative("; ", "cf_clearance=", clearance);
    AppendAssociative(first, "; cf_clearance=", clearance);
  }
}
