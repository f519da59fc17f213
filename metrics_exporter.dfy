/**
 * The exporter object and one export call: the shutdown flag, the request
 * built from the batch, and the send loop that retries under the call's
 * time budget and folds every outcome into SUCCESS or FAILURE.  Time is an
 * abstract clock in milliseconds: the transport reports how long each POST
 * took and the backoff policy how long to wait before the next one.
 */
module MetricsExport {
  import opened Wrappers
  import opened ExporterConfig
  import opened Batching

  /** METRICS_SUCCESS and METRICS_FAILURE, the only results a caller sees. */
  datatype ExportResult = MetricsSuccess | MetricsFailure

  /** What one POST ended with. */
  datatype Response =
    | HttpStatus(code: int)  // the collector answered with this status
    | Transient              // a timeout, a reset connection, a TLS or compression failure
    | Unexpected             // any other error raised while sending

  /** Every attempt takes some time. */
  type Duration = d: nat | 1 <= d witness 1

  /** One POST: how it ended and how long it took. */
  datatype Attempt = Attempt(response: Response, duration: Duration)

  /** What the send loop does with a response. */
  datatype Disposition = Delivered | Retry | GiveUp

  /** 2xx is delivered; 408, 429, 5xx and transient errors are retried; other statuses and errors end the call. */
  function Classify(r: Response): (d: Disposition)
    ensures d == Delivered <==> r.HttpStatus? && 200 <= r.code < 300
    ensures d == Retry <==> r.Transient? || (r.HttpStatus? && (r.code == 408 || r.code == 429 || 500 <= r.code < 600))
  {
    match r
    case HttpStatus(code) =>
      if 200 <= code < 300 then Delivered
      else if code == 408 || code == 429 || 500 <= code < 600 then Retry
      else GiveUp
    case Transient => Retry
    case Unexpected => GiveUp
  }

  /**
   * The send loop from attempt `retries`, with `elapsed` milliseconds of the
   * `budget` spent.  No time left, or an attempt that the deadline cuts
   * short, is FAILURE; a retryable response consults the backoff policy with
   * the new retry count, which gives the delay before the next attempt or
   * None to give up.
   */
  function SendFrom(transport: nat -> Attempt, backoff: nat -> Option<nat>, budget: nat, retries: nat, elapsed: nat): ExportResult
    decreases budget - elapsed
  {
    if elapsed >= budget then MetricsFailure
    else
      var a := transport(retries);
      if elapsed + a.duration > budget then MetricsFailure
      else
        match Classify(a.response)
        case Delivered => MetricsSuccess
        case GiveUp => MetricsFailure
        case Retry =>
          match backoff(retries + 1)
          case None => MetricsFailure
          case Some(delay) => SendFrom(transport, backoff, budget, retries + 1, elapsed + a.duration + delay)
  }

  /** A whole send: from the first attempt with nothing spent. */
  function SendResult(transport: nat -> Attempt, backoff: nat -> Option<nat>, budget: nat): ExportResult {
    SendFrom(transport, backoff, budget, 0, 0)
  }

  /** SUCCESS only if some attempt was answered with a 2xx status within the budget. */
  lemma {:induction false} SuccessNeedsDelivery(transport: nat -> Attempt, backoff: nat -> Option<nat>, budget: nat, retries: nat, elapsed: nat)
    requires SendFrom(transport, backoff, budget, retries, elapsed) == MetricsSuccess
    ensures exists i :: retries <= i && Classify(transport(i).response) == Delivered && transport(i).duration <= budget
    decreases budget - elapsed
  {
    var a := transport(retries);
    if Classify(a.response) == Retry {
      var delay := backoff(retries + 1).value;
      SuccessNeedsDelivery(transport, backoff, budget, retries + 1, elapsed + a.duration + delay);
    }
  }

  /** A larger budget never turns a SUCCESS into a FAILURE. */
  lemma {:induction false} MoreBudgetNeverHurts(transport: nat -> Attempt, backoff: nat -> Option<nat>, budget: nat, larger: nat, retries: nat, elapsed: nat)
    requires budget <= larger
    requires SendFrom(transport, backoff, budget, retries, elapsed) == MetricsSuccess
    ensures SendFrom(transport, backoff, larger, retries, elapsed) == MetricsSuccess
    decreases budget - elapsed
  {
    var a := transport(retries);
    if Classify(a.response) == Retry {
      var delay := backoff(retries + 1).value;
      MoreBudgetNeverHurts(transport, backoff, budget, larger, retries + 1, elapsed + a.duration + delay);
    }
  }

  /** With no budget there is no attempt and the result is FAILURE. */
  lemma NoBudgetFails(transport: nat -> Attempt, backoff: nat -> Option<nat>)
    ensures SendResult(transport, backoff, 0) == MetricsFailure
  {
  }

  /** A first answer within the budget decides the call unless it is retryable. */
  lemma FirstAnswerDecides(transport: nat -> Attempt, backoff: nat -> Option<nat>, budget: nat)
    requires transport(0).duration <= budget
    ensures Classify(transport(0).response) == Delivered ==> SendResult(transport, backoff, budget) == MetricsSuccess
    ensures Classify(transport(0).response) == GiveUp ==> SendResult(transport, backoff, budget) == MetricsFailure
  {
  }

  /** A 200 within the budget is SUCCESS; a 400 or a 404 is FAILURE at once, whatever the policy. */
  lemma AnsweredStatuses(transport: nat -> Attempt, backoff: nat -> Option<nat>, budget: nat)
    requires transport(0).duration <= budget
    ensures transport(0).response == HttpStatus(200) ==> SendResult(transport, backoff, budget) == MetricsSuccess
    ensures transport(0).response == HttpStatus(400) ==> SendResult(transport, backoff, budget) == MetricsFailure
    ensures transport(0).response == HttpStatus(404) ==> SendResult(transport, backoff, budget) == MetricsFailure
  {
    FirstAnswerDecides(transport, backoff, budget);
  }

  /** An unexpected error is FAILURE without a retry, whatever the policy. */
  lemma UnexpectedErrorFails(transport: nat -> Attempt, backoff: nat -> Option<nat>, budget: nat)
    requires transport(0).response == Unexpected
    ensures SendResult(transport, backoff, budget) == MetricsFailure
  {
  }

  /** A timeout, a wait the budget allows, then a 200: SUCCESS. */
  lemma RetryAfterTimeout(transport: nat -> Attempt, backoff: nat -> Option<nat>, budget: nat)
    requires transport(0).response == Transient && transport(1).response == HttpStatus(200)
    requires backoff(1).Some?
    requires transport(0).duration + backoff(1).value + transport(1).duration <= budget
    ensures SendResult(transport, backoff, budget) == MetricsSuccess
  {
    var first := transport(0).duration + backoff(1).value;
    assert SendFrom(transport, backoff, budget, 1, first) == MetricsSuccess;
  }

  /** A timeout followed by a wait that uses up the budget: FAILURE, and no second attempt decides anything. */
  lemma BudgetSpentWhileWaiting(transport: nat -> Attempt, backoff: nat -> Option<nat>, budget: nat)
    requires transport(0).response == Transient && transport(0).duration <= budget
    requires backoff(1).Some? && transport(0).duration + backoff(1).value >= budget
    ensures SendResult(transport, backoff, budget) == MetricsFailure
  {
    var first := transport(0).duration + backoff(1).value;
    assert SendFrom(transport, backoff, budget, 1, first) == MetricsFailure;
  }

  /** A transient error that the policy will not retry: FAILURE. */
  lemma NoRetryFails(transport: nat -> Attempt, backoff: nat -> Option<nat>, budget: nat)
    requires transport(0).response == Transient && backoff(1).None?
    ensures SendResult(transport, backoff, budget) == MetricsFailure
  {
  }

  /**
   * The send loop.  Returns the result and the number of POSTs made, which
   * never exceeds the budget since every attempt takes time.
   */
  method Send(transport: nat -> Attempt, backoff: nat -> Option<nat>, budget: nat) returns (r: ExportResult, posts: nat)
    ensures r == SendResult(transport, backoff, budget)
    ensures posts <= budget
    ensures r == MetricsSuccess ==> posts >= 1
  {
    var retries, elapsed := 0, 0;
    posts := 0;
    while elapsed < budget
      invariant SendFrom(transport, backoff, budget, retries, elapsed) == SendResult(transport, backoff, budget)
      invariant posts <= elapsed && posts <= budget
      decreases budget - elapsed
    {
      var a := transport(retries);
      posts := posts + 1;
      if elapsed + a.duration > budget {
        return MetricsFailure, posts;
      }
      var d := Classify(a.response);
      if d == Delivered {
        return MetricsSuccess, posts;
      } else if d == GiveUp {
        return MetricsFailure, posts;
      }
      var wait := backoff(retries + 1);
      if wait.None? {
        return MetricsFailure, posts;
      }
      elapsed := elapsed + a.duration + wait.value;
      retries := retries + 1;
    }
    r := MetricsFailure;
  }

  /** The result of an export call: FAILURE after shutdown or when the request cannot be serialised, else the send's. */
  function ExportOutcome(shutdown: bool, encodes: bool, transport: nat -> Attempt, backoff: nat -> Option<nat>, budget: nat): (r: ExportResult)
    ensures shutdown || !encodes ==> r == MetricsFailure
    ensures !shutdown && encodes ==> r == SendResult(transport, backoff, budget)
    ensures r == MetricsSuccess ==> !shutdown && encodes && SendResult(transport, backoff, budget) == MetricsSuccess
  {
    if shutdown || !encodes then MetricsFailure else SendResult(transport, backoff, budget)
  }

  /** The budget of a call: its own timeout, else the configured one. */
  function Budget(timeoutMillis: Option<nat>, config: TransportConfig): (b: nat)
    ensures timeoutMillis.None? ==> b == config.timeoutMillis
    ensures timeoutMillis.Some? ==> b == timeoutMillis.value
  {
    match timeoutMillis
    case Some(t) => t
    case None => config.timeoutMillis
  }

  class MetricsExporter {
    const config: TransportConfig
    var isShutdown: bool

    constructor(config: TransportConfig)
      ensures this.config == config && !isShutdown
    {
      this.config := config;
      isShutdown := false;
    }

    /** Shuts the exporter down for good; shutting down again changes nothing. */
    method Shutdown()
      modifies this
      ensures isShutdown
    {
      isShutdown := true;
    }

    /**
     * One export call.  `encodes` says whether serialising the request
     * succeeds.  Returns the result, the number of POSTs made, and the
     * request they carried: the batch grouped by resource and scope.
     */
    method Export<R(==), S(==), M>(batch: seq<Snapshot<R, S, M>>, timeoutMillis: Option<nat>, encodes: bool,
                                   transport: nat -> Attempt, backoff: nat -> Option<nat>)
      returns (r: ExportResult, posts: nat, sent: Option<seq<ResourceMetrics<R, S, M>>>)
      ensures r == ExportOutcome(isShutdown, encodes, transport, backoff, Budget(timeoutMillis, config))
      ensures isShutdown || !encodes ==> posts == 0
      ensures posts <= Budget(timeoutMillis, config)
      ensures sent == (if posts == 0 then None else Some(Translate(batch)))
    {
      if isShutdown {
        return MetricsFailure, 0, None;
      }
      var request := Translate(batch);
      if !encodes {
        return MetricsFailure, 0, None;
      }
      r, posts := Send(transport, backoff, Budget(timeoutMillis, config));
      sent := if posts == 0 then None else Some(request);
    }
  }

  /** An exporter shut down twice refuses an export without making a POST. */
  method ShutdownTwiceThenExport<R(==), S(==), M>(config: TransportConfig, batch: seq<Snapshot<R, S, M>>,
                                                 transport: nat -> Attempt, backoff: nat -> Option<nat>)
    returns (r: ExportResult, posts: nat)
    ensures r == MetricsFailure && posts == 0
  {
    var exporter := new MetricsExporter(config);
    exporter.Shutdown();
    exporter.Shutdown();
    var sent;
    r, posts, sent := exporter.Export(batch, None, true, transport, backoff);
  }
}
