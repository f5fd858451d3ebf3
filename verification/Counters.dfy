/**
 Request counters of the backend and the poller that stores their deltas: the
 two objects whose fields the source updates in place.
 */
module Counters {
  import opened Prelude

  // ---- The backend's middleware --------------------------------------------

  /** What became of one call: the statuses it started responses with, in order, unless the app raised. */
  datatype Outcome = NotHttp | Raised | Finished(statuses: seq<int>)

  /** The status that the wrapper is left holding, 200 when no response was started. */
  function FinalStatus(statuses: seq<int>): int {
    if |statuses| == 0 then 200 else statuses[|statuses| - 1]
  }

  predicate Counts(o: Outcome) {
    o.Finished?
  }

  predicate Fails(o: Outcome) {
    o.Finished? && FinalStatus(o.statuses) >= 500
  }

  class RequestMetrics {
    var requestsTotal: nat
    var errorsTotal: nat

    constructor ()
      ensures requestsTotal == 0 && errorsTotal == 0
    {
      requestsTotal, errorsTotal := 0, 0;
    }

    /** A call whose app raised leaves both counters alone. */
    method Handle(o: Outcome)
      modifies this
      ensures requestsTotal == old(requestsTotal) + (if Counts(o) then 1 else 0)
      ensures errorsTotal == old(errorsTotal) + (if Fails(o) then 1 else 0)
      ensures !o.Finished? ==> requestsTotal == old(requestsTotal) && errorsTotal == old(errorsTotal)
      ensures o.Finished? ==> requestsTotal == old(requestsTotal) + 1
      ensures o.Finished? ==>
                var failed := |o.statuses| > 0 && o.statuses[|o.statuses| - 1] >= 500;
                errorsTotal == old(errorsTotal) + if failed then 1 else 0
      ensures old(errorsTotal <= requestsTotal) ==> errorsTotal <= requestsTotal
    {
      if o.NotHttp? || o.Raised? {
        return;
      }
      var status := 200;
      for i := 0 to |o.statuses|
        invariant status == FinalStatus(o.statuses[..i])
      {
        status := o.statuses[i];
      }
      assert o.statuses[..|o.statuses|] == o.statuses;
      requestsTotal := requestsTotal + 1;
      if status >= 500 {
        errorsTotal := errorsTotal + 1;
      }
    }
  }

  // ---- The poller ----------------------------------------------------------

  /** The body of /internal/metrics; a missing counter reads as None. */
  datatype Metrics = Metrics(requests: Option<int>, errors: Option<int>)

  datatype Sample = Sample(up: bool, requests: Option<int>, errors: Option<int>)

  /** A counter's delta: zero on the first sample and after a reset, nothing when the counter is missing. */
  function Delta(prev: Option<int>, total: Option<int>): Option<int> {
    if total.None? then None
    else if prev.Some? && total.value >= prev.value then Some(total.value - prev.value)
    else Some(0)
  }

  function Remembered(prev: Option<int>, total: Option<int>): Option<int> {
    if total.None? then prev else total
  }

  /** What one poll yields; an unreachable backend yields nothing. */
  function Measured(prevRequests: Option<int>, prevErrors: Option<int>, answer: Option<Metrics>): Sample {
    match answer
    case None => Sample(false, None, None)
    case Some(m) => Sample(true, Delta(prevRequests, m.requests), Delta(prevErrors, m.errors))
  }

  /**
   A counter that is missing yields nothing and is remembered as it was; one that
   did not shrink yields its growth, one seen first or after a reset yields zero,
   and both are remembered.
   */
  predicate IsDelta(prev: Option<int>, total: Option<int>, delta: Option<int>, remembered: Option<int>) {
    match (prev, total)
    case (_, None) => delta == None && remembered == prev
    case (None, Some(t)) => delta == Some(0) && remembered == Some(t)
    case (Some(p), Some(t)) => delta == Some(if p <= t then t - p else 0) && remembered == Some(t)
  }

  class Poller {
    var prevRequests: Option<int>
    var prevErrors: Option<int>
    var samples: seq<Sample>

    constructor ()
      ensures prevRequests == None && prevErrors == None && samples == []
    {
      prevRequests, prevErrors, samples := None, None, [];
    }

    /** A failed poll remembers nothing and forgets nothing. */
    method CheckBackendMetrics(answer: Option<Metrics>) returns (sample: Sample)
      modifies this`prevRequests, this`prevErrors
      ensures answer.None? ==> sample == Sample(false, None, None)
      ensures answer.Some? ==>
                && sample.up
                && IsDelta(old(prevRequests), answer.value.requests, sample.requests, prevRequests)
                && IsDelta(old(prevErrors), answer.value.errors, sample.errors, prevErrors)
      ensures sample == Measured(old(prevRequests), old(prevErrors), answer)
      ensures answer.None? ==> prevRequests == old(prevRequests) && prevErrors == old(prevErrors)
      ensures answer.Some? ==> prevRequests == Remembered(old(prevRequests), answer.value.requests)
      ensures answer.Some? ==> prevErrors == Remembered(old(prevErrors), answer.value.errors)
    {
      if answer.None? {
        return Sample(false, None, None);
      }
      var metrics := answer.value;
      var requestsDelta, errorsDelta: Option<int> := None, None;
      if metrics.requests.Some? {
        if prevRequests.Some? && metrics.requests.value >= prevRequests.value {
          requestsDelta := Some(metrics.requests.value - prevRequests.value);
        } else {
          requestsDelta := Some(0);
        }
        prevRequests := metrics.requests;
      }
      if metrics.errors.Some? {
        if prevErrors.Some? && metrics.errors.value >= prevErrors.value {
          errorsDelta := Some(metrics.errors.value - prevErrors.value);
        } else {
          errorsDelta := Some(0);
        }
        prevErrors := metrics.errors;
      }
      sample := Sample(true, requestsDelta, errorsDelta);
    }

    /** The deltas are taken before the insert, so a failed insert loses them. */
    method RunCycle(answer: Option<Metrics>, inserted: bool)
      modifies this
      ensures answer.None? ==> prevRequests == old(prevRequests) && prevErrors == old(prevErrors)
      ensures answer.Some? ==> prevRequests == Remembered(old(prevRequests), answer.value.requests)
      ensures answer.Some? ==> prevErrors == Remembered(old(prevErrors), answer.value.errors)
      ensures samples == old(samples) +
                (if inserted then [Measured(old(prevRequests), old(prevErrors), answer)] else [])
    {
      var sample := CheckBackendMetrics(answer);
      if inserted {
        samples := samples + [sample];
      }
    }
  }
}
