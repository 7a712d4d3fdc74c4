/**
 * The request pipeline in front of the metrics controller: the "metrics"
 * rate-limit policy first, partitioned by remote address, then the
 * User-Agent endpoint filter, then the controller action.
 *
 * A request the limiter refuses gets 429 and never reaches the filter; a
 * request the filter refuses gets 400 and never reaches the action, but has
 * still used up its permit.
 */
module Gateway {
  import opened Wrappers
  import opened Http
  import opened RateLimiting
  import opened UserAgent
  import opened Metrics

  /** The connection's remote address; None (an unknown address) is a partition of its own, shared by all such requests. */
  type RemoteAddress = Option<string>

  class Pipeline {
    const limiter: FixedWindowLimiter<RemoteAddress>
    const controller: MetricsController

    constructor (limiter: FixedWindowLimiter<RemoteAddress>, controller: MetricsController)
      ensures this.limiter == limiter && this.controller == controller
    {
      this.limiter := limiter;
      this.controller := controller;
    }

    /** GET /metrics/post from remote with the given User-Agent values. */
    method HandlePost(remote: RemoteAddress, userAgent: seq<string>, key: Option<string>, value: Option<string>,
                      now: nat, get: string -> bool) returns (status: Status)
      requires limiter.Valid() && limiter.clock <= now
      modifies limiter, controller.cache, controller.sink
      ensures limiter.Valid() && limiter.clock == now
      ensures var d := Acquire(old(limiter.Lookup(remote)), now);
        limiter.windows == old(limiter.windows)[remote := d.window]
      ensures !Acquire(old(limiter.Lookup(remote)), now).permitted ==>
        && status == TooManyRequests
        && unchanged(controller.cache, controller.sink)
      ensures Acquire(old(limiter.Lookup(remote)), now).permitted && EndpointFilter(userAgent).Rejected? ==>
        && status == BadRequest
        && unchanged(controller.cache, controller.sink)
      ensures Acquire(old(limiter.Lookup(remote)), now).permitted && EndpointFilter(userAgent).Accepted? ==>
        var o := PostOutcome(key, value, EndpointFilter(userAgent).clientVersion, controller.isDevelopment,
                             old(controller.cache.entries), now, get);
        && status == o.status
        && controller.sink.written == old(controller.sink.written) + o.writes
        && controller.cache.entries == o.entries
        && controller.cache.fetched == old(controller.cache.fetched) + o.fetched
    {
      var permitted := limiter.TryAcquire(remote, now);
      if !permitted {
        return TooManyRequests;
      }
      var verdict := EndpointFilter(userAgent);
      match verdict
      case Rejected =>
        return BadRequest;
      case Accepted(clientVersion) =>
        status := controller.Post(key, value, clientVersion, now, get);
    }

    /** POST /metrics/post-exception from remote with the given User-Agent values and body. */
    method HandlePostException(remote: RemoteAddress, userAgent: seq<string>, body: string, now: nat)
      returns (status: Status)
      requires limiter.Valid() && limiter.clock <= now
      modifies limiter, controller.table
      ensures limiter.Valid() && limiter.clock == now
      ensures var d := Acquire(old(limiter.Lookup(remote)), now);
        limiter.windows == old(limiter.windows)[remote := d.window]
      ensures !Acquire(old(limiter.Lookup(remote)), now).permitted ==>
        status == TooManyRequests && unchanged(controller.table)
      ensures Acquire(old(limiter.Lookup(remote)), now).permitted && EndpointFilter(userAgent).Rejected? ==>
        status == BadRequest && unchanged(controller.table)
      ensures Acquire(old(limiter.Lookup(remote)), now).permitted && EndpointFilter(userAgent).Accepted? ==>
        && status == TraceVerdict(body)
        && controller.table.rows ==
             if status == Ok then old(controller.table.rows) + [ExceptionReport(now, body)] else old(controller.table.rows)
    {
      var permitted := limiter.TryAcquire(remote, now);
      if !permitted {
        return TooManyRequests;
      }
      var verdict := EndpointFilter(userAgent);
      match verdict
      case Rejected =>
        return BadRequest;
      case Accepted(_) =>
        status := controller.PostException(body, now);
    }
  }
}
