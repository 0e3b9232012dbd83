/** src/metrics/singleton.cpp: the counters of finished requests, by route. */
module Metrics {

  type Counters = map<string, int>

  /** A route that was never counted counts zero. */
  function CountOf(counters: Counters, route: string): int {
    if route in counters then counters[route] else 0
  }

  function Incremented(counters: Counters, route: string): Counters {
    if route == "" then counters else counters[route := CountOf(counters, route) + 1]
  }

  datatype MetricsImpl = MetricsImpl(
    success: Counters, unauthenticated: Counters, serverError: Counters, clientError: Counters)

  const NO_METRICS := MetricsImpl(map[], map[], map[], map[])

  datatype Counter = Success | Unauthenticated | ServerError | ClientError

  function Count(metrics: MetricsImpl, counter: Counter, route: string): int {
    match counter
    case Success => CountOf(metrics.success, route)
    case Unauthenticated => CountOf(metrics.unauthenticated, route)
    case ServerError => CountOf(metrics.serverError, route)
    case ClientError => CountOf(metrics.clientError, route)
  }

  function After(metrics: MetricsImpl, counter: Counter, route: string): MetricsImpl {
    match counter
    case Success => metrics.(success := Incremented(metrics.success, route))
    case Unauthenticated => metrics.(unauthenticated := Incremented(metrics.unauthenticated, route))
    case ServerError => metrics.(serverError := Incremented(metrics.serverError, route))
    case ClientError => metrics.(clientError := Incremented(metrics.clientError, route))
  }

  /** Incrementing one counter of one route moves nothing else; a blank route is not counted. */
  lemma {:induction false} OnlyOneCountMoves(metrics: MetricsImpl, counter: Counter, route: string, other: Counter,
      otherRoute: string)
    ensures Count(After(metrics, counter, route), other, otherRoute) ==
            Count(metrics, other, otherRoute)
            + (if other == counter && otherRoute == route && route != "" then 1 else 0)
  {
  }

  class Singleton {
    var impl: MetricsImpl

    constructor ()
      ensures impl == NO_METRICS
    {
      impl := NO_METRICS;
    }

    method IncrementSuccessCounter(route: string)
      modifies this
      ensures impl == After(old(impl), Success, route)
      ensures route != "" ==> CountOf(impl.success, route) == CountOf(old(impl.success), route) + 1
    {
      if route == "" {
        return;
      }
      if route in impl.success {
        impl := impl.(success := impl.success[route := impl.success[route] + 1]);
        return;
      }
      impl := impl.(success := impl.success[route := 1]);
    }

    method IncrementUnauthenticatedCounter(route: string)
      modifies this
      ensures impl == After(old(impl), Unauthenticated, route)
      ensures route != "" ==> CountOf(impl.unauthenticated, route) == CountOf(old(impl.unauthenticated), route) + 1
    {
      if route == "" {
        return;
      }
      if route in impl.unauthenticated {
        impl := impl.(unauthenticated := impl.unauthenticated[route := impl.unauthenticated[route] + 1]);
        return;
      }
      impl := impl.(unauthenticated := impl.unauthenticated[route := 1]);
    }

    method IncrementServerErrorCounter(route: string)
      modifies this
      ensures impl == After(old(impl), ServerError, route)
      ensures route != "" ==> CountOf(impl.serverError, route) == CountOf(old(impl.serverError), route) + 1
    {
      if route == "" {
        return;
      }
      if route in impl.serverError {
        impl := impl.(serverError := impl.serverError[route := impl.serverError[route] + 1]);
        return;
      }
      impl := impl.(serverError := impl.serverError[route := 1]);
    }

    method IncrementClientErrorCounter(route: string)
      modifies this
      ensures impl == After(old(impl), ClientError, route)
      ensures route != "" ==> CountOf(impl.clientError, route) == CountOf(old(impl.clientError), route) + 1
    {
      if route == "" {
        return;
      }
      if route in impl.clientError {
        impl := impl.(clientError := impl.clientError[route := impl.clientError[route] + 1]);
        return;
      }
      impl := impl.(clientError := impl.clientError[route := 1]);
    }
  }
}
