/** Requests in flight: every interleaving of the reactors' steps keeps the four counters in
    balance with the Finish calls (src/grpc/magnitudeService.cpp with src/metrics/singleton.cpp). */
module Accounting {
  import opened Metrics

  datatype StatusCode = OK | INVALID_ARGUMENT | INTERNAL | UNAUTHENTICATED

  /** How a reactor's constructor ends: with success, or having counted an error. */
  datatype Reply = Accepted | Rejected(counter: Counter) {
    predicate Valid() {
      Rejected? ==> counter != Success
    }

    function Status(): StatusCode
      requires Valid()
    {
      match this
      case Accepted => OK
      case Rejected(Unauthenticated) => UNAUTHENTICATED
      case Rejected(ClientError) => INVALID_ARGUMENT
      case Rejected(ServerError) => INTERNAL
    }

    /** What the constructor does that others can see, in order: an error is counted
        before it is reported, a success only once the request is done. */
    function Script(): seq<Event>
      requires Valid()
    {
      if Accepted? then [Finish(OK)] else [Increment(counter), Finish(Status())]
    }
  }

  /** An accepted request finishes with OK and nothing else; a refused one counts its error and then finishes with the
      status that goes with it. */
  lemma {:induction false} ScriptsAre(counter: Counter)
    requires counter != Success
    ensures Reply.Accepted.Script() == [Finish(OK)]
    ensures counter == Unauthenticated ==> Rejected(counter).Script() == [Increment(counter), Finish(UNAUTHENTICATED)]
    ensures counter == ClientError ==> Rejected(counter).Script() == [Increment(counter), Finish(INVALID_ARGUMENT)]
    ensures counter == ServerError ==> Rejected(counter).Script() == [Increment(counter), Finish(INTERNAL)]
  {
  }

  datatype Event = Increment(counter: Counter) | Finish(status: StatusCode)

  /** A reactor: how many events of its script have happened, and whether OnDone has. */
  datatype Reactor = Reactor(route: string, reply: Reply, next: nat, done: bool) {
    predicate Valid() {
      route != "" && reply.Valid() && next <= |reply.Script()| && (done ==> Finished())
    }

    /** Its constructor called Finish. */
    predicate Finished() {
      next == if reply.Accepted? then 1 else 2
    }

    /** It counted its error but has not yet called Finish. */
    predicate CountedNotFinished() {
      reply.Rejected? && next == 1
    }
  }

  datatype FinishCall = FinishCall(reactor: nat, route: string, status: StatusCode)

  datatype State = State(metrics: MetricsImpl, reactors: seq<Reactor>, finishes: seq<FinishCall>)

  const START := State(NO_METRICS, [], [])

  /** One step of some request: it arrives, does the next thing its constructor does, or is done. */
  datatype Step = Arrive(route: string, reply: Reply) | Advance(reactor: nat) | OnDone(reactor: nat)

  predicate Enabled(s: State, step: Step) {
    match step
    case Arrive(route, reply) => route != "" && reply.Valid()
    case Advance(i) => i < |s.reactors| && s.reactors[i].Valid() && !s.reactors[i].Finished()
    case OnDone(i) => i < |s.reactors| && s.reactors[i].Valid() && s.reactors[i].Finished() && !s.reactors[i].done
  }

  function Next(s: State, step: Step): State
    requires Enabled(s, step)
  {
    match step
    case Arrive(route, reply) => s.(reactors := s.reactors + [Reactor(route, reply, 0, false)])
    case Advance(i) =>
      var r := s.reactors[i];
      var advanced := s.(reactors := s.reactors[i := r.(next := r.next + 1)]);
      (match r.reply.Script()[r.next]
       case Increment(counter) => advanced.(metrics := Metrics.After(s.metrics, counter, r.route))
       case Finish(status) => advanced.(finishes := s.finishes + [FinishCall(i, r.route, status)]))
    case OnDone(i) =>
      var r := s.reactors[i];
      s.(reactors := s.reactors[i := r.(done := true)],
         metrics := if r.reply.Accepted? then Metrics.After(s.metrics, Success, r.route) else s.metrics)
  }

  ghost predicate IsRun(steps: seq<Step>)
    decreases |steps|, 0
  {
    steps != [] ==>
      IsRun(steps[..|steps| - 1]) && Enabled(StateAfter(steps[..|steps| - 1]), steps[|steps| - 1])
  }

  /** The state after a run. */
  ghost function StateAfter(steps: seq<Step>): State
    requires IsRun(steps)
    decreases |steps|, 1
  {
    if steps == [] then START else Next(StateAfter(steps[..|steps| - 1]), steps[|steps| - 1])
  }

  // -------------------------------------------------------------------- counting

  function Total(reactors: seq<Reactor>, weight: Reactor -> int): int {
    if reactors == [] then 0 else Total(reactors[..|reactors| - 1], weight) + weight(reactors[|reactors| - 1])
  }

  lemma {:induction false} TotalUpdate(reactors: seq<Reactor>, i: nat, r: Reactor, weight: Reactor -> int)
    requires i < |reactors|
    ensures Total(reactors[i := r], weight) == Total(reactors, weight) - weight(reactors[i]) + weight(r)
  {
    var n := |reactors| - 1;
    if i < n {
      TotalUpdate(reactors[..n], i, r, weight);
      assert reactors[i := r][..n] == reactors[..n][i := r];
    } else {
      assert reactors[i := r][..n] == reactors[..n];
    }
  }

  function FinishCount(finishes: seq<FinishCall>, route: string, status: StatusCode): int {
    if finishes == [] then 0
    else
      var last := finishes[|finishes| - 1];
      FinishCount(finishes[..|finishes| - 1], route, status)
      + if last.route == route && last.status == status then 1 else 0
  }

  function FinishesBy(finishes: seq<FinishCall>, reactor: nat): int {
    if finishes == [] then 0
    else FinishesBy(finishes[..|finishes| - 1], reactor) + if finishes[|finishes| - 1].reactor == reactor then 1 else 0
  }

  /** A successful reactor that waits for OnDone. */
  function AwaitsOnDone(route: string): Reactor -> int {
    (r: Reactor) => if r.route == route && r.reply == Accepted && r.next == 1 && !r.done then 1 else 0
  }

  /** A reactor between counting its error and calling Finish. */
  function BetweenCountAndFinish(route: string, counter: Counter): Reactor -> int {
    (r: Reactor) => if r.route == route && r.reply == Rejected(counter) && r.next == 1 then 1 else 0
  }

  function StatusCountedBy(counter: Counter): StatusCode {
    match counter
    case Success => OK
    case Unauthenticated => UNAUTHENTICATED
    case ServerError => INTERNAL
    case ClientError => INVALID_ARGUMENT
  }

  // ------------------------------------------------------------------- invariant

  /** The successes counted and still to be counted are the OK statuses. */
  ghost predicate SuccessesBalance(s: State, route: string) {
    Count(s.metrics, Success, route) + Total(s.reactors, AwaitsOnDone(route)) == FinishCount(s.finishes, route, OK)
  }

  /** The errors counted are those reported and about to be reported. */
  ghost predicate ErrorsBalance(s: State, route: string, counter: Counter) {
    Count(s.metrics, counter, route) ==
    FinishCount(s.finishes, route, StatusCountedBy(counter)) + Total(s.reactors, BetweenCountAndFinish(route, counter))
  }

  lemma {:induction false} RunsHaveValidReactors(steps: seq<Step>)
    requires IsRun(steps)
    ensures forall i :: 0 <= i < |StateAfter(steps).reactors| ==> StateAfter(steps).reactors[i].Valid()
  {
    if steps != [] {
      RunsHaveValidReactors(steps[..|steps| - 1]);
    }
  }

  lemma {:induction false} CountingBalances(s: State, i: nat, route: string, counter: Counter)
    requires Enabled(s, Advance(i)) && s.reactors[i].reply.Rejected? && s.reactors[i].next == 0
    ensures SuccessesBalance(s, route) ==> SuccessesBalance(Next(s, Advance(i)), route)
    ensures counter != Success && ErrorsBalance(s, route, counter) ==>
      ErrorsBalance(Next(s, Advance(i)), route, counter)
  {
    var r := s.reactors[i];
    TotalUpdate(s.reactors, i, r.(next := 1), AwaitsOnDone(route));
    TotalUpdate(s.reactors, i, r.(next := 1), BetweenCountAndFinish(route, counter));
    OnlyOneCountMoves(s.metrics, r.reply.counter, r.route, Success, route);
    OnlyOneCountMoves(s.metrics, r.reply.counter, r.route, counter, route);
  }

  lemma {:induction false} FinishingBalances(s: State, i: nat, route: string, counter: Counter)
    requires Enabled(s, Advance(i)) && (s.reactors[i].reply.Accepted? || s.reactors[i].next == 1)
    ensures SuccessesBalance(s, route) ==> SuccessesBalance(Next(s, Advance(i)), route)
    ensures counter != Success && ErrorsBalance(s, route, counter) ==>
      ErrorsBalance(Next(s, Advance(i)), route, counter)
  {
    var r, t := s.reactors[i], Next(s, Advance(i));
    TotalUpdate(s.reactors, i, r.(next := r.next + 1), AwaitsOnDone(route));
    TotalUpdate(s.reactors, i, r.(next := r.next + 1), BetweenCountAndFinish(route, counter));
    assert t.finishes[..|s.finishes|] == s.finishes;
  }

  lemma {:induction false} OnDoneBalances(s: State, i: nat, route: string, counter: Counter)
    requires Enabled(s, OnDone(i))
    ensures SuccessesBalance(s, route) ==> SuccessesBalance(Next(s, OnDone(i)), route)
    ensures counter != Success && ErrorsBalance(s, route, counter) ==> ErrorsBalance(Next(s, OnDone(i)), route, counter)
  {
    var r := s.reactors[i];
    TotalUpdate(s.reactors, i, r.(done := true), AwaitsOnDone(route));
    TotalUpdate(s.reactors, i, r.(done := true), BetweenCountAndFinish(route, counter));
    OnlyOneCountMoves(s.metrics, Success, r.route, Success, route);
    OnlyOneCountMoves(s.metrics, Success, r.route, counter, route);
  }

  /** Every step of every interleaving keeps every route's counters in balance. */
  lemma {:induction false} RunsBalance(steps: seq<Step>, route: string, counter: Counter)
    requires IsRun(steps)
    ensures SuccessesBalance(StateAfter(steps), route)
    ensures counter != Success ==> ErrorsBalance(StateAfter(steps), route, counter)
  {
    if steps != [] {
      var before := StateAfter(steps[..|steps| - 1]);
      RunsBalance(steps[..|steps| - 1], route, counter);
      match steps[|steps| - 1]
      case Arrive(r, reply) =>
        assert (before.reactors + [Reactor(r, reply, 0, false)])[..|before.reactors|] == before.reactors;
      case Advance(i) =>
        if before.reactors[i].reply.Rejected? && before.reactors[i].next == 0 {
          CountingBalances(before, i, route, counter);
        } else {
          FinishingBalances(before, i, route, counter);
        }
      case OnDone(i) => OnDoneBalances(before, i, route, counter);
    }
  }

  function AllCounts(metrics: MetricsImpl, route: string): int {
    Count(metrics, Success, route) + Count(metrics, ClientError, route) + Count(metrics, ServerError, route)
    + Count(metrics, Unauthenticated, route)
  }

  function AllFinishes(finishes: seq<FinishCall>, route: string): int {
    FinishCount(finishes, route, OK) + FinishCount(finishes, route, INVALID_ARGUMENT)
    + FinishCount(finishes, route, INTERNAL) + FinishCount(finishes, route, UNAUTHENTICATED)
  }

  /** Reactors of a route about to report a counted error. */
  function AllBetween(reactors: seq<Reactor>, route: string): int {
    Total(reactors, BetweenCountAndFinish(route, ClientError))
    + Total(reactors, BetweenCountAndFinish(route, ServerError))
    + Total(reactors, BetweenCountAndFinish(route, Unauthenticated))
  }

  /** At every moment the four counters of a route plus its successes awaiting OnDone are its Finish
      calls plus the errors counted but not yet reported. */
  lemma {:induction false} CountersBalanceFinishCalls(steps: seq<Step>, route: string)
    requires IsRun(steps)
    ensures var s := StateAfter(steps);
      AllCounts(s.metrics, route) + Total(s.reactors, AwaitsOnDone(route)) ==
      AllFinishes(s.finishes, route) + AllBetween(s.reactors, route)
  {
    RunsBalance(steps, route, ClientError);
    RunsBalance(steps, route, ServerError);
    RunsBalance(steps, route, Unauthenticated);
  }

  lemma {:induction false} NoneBetween(reactors: seq<Reactor>, route: string)
    requires forall i :: 0 <= i < |reactors| ==> !reactors[i].CountedNotFinished()
    ensures AllBetween(reactors, route) == 0
  {
    if reactors != [] {
      NoneBetween(reactors[..|reactors| - 1], route);
      assert !reactors[|reactors| - 1].CountedNotFinished();
    }
  }

  /** Whenever no constructor is between counting its error and finishing, the four counters of a route
      plus its successes awaiting OnDone are exactly its Finish calls. */
  lemma {:induction false} CountersAreFinishCalls(steps: seq<Step>, route: string)
    requires IsRun(steps)
    requires forall i :: 0 <= i < |StateAfter(steps).reactors| ==> !StateAfter(steps).reactors[i].CountedNotFinished()
    ensures var s := StateAfter(steps);
      AllCounts(s.metrics, route) + Total(s.reactors, AwaitsOnDone(route)) == AllFinishes(s.finishes, route)
  {
    CountersBalanceFinishCalls(steps, route);
    NoneBetween(StateAfter(steps).reactors, route);
  }

  function OnRoute(route: string): Reactor -> int {
    (r: Reactor) => if r.route == route then 1 else 0
  }

  /** A reactor of a route whose reply has this status. */
  function EndingWith(route: string, status: StatusCode): Reactor -> int {
    (r: Reactor) => if r.route == route && r.reply.Valid() && r.reply.Status() == status then 1 else 0
  }

  /** The same once it has called Finish. */
  function FinishedWith(route: string, status: StatusCode): Reactor -> int {
    (r: Reactor) => if r.Finished() && r.route == route && r.reply.Valid() && r.reply.Status() == status then 1 else 0
  }

  /** What one step of a constructor does to reactors and Finish calls. */
  lemma {:induction false} AdvanceDoes(s: State, i: nat)
    requires Enabled(s, Advance(i))
    ensures !s.reactors[i].Finished() && s.reactors[i].reply.Valid()
    ensures var r, t := s.reactors[i], Next(s, Advance(i));
      var advanced := r.(next := r.next + 1);
      && t.reactors == s.reactors[i := advanced]
      && t.finishes == if advanced.Finished() then s.finishes + [FinishCall(i, r.route, r.reply.Status())]
                       else s.finishes
  {
  }

  lemma {:induction false} CountOneMore(finishes: seq<FinishCall>, call: FinishCall, route: string, status: StatusCode)
    ensures FinishCount(finishes + [call], route, status) ==
            FinishCount(finishes, route, status) + if call.route == route && call.status == status then 1 else 0
  {
    assert (finishes + [call])[..|finishes|] == finishes;
  }

  lemma {:induction false} AdvanceFinishes(s: State, i: nat, route: string, status: StatusCode)
    requires Enabled(s, Advance(i))
    requires FinishCount(s.finishes, route, status) == Total(s.reactors, FinishedWith(route, status))
    ensures var t := Next(s, Advance(i));
      FinishCount(t.finishes, route, status) == Total(t.reactors, FinishedWith(route, status))
  {
    AdvanceDoes(s, i);
    hide Next, Enabled, Reply.Script, Reply.Status, Reply.Valid, Reactor.Valid, Reactor.Finished;
    var r := s.reactors[i];
    TotalUpdate(s.reactors, i, r.(next := r.next + 1), FinishedWith(route, status));
    CountOneMore(s.finishes, FinishCall(i, r.route, r.reply.Status()), route, status);
  }

  /** The Finish calls with a status are the finished reactors that end with it. */
  lemma {:induction false} FinishCallsAreFinishedReactors(steps: seq<Step>, route: string, status: StatusCode)
    requires IsRun(steps)
    ensures var s := StateAfter(steps);
      FinishCount(s.finishes, route, status) == Total(s.reactors, FinishedWith(route, status))
  {
    if steps != [] {
      var before, step := StateAfter(steps[..|steps| - 1]), steps[|steps| - 1];
      FinishCallsAreFinishedReactors(steps[..|steps| - 1], route, status);
      match step
      case Arrive(r, reply) =>
        assert (before.reactors + [Reactor(r, reply, 0, false)])[..|before.reactors|] == before.reactors;
      case Advance(i) => AdvanceFinishes(before, i, route, status);
      case OnDone(i) =>
        TotalUpdate(before.reactors, i, before.reactors[i].(done := true), FinishedWith(route, status));
    }
  }

  /** Done reactors await nothing, and have finished with their status. */
  lemma {:induction false} AllDone(reactors: seq<Reactor>, route: string, counter: Counter)
    requires forall i :: 0 <= i < |reactors| ==> reactors[i].Valid() && reactors[i].done
    ensures Total(reactors, AwaitsOnDone(route)) == 0
    ensures Total(reactors, BetweenCountAndFinish(route, counter)) == 0
    ensures Total(reactors, FinishedWith(route, StatusCountedBy(counter))) ==
            Total(reactors, EndingWith(route, StatusCountedBy(counter)))
  {
    if reactors != [] {
      AllDone(reactors[..|reactors| - 1], route, counter);
      assert reactors[|reactors| - 1].Valid() && reactors[|reactors| - 1].done;
    }
  }

  /** Every reactor of a route ends with one of the four statuses. */
  lemma {:induction false} EveryReactorHasAStatus(reactors: seq<Reactor>, route: string)
    requires forall i :: 0 <= i < |reactors| ==> reactors[i].Valid()
    ensures Total(reactors, EndingWith(route, OK)) + Total(reactors, EndingWith(route, INVALID_ARGUMENT))
            + Total(reactors, EndingWith(route, INTERNAL)) + Total(reactors, EndingWith(route, UNAUTHENTICATED))
            == Total(reactors, OnRoute(route))
  {
    if reactors != [] {
      EveryReactorHasAStatus(reactors[..|reactors| - 1], route);
      assert reactors[|reactors| - 1].Valid();
    }
  }

  lemma {:induction false} CountedByStatus(steps: seq<Step>, route: string, counter: Counter)
    requires IsRun(steps)
    requires forall i :: 0 <= i < |StateAfter(steps).reactors| ==> StateAfter(steps).reactors[i].done
    ensures var s := StateAfter(steps);
      Count(s.metrics, counter, route) == Total(s.reactors, EndingWith(route, StatusCountedBy(counter)))
  {
    RunsHaveValidReactors(steps);
    RunsBalance(steps, route, counter);
    FinishCallsAreFinishedReactors(steps, route, StatusCountedBy(counter));
    AllDone(StateAfter(steps).reactors, route, counter);
  }

  /** Once every request is done, each counter of a route is the number of the route's requests that ended
      with its status, and the four together are all of the route's requests. */
  lemma {:induction false} EveryRequestIsCountedOnce(steps: seq<Step>, route: string)
    requires IsRun(steps)
    requires forall i :: 0 <= i < |StateAfter(steps).reactors| ==> StateAfter(steps).reactors[i].done
    ensures forall counter :: Count(StateAfter(steps).metrics, counter, route) ==
                              Total(StateAfter(steps).reactors, EndingWith(route, StatusCountedBy(counter)))
    ensures AllCounts(StateAfter(steps).metrics, route) == Total(StateAfter(steps).reactors, OnRoute(route))
  {
    RunsHaveValidReactors(steps);
    forall counter ensures Count(StateAfter(steps).metrics, counter, route) ==
                           Total(StateAfter(steps).reactors, EndingWith(route, StatusCountedBy(counter))) {
      CountedByStatus(steps, route, counter);
    }
    EveryReactorHasAStatus(StateAfter(steps).reactors, route);
    assert AllCounts(StateAfter(steps).metrics, route) == Total(StateAfter(steps).reactors, OnRoute(route)) by {
      CountedByStatus(steps, route, Success);
      CountedByStatus(steps, route, ClientError);
      CountedByStatus(steps, route, ServerError);
      CountedByStatus(steps, route, Unauthenticated);
    }
  }

  /** Reactor i has called Finish once if it has finished and not at all otherwise. */
  ghost predicate FinishedOnce(s: State, i: nat) {
    FinishesBy(s.finishes, i) == if i < |s.reactors| && s.reactors[i].Finished() then 1 else 0
  }

  lemma {:induction false} OneMoreBy(finishes: seq<FinishCall>, call: FinishCall, i: nat)
    ensures FinishesBy(finishes + [call], i) == FinishesBy(finishes, i) + if call.reactor == i then 1 else 0
  {
    assert (finishes + [call])[..|finishes|] == finishes;
  }

  lemma {:induction false} AdvanceFinishesOnce(s: State, k: nat, i: nat)
    requires Enabled(s, Advance(k)) && FinishedOnce(s, i)
    ensures FinishedOnce(Next(s, Advance(k)), i)
  {
    AdvanceDoes(s, k);
    hide Next, Enabled, Reply.Script, Reply.Status, Reply.Valid, Reactor.Valid, Reactor.Finished;
    var r := s.reactors[k];
    OneMoreBy(s.finishes, FinishCall(k, r.route, r.reply.Status()), i);
    assert i < |s.reactors| && i != k ==> Next(s, Advance(k)).reactors[i] == s.reactors[i];
  }

  /** In every interleaving a reactor calls Finish at most once, and exactly once by the time its
      constructor returns. */
  lemma {:induction false} FinishedExactlyOnce(steps: seq<Step>, i: nat)
    requires IsRun(steps)
    ensures var s := StateAfter(steps);
      FinishesBy(s.finishes, i) == if i < |s.reactors| && s.reactors[i].Finished() then 1 else 0
  {
    if steps != [] {
      var before, step := StateAfter(steps[..|steps| - 1]), steps[|steps| - 1];
      FinishedExactlyOnce(steps[..|steps| - 1], i);
      match step
      case Arrive(_, _) => assert FinishedOnce(Next(before, step), i);
      case Advance(k) => AdvanceFinishesOnce(before, k, i);
      case OnDone(_) => assert FinishedOnce(Next(before, step), i);
    }
  }

  /** A Finish call is its reactor's, on its route and with its reply's status. */
  ghost predicate OwnFinish(call: FinishCall, reactors: seq<Reactor>) {
    && call.reactor < |reactors|
    && var r := reactors[call.reactor];
      r.reply.Valid() && r.Finished() && call.route == r.route && call.status == r.reply.Status()
  }

  lemma {:induction false} EveryFinishIsItsReactors(steps: seq<Step>)
    requires IsRun(steps)
    ensures forall k :: 0 <= k < |StateAfter(steps).finishes| ==>
      OwnFinish(StateAfter(steps).finishes[k], StateAfter(steps).reactors)
  {
    if steps != [] {
      EveryFinishIsItsReactors(steps[..|steps| - 1]);
    }
  }

  // ------------------------------------------------------------------ one request

  /** A request served without interruption: it arrives, its constructor runs and it is done. */
  function Served(i: nat, route: string, reply: Reply): seq<Step>
    requires reply.Valid()
  {
    [Arrive(route, reply)] + (if reply.Accepted? then [Advance(i)] else [Advance(i), Advance(i)]) + [OnDone(i)]
  }

  lemma {:induction false} RunNext(steps: seq<Step>, step: Step)
    requires IsRun(steps) && Enabled(StateAfter(steps), step)
    ensures IsRun(steps + [step]) && StateAfter(steps + [step]) == Next(StateAfter(steps), step)
  {
    assert (steps + [step])[..|steps|] == steps;
  }
}
