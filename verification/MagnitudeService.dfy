/** src/grpc/magnitudeService.cpp: the reactors that answer the three requests. */
module MagnitudeService {
  import opened Results
  import opened MathLibrary
  import opened Identifiers
  import opened Amplitudes
  import opened Observations
  import opened Magnitudes
  import opened NetworkAverages
  import opened NetworkCalculators
  import opened NetworkTheorems
  import opened Requests
  import opened Metrics
  import opened Accounting

  const NETWORK_ROUTE := "ComputeNetworkMagnitudeFromAmplitudes"
  const STATION_ROUTE := "ComputeStationMagnitudesFromAmplitudes"
  const CORRECTIONS_ROUTE := "GetStationCorrections"

  /** A reactor, with what its constructor did that others can see. */
  class RequestReactor {
    const route: string
    var success: bool
    ghost var happened: seq<Event>

    constructor (route: string)
      ensures this.route == route && !success && happened == []
    {
      this.route := route;
      success := false;
      happened := [];
    }

    method Finish(status: StatusCode)
      modifies this
      ensures happened == old(happened) + [Event.Finish(status)] && success == old(success)
    {
      happened := happened + [Event.Finish(status)];
    }

    /** Counts an error and reports it. */
    method Refuse(metrics: Singleton, counter: Counter)
      requires counter != Success && happened == [] && !success
      modifies this, metrics
      ensures metrics.impl == Metrics.After(old(metrics.impl), counter, route)
      ensures happened == Rejected(counter).Script() && !success
    {
      happened := happened + [Increment(counter)];
      if counter == Unauthenticated {
        metrics.IncrementUnauthenticatedCounter(route);
        Finish(UNAUTHENTICATED);
      } else if counter == ClientError {
        metrics.IncrementClientErrorCounter(route);
        Finish(INVALID_ARGUMENT);
      } else {
        metrics.IncrementServerErrorCounter(route);
        Finish(INTERNAL);
      }
    }

    /** Reports success, which is counted later. */
    method Succeed()
      requires happened == []
      modifies this
      ensures happened == Reply.Accepted.Script() && success
    {
      success := true;
      Finish(OK);
    }

    /** The constructor has returned, having given this reply. */
    ghost predicate Gave(reply: Reply)
      reads this
    {
      reply.Valid() && happened == reply.Script() && success == reply.Accepted?
    }

    /** Called once the constructor has returned. */
    method OnDone(metrics: Singleton, ghost reply: Reply)
      requires Gave(reply)
      modifies metrics
      ensures metrics.impl == MetricsWhenDone(old(metrics.impl), reply, route)
    {
      if success {
        metrics.IncrementSuccessCounter(route);
      }
    }
  }

  /** What the metrics are after a reactor's constructor gave its reply. */
  function MetricsAfter(metrics: MetricsImpl, reply: Reply, route: string): MetricsImpl {
    if reply.Rejected? then Metrics.After(metrics, reply.counter, route) else metrics
  }

  /** What they are after a reactor that gave this reply is done. */
  function MetricsWhenDone(metrics: MetricsImpl, reply: Reply, route: string): MetricsImpl {
    if reply.Accepted? then Metrics.After(metrics, Success, route) else metrics
  }

  /** The accounting's state once a constructor that arrived in s has given its reply. */
  function Constructed(s: State, route: string, reply: Reply): State
    requires reply.Valid()
  {
    State(MetricsAfter(s.metrics, reply, route), s.reactors + [Reactor(route, reply, |reply.Script()|, false)],
          s.finishes + [FinishCall(|s.reactors|, route, reply.Status())])
  }

  lemma {:induction false} ConstructorSteps(s: State, route: string, reply: Reply)
    requires route != "" && reply.Valid()
    ensures var n := |s.reactors|;
      && Enabled(s, Arrive(route, reply)) && Enabled(Next(s, Arrive(route, reply)), Advance(n))
      && var once := Next(Next(s, Arrive(route, reply)), Advance(n));
        if reply.Accepted? then once == Constructed(s, route, reply)
        else Enabled(once, Advance(n)) && Next(once, Advance(n)) == Constructed(s, route, reply)
  {
    var arrived := Next(s, Arrive(route, reply));
    assert arrived.reactors[|s.reactors|] == Reactor(route, reply, 0, false);
    var once := Next(arrived, Advance(|s.reactors|));
    assert once.reactors == s.reactors + [Reactor(route, reply, 1, false)];
  }

  lemma {:induction false} ConstructorIsARun(steps: seq<Step>, route: string, reply: Reply) returns (run: seq<Step>)
    requires IsRun(steps) && route != "" && reply.Valid()
    ensures IsRun(run) && StateAfter(run) == Constructed(StateAfter(steps), route, reply)
    ensures run + [Step.OnDone(|StateAfter(steps).reactors|)] ==
            steps + Served(|StateAfter(steps).reactors|, route, reply)
  {
    hide Next, Enabled, Constructed, Reply.Valid;
    var n := |StateAfter(steps).reactors|;
    ConstructorSteps(StateAfter(steps), route, reply);
    RunNext(steps, Arrive(route, reply));
    run := steps + [Arrive(route, reply)];
    RunNext(run, Advance(n));
    run := run + [Advance(n)];
    if reply.Rejected? {
      RunNext(run, Advance(n));
      run := run + [Advance(n)];
    }
  }

  lemma {:induction false} DoneStep(s: State, route: string, reply: Reply)
    requires route != "" && reply.Valid()
    ensures var t := Constructed(s, route, reply);
      && Enabled(t, Step.OnDone(|s.reactors|))
      && Next(t, Step.OnDone(|s.reactors|)) ==
         State(MetricsWhenDone(t.metrics, reply, route),
               s.reactors + [Reactor(route, reply, |reply.Script()|, true)], t.finishes)
      && t.metrics == MetricsAfter(s.metrics, reply, route)
      && t.finishes == s.finishes + [FinishCall(|s.reactors|, route, reply.Status())]
  {
    var t := Constructed(s, route, reply);
    assert t.reactors[|s.reactors|] == Reactor(route, reply, |reply.Script()|, false);
  }

  /** A constructor that gives its reply, followed by OnDone, is a run of the accounting: after any run of
      other requests it brings metrics to where those two leave them, with one Finish call of its own. */
  lemma {:induction false} ConstructorThenOnDoneIsARun(steps: seq<Step>, route: string, reply: Reply)
    requires IsRun(steps) && route != "" && reply.Valid()
    ensures var s, n := StateAfter(steps), |StateAfter(steps).reactors|;
      && IsRun(steps + Served(n, route, reply))
      && StateAfter(steps + Served(n, route, reply)) ==
         State(MetricsWhenDone(MetricsAfter(s.metrics, reply, route), reply, route),
               s.reactors + [Reactor(route, reply, |reply.Script()|, true)],
               s.finishes + [FinishCall(n, route, reply.Status())])
  {
    var s, n := StateAfter(steps), |StateAfter(steps).reactors|;
    var run := ConstructorIsARun(steps, route, reply);
    DoneStep(s, route, reply);
    hide Next, Enabled, Constructed;
    RunNext(run, Step.OnDone(n));
  }

  // --------------------------------------------------------------- authentication

  type Metadata = seq<(string, string)>

  predicate Authorized(accessToken: Option<string>, metadata: Metadata) {
    accessToken.Some? ==> accessToken.value == "" || ("x-custom-auth-token", accessToken.value) in metadata
  }

  /** A service without a token serves anyone, and so does a blank token; any other must be among the metadata. */
  lemma {:induction false} AuthorizedExactlyWhen(accessToken: Option<string>, metadata: Metadata)
    ensures Authorized(accessToken, metadata) <==>
      || accessToken == None || accessToken == Some("")
      || exists item :: item in metadata && item.0 == "x-custom-auth-token" && Some(item.1) == accessToken
  {
  }

  method ValidateClient(metadata: Metadata, accessToken: string) returns (valid: bool)
    ensures valid <==> Authorized(Some(accessToken), metadata)
  {
    if accessToken == "" {
      return true;
    }
    for i := 0 to |metadata|
      invariant ("x-custom-auth-token", accessToken) !in metadata[..i]
    {
      var item := metadata[i];
      if item.0 == "x-custom-auth-token" {
        if item.1 == accessToken {
          return true;
        }
      }
    }
    assert metadata[..|metadata|] == metadata;
    return false;
  }

  // ---------------------------------------------------------------- observations

  /** The counter for an exception caught while unpacking. */
  function CounterFor(exception: Exception): Counter {
    if exception == InvalidArgument then ClientError else ServerError
  }

  /** All measurements' observations, or what the first bad measurement throws. */
  function Observed(measurements: seq<Measurement>, hypocenter: Hypocenter,
      geodesic: Geodesic): Expected<seq<ObservationImpl>, Exception> {
    if measurements == [] then Value([])
    else
      var n := |measurements| - 1;
      match Observed(measurements[..n], hypocenter, geodesic)
      case Unexpected(exception) => Unexpected(exception)
      case Value(before) =>
        match ObservationDescribed(measurements[n], hypocenter, geodesic)
        case Unexpected(exception) => Unexpected(exception)
        case Value(observation) => Value(before + [observation])
  }

  lemma {:induction false} FirstBadMeasurementDecides(measurements: seq<Measurement>, k: nat, hypocenter: Hypocenter,
      geodesic: Geodesic)
    requires k <= |measurements| && Observed(measurements[..k], hypocenter, geodesic).Unexpected?
    ensures Observed(measurements, hypocenter, geodesic) == Observed(measurements[..k], hypocenter, geodesic)
    decreases |measurements|
  {
    if k == |measurements| {
      assert measurements[..k] == measurements;
    } else {
      var n := |measurements| - 1;
      assert measurements[..n][..k] == measurements[..k];
      FirstBadMeasurementDecides(measurements[..n], k, hypocenter, geodesic);
    }
  }

  /** Every observation of a request is sound and lacks nothing. */
  lemma {:induction false} ObservedAreComplete(measurements: seq<Measurement>, hypocenter: Hypocenter,
      geodesic: Geodesic)
    requires Observed(measurements, hypocenter, geodesic).Value?
    ensures var observations := Observed(measurements, hypocenter, geodesic).value;
      && |observations| == |measurements|
      && AllValid(observations)
      && forall i :: 0 <= i < |observations| ==>
        observations[i].hasAmplitudes && observations[i].hasEpicentralDistance && observations[i].hasSourceDepth
  {
    if measurements != [] {
      var n := |measurements| - 1;
      ObservedAreComplete(measurements[..n], hypocenter, geodesic);
      DescribedObservationsAreComplete(measurements[n], hypocenter, geodesic);
    }
  }

  /** The packing loop of the network request. */
  method PackObservations(measurements: seq<Measurement>, hypocenter: Hypocenter, geodesic: Geodesic)
    returns (r: Expected<seq<ObservationImpl>, Exception>)
    ensures r == Observed(measurements, hypocenter, geodesic)
  {
    var observations: seq<ObservationImpl> := [];
    for i := 0 to |measurements|
      invariant Observed(measurements[..i], hypocenter, geodesic) == Value(observations)
    {
      var observation := ObservationFromMeasurement(measurements[i], hypocenter, geodesic);
      assert measurements[..i + 1][..i] == measurements[..i];
      if observation.Unexpected? {
        FirstBadMeasurementDecides(measurements, i + 1, hypocenter, geodesic);
        return Unexpected(observation.error);
      }
      observations := observations + [observation.value];
    }
    assert measurements[..|measurements|] == measurements;
    return Value(observations);
  }

  // ------------------------------------------------------------ network magnitude

  datatype StationMagnitudeMessage = StationMagnitudeMessage(
    amplitude1: AmplitudeMessage, amplitude2: AmplitudeMessage, value: real, stationCorrection: real,
    distanceCorrection: real)

  function StationMagnitudeToMessage(s: StationMagnitudeImpl): StationMagnitudeMessage
    requires s.Complete() && Compatible(s.amplitudes)
  {
    StationMagnitudeMessage(AmplitudeToMessage(s.amplitudes.first), AmplitudeToMessage(s.amplitudes.second), s.value,
                            s.stationCorrection, s.distanceCorrection)
  }

  datatype ResidualMessage = ResidualMessage(
    residual: real, identifier: StationIdentifierImpl, stationMagnitude: StationMagnitudeMessage,
    observationNumber: int)

  ghost predicate Sendable(r: NumberedResidual) {
    && r.residual.hasValue && r.residual.hasStationMagnitude
    && r.residual.stationMagnitude.Complete() && Compatible(r.residual.stationMagnitude.amplitudes)
  }

  function ResidualToMessage(r: NumberedResidual): ResidualMessage
    requires Sendable(r)
  {
    var s := r.residual.stationMagnitude;
    ResidualMessage(r.residual.value,
                    StationIdentifierImpl(s.amplitudes.first.identifier.network, s.amplitudes.first.identifier.station),
                    StationMagnitudeToMessage(s), r.observationNumber)
  }

  class NetworkResponse {
    var value: Option<real>
    var stationMagnitudesAndResiduals: seq<ResidualMessage>
    var rejectedObservations: seq<RejectionMessage>

    constructor ()
      ensures value == None && stationMagnitudesAndResiduals == [] && rejectedObservations == []
    {
      value := None;
      stationMagnitudesAndResiduals := [];
      rejectedObservations := [];
    }

    /** The response carries this magnitude. */
    ghost predicate Carries(magnitude: NetworkMagnitudeImpl)
      reads this
    {
      && value == Some(magnitude.value)
      && |stationMagnitudesAndResiduals| == |magnitude.residuals|
      && (forall i :: 0 <= i < |magnitude.residuals| ==>
           && Sendable(magnitude.residuals[i])
           && stationMagnitudesAndResiduals[i] == ResidualToMessage(magnitude.residuals[i]))
      && |rejectedObservations| == |magnitude.rejectedObservations|
      && (forall i :: 0 <= i < |rejectedObservations| ==>
           rejectedObservations[i] == RejectionMessage(ReasonFor(magnitude.rejectedObservations[i].reason),
                                                       magnitude.rejectedObservations[i].observationNumber))
    }

    method Fill(magnitude: NetworkMagnitudeImpl)
      requires value == None && stationMagnitudesAndResiduals == [] && rejectedObservations == []
      requires magnitude.hasRejectedObservations
      requires forall i :: 0 <= i < |magnitude.residuals| ==> Sendable(magnitude.residuals[i])
      modifies this
      ensures Carries(magnitude)
    {
      value := Some(magnitude.value);
      for i := 0 to |magnitude.residuals|
        invariant value == Some(magnitude.value) && rejectedObservations == []
        invariant |stationMagnitudesAndResiduals| == i
        invariant forall k :: 0 <= k < i ==>
          stationMagnitudesAndResiduals[k] == ResidualToMessage(magnitude.residuals[k])
      {
        stationMagnitudesAndResiduals := stationMagnitudesAndResiduals + [ResidualToMessage(magnitude.residuals[i])];
      }
      var rejected := ToRejectedObservationsMessage(magnitude);
      assert rejected.Value?;
      rejectedObservations := rejectedObservations + rejected.value;
    }
  }

  datatype NetworkRequest = NetworkRequest(hypocenter: Option<HypocenterMessage>, measurements: seq<Measurement>)

  /** How a network request is answered. */
  ghost function NetworkReply(c: NetworkMagnitudeCalculator, m: MathLibrary, geodesic: Geodesic,
      accessToken: Option<string>, metadata: Metadata, request: NetworkRequest): Reply
    requires c.Valid()
  {
    if !Authorized(accessToken, metadata) then Rejected(Unauthenticated)
    else if request.hypocenter.None? || HypocenterDescribed(request.hypocenter.value).None? then Rejected(ClientError)
    else
      var hypocenter := HypocenterDescribed(request.hypocenter.value).value;
      match Observed(request.measurements, hypocenter, geodesic)
      case Unexpected(exception) => Rejected(CounterFor(exception))
      case Value(observations) =>
        ObservedAreComplete(request.measurements, hypocenter, geodesic);
        if observations == [] then Rejected(ClientError)
        else
          match c.NetworkResult(m, observations)
          case Value(_) => Reply.Accepted
          case Unexpected(error) =>
            Rejected(if error in {TooFewObservations, NoObservations, DuplicateObservations} then ClientError
                     else ServerError)
  }

  lemma {:induction false} NetworkResidualsAreSendable(c: NetworkMagnitudeCalculator, m: MathLibrary,
      observations: seq<ObservationImpl>, magnitude: NetworkMagnitudeImpl)
    requires c.Valid() && AllValid(observations) && c.NetworkResult(m, observations) == Value(magnitude)
    ensures magnitude.hasRejectedObservations
    ensures forall i :: 0 <= i < |magnitude.residuals| ==> Sendable(magnitude.residuals[i])
  {
    forall i | 0 <= i < |magnitude.residuals| ensures Sendable(magnitude.residuals[i]) {
      var r := magnitude.residuals[i];
      ResidualOrigin(c, m, observations, magnitude, r);
      c.StationMagnitudesAreComplete(m, observations[r.observationNumber - 1]);
      hide NetworkMagnitudeCalculator.StationResult, NetworkMagnitudeCalculator.Valid,
           NetworkMagnitudeCalculator.NetworkResult;
    }
  }

  /** The reactor of a network request. What it does that others can see is its reply's script, and an
      accepted request's response carries the network magnitude of its observations. */
  method ComputeNetworkMagnitudeFromAmplitudes(c: NetworkMagnitudeCalculator, m: MathLibrary, geodesic: Geodesic,
      metrics: Singleton, accessToken: Option<string>, metadata: Metadata, request: NetworkRequest,
      response: NetworkResponse)
    returns (reactor: RequestReactor)
    requires c.Valid()
    requires response.value == None
    requires response.stationMagnitudesAndResiduals == [] && response.rejectedObservations == []
    modifies metrics, response
    ensures fresh(reactor) && reactor.route == NETWORK_ROUTE
    ensures var reply := NetworkReply(c, m, geodesic, accessToken, metadata, request);
      && reactor.Gave(reply)
      && metrics.impl == MetricsAfter(old(metrics.impl), reply, NETWORK_ROUTE)
      && (reply.Accepted? ==>
           var observations :=
             Observed(request.measurements, HypocenterDescribed(request.hypocenter.value).value, geodesic).value;
           AllValid(observations) && response.Carries(c.NetworkResult(m, observations).value))
  {
    hide NetworkMagnitudeCalculator.NetworkResult, HypocenterDescribed, ObservationDescribed;
    reactor := new RequestReactor(NETWORK_ROUTE);
    if accessToken != None {
      var valid := ValidateClient(metadata, accessToken.value);
      if !valid {
        reactor.Refuse(metrics, Unauthenticated);
        return;
      }
    }
    if request.hypocenter.None? {
      reactor.Refuse(metrics, ClientError);
      return;
    }
    var hypocenter := HypocenterDescribed(request.hypocenter.value);
    if hypocenter.None? {
      reactor.Refuse(metrics, ClientError);
      return;
    }
    var observations := PackObservations(request.measurements, hypocenter.value, geodesic);
    if observations.Unexpected? {
      reactor.Refuse(metrics, if observations.error == InvalidArgument then ClientError else ServerError);
      return;
    }
    if observations.value == [] {
      reactor.Refuse(metrics, ClientError);
      return;
    }
    ObservedAreComplete(request.measurements, hypocenter.value, geodesic);
    var magnitudeResult := c.Apply(m, observations.value);
    if magnitudeResult.Value? {
      NetworkResidualsAreSendable(c, m, observations.value, magnitudeResult.value);
      response.Fill(magnitudeResult.value);
    } else if magnitudeResult.error == TooFewObservations {
      reactor.Refuse(metrics, ClientError);
      return;
    } else if magnitudeResult.error == NoObservations {
      reactor.Refuse(metrics, ClientError);
      return;
    } else if magnitudeResult.error == DuplicateObservations {
      reactor.Refuse(metrics, ClientError);
      return;
    } else if magnitudeResult.error == ErrorCode.Uninitialized {
      reactor.Refuse(metrics, ServerError);
      return;
    } else if magnitudeResult.error == ErrorCode.Algorithm {
      reactor.Refuse(metrics, ServerError);
      return;
    } else {
      reactor.Refuse(metrics, ServerError);
      return;
    }
    reactor.Succeed();
  }

  // ------------------------------------------------------------ station magnitudes

  /** The messages of the observations that have a station magnitude, in input order. */
  ghost function StationMessages(c: NetworkMagnitudeCalculator, m: MathLibrary,
      observations: seq<ObservationImpl>): seq<StationMagnitudeMessage>
    requires c.Valid() && AllValid(observations)
  {
    if observations == [] then []
    else
      var last := observations[|observations| - 1];
      c.StationMagnitudesAreComplete(m, last);
      StationMessages(c, m, observations[..|observations| - 1]) +
      if c.StationResult(m, last).Value? then [StationMagnitudeToMessage(c.StationResult(m, last).value)] else []
  }

  /** How a station magnitudes request is answered; no station needs to have a magnitude. */
  ghost function StationReply(geodesic: Geodesic, accessToken: Option<string>, metadata: Metadata,
      request: NetworkRequest): Reply {
    if !Authorized(accessToken, metadata) then Rejected(Unauthenticated)
    else if request.hypocenter.None? || HypocenterDescribed(request.hypocenter.value).None? then Rejected(ClientError)
    else
      match Observed(request.measurements, HypocenterDescribed(request.hypocenter.value).value, geodesic)
      case Unexpected(exception) => Rejected(CounterFor(exception))
      case Value(_) => Reply.Accepted
  }

  class StationResponse {
    var stationMagnitudes: seq<StationMagnitudeMessage>

    constructor ()
      ensures stationMagnitudes == []
    {
      stationMagnitudes := [];
    }
  }

  /** One measurement's turn of the loop: its observation, and its magnitude if it has one. */
  method AddStationMagnitude(c: NetworkMagnitudeCalculator, m: MathLibrary, geodesic: Geodesic,
      measurement: Measurement, hypocenter: Hypocenter, response: StationResponse, ghost before: seq<ObservationImpl>)
    returns (r: Expected<(), Exception>)
    requires c.Valid() && AllValid(before) && response.stationMagnitudes == StationMessages(c, m, before)
    modifies response
    ensures r.Unexpected? <==> ObservationDescribed(measurement, hypocenter, geodesic).Unexpected?
    ensures r.Unexpected? ==> r.error == ObservationDescribed(measurement, hypocenter, geodesic).error
    ensures r.Value? ==>
      var o := ObservationDescribed(measurement, hypocenter, geodesic).value;
      AllValid(before + [o]) && response.stationMagnitudes == StationMessages(c, m, before + [o])
  {
    var observation := ObservationFromMeasurement(measurement, hypocenter, geodesic);
    if observation.Unexpected? {
      return Unexpected(observation.error);
    }
    var o := observation.value;
    DescribedObservationsAreComplete(measurement, hypocenter, geodesic);
    assert (before + [o])[..|before|] == before;
    var stationMagnitude := c.ComputeStationMagnitude(m, o);
    c.StationMagnitudesAreComplete(m, o);
    if stationMagnitude.Value? {
      response.stationMagnitudes := response.stationMagnitudes + [StationMagnitudeToMessage(stationMagnitude.value)];
    }
    return Value(());
  }

  /** The loop: every measurement in turn, up to the first bad one. */
  method AddStationMagnitudes(c: NetworkMagnitudeCalculator, m: MathLibrary, geodesic: Geodesic,
      measurements: seq<Measurement>, hypocenter: Hypocenter, response: StationResponse)
    returns (r: Expected<(), Exception>)
    requires c.Valid() && response.stationMagnitudes == []
    modifies response
    ensures r.Unexpected? <==> Observed(measurements, hypocenter, geodesic).Unexpected?
    ensures r.Unexpected? ==> r.error == Observed(measurements, hypocenter, geodesic).error
    ensures r.Value? ==>
      var observations := Observed(measurements, hypocenter, geodesic).value;
      AllValid(observations) && response.stationMagnitudes == StationMessages(c, m, observations)
  {
    ghost var observations: seq<ObservationImpl> := [];
    for i := 0 to |measurements|
      invariant Observed(measurements[..i], hypocenter, geodesic) == Value(observations)
      invariant AllValid(observations) && response.stationMagnitudes == StationMessages(c, m, observations)
    {
      assert measurements[..i + 1][..i] == measurements[..i];
      var added := AddStationMagnitude(c, m, geodesic, measurements[i], hypocenter, response, observations);
      if added.Unexpected? {
        FirstBadMeasurementDecides(measurements, i + 1, hypocenter, geodesic);
        return Unexpected(added.error);
      }
      observations := observations + [ObservationDescribed(measurements[i], hypocenter, geodesic).value];
    }
    assert measurements[..|measurements|] == measurements;
    return Value(());
  }

  /** The reactor of a station magnitudes request. */
  method ComputeStationMagnitudesFromAmplitudes(c: NetworkMagnitudeCalculator, m: MathLibrary, geodesic: Geodesic,
      metrics: Singleton, accessToken: Option<string>, metadata: Metadata, request: NetworkRequest,
      response: StationResponse)
    returns (reactor: RequestReactor)
    requires c.Valid() && response.stationMagnitudes == []
    modifies metrics, response
    ensures fresh(reactor) && reactor.route == STATION_ROUTE
    ensures var reply := StationReply(geodesic, accessToken, metadata, request);
      && reactor.Gave(reply)
      && metrics.impl == MetricsAfter(old(metrics.impl), reply, STATION_ROUTE)
      && (reply.Accepted? ==>
           var observations :=
             Observed(request.measurements, HypocenterDescribed(request.hypocenter.value).value, geodesic).value;
           AllValid(observations) && response.stationMagnitudes == StationMessages(c, m, observations))
  {
    reactor := new RequestReactor(STATION_ROUTE);
    if accessToken != None {
      var valid := ValidateClient(metadata, accessToken.value);
      if !valid {
        reactor.Refuse(metrics, Unauthenticated);
        return;
      }
    }
    if request.hypocenter.None? {
      reactor.Refuse(metrics, ClientError);
      return;
    }
    var described := HypocenterDescribed(request.hypocenter.value);
    if described.None? {
      reactor.Refuse(metrics, ClientError);
      return;
    }
    var added := AddStationMagnitudes(c, m, geodesic, request.measurements, described.value, response);
    if added.Unexpected? {
      reactor.Refuse(metrics, if added.error == InvalidArgument then ClientError else ServerError);
      return;
    }
    reactor.Succeed();
  }

  // ------------------------------------------------------------ station corrections

  datatype CorrectionMessage = CorrectionMessage(station: StationMessage, value: real, found: bool)

  class CorrectionsResponse {
    var stationCorrections: seq<CorrectionMessage>

    constructor ()
      ensures stationCorrections == []
    {
      stationCorrections := [];
    }
  }

  /** The answer for one station: its correction, or 0 and the word that there is none. */
  ghost predicate Answers(c: NetworkMagnitudeCalculator, asked: StationMessage, answer: CorrectionMessage)
    requires DescribesStation(asked)
  {
    var name := StationDescribed(asked).Name();
    && answer.station == asked
    && (answer.found <==> name in c.options.stationCorrections)
    && answer.value ==
       if name in c.options.stationCorrections then c.options.stationCorrections[name].correction else 0.0
  }

  ghost function CorrectionsReply(accessToken: Option<string>, metadata: Metadata,
      stations: seq<StationMessage>): Reply {
    if !Authorized(accessToken, metadata) then Rejected(Unauthenticated)
    else if exists i :: 0 <= i < |stations| && !DescribesStation(stations[i]) then Rejected(ClientError)
    else Reply.Accepted
  }

  /** The reactor of a station corrections request. It never counts a server error. */
  method GetStationCorrections(c: NetworkMagnitudeCalculator, metrics: Singleton, accessToken: Option<string>,
      metadata: Metadata, stations: seq<StationMessage>, response: CorrectionsResponse)
    returns (reactor: RequestReactor)
    requires c.Valid() && c.initialized && response.stationCorrections == []
    modifies metrics, response
    ensures fresh(reactor) && reactor.route == CORRECTIONS_ROUTE
    ensures var reply := CorrectionsReply(accessToken, metadata, stations);
      && reactor.Gave(reply)
      && metrics.impl == MetricsAfter(old(metrics.impl), reply, CORRECTIONS_ROUTE)
      && (reply.Accepted? ==>
           && |response.stationCorrections| == |stations|
           && forall i :: 0 <= i < |stations| ==>
             DescribesStation(stations[i]) && Answers(c, stations[i], response.stationCorrections[i]))
  {
    reactor := new RequestReactor(CORRECTIONS_ROUTE);
    if accessToken != None {
      var valid := ValidateClient(metadata, accessToken.value);
      if !valid {
        reactor.Refuse(metrics, Unauthenticated);
        return;
      }
    }
    for i := 0 to |stations|
      invariant |response.stationCorrections| == i
      invariant forall k :: 0 <= k < i ==>
        DescribesStation(stations[k]) && Answers(c, stations[k], response.stationCorrections[k])
      invariant reactor.happened == [] && !reactor.success && fresh(reactor) && reactor.route == CORRECTIONS_ROUTE
      invariant metrics.impl == old(metrics.impl)
    {
      var identifier := StationFromMessage(stations[i]);
      if identifier.Unexpected? {
        assert !DescribesStation(stations[i]);
        reactor.Refuse(metrics, ClientError);
        return;
      }
      var correction := c.GetStationCorrection(identifier.value);
      assert correction.Value?; // so its exceptions, which count as server errors, are out of reach
      var answer := if correction.value.Some? then CorrectionMessage(stations[i], correction.value.value, true)
                    else CorrectionMessage(stations[i], 0.0, false);
      response.stationCorrections := response.stationCorrections + [answer];
    }
    reactor.Succeed();
  }

  // ---------------------------------------------------------------------- theorems

  /** Observations of an authorized request whose hypocenter and measurements are well formed. */
  ghost predicate Unpacks(geodesic: Geodesic, accessToken: Option<string>, metadata: Metadata,
      request: NetworkRequest, observations: seq<ObservationImpl>)
  {
    && Authorized(accessToken, metadata)
    && request.hypocenter.Some? && HypocenterDescribed(request.hypocenter.value).Some?
    && Observed(request.measurements, HypocenterDescribed(request.hypocenter.value).value, geodesic) ==
       Value(observations)
  }

  /** The first measurement that is not an observation. */
  ghost predicate FirstBad(measurements: seq<Measurement>, hypocenter: Hypocenter, geodesic: Geodesic, k: nat) {
    && k < |measurements| && ObservationDescribed(measurements[k], hypocenter, geodesic).Unexpected?
    && forall j :: 0 <= j < k ==> ObservationDescribed(measurements[j], hypocenter, geodesic).Value?
  }

  /** Measurements unpack exactly when each is an observation, and then to those in order; otherwise the first that is
      not one decides what is thrown. */
  lemma {:induction false} ObservedExactlyWhen(measurements: seq<Measurement>, hypocenter: Hypocenter,
      geodesic: Geodesic)
    ensures Observed(measurements, hypocenter, geodesic).Value? <==>
      forall i :: 0 <= i < |measurements| ==> ObservationDescribed(measurements[i], hypocenter, geodesic).Value?
    ensures Observed(measurements, hypocenter, geodesic).Value? ==>
      var observations := Observed(measurements, hypocenter, geodesic).value;
      && |observations| == |measurements|
      && forall i :: 0 <= i < |measurements| ==>
        ObservationDescribed(measurements[i], hypocenter, geodesic) == Value(observations[i])
    ensures Observed(measurements, hypocenter, geodesic).Unexpected? <==>
      exists k: nat :: FirstBad(measurements, hypocenter, geodesic, k)
    ensures forall k: nat :: FirstBad(measurements, hypocenter, geodesic, k) ==>
      Observed(measurements, hypocenter, geodesic) ==
      Unexpected(ObservationDescribed(measurements[k], hypocenter, geodesic).error)
  {
    hide ObservationDescribed;
    if measurements != [] {
      var n := |measurements| - 1;
      var before := measurements[..n];
      ObservedExactlyWhen(before, hypocenter, geodesic);
      forall k: nat
        ensures k < n ==>
          (FirstBad(before, hypocenter, geodesic, k) <==> FirstBad(measurements, hypocenter, geodesic, k))
        ensures FirstBad(before, hypocenter, geodesic, k) ==> k < n && FirstBad(measurements, hypocenter, geodesic, k)
      {
      }
      if Observed(before, hypocenter, geodesic).Value? {
        assert FirstBad(measurements, hypocenter, geodesic, n) <==>
               ObservationDescribed(measurements[n], hypocenter, geodesic).Unexpected?;
      }
    }
  }

  /** How a request that does not unpack is answered, whichever route it takes: refused as unauthenticated exactly
      when it is not authorized; as the client's error when its hypocenter is missing or malformed or its first bad
      measurement is invalid; as the server's exactly when its first bad measurement throws anything else. */
  ghost predicate RefusedAsItShould(reply: Reply, geodesic: Geodesic, accessToken: Option<string>,
      metadata: Metadata, request: NetworkRequest)
  {
    && (reply == Rejected(Unauthenticated) <==> !Authorized(accessToken, metadata))
    && (Authorized(accessToken, metadata)
        && (request.hypocenter.None? || HypocenterDescribed(request.hypocenter.value).None?) ==>
         reply == Rejected(ClientError))
    && (Authorized(accessToken, metadata)
        && request.hypocenter.Some? && HypocenterDescribed(request.hypocenter.value).Some? ==>
         var hypocenter := HypocenterDescribed(request.hypocenter.value).value;
         forall k: nat :: FirstBad(request.measurements, hypocenter, geodesic, k) ==>
           if ObservationDescribed(request.measurements[k], hypocenter, geodesic).error == InvalidArgument
           then reply == Rejected(ClientError)
           else reply == Rejected(ServerError))
  }

  lemma {:induction false} BadRequestsAreRefused(c: NetworkMagnitudeCalculator, m: MathLibrary, geodesic: Geodesic,
      accessToken: Option<string>, metadata: Metadata, request: NetworkRequest)
    requires c.Valid()
    ensures RefusedAsItShould(NetworkReply(c, m, geodesic, accessToken, metadata, request),
                              geodesic, accessToken, metadata, request)
    ensures RefusedAsItShould(StationReply(geodesic, accessToken, metadata, request),
                              geodesic, accessToken, metadata, request)
  {
    hide ObservationDescribed, Authorized, NetworkMagnitudeCalculator.NetworkResult, NetworkMagnitudeCalculator.Valid;
    if request.hypocenter.Some? && HypocenterDescribed(request.hypocenter.value).Some? {
      ObservedExactlyWhen(request.measurements, HypocenterDescribed(request.hypocenter.value).value, geodesic);
    }
  }

  /** A station magnitudes request is accepted exactly when it unpacks, and is the server's error exactly when
      the geodesic library throws what is not an invalid argument for its first bad measurement. */
  lemma {:induction false} StationRequestOutcome(geodesic: Geodesic, accessToken: Option<string>, metadata: Metadata,
      request: NetworkRequest)
    ensures var reply := StationReply(geodesic, accessToken, metadata, request);
      && (reply == Reply.Accepted <==>
           && Authorized(accessToken, metadata)
           && request.hypocenter.Some? && HypocenterDescribed(request.hypocenter.value).Some?
           && forall i :: 0 <= i < |request.measurements| ==>
             ObservationDescribed(request.measurements[i], HypocenterDescribed(request.hypocenter.value).value,
                                  geodesic).Value?)
      && (reply == Rejected(ServerError) ==>
           && request.hypocenter.Some? && HypocenterDescribed(request.hypocenter.value).Some?
           && exists k: nat, exception :: k < |request.measurements| && exception != InvalidArgument
                && ThrownByGeodesic(request.measurements[k], HypocenterDescribed(request.hypocenter.value).value,
                                    geodesic, exception))
  {
    if request.hypocenter.Some? && HypocenterDescribed(request.hypocenter.value).Some? {
      var hypocenter := HypocenterDescribed(request.hypocenter.value).value;
      ObservedExactlyWhen(request.measurements, hypocenter, geodesic);
      if StationReply(geodesic, accessToken, metadata, request) == Rejected(ServerError) {
        var k: nat :| FirstBad(request.measurements, hypocenter, geodesic, k);
        MeasurementDecides(request.measurements[k], hypocenter, geodesic);
        assert ThrownByGeodesic(request.measurements[k], hypocenter, geodesic,
                                ObservationDescribed(request.measurements[k], hypocenter, geodesic).error);
      }
    }
  }

  /** The geodesic library throws this for a measurement that names what it should. */
  ghost predicate ThrownByGeodesic(m: Measurement, hypocenter: Hypocenter, geodesic: Geodesic, exception: Exception) {
    Placed(m) && geodesic(hypocenter, LocationDescribed(m.location.value).value) == Unexpected(exception)
  }

  /** Only three errors of the calculator can reach the service: its observations lack nothing, there are
      some, and its calculator is initialized. */
  lemma {:induction false} ErrorsThatReachTheService(c: NetworkMagnitudeCalculator, m: MathLibrary,
      geodesic: Geodesic, accessToken: Option<string>, metadata: Metadata, request: NetworkRequest,
      observations: seq<ObservationImpl>)
    requires Ready(c, m) && Unpacks(geodesic, accessToken, metadata, request, observations) && observations != []
    ensures AllValid(observations) && c.AllComplete(observations)
    ensures c.NetworkResult(m, observations).Unexpected? ==>
      c.NetworkResult(m, observations).error in {DuplicateObservations, TooFewObservations, ErrorCode.Algorithm}
  {
    ObservedAreComplete(request.measurements, HypocenterDescribed(request.hypocenter.value).value, geodesic);
  }

  /** Once a request's observations unpack, it is accepted exactly when they name different stations, enough of
      them are usable and their mean is in range; it is the server's error exactly when only the mean
      is out of range, and the client's in every other case. */
  lemma {:induction false} NetworkRequestOutcome(c: NetworkMagnitudeCalculator, m: MathLibrary, geodesic: Geodesic,
      accessToken: Option<string>, metadata: Metadata, request: NetworkRequest, observations: seq<ObservationImpl>)
    requires Ready(c, m) && Unpacks(geodesic, accessToken, metadata, request, observations)
    ensures AllValid(observations) && c.AllComplete(observations)
    ensures var reply := NetworkReply(c, m, geodesic, accessToken, metadata, request);
      var usable := UsableValues(c, m, observations);
      var enough := observations != [] && DistinctStations(observations)
                    && |usable| >= Max(1, c.options.minimumNumberOfStationMagnitudes);
      && (reply == Reply.Accepted <==> enough && ValueInRange(Mean(usable)))
      && (reply == Rejected(ServerError) <==> enough && !ValueInRange(Mean(usable)))
      && (reply == Rejected(ClientError) <==> !enough)
  {
    ObservedAreComplete(request.measurements, HypocenterDescribed(request.hypocenter.value).value, geodesic);
    if observations != [] {
      ErrorsThatReachTheService(c, m, geodesic, accessToken, metadata, request, observations);
      SucceedsExactlyWhen(c, m, observations);
      ErrorsInOrder(c, m, observations);
      hide NetworkMagnitudeCalculator.NetworkResult, NetworkMagnitudeCalculator.Valid, Mean, ValueInRange,
           DistinctStations, HypocenterDescribed, ObservationDescribed;
    }
  }

  /** A client is told of no reason but a missing correction and a station too close or too far. */
  lemma {:induction false} ReasonsToldToClients(c: NetworkMagnitudeCalculator, m: MathLibrary, geodesic: Geodesic,
      accessToken: Option<string>, metadata: Metadata, request: NetworkRequest, observations: seq<ObservationImpl>,
      k: nat)
    requires Ready(c, m) && Unpacks(geodesic, accessToken, metadata, request, observations)
    requires AllValid(observations) && c.NetworkResult(m, observations).Value?
    requires k < |c.NetworkResult(m, observations).value.rejectedObservations|
    ensures ReasonFor(c.NetworkResult(m, observations).value.rejectedObservations[k].reason)
            in {REASON_NO_STATION_CORRECTION, REASON_TOO_CLOSE, REASON_TOO_FAR}
  {
    OnlyThreeRejectionReasons(c, m, observations, c.NetworkResult(m, observations).value.rejectedObservations[k]);
  }

  /** Every rejection in a response is told with the right reason, under the number of its observation. */
  lemma {:induction false} ClientsAreToldTheRightReason(c: NetworkMagnitudeCalculator, m: MathLibrary,
      observations: seq<ObservationImpl>, response: NetworkResponse, k: nat)
    requires Ready(c, m) && AllValid(observations) && c.NetworkResult(m, observations).Value?
    requires response.Carries(c.NetworkResult(m, observations).value) && k < |response.rejectedObservations|
    ensures 1 <= response.rejectedObservations[k].observationNumber <= |observations|
    ensures var line := response.rejectedObservations[k];
      var o := observations[line.observationNumber - 1];
      && (line.reason == REASON_NO_STATION_CORRECTION <==> o.stationName !in c.options.stationCorrections)
      && (line.reason == REASON_TOO_CLOSE <==>
           o.stationName in c.options.stationCorrections && DistanceEntered(c, m, o) < Table(c).minimum)
      && (line.reason == REASON_TOO_FAR <==>
           o.stationName in c.options.stationCorrections && Table(c).maximum < DistanceEntered(c, m, o))
  {
    RejectionReasonsAreRight(c, m, observations, c.NetworkResult(m, observations).value.rejectedObservations[k]);
    hide NetworkMagnitudeCalculator.NetworkResult, NetworkMagnitudeCalculator.Valid, Ready, ReasonFor;
  }

  /** A station's line in a response speaks of this observation: it names its station, its amplitudes read back
      as those sent, its magnitude and corrections are that station's, and magnitude and residual add up to the
      network value. */
  ghost predicate SpeaksOf(line: ResidualMessage, sent: ObservationImpl, outcome: StationOutcome, networkValue: real)
  {
    && outcome.Value?
    && line.identifier.Name() == sent.stationName
    && line.stationMagnitude.value == outcome.value.value
    && line.stationMagnitude.stationCorrection == outcome.value.stationCorrection
    && line.stationMagnitude.distanceCorrection == outcome.value.distanceCorrection
    && AmplitudeDescribed(line.stationMagnitude.amplitude1) == Some(sent.amplitudes.first)
    && AmplitudeDescribed(line.stationMagnitude.amplitude2) == Some(sent.amplitudes.second)
    && line.stationMagnitude.value + line.residual == networkValue
  }

  lemma {:induction false} LineSpeaksOfItsObservation(c: NetworkMagnitudeCalculator, m: MathLibrary,
      sent: ObservationImpl, r: NumberedResidual, networkValue: real)
    requires Ready(c, m) && sent.Valid() && c.Complete(sent) && Sendable(r)
    requires c.StationResult(m, sent) == Value(r.residual.stationMagnitude)
    requires r.residual.stationMagnitude.value + r.residual.value == networkValue
    ensures SpeaksOf(ResidualToMessage(r), sent, c.StationResult(m, sent), networkValue)
  {
    CompleteObservationOutcome(c, m, sent);
    AmplitudeRoundTrip(sent.amplitudes.first);
    AmplitudeRoundTrip(sent.amplitudes.second);
  }

  /** A client can tie every station's line back to the observation it sent under that number. */
  lemma {:induction false} ResponseTiesBackToRequest(c: NetworkMagnitudeCalculator, m: MathLibrary,
      observations: seq<ObservationImpl>, magnitude: NetworkMagnitudeImpl, i: nat)
    requires Ready(c, m) && AllValid(observations) && c.NetworkResult(m, observations) == Value(magnitude)
    requires i < |magnitude.residuals| && Sendable(magnitude.residuals[i])
    ensures var line := ResidualToMessage(magnitude.residuals[i]);
      && 1 <= line.observationNumber <= |observations|
      && var sent := observations[line.observationNumber - 1];
        SpeaksOf(line, sent, c.StationResult(m, sent), magnitude.value)
  {
    hide NetworkMagnitudeCalculator.StationResult, NetworkMagnitudeCalculator.Valid,
         NetworkMagnitudeCalculator.Complete, NetworkMagnitudeCalculator.NetworkResult, Sendable, SpeaksOf;
    var r := magnitude.residuals[i];
    ResidualOrigin(c, m, observations, magnitude, r);
    LineSpeaksOfItsObservation(c, m, observations[r.observationNumber - 1], r, magnitude.value);
  }

  lemma {:induction false} StationMessagesAppend(c: NetworkMagnitudeCalculator, m: MathLibrary,
      a: seq<ObservationImpl>, b: seq<ObservationImpl>)
    requires c.Valid() && AllValid(a) && AllValid(b)
    ensures AllValid(a + b)
    ensures StationMessages(c, m, a + b) == StationMessages(c, m, a) + StationMessages(c, m, b)
  {
    hide NetworkMagnitudeCalculator.StationResult, NetworkMagnitudeCalculator.Valid, StationMagnitudeToMessage;
    if b == [] {
      assert a + b == a;
    } else {
      var n := |b| - 1;
      StationMessagesAppend(c, m, a, b[..n]);
      assert (a + b)[..|a| + n] == a + b[..n];
    }
  }

  /** The station magnitudes are sent in input order: an observation anywhere adds its own message between those before
      and those after it, or nothing if it has no magnitude. */
  lemma {:induction false} StationMessagesInOrder(c: NetworkMagnitudeCalculator, m: MathLibrary,
      a: seq<ObservationImpl>, o: ObservationImpl, b: seq<ObservationImpl>)
    requires c.Valid() && AllValid(a) && o.Valid() && AllValid(b)
    ensures AllValid(a + [o] + b)
    ensures c.StationResult(m, o).Unexpected? ==>
      StationMessages(c, m, a + [o] + b) == StationMessages(c, m, a) + StationMessages(c, m, b)
    ensures c.StationResult(m, o).Value? ==>
      && c.StationResult(m, o).value.Complete() && Compatible(c.StationResult(m, o).value.amplitudes)
      && StationMessages(c, m, a + [o] + b) ==
         StationMessages(c, m, a) + [StationMagnitudeToMessage(c.StationResult(m, o).value)] + StationMessages(c, m, b)
  {
    c.StationMagnitudesAreComplete(m, o);
    hide NetworkMagnitudeCalculator.StationResult, NetworkMagnitudeCalculator.Valid, StationMagnitudeToMessage;
    StationMessagesAppend(c, m, a, [o]);
    StationMessagesAppend(c, m, a + [o], b);
    assert [o][..0] == [];
  }

  /** What is sent of a station magnitude: amplitudes that read back, and each number in its own field. */
  lemma {:induction false} StationMessageTells(s: StationMagnitudeImpl)
    requires s.Complete() && Compatible(s.amplitudes)
    ensures var message := StationMagnitudeToMessage(s);
      && AmplitudeDescribed(message.amplitude1) == Some(s.amplitudes.first)
      && AmplitudeDescribed(message.amplitude2) == Some(s.amplitudes.second)
      && message.value == s.value
      && message.stationCorrection == s.stationCorrection && message.distanceCorrection == s.distanceCorrection
  {
    AmplitudeRoundTrip(s.amplitudes.first);
    AmplitudeRoundTrip(s.amplitudes.second);
  }

  /** Spelling a station differently in blanks and case asks for the same correction. */
  lemma {:induction false} SpellingDoesNotMatter(asked: StationMessage, other: StationMessage)
    requires DescribesStation(asked) && other.network.Some? && other.station.Some?
    requires SameSpelling(asked.network.value, other.network.value)
    requires SameSpelling(asked.station.value, other.station.value)
    ensures DescribesStation(other) && StationDescribed(other) == StationDescribed(asked)
  {
    NormalFormDecidesSpelling(asked.network.value, other.network.value);
    NormalFormDecidesSpelling(asked.station.value, other.station.value);
  }
}
