/** src/magnitude/stationMagnitude.cpp, residual.cpp and networkMagnitude.cpp: the results
    the calculators package. */
module Magnitudes {
  import opened Results
  import opened Amplitudes
  import opened Observations

  // --------------------------------------------------------- station magnitude

  datatype StationMagnitudeImpl = StationMagnitudeImpl(
    amplitudes: AmplitudePair, stationName: string, value: real, stationCorrection: real, distanceCorrection: real,
    hasAmplitudes: bool, hasValue: bool, hasStationCorrection: bool, hasDistanceCorrection: bool)
  {
    predicate Complete() {
      hasAmplitudes && hasValue && hasStationCorrection && hasDistanceCorrection
    }
  }

  const NEW_STATION_MAGNITUDE := StationMagnitudeImpl(
    AmplitudePair(UNSET_AMPLITUDE, UNSET_AMPLITUDE), "", 0.0, 0.0, 0.0, false, false, false, false)

  class StationMagnitude {
    var impl: StationMagnitudeImpl

    constructor ()
      ensures impl == NEW_STATION_MAGNITUDE
    {
      impl := NEW_STATION_MAGNITUDE;
    }

    /** The value and correction setters throw only on numbers that are not finite. */
    method SetValue(value: real)
      modifies this
      ensures impl == old(impl).(value := value, hasValue := true)
    {
      impl := impl.(value := value, hasValue := true);
    }

    method SetStationCorrection(correction: real)
      modifies this
      ensures impl == old(impl).(stationCorrection := correction, hasStationCorrection := true)
    {
      impl := impl.(stationCorrection := correction, hasStationCorrection := true);
    }

    method SetDistanceCorrection(correction: real)
      modifies this
      ensures impl == old(impl).(distanceCorrection := correction, hasDistanceCorrection := true)
    {
      impl := impl.(distanceCorrection := correction, hasDistanceCorrection := true);
    }

    /** Checks the pair by setting it on an observation of its own. */
    method SetAmplitudes(pair: AmplitudePair) returns (r: Outcome)
      requires pair.first.Valid() && pair.second.Valid()
      modifies this
      ensures r == if Compatible(pair) then Pass else Throw(InvalidArgument)
      ensures impl == if r.Throw? then old(impl) else old(impl).(
        amplitudes := pair, stationName := pair.first.identifier.StationName(), hasAmplitudes := true)
    {
      var observation := new Observation();
      r := observation.SetAmplitudes(pair);
      if r.Throw? {
        return;
      }
      var amplitudes := observation.impl.amplitudes;
      var station := amplitudes.first.identifier.ToStationIdentifier();
      var name := station.value.ToString();
      impl := impl.(amplitudes := amplitudes, stationName := name.value, hasAmplitudes := true);
    }
  }

  // ------------------------------------------------------------------ residual

  datatype ResidualImpl = ResidualImpl(
    stationMagnitude: StationMagnitudeImpl, value: real, hasValue: bool, hasStationMagnitude: bool)

  class Residual {
    var impl: ResidualImpl

    constructor ()
      ensures impl == ResidualImpl(NEW_STATION_MAGNITUDE, 0.0, false, false)
    {
      impl := ResidualImpl(NEW_STATION_MAGNITUDE, 0.0, false, false);
    }

    method SetValue(value: real)
      modifies this
      ensures impl == old(impl).(value := value, hasValue := true)
    {
      impl := impl.(value := value, hasValue := true);
    }

    method SetStationMagnitude(stationMagnitude: StationMagnitudeImpl) returns (r: Outcome)
      modifies this
      ensures r == if stationMagnitude.Complete() then Pass else Throw(InvalidArgument)
      ensures r.Pass? <==>
        && stationMagnitude.hasValue && stationMagnitude.hasAmplitudes
        && stationMagnitude.hasDistanceCorrection && stationMagnitude.hasStationCorrection
      ensures impl == if r.Throw? then old(impl)
                      else old(impl).(stationMagnitude := stationMagnitude, hasStationMagnitude := true)
    {
      if !stationMagnitude.hasValue || !stationMagnitude.hasAmplitudes {
        return Throw(InvalidArgument);
      }
      if !stationMagnitude.hasDistanceCorrection || !stationMagnitude.hasStationCorrection {
        return Throw(InvalidArgument);
      }
      impl := impl.(stationMagnitude := stationMagnitude, hasStationMagnitude := true);
      return Pass;
    }
  }

  // --------------------------------------------------------- network magnitude

  /** Why a station's magnitude could not be computed. */
  datatype StationErrorCode =
    | ObservationMissingAmplitudes | ObservationMissingDistance | ObservationMissingDepth | ObservationHasNoCorrection
    | NegativeDistance | StationTooClose | StationTooFar | InvalidDepth | Uninitialized | Algorithm

  datatype NumberedResidual = NumberedResidual(residual: ResidualImpl, observationNumber: int)

  datatype Rejection = Rejection(reason: StationErrorCode, observationNumber: int)

  predicate ValueInRange(value: real) {
    -10.0 <= value <= 10.0
  }

  predicate ReportableResidual(r: NumberedResidual) {
    r.residual.hasValue && r.residual.hasStationMagnitude && r.observationNumber >= 1
  }

  datatype NetworkMagnitudeImpl = NetworkMagnitudeImpl(
    residuals: seq<NumberedResidual>, rejectedObservations: seq<Rejection>, value: real,
    hasValue: bool, hasResiduals: bool, hasRejectedObservations: bool)

  class NetworkMagnitude {
    var impl: NetworkMagnitudeImpl

    constructor ()
      ensures impl == NetworkMagnitudeImpl([], [], 0.0, false, false, false)
    {
      impl := NetworkMagnitudeImpl([], [], 0.0, false, false, false);
    }

    method SetValue(value: real) returns (r: Outcome)
      modifies this
      ensures r == if -10.0 <= value <= 10.0 then Pass else Throw(InvalidArgument)
      ensures impl == if r.Throw? then old(impl) else old(impl).(value := value, hasValue := true)
    {
      if value < -10.0 || value > 10.0 {
        return Throw(InvalidArgument);
      }
      impl := impl.(value := value, hasValue := true);
      return Pass;
    }

    method SetResiduals(residuals: seq<NumberedResidual>) returns (r: Outcome)
      modifies this
      ensures r == if residuals != [] && (forall i :: 0 <= i < |residuals| ==> ReportableResidual(residuals[i]))
                   then Pass else Throw(InvalidArgument)
      ensures r.Pass? ==> forall element :: element in residuals ==>
        element.residual.hasValue && element.residual.hasStationMagnitude && element.observationNumber >= 1
      ensures impl == if r.Throw? then old(impl) else old(impl).(residuals := residuals, hasResiduals := true)
    {
      if residuals == [] {
        return Throw(InvalidArgument);
      }
      var workspace: seq<NumberedResidual> := [];
      for i := 0 to |residuals|
        invariant workspace == residuals[..i]
        invariant forall k :: 0 <= k < i ==> ReportableResidual(residuals[k])
        invariant impl == old(impl)
      {
        var element := residuals[i];
        if !element.residual.hasValue {
          return Throw(InvalidArgument);
        }
        if !element.residual.hasStationMagnitude {
          return Throw(InvalidArgument);
        }
        if element.observationNumber < 1 {
          return Throw(InvalidArgument);
        }
        workspace := workspace + [element];
      }
      impl := impl.(residuals := workspace, hasResiduals := true);
      return Pass;
    }

    method SetRejectedObservations(rejectedObservations: seq<Rejection>) returns (r: Outcome)
      modifies this
      ensures r == if forall i :: 0 <= i < |rejectedObservations| ==> rejectedObservations[i].observationNumber >= 1
                   then Pass else Throw(InvalidArgument)
      ensures impl == if r.Throw? then old(impl)
                      else old(impl).(rejectedObservations := rejectedObservations, hasRejectedObservations := true)
    {
      var workspace: seq<Rejection> := [];
      for i := 0 to |rejectedObservations|
        invariant workspace == rejectedObservations[..i]
        invariant forall k :: 0 <= k < i ==> rejectedObservations[k].observationNumber >= 1
        invariant impl == old(impl)
      {
        var element := rejectedObservations[i];
        if element.observationNumber < 1 {
          return Throw(InvalidArgument);
        }
        workspace := workspace + [element];
      }
      impl := impl.(rejectedObservations := workspace, hasRejectedObservations := true);
      return Pass;
    }
  }

  // ------------------------------------------------------------------ messages

  /** The reasons a client can be told. */
  datatype Reason = REASON_UNSPECIFIED | REASON_TOO_CLOSE | REASON_TOO_FAR | REASON_NO_STATION_CORRECTION
                  | REASON_INVALID_AMPLITUDES | REASON_ALGORITHM

  datatype RejectionMessage = RejectionMessage(reason: Reason, observationNumber: int)

  function ReasonFor(code: StationErrorCode): Reason {
    match code
    case StationTooClose => REASON_TOO_CLOSE
    case StationTooFar => REASON_TOO_FAR
    case ObservationHasNoCorrection => REASON_NO_STATION_CORRECTION
    case ObservationMissingAmplitudes => REASON_INVALID_AMPLITUDES
    case _ => REASON_ALGORITHM
  }

  /** What each reason tells a client. */
  lemma {:induction false} ReasonsMean(code: StationErrorCode)
    ensures ReasonFor(code) == REASON_TOO_CLOSE <==> code == StationTooClose
    ensures ReasonFor(code) == REASON_TOO_FAR <==> code == StationTooFar
    ensures ReasonFor(code) == REASON_NO_STATION_CORRECTION <==> code == ObservationHasNoCorrection
    ensures ReasonFor(code) == REASON_INVALID_AMPLITUDES <==> code == ObservationMissingAmplitudes
    ensures ReasonFor(code) != REASON_UNSPECIFIED
  {
  }

  /** toRejectedObservationsMessage. */
  method ToRejectedObservationsMessage(magnitude: NetworkMagnitudeImpl)
    returns (r: Expected<seq<RejectionMessage>, Exception>)
    ensures r.Unexpected? <==> !magnitude.hasRejectedObservations
    ensures r.Value? ==>
      && |r.value| == |magnitude.rejectedObservations|
      && forall i :: 0 <= i < |r.value| ==>
        r.value[i] == RejectionMessage(ReasonFor(magnitude.rejectedObservations[i].reason),
                                       magnitude.rejectedObservations[i].observationNumber)
  {
    if !magnitude.hasRejectedObservations {
      return Unexpected(RuntimeError);
    }
    var rejected := magnitude.rejectedObservations;
    var result: seq<RejectionMessage> := [];
    for i := 0 to |rejected|
      invariant |result| == i
      invariant forall k :: 0 <= k < i ==>
        result[k] == RejectionMessage(ReasonFor(rejected[k].reason), rejected[k].observationNumber)
    {
      var code := rejected[i].reason;
      var reason := REASON_UNSPECIFIED;
      if code == StationTooClose {
        reason := REASON_TOO_CLOSE;
      } else if code == StationTooFar {
        reason := REASON_TOO_FAR;
      } else if code == ObservationHasNoCorrection {
        reason := REASON_NO_STATION_CORRECTION;
      } else if code == NegativeDistance || code == InvalidDepth || code == ObservationMissingDistance
                || code == ObservationMissingDepth {
        reason := REASON_ALGORITHM;
      } else if code == ObservationMissingAmplitudes {
        reason := REASON_INVALID_AMPLITUDES;
      } else if code == Uninitialized || code == Algorithm {
        reason := REASON_ALGORITHM;
      }
      result := result + [RejectionMessage(reason, rejected[i].observationNumber)];
    }
    return Value(result);
  }
}
