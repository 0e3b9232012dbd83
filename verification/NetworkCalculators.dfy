/** src/magnitude/networkMagnitudeCalculatorOptions.cpp and networkMagnitudeCalculator.cpp: the
    magnitude of an event from all its stations. */
module NetworkCalculators {
  import opened Results
  import opened MathLibrary
  import opened Identifiers
  import opened Observations
  import opened Magnitudes
  import opened Stations
  import opened Distance
  import opened StationCalculators
  import opened NetworkAverages

  // ------------------------------------------------------------------- options

  datatype Strategy = Average

  datatype CalculatorOptionsImpl = CalculatorOptionsImpl(
    distanceCorrections: Option<Distance>, stationCorrections: Corrections, minimumNumberOfStationMagnitudes: int,
    strategy: Strategy, hasStationCorrections: bool)
  {
    ghost predicate Valid() {
      && (distanceCorrections.Some? ==> distanceCorrections.value.Valid() && distanceCorrections.value.initialized)
      && KeyedByName(stationCorrections)
      && minimumNumberOfStationMagnitudes >= 1
    }
  }

  class NetworkMagnitudeCalculatorOptions {
    var impl: CalculatorOptionsImpl

    constructor ()
      ensures impl == CalculatorOptionsImpl(None, map[], 2, Average, false) && impl.Valid()
    {
      impl := CalculatorOptionsImpl(None, map[], 2, Average, false);
    }

    method SetDistanceCorrections(corrections: Distance) returns (r: Outcome)
      requires impl.Valid() && corrections.Valid()
      modifies this
      ensures impl.Valid()
      ensures r == if corrections.initialized then Pass else Throw(InvalidArgument)
      ensures impl == if r.Pass? then old(impl).(distanceCorrections := Some(corrections)) else old(impl)
    {
      if !corrections.initialized {
        return Throw(InvalidArgument);
      }
      impl := impl.(distanceCorrections := Some(corrections));
      return Pass;
    }

    method SetStationCorrections(corrections: Corrections) returns (r: Outcome)
      requires impl.Valid() && KeyedByName(corrections)
      modifies this
      ensures impl.Valid()
      ensures r == if corrections == map[] then Throw(InvalidArgument) else Pass
      ensures impl == if r.Pass? then old(impl).(stationCorrections := corrections, hasStationCorrections := true)
                      else old(impl)
    {
      if corrections == map[] {
        return Throw(InvalidArgument);
      }
      impl := impl.(stationCorrections := corrections, hasStationCorrections := true);
      return Pass;
    }

    method SetMinimumNumberOfStationMagnitudes(minimum: int) returns (r: Outcome)
      requires impl.Valid()
      modifies this
      ensures impl.Valid()
      ensures r == if minimum < 1 then Throw(InvalidArgument) else Pass
      ensures impl == if r.Pass? then old(impl).(minimumNumberOfStationMagnitudes := minimum) else old(impl)
    {
      if minimum < 1 {
        return Throw(InvalidArgument);
      }
      impl := impl.(minimumNumberOfStationMagnitudes := minimum);
      return Pass;
    }
  }

  // ---------------------------------------------------------------- calculator

  /** Why a network magnitude could not be computed. */
  datatype ErrorCode =
    | NoObservations | ObservationMissingAmplitudes | ObservationMissingDistance | ObservationMissingDepth
    | DuplicateObservations | TooFewObservations | Uninitialized | Algorithm

  datatype WorkItem = WorkItem(observation: ObservationImpl, observationNumber: int, stationMagnitude: StationOutcome)

  predicate DistinctStations(observations: seq<ObservationImpl>) {
    forall i, j :: 0 <= i < j < |observations| ==> observations[i].stationName != observations[j].stationName
  }

  ghost predicate AllValid(observations: seq<ObservationImpl>) {
    forall i :: 0 <= i < |observations| ==> observations[i].Valid()
  }

  function Max(a: int, b: int): int {
    if a < b then b else a
  }

  /** A calculator, immutable once constructed. */
  datatype NetworkMagnitudeCalculator = NetworkMagnitudeCalculator(
    options: CalculatorOptionsImpl, calculators: map<string, StationMagnitudeCalculator>, requiresDepth: bool,
    initialized: bool)
  {
    /** What the constructor establishes: every station with a correction has a calculator of its
        own under its own name, and depths are needed exactly for hypocentral corrections. */
    ghost predicate Valid() {
      initialized ==>
        && options.Valid() && options.distanceCorrections.Some?
        && requiresDepth == options.distanceCorrections.value.IsHypocentral()
        && calculators.Keys == options.stationCorrections.Keys
        && forall name :: name in calculators ==> CalculatorFor(name)
    }

    ghost predicate CalculatorFor(name: string)
      requires name in calculators && name in options.stationCorrections && options.distanceCorrections.Some?
    {
      calculators[name] ==
        StationMagnitudeCalculator(options.stationCorrections[name], options.distanceCorrections.value, true)
    }

    static method Create(options: CalculatorOptionsImpl) returns (r: Expected<NetworkMagnitudeCalculator, Exception>)
      requires options.Valid()
      ensures r.Value? <==> options.hasStationCorrections && options.distanceCorrections.Some?
      ensures r.Value? ==> r.value.Valid() && r.value.initialized && r.value.options == options
      ensures r.Unexpected? ==> r.error == InvalidArgument
    {
      if !options.hasStationCorrections || options.distanceCorrections.None? {
        return Unexpected(InvalidArgument);
      }
      var distance := options.distanceCorrections.value;
      var calculators: map<string, StationMagnitudeCalculator> := map[];
      var remaining := options.stationCorrections.Keys;
      while remaining != {}
        invariant remaining <= options.stationCorrections.Keys
        invariant calculators.Keys == options.stationCorrections.Keys - remaining
        invariant forall name :: name in calculators ==>
          calculators[name] == StationMagnitudeCalculator(options.stationCorrections[name], distance, true)
        decreases |remaining|
      {
        var name :| name in remaining;
        var calculator := StationMagnitudeCalculator.Create(options.stationCorrections[name], distance);
        assert calculator.Value?;
        calculators := calculators[name := calculator.value];
        remaining := remaining - {name};
      }
      return Value(NetworkMagnitudeCalculator(options, calculators, distance.IsHypocentral(), true));
    }

    // ------------------------------------------------------- station magnitudes

    function StationResult(m: MathLibrary, o: ObservationImpl): StationOutcome
      requires Valid() && o.Valid()
    {
      if !initialized then Unexpected(StationErrorCode.Uninitialized)
      else if !o.hasAmplitudes then Unexpected(StationErrorCode.ObservationMissingAmplitudes)
      else if !o.hasEpicentralDistance then Unexpected(StationErrorCode.ObservationMissingDistance)
      else if requiresDepth && !o.hasSourceDepth then Unexpected(StationErrorCode.ObservationMissingDepth)
      else if o.stationName !in calculators then Unexpected(StationErrorCode.ObservationHasNoCorrection)
      else
        assert CalculatorFor(o.stationName);
        match calculators[o.stationName].Result(m, o)
        case Value(magnitude) => Value(magnitude)
        case Unexpected(NegativeDistance) => Unexpected(StationErrorCode.NegativeDistance)
        case Unexpected(StationTooClose) => Unexpected(StationErrorCode.StationTooClose)
        case Unexpected(StationTooFar) => Unexpected(StationErrorCode.StationTooFar)
        case Unexpected(InvalidDepth) => Unexpected(StationErrorCode.InvalidDepth)
        case Unexpected(_) => Unexpected(StationErrorCode.Algorithm)
    }

    method ComputeStationMagnitude(m: MathLibrary, o: ObservationImpl) returns (r: StationOutcome)
      requires Valid() && o.Valid()
      ensures r == StationResult(m, o)
    {
      if !initialized {
        return Unexpected(StationErrorCode.Uninitialized);
      }
      if !o.hasAmplitudes {
        return Unexpected(StationErrorCode.ObservationMissingAmplitudes);
      }
      if !o.hasEpicentralDistance {
        return Unexpected(StationErrorCode.ObservationMissingDistance);
      }
      if requiresDepth && !o.hasSourceDepth {
        return Unexpected(StationErrorCode.ObservationMissingDepth);
      }
      if o.stationName in calculators {
        assert CalculatorFor(o.stationName);
        var result := calculators[o.stationName].Apply(m, o);
        if result.Value? {
          return Value(result.value);
        } else if result.error == CalculatorErrorCode.NegativeDistance {
          return Unexpected(StationErrorCode.NegativeDistance);
        } else if result.error == CalculatorErrorCode.StationTooClose {
          return Unexpected(StationErrorCode.StationTooClose);
        } else if result.error == CalculatorErrorCode.StationTooFar {
          return Unexpected(StationErrorCode.StationTooFar);
        } else if result.error == CalculatorErrorCode.InvalidDepth {
          return Unexpected(StationErrorCode.InvalidDepth);
        } else {
          return Unexpected(StationErrorCode.Algorithm);
        }
      }
      return Unexpected(StationErrorCode.ObservationHasNoCorrection);
    }

    /** The correction of a station, if it has one. */
    method GetStationCorrection(identifier: StationIdentifierImpl) returns (r: Expected<Option<real>, Exception>)
      requires Valid() && initialized
      ensures r.Value? <==> identifier.Complete()
      ensures r.Value? && identifier.Name() in options.stationCorrections ==>
        r.value == Some(options.stationCorrections[identifier.Name()].correction)
      ensures r.Value? && identifier.Name() !in options.stationCorrections ==> r.value == None
    {
      var stationName := identifier.ToString();
      if stationName.Unexpected? {
        return Unexpected(stationName.error);
      }
      if stationName.value in calculators {
        assert CalculatorFor(stationName.value);
        var correction := calculators[stationName.value].GetStationCorrection();
        assert correction.Value?;
        return Value(Some(correction.value));
      }
      return Value(None);
    }

    // -------------------------------------------------------- network magnitude

    predicate Complete(o: ObservationImpl) {
      o.hasAmplitudes && o.hasEpicentralDistance && (requiresDepth ==> o.hasSourceDepth)
    }

    /** The first thing an incomplete observation misses. */
    function Missing(o: ObservationImpl): ErrorCode
      requires !Complete(o)
    {
      if !o.hasAmplitudes then ErrorCode.ObservationMissingAmplitudes
      else if !o.hasEpicentralDistance then ErrorCode.ObservationMissingDistance
      else ErrorCode.ObservationMissingDepth
    }

    predicate AllComplete(observations: seq<ObservationImpl>) {
      forall i :: 0 <= i < |observations| ==> Complete(observations[i])
    }

    /** What the first incomplete observation misses. */
    function FirstMissing(observations: seq<ObservationImpl>): (e: ErrorCode)
      requires !AllComplete(observations)
      ensures exists k :: 0 <= k < |observations| && !Complete(observations[k]) && e == Missing(observations[k])
                          && forall j :: 0 <= j < k ==> Complete(observations[j])
    {
      if !Complete(observations[0]) then Missing(observations[0])
      else
        var e := FirstMissing(observations[1..]);
        assert exists k :: 0 < k < |observations| && !Complete(observations[k]) && e == Missing(observations[k])
                           && forall j :: 0 <= j < k ==> Complete(observations[j]) by {
          var k :| 0 <= k < |observations[1..]| && !Complete(observations[1..][k]) && e == Missing(observations[1..][k])
                   && forall j :: 0 <= j < k ==> Complete(observations[1..][j]);
          assert forall j :: 1 <= j < k + 1 ==> observations[j] == observations[1..][j - 1];
          assert observations[k + 1] == observations[1..][k];
        }
        e
    }

    /** What becomes of each observation. */
    function Outcomes(m: MathLibrary, observations: seq<ObservationImpl>): seq<StationOutcome>
      requires Valid() && AllValid(observations)
    {
      seq(|observations|, i requires 0 <= i < |observations| => StationResult(m, observations[i]))
    }

    /** The magnitudes that are averaged. */
    function Accepted(m: MathLibrary, observations: seq<ObservationImpl>): seq<real>
      requires Valid() && AllValid(observations)
    {
      AcceptedValues(Outcomes(m, observations))
    }

    /** What operator() returns. There is no early test of the number of observations: the later
        one on the number of magnitudes subsumes it. */
    function NetworkResult(m: MathLibrary, observations: seq<ObservationImpl>): Expected<NetworkMagnitudeImpl,
        ErrorCode>
      requires Valid() && AllValid(observations)
    {
      if !initialized then Unexpected(ErrorCode.Uninitialized)
      else if observations == [] then Unexpected(ErrorCode.NoObservations)
      else if !AllComplete(observations) then Unexpected(FirstMissing(observations))
      else if !DistinctStations(observations) then Unexpected(ErrorCode.DuplicateObservations)
      else if |Accepted(m, observations)| < options.minimumNumberOfStationMagnitudes
      then Unexpected(ErrorCode.TooFewObservations)
      else if !ValueInRange(Mean(Accepted(m, observations))) then Unexpected(ErrorCode.Algorithm)
      else
        var value, outcomes := Mean(Accepted(m, observations)), Outcomes(m, observations);
        Value(NetworkMagnitudeImpl(ResidualsOf(outcomes, value, 1), RejectionsOf(outcomes, 1), value, true, true, true))
    }

    method CheckObservations(observations: seq<ObservationImpl>) returns (r: Option<ErrorCode>)
      ensures r == if AllComplete(observations) then None else Some(FirstMissing(observations))
    {
      for i := 0 to |observations|
        invariant forall k :: 0 <= k < i ==> Complete(observations[k])
      {
        var observation := observations[i];
        ghost var incomplete := !Complete(observation);
        if !observation.hasAmplitudes {
          return Some(ErrorCode.ObservationMissingAmplitudes);
        }
        if !observation.hasEpicentralDistance {
          return Some(ErrorCode.ObservationMissingDistance);
        }
        if requiresDepth && !observation.hasSourceDepth {
          return Some(ErrorCode.ObservationMissingDepth);
        }
      }
      return None;
    }

    method HasDuplicateStations(observations: seq<ObservationImpl>) returns (duplicate: bool)
      ensures duplicate <==> !DistinctStations(observations)
      ensures duplicate <==>
        exists i, j :: 0 <= i < j < |observations| && observations[i].stationName == observations[j].stationName
    {
      var stationNames: set<string> := {};
      for i := 0 to |observations|
        invariant forall k :: 0 <= k < i ==> observations[k].stationName in stationNames
        invariant forall name :: name in stationNames ==> exists k :: 0 <= k < i && observations[k].stationName == name
        invariant DistinctStations(observations[..i])
      {
        var name := observations[i].stationName;
        if name in stationNames {
          return true;
        }
        stationNames := stationNames + {name};
        assert observations[..i + 1] == observations[..i] + [observations[i]];
      }
      assert observations[..|observations|] == observations;
      return false;
    }

    /** Every observation's work item, numbered from 1. */
    method ComputeWorkItems(m: MathLibrary, observations: seq<ObservationImpl>) returns (workItems: seq<WorkItem>)
      requires Valid() && AllValid(observations)
      ensures |workItems| == |observations|
      ensures forall i :: 0 <= i < |observations| ==>
        workItems[i] == WorkItem(observations[i], i + 1, Outcomes(m, observations)[i])
    {
      workItems := [];
      var observationNumber := 0;
      for i := 0 to |observations|
        invariant |workItems| == observationNumber == i
        invariant forall k :: 0 <= k < i ==>
          workItems[k] == WorkItem(observations[k], k + 1, StationResult(m, observations[k]))
      {
        observationNumber := observationNumber + 1;
        var result := ComputeStationMagnitude(m, observations[i]);
        workItems := workItems + [WorkItem(observations[i], observationNumber, result)];
      }
    }

    lemma {:induction false} StationMagnitudesAreComplete(m: MathLibrary, o: ObservationImpl)
      requires Valid() && o.Valid()
      ensures StationResult(m, o).Value? ==>
        StationResult(m, o).value.Complete() && Compatible(StationResult(m, o).value.amplitudes)
    {
      assert initialized && o.stationName in calculators ==> CalculatorFor(o.stationName);
    }

    /** operator(). Of the setters it calls, each of which may throw, only the guarded one of the
        network value can. */
    method Apply(m: MathLibrary, observations: seq<ObservationImpl>)
      returns (r: Expected<NetworkMagnitudeImpl, ErrorCode>)
      requires Valid() && AllValid(observations)
      ensures r == NetworkResult(m, observations)
    {
      if !initialized {
        return Unexpected(ErrorCode.Uninitialized);
      }
      if observations == [] {
        return Unexpected(ErrorCode.NoObservations);
      }
      var missing := CheckObservations(observations);
      if missing.Some? {
        return Unexpected(missing.value);
      }
      var duplicate := HasDuplicateStations(observations);
      if duplicate {
        return Unexpected(ErrorCode.DuplicateObservations);
      }
      var workItems := ComputeWorkItems(m, observations);
      ghost var outcomes := Outcomes(m, observations);
      EveryOutcomeIsListedOnce(outcomes, 0.0);
      var minObservationsRequired := options.minimumNumberOfStationMagnitudes;
      if |workItems| < minObservationsRequired {
        return Unexpected(ErrorCode.TooFewObservations);
      }
      if options.strategy != Average {
        assert false; // there is no other strategy
      }
      var nStationMagnitudes, sum := CountAndSum(workItems, outcomes);
      if nStationMagnitudes < Max(1, minObservationsRequired) {
        return Unexpected(ErrorCode.TooFewObservations);
      }
      var averageMagnitude := sum / nStationMagnitudes as real;
      forall i | 0 <= i < |outcomes| && outcomes[i].Value? ensures outcomes[i].value.Complete() {
        StationMagnitudesAreComplete(m, observations[i]);
      }
      r := Package(workItems, averageMagnitude, outcomes);
    }
  }

  /** What is tabulated is acceptable to the setters of the network magnitude. */
  lemma {:induction false} Reportable(outcomes: seq<StationOutcome>, networkValue: real)
    ensures forall i :: 0 <= i < |ResidualsOf(outcomes, networkValue, 1)| ==>
      ReportableResidual(ResidualsOf(outcomes, networkValue, 1)[i])
    ensures forall i :: 0 <= i < |RejectionsOf(outcomes, 1)| ==> RejectionsOf(outcomes, 1)[i].observationNumber >= 1
  {
    if outcomes != [] {
      Reportable(outcomes[..|outcomes| - 1], networkValue);
    }
  }

  ghost predicate ItemsOf(workItems: seq<WorkItem>, outcomes: seq<StationOutcome>) {
    |workItems| == |outcomes| &&
    forall i :: 0 <= i < |outcomes| ==>
      workItems[i].stationMagnitude == outcomes[i] && workItems[i].observationNumber == i + 1
  }

  lemma {:induction false} SumNext(xs: seq<real>, x: real)
    ensures Sum(xs + [x]) == Sum(xs) + x
  {
    assert (xs + [x])[..|xs|] == xs;
  }

  /** The averaging loop. */
  method CountAndSum(workItems: seq<WorkItem>, ghost outcomes: seq<StationOutcome>)
    returns (nStationMagnitudes: int, sum: real)
    requires ItemsOf(workItems, outcomes)
    ensures nStationMagnitudes == |AcceptedValues(outcomes)| && sum == Sum(AcceptedValues(outcomes))
  {
    nStationMagnitudes, sum := 0, 0.0;
    for i := 0 to |workItems|
      invariant nStationMagnitudes == |AcceptedValues(outcomes[..i])|
      invariant sum == Sum(AcceptedValues(outcomes[..i]))
    {
      var item := workItems[i];
      assert outcomes[..i + 1][..i] == outcomes[..i];
      if item.stationMagnitude.Value? {
        nStationMagnitudes := nStationMagnitudes + 1;
        sum := sum + item.stationMagnitude.value.value;
        SumNext(AcceptedValues(outcomes[..i]), outcomes[i].value.value);
      } else {
        assert AcceptedValues(outcomes[..i + 1]) == AcceptedValues(outcomes[..i]);
      }
    }
    assert outcomes[..|workItems|] == outcomes;
  }

  /** The tabulating loop. Completing a residual never throws: every station magnitude is complete. */
  method Tabulate(workItems: seq<WorkItem>, networkValue: real, ghost outcomes: seq<StationOutcome>)
    returns (residuals: seq<NumberedResidual>, rejectedObservations: seq<Rejection>)
    requires ItemsOf(workItems, outcomes)
    requires forall i :: 0 <= i < |outcomes| && outcomes[i].Value? ==> outcomes[i].value.Complete()
    ensures residuals == ResidualsOf(outcomes, networkValue, 1)
    ensures rejectedObservations == RejectionsOf(outcomes, 1)
  {
    residuals, rejectedObservations := [], [];
    for i := 0 to |workItems|
      invariant residuals == ResidualsOf(outcomes[..i], networkValue, 1)
      invariant rejectedObservations == RejectionsOf(outcomes[..i], 1)
    {
      var item := workItems[i];
      assert outcomes[..i + 1][..i] == outcomes[..i];
      if item.stationMagnitude.Value? {
        var residual := new Residual();
        residual.SetValue(networkValue - item.stationMagnitude.value.value);
        var stored := residual.SetStationMagnitude(item.stationMagnitude.value);
        assert stored.Pass?;
        residuals := residuals + [NumberedResidual(residual.impl, item.observationNumber)];
      } else {
        rejectedObservations := rejectedObservations + [Rejection(item.stationMagnitude.error, item.observationNumber)];
      }
    }
    assert outcomes[..|workItems|] == outcomes;
  }

  /** Sets the network value, the only step that may fail, and then residuals and rejections. */
  method Package(workItems: seq<WorkItem>, averageMagnitude: real, ghost outcomes: seq<StationOutcome>)
    returns (r: Expected<NetworkMagnitudeImpl, ErrorCode>)
    requires ItemsOf(workItems, outcomes) && AcceptedValues(outcomes) != []
    requires forall i :: 0 <= i < |outcomes| && outcomes[i].Value? ==> outcomes[i].value.Complete()
    ensures r == if !ValueInRange(averageMagnitude) then Unexpected(ErrorCode.Algorithm)
                 else Value(NetworkMagnitudeImpl(ResidualsOf(outcomes, averageMagnitude, 1), RejectionsOf(outcomes, 1),
                                                 averageMagnitude, true, true, true))
  {
    var networkMagnitude := new NetworkMagnitude();
    var stored := networkMagnitude.SetValue(averageMagnitude);
    if stored.Throw? {
      return Unexpected(ErrorCode.Algorithm);
    }
    var residuals, rejectedObservations := Tabulate(workItems, averageMagnitude, outcomes);
    EveryOutcomeIsListedOnce(outcomes, averageMagnitude);
    Reportable(outcomes, averageMagnitude);
    stored := networkMagnitude.SetResiduals(residuals);
    assert stored.Pass?;
    stored := networkMagnitude.SetRejectedObservations(rejectedObservations);
    assert stored.Pass?;
    return Value(networkMagnitude.impl);
  }
}
