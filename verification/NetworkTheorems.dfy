/** What the network magnitude means, and what it does not depend on. */
module NetworkTheorems {
  import opened Results
  import opened MathLibrary
  import opened Observations
  import opened Magnitudes
  import opened Distance
  import opened StationCalculators
  import opened NetworkAverages
  import opened NetworkCalculators
  import opened Rearrangements

  /** A calculator fit for use: built from valid options and given a hypot that is one. */
  ghost predicate Ready(c: NetworkMagnitudeCalculator, m: MathLibrary) {
    c.Valid() && c.initialized && m.HypotIsEuclidean()
  }

  function Table(c: NetworkMagnitudeCalculator): Distance
    requires c.options.distanceCorrections.Some?
  {
    c.options.distanceCorrections.value
  }

  lemma {:induction false} MinimumIsPositive(c: NetworkMagnitudeCalculator)
    requires c.Valid() && c.initialized
    ensures c.options.minimumNumberOfStationMagnitudes >= 1
  {
  }

  /** The checks made before anything is averaged. */
  predicate ChecksPass(c: NetworkMagnitudeCalculator, observations: seq<ObservationImpl>) {
    observations != [] && c.AllComplete(observations) && DistinctStations(observations)
  }

  /** Everything about a result but which check failed. */
  lemma {:induction false} ResultOutline(c: NetworkMagnitudeCalculator, m: MathLibrary,
      observations: seq<ObservationImpl>)
    requires c.Valid() && c.initialized && AllValid(observations)
    ensures var result, accepted := c.NetworkResult(m, observations), c.Accepted(m, observations);
      var outcomes := c.Outcomes(m, observations);
      && (result.Value? ==> accepted != [])
      && (result.Value? <==>
           ChecksPass(c, observations) && |accepted| >= c.options.minimumNumberOfStationMagnitudes
           && accepted != [] && ValueInRange(Mean(accepted)))
      && (result.Value? ==>
           && result.value.value == Mean(accepted)
           && result.value.residuals == ResidualsOf(outcomes, Mean(accepted), 1)
           && result.value.rejectedObservations == RejectionsOf(outcomes, 1))
      && ((ChecksPass(c, observations) && |accepted| >= c.options.minimumNumberOfStationMagnitudes
           && accepted != [] && !ValueInRange(Mean(accepted))) ==> result == Unexpected(ErrorCode.Algorithm))
  {
    MinimumIsPositive(c);
    hide NetworkMagnitudeCalculator.StationResult, NetworkMagnitudeCalculator.Valid,
         NetworkMagnitudeCalculator.Complete;
  }

  // ------------------------------------------------------------------ rejections

  /** The distance a complete observation enters the table with. */
  function DistanceEntered(c: NetworkMagnitudeCalculator, m: MathLibrary, o: ObservationImpl): real
    requires c.options.distanceCorrections.Some?
  {
    Table(c).TableDistance(m, o.epicentralDistance, o.sourceDepth)
  }

  /** The station has a correction and lies within the table. */
  predicate Usable(c: NetworkMagnitudeCalculator, m: MathLibrary, o: ObservationImpl)
    requires c.options.distanceCorrections.Some?
  {
    o.stationName in c.options.stationCorrections &&
    Table(c).minimum <= DistanceEntered(c, m, o) <= Table(c).maximum
  }

  /** log10(AvgAmp/2) + C_d + C_s. */
  ghost function Formula(c: NetworkMagnitudeCalculator, m: MathLibrary, o: ObservationImpl): real
    requires c.Valid() && c.initialized && o.Valid() && o.hasAmplitudes && Usable(c, m, o)
  {
    m.log10(HalfAverage(o.amplitudes)) + Table(c).CorrectionWithin(DistanceEntered(c, m, o))
    + c.options.stationCorrections[o.stationName].correction
  }

  /** A complete observation has a magnitude, the formula's, exactly when it is usable, and the magnitude tells
      what it was made of. Otherwise the observation is rejected for having no correction, for being
      too close or for being too far. */
  lemma {:induction false} CompleteObservationOutcome(c: NetworkMagnitudeCalculator, m: MathLibrary, o: ObservationImpl)
    requires Ready(c, m) && o.Valid() && c.Complete(o)
    ensures c.StationResult(m, o).Value? <==> Usable(c, m, o)
    ensures c.StationResult(m, o).Value? ==>
      var magnitude := c.StationResult(m, o).value;
      && magnitude.value == Formula(c, m, o)
      && magnitude.amplitudes == o.amplitudes && magnitude.stationName == o.stationName
      && magnitude.stationCorrection == c.options.stationCorrections[o.stationName].correction
      && magnitude.distanceCorrection == Table(c).CorrectionWithin(DistanceEntered(c, m, o))
    ensures c.StationResult(m, o) == Unexpected(ObservationHasNoCorrection) <==>
            o.stationName !in c.options.stationCorrections
    ensures c.StationResult(m, o) == Unexpected(StationErrorCode.StationTooClose) <==>
      o.stationName in c.options.stationCorrections && DistanceEntered(c, m, o) < Table(c).minimum
    ensures c.StationResult(m, o) == Unexpected(StationErrorCode.StationTooFar) <==>
      o.stationName in c.options.stationCorrections && Table(c).maximum < DistanceEntered(c, m, o)
  {
    if o.stationName in c.calculators {
      assert c.CalculatorFor(o.stationName);
      var calculator := c.calculators[o.stationName];
      assert calculator.Valid();
      calculator.OnlyRangeErrors(m, o);
      assert Table(c).IsHypocentral() || calculator.DepthUsed(o) == 0.0;
    }
  }

  /** A station magnitude, however it was asked for, is log10 of a quarter of the amplitudes' sum plus the
      station's correction plus the table's at the observation's distance. */
  lemma {:induction false} StationMagnitudeFormula(c: NetworkMagnitudeCalculator, m: MathLibrary, o: ObservationImpl)
    requires c.Valid() && o.Valid() && c.StationResult(m, o).Value?
    ensures o.stationName in c.options.stationCorrections && c.options.distanceCorrections.Some?
    ensures var magnitude := c.StationResult(m, o).value;
      && magnitude.stationCorrection == c.options.stationCorrections[o.stationName].correction
      && (c.requiresDepth ==>
           Table(c).AtSource(m, o.epicentralDistance, o.sourceDepth) == Value(magnitude.distanceCorrection))
      && (!c.requiresDepth ==> Table(c).At(o.epicentralDistance) == Value(magnitude.distanceCorrection))
      && (exists x: Positive ::
           && 4.0 * x == o.amplitudes.first.value + o.amplitudes.second.value
           && magnitude.value == m.log10(x) + magnitude.distanceCorrection + magnitude.stationCorrection)
  {
    assert c.CalculatorFor(o.stationName);
    c.calculators[o.stationName].MagnitudeFollowsFormula(m, o);
  }

  /** An incomplete observation's station magnitude fails for the first thing it lacks. */
  lemma {:induction false} IncompleteObservationOutcome(c: NetworkMagnitudeCalculator, m: MathLibrary,
      o: ObservationImpl)
    requires Ready(c, m) && o.Valid()
    ensures c.StationResult(m, o) == Unexpected(StationErrorCode.ObservationMissingAmplitudes) <==> !o.hasAmplitudes
    ensures c.StationResult(m, o) == Unexpected(StationErrorCode.ObservationMissingDistance) <==>
      o.hasAmplitudes && !o.hasEpicentralDistance
    ensures c.StationResult(m, o) == Unexpected(StationErrorCode.ObservationMissingDepth) <==>
      o.hasAmplitudes && o.hasEpicentralDistance && c.requiresDepth && !o.hasSourceDepth
  {
    if c.Complete(o) {
      CompleteObservationOutcome(c, m, o);
      hide NetworkMagnitudeCalculator.StationResult, NetworkMagnitudeCalculator.Valid;
    }
  }

  predicate ReportableReason(code: StationErrorCode) {
    code in {ObservationHasNoCorrection, StationErrorCode.StationTooClose, StationErrorCode.StationTooFar}
  }

  /** On success every rejected observation was rejected for one of three reasons, so a client is
      never told of an unspecified reason, invalid amplitudes or an algorithm failure. */
  lemma {:induction false} OnlyThreeRejectionReasons(c: NetworkMagnitudeCalculator, m: MathLibrary,
      observations: seq<ObservationImpl>, r: Rejection)
    requires Ready(c, m) && AllValid(observations)
    requires c.NetworkResult(m, observations).Value? && r in c.NetworkResult(m, observations).value.rejectedObservations
    ensures ReportableReason(r.reason)
    ensures ReasonFor(r.reason) in {REASON_TOO_CLOSE, REASON_TOO_FAR, REASON_NO_STATION_CORRECTION}
  {
    hide NetworkMagnitudeCalculator.StationResult, NetworkMagnitudeCalculator.Valid;
    RejectionsAreTheOthers(c.Outcomes(m, observations), r);
    CompleteObservationOutcome(c, m, observations[r.observationNumber - 1]);
  }

  /** On success the reason a client is told of a rejected observation is the right one: no station correction
      exactly when its station has none, too close or too far exactly when it has one and the distance it enters the
      table with is below or above the table's. */
  lemma {:induction false} RejectionReasonsAreRight(c: NetworkMagnitudeCalculator, m: MathLibrary,
      observations: seq<ObservationImpl>, r: Rejection)
    requires Ready(c, m) && AllValid(observations)
    requires c.NetworkResult(m, observations).Value? && r in c.NetworkResult(m, observations).value.rejectedObservations
    ensures 1 <= r.observationNumber <= |observations|
    ensures var o := observations[r.observationNumber - 1];
      && (ReasonFor(r.reason) == REASON_NO_STATION_CORRECTION <==>
           o.stationName !in c.options.stationCorrections)
      && (ReasonFor(r.reason) == REASON_TOO_CLOSE <==>
           o.stationName in c.options.stationCorrections && DistanceEntered(c, m, o) < Table(c).minimum)
      && (ReasonFor(r.reason) == REASON_TOO_FAR <==>
           o.stationName in c.options.stationCorrections && Table(c).maximum < DistanceEntered(c, m, o))
  {
    hide NetworkMagnitudeCalculator.StationResult, NetworkMagnitudeCalculator.Valid, ReasonFor;
    RejectionsAreTheOthers(c.Outcomes(m, observations), r);
    CompleteObservationOutcome(c, m, observations[r.observationNumber - 1]);
    ReasonsMean(r.reason);
  }

  // --------------------------------------------------------------------- success

  /** The formula's values of the usable observations, in input order. */
  ghost function UsableValues(c: NetworkMagnitudeCalculator, m: MathLibrary,
      observations: seq<ObservationImpl>): seq<real>
    requires c.Valid() && c.initialized && AllValid(observations) && c.AllComplete(observations)
  {
    if observations == [] then []
    else
      var last := observations[|observations| - 1];
      UsableValues(c, m, observations[..|observations| - 1]) + if Usable(c, m, last) then [Formula(c, m, last)] else []
  }

  lemma {:induction false} AcceptedAreTheUsable(c: NetworkMagnitudeCalculator, m: MathLibrary,
      observations: seq<ObservationImpl>)
    requires Ready(c, m) && AllValid(observations) && c.AllComplete(observations)
    ensures c.Accepted(m, observations) == UsableValues(c, m, observations)
  {
    hide NetworkMagnitudeCalculator.StationResult, NetworkMagnitudeCalculator.Valid, Usable, Formula;
    if observations != [] {
      var n := |observations| - 1;
      AcceptedAreTheUsable(c, m, observations[..n]);
      CompleteObservationOutcome(c, m, observations[n]);
      assert c.Outcomes(m, observations)[..n] == c.Outcomes(m, observations[..n]);
      assert c.Outcomes(m, observations)[n] == c.StationResult(m, observations[n]);
    }
  }

  /** A network magnitude exists exactly when the list is non-empty, every observation is complete,
      no station is observed twice, at least the minimum number are usable and the mean of
      their magnitudes is between -10 and 10. It is that mean. */
  lemma {:induction false} SucceedsExactlyWhen(c: NetworkMagnitudeCalculator, m: MathLibrary,
      observations: seq<ObservationImpl>)
    requires Ready(c, m) && AllValid(observations)
    ensures c.NetworkResult(m, observations).Value? <==>
      && observations != [] && c.AllComplete(observations) && DistinctStations(observations)
      && |UsableValues(c, m, observations)| >= Max(1, c.options.minimumNumberOfStationMagnitudes)
      && ValueInRange(Mean(UsableValues(c, m, observations)))
    ensures c.NetworkResult(m, observations).Value? ==>
      c.NetworkResult(m, observations).value.value == Mean(UsableValues(c, m, observations))
  {
    MinimumIsPositive(c);
    hide NetworkMagnitudeCalculator.StationResult, NetworkMagnitudeCalculator.Valid, Usable, Formula,
         NetworkMagnitudeCalculator.Complete;
    if c.AllComplete(observations) {
      AcceptedAreTheUsable(c, m, observations);
    }
  }

  /** Number k + 1 is the first observation that lacks something. */
  predicate FirstIncomplete(c: NetworkMagnitudeCalculator, observations: seq<ObservationImpl>, k: nat) {
    k < |observations| && !c.Complete(observations[k]) && forall j :: 0 <= j < k ==> c.Complete(observations[j])
  }

  lemma {:induction false} FirstIncompleteDecides(c: NetworkMagnitudeCalculator, observations: seq<ObservationImpl>)
    returns (k: nat)
    requires !c.AllComplete(observations)
    ensures FirstIncomplete(c, observations, k) && c.FirstMissing(observations) == c.Missing(observations[k])
    ensures forall i: nat :: FirstIncomplete(c, observations, i) ==> i == k
  {
    hide NetworkMagnitudeCalculator.Complete, NetworkMagnitudeCalculator.Missing;
    var e := c.FirstMissing(observations);
    k :| 0 <= k < |observations| && !c.Complete(observations[k]) && e == c.Missing(observations[k])
         && forall j :: 0 <= j < k ==> c.Complete(observations[j]);
  }

  /** The errors for missing data tell what the first incomplete observation lacks: its amplitudes; if it has
      those, its distance; if it has both, the depth that hypocentral corrections need. */
  lemma {:induction false} MissingDataErrors(c: NetworkMagnitudeCalculator, m: MathLibrary,
      observations: seq<ObservationImpl>)
    requires c.Valid() && c.initialized && AllValid(observations)
    ensures c.NetworkResult(m, observations) == Unexpected(ErrorCode.ObservationMissingAmplitudes) <==>
      exists k: nat :: FirstIncomplete(c, observations, k) && !observations[k].hasAmplitudes
    ensures c.NetworkResult(m, observations) == Unexpected(ErrorCode.ObservationMissingDistance) <==>
      exists k: nat ::
        && FirstIncomplete(c, observations, k)
        && observations[k].hasAmplitudes && !observations[k].hasEpicentralDistance
    ensures c.NetworkResult(m, observations) == Unexpected(ErrorCode.ObservationMissingDepth) <==>
      exists k: nat ::
        && FirstIncomplete(c, observations, k)
        && observations[k].hasAmplitudes && observations[k].hasEpicentralDistance
        && c.requiresDepth && !observations[k].hasSourceDepth
  {
    hide NetworkMagnitudeCalculator.StationResult, NetworkMagnitudeCalculator.Valid;
    if !c.AllComplete(observations) {
      var k := FirstIncompleteDecides(c, observations);
    }
  }

  /** Every other error: the checks are made in this order, and the last can only fail for a mean out of range. */
  lemma {:induction false} ErrorsInOrder(c: NetworkMagnitudeCalculator, m: MathLibrary,
      observations: seq<ObservationImpl>)
    requires Ready(c, m) && AllValid(observations)
    ensures c.NetworkResult(m, observations) != Unexpected(ErrorCode.Uninitialized)
    ensures c.NetworkResult(m, observations) == Unexpected(NoObservations) <==> observations == []
    ensures c.NetworkResult(m, observations) == Unexpected(DuplicateObservations) <==>
      observations != [] && c.AllComplete(observations) && !DistinctStations(observations)
    ensures c.NetworkResult(m, observations) == Unexpected(TooFewObservations) <==>
      && ChecksPass(c, observations)
      && |UsableValues(c, m, observations)| < Max(1, c.options.minimumNumberOfStationMagnitudes)
    ensures c.NetworkResult(m, observations) == Unexpected(ErrorCode.Algorithm) <==>
      && ChecksPass(c, observations)
      && |UsableValues(c, m, observations)| >= Max(1, c.options.minimumNumberOfStationMagnitudes)
      && !ValueInRange(Mean(UsableValues(c, m, observations)))
  {
    MinimumIsPositive(c);
    hide NetworkMagnitudeCalculator.StationResult, NetworkMagnitudeCalculator.Valid, Usable, Formula,
         NetworkMagnitudeCalculator.Complete, Mean, ValueInRange, DistinctStations;
    if c.AllComplete(observations) {
      AcceptedAreTheUsable(c, m, observations);
    } else {
      var k := FirstIncompleteDecides(c, observations);
      MissingIsOneOfThree(c, observations[k]);
    }
  }

  lemma {:induction false} MissingIsOneOfThree(c: NetworkMagnitudeCalculator, o: ObservationImpl)
    requires !c.Complete(o)
    ensures c.Missing(o) in {ErrorCode.ObservationMissingAmplitudes, ErrorCode.ObservationMissingDistance,
                             ErrorCode.ObservationMissingDepth}
  {
  }

  // --------------------------------------------------------------------- average

  /** On success the residuals sum to zero, each magnitude plus its residual is the network value,
      and the value lies between any bounds of the accepted magnitudes. */
  lemma {:induction false} ResidualsBalance(c: NetworkMagnitudeCalculator, m: MathLibrary,
      observations: seq<ObservationImpl>)
    requires c.Valid() && AllValid(observations) && c.NetworkResult(m, observations).Value?
    ensures var magnitude := c.NetworkResult(m, observations).value;
      && Sum(ResidualValues(magnitude.residuals)) == 0.0
      && forall r :: r in magnitude.residuals ==>
        r.residual.stationMagnitude.value + r.residual.value == magnitude.value
  {
    MinimumIsPositive(c);
    hide NetworkMagnitudeCalculator.StationResult, NetworkMagnitudeCalculator.Valid;
    var magnitude := c.NetworkResult(m, observations).value;
    var outcomes := c.Outcomes(m, observations);
    ResidualsSumToZeroOnlyAtMean(outcomes, magnitude.value, 1);
    forall r | r in magnitude.residuals
      ensures r.residual.stationMagnitude.value + r.residual.value == magnitude.value
    {
      ResidualsAreTheAccepted(outcomes, magnitude.value, r);
    }
  }

  /** The network value is the best fit: no other value has as small a sum of squared residuals,
      and it lies between the smallest and largest accepted magnitudes. */
  lemma {:induction false} NetworkValueIsBestFit(c: NetworkMagnitudeCalculator, m: MathLibrary,
      observations: seq<ObservationImpl>, other: real, low: real, high: real)
    requires c.Valid() && AllValid(observations) && c.NetworkResult(m, observations).Value?
    ensures var value, accepted := c.NetworkResult(m, observations).value.value, c.Accepted(m, observations);
      && (other != value ==> SquaredResiduals(accepted, value) < SquaredResiduals(accepted, other))
      && ((forall i :: 0 <= i < |accepted| ==> low <= accepted[i] <= high) ==> low <= value <= high)
  {
    MinimumIsPositive(c);
    hide NetworkMagnitudeCalculator.StationResult, NetworkMagnitudeCalculator.Valid;
    var accepted := c.Accepted(m, observations);
    MeanMinimizesSquares(accepted, other);
    if forall i :: 0 <= i < |accepted| ==> low <= accepted[i] <= high {
      MeanIsBetween(accepted, low, high);
    }
  }

  /** On success the observation numbers of residuals and rejections partition 1..n, and number k is a
      residual exactly when observation k has a station magnitude, which it carries. */
  lemma {:induction false} NumbersTieBackToObservations(c: NetworkMagnitudeCalculator, m: MathLibrary,
      observations: seq<ObservationImpl>)
    requires c.Valid() && AllValid(observations) && c.NetworkResult(m, observations).Value?
    ensures var magnitude := c.NetworkResult(m, observations).value;
      var accepted, rejected := ResidualNumbers(magnitude.residuals), RejectionNumbers(magnitude.rejectedObservations);
      && NumbersIncrease(accepted) && NumbersIncrease(rejected)
      && (forall k :: 1 <= k <= |observations| <==> k in accepted || k in rejected)
      && (forall k :: !(k in accepted && k in rejected))
      && (forall r :: r in magnitude.residuals ==>
           && 1 <= r.observationNumber <= |observations|
           && c.StationResult(m, observations[r.observationNumber - 1]) == Value(r.residual.stationMagnitude))
      && (forall r :: r in magnitude.rejectedObservations ==>
           && 1 <= r.observationNumber <= |observations|
           && c.StationResult(m, observations[r.observationNumber - 1]) == Unexpected(r.reason))
  {
    hide NetworkMagnitudeCalculator.StationResult, NetworkMagnitudeCalculator.Valid;
    var magnitude := c.NetworkResult(m, observations).value;
    var outcomes := c.Outcomes(m, observations);
    NumbersPartitionTheInput(outcomes, magnitude.value);
    forall r | r in magnitude.residuals
      ensures 1 <= r.observationNumber <= |observations|
      ensures c.StationResult(m, observations[r.observationNumber - 1]) == Value(r.residual.stationMagnitude)
    {
      ResidualsAreTheAccepted(outcomes, magnitude.value, r);
    }
    forall r | r in magnitude.rejectedObservations
      ensures 1 <= r.observationNumber <= |observations|
      ensures c.StationResult(m, observations[r.observationNumber - 1]) == Unexpected(r.reason)
    {
      RejectionsAreTheOthers(outcomes, r);
    }
  }

  /** Where a residual of a successful result comes from. */
  lemma {:induction false} ResidualOrigin(c: NetworkMagnitudeCalculator, m: MathLibrary,
      observations: seq<ObservationImpl>, magnitude: NetworkMagnitudeImpl, r: NumberedResidual)
    requires c.Valid() && AllValid(observations) && c.NetworkResult(m, observations) == Value(magnitude)
    requires r in magnitude.residuals
    ensures 1 <= r.observationNumber <= |observations|
    ensures c.Complete(observations[r.observationNumber - 1])
    ensures c.StationResult(m, observations[r.observationNumber - 1]) == Value(r.residual.stationMagnitude)
    ensures r.residual == ResidualOf(r.residual.stationMagnitude, magnitude.value)
  {
    hide NetworkMagnitudeCalculator.StationResult, NetworkMagnitudeCalculator.Valid;
    ResidualsAreTheAccepted(c.Outcomes(m, observations), magnitude.value, r);
  }

  // ----------------------------------------------------------------- permutation

  lemma {:induction false} RearrangedOutcomes(c: NetworkMagnitudeCalculator, m: MathLibrary, a: seq<ObservationImpl>,
      b: seq<ObservationImpl>)
    requires c.Valid() && AllValid(a) && AllValid(b) && multiset(a) == multiset(b)
    ensures multiset(c.Outcomes(m, a)) == multiset(c.Outcomes(m, b))
  {
    hide NetworkMagnitudeCalculator.StationResult, NetworkMagnitudeCalculator.Valid;
    if a == [] {
      SameLength(a, b);
    } else {
      var n := |a| - 1;
      var i := MatchLast(a, b);
      RearrangedOutcomes(c, m, a[..n], b[..i] + b[i + 1..]);
      assert c.Outcomes(m, a) == c.Outcomes(m, a[..n]) + [c.StationResult(m, a[n])];
      OutcomeRemoved(c, m, b, i);
    }
  }

  lemma {:induction false} OutcomeRemoved(c: NetworkMagnitudeCalculator, m: MathLibrary, b: seq<ObservationImpl>,
      i: nat)
    requires c.Valid() && AllValid(b) && i < |b|
    ensures multiset(c.Outcomes(m, b)) ==
            multiset(c.Outcomes(m, b[..i] + b[i + 1..])) + multiset{c.StationResult(m, b[i])}
  {
    hide NetworkMagnitudeCalculator.StationResult, NetworkMagnitudeCalculator.Valid;
    var all := c.Outcomes(m, b);
    assert c.Outcomes(m, b[..i] + b[i + 1..]) == all[..i] + all[i + 1..];
    WithoutOne(all, i);
  }

  lemma {:induction false} RearrangedChecks(c: NetworkMagnitudeCalculator, a: seq<ObservationImpl>,
      b: seq<ObservationImpl>)
    requires multiset(a) == multiset(b)
    ensures |a| == |b| && (c.AllComplete(a) ==> c.AllComplete(b)) && (DistinctStations(a) ==> DistinctStations(b))
  {
    SameLength(a, b);
    if c.AllComplete(a) {
      forall i | 0 <= i < |b| ensures c.Complete(b[i]) {
        assert b[i] in multiset(a);
      }
    }
    if DistinctStations(a) {
      RearrangedStaysDistinct(a, b);
    }
  }

  lemma {:induction false} RearrangedStaysDistinct(a: seq<ObservationImpl>, b: seq<ObservationImpl>)
    requires DistinctStations(a) && multiset(a) == multiset(b)
    ensures DistinctStations(b)
  {
    forall i, j | 0 <= i < j < |b| ensures b[i].stationName != b[j].stationName {
      assert b[i] in multiset(a) && b[j] in multiset(a);
      var p :| 0 <= p < |a| && a[p] == b[i];
      var q :| 0 <= q < |a| && a[q] == b[j];
      if p == q {
        RepeatedCounts(b, i, j);
        DistinctCounts(a, p);
      }
    }
  }

  lemma {:induction false} DistinctCounts(a: seq<ObservationImpl>, p: nat)
    requires DistinctStations(a) && p < |a|
    ensures multiset(a)[a[p]] == 1
  {
    assert a == a[..p] + [a[p]] + a[p + 1..];
    assert forall k :: 0 <= k < p ==> a[k].stationName != a[p].stationName;
    assert a[p] !in a[..p] && a[p] !in a[p + 1..];
  }

  /** All incomplete observations lack the same. */
  predicate AllMissTheSame(c: NetworkMagnitudeCalculator, observations: seq<ObservationImpl>) {
    forall i, j :: 0 <= i < |observations| && 0 <= j < |observations|
                   && !c.Complete(observations[i]) && !c.Complete(observations[j]) ==>
                     c.Missing(observations[i]) == c.Missing(observations[j])
  }

  lemma {:induction false} RearrangedMissing(c: NetworkMagnitudeCalculator, a: seq<ObservationImpl>,
      b: seq<ObservationImpl>)
    requires multiset(a) == multiset(b) && AllMissTheSame(c, a) && !c.AllComplete(a) && !c.AllComplete(b)
    ensures c.FirstMissing(a) == c.FirstMissing(b)
  {
    hide NetworkMagnitudeCalculator.Complete, NetworkMagnitudeCalculator.Missing;
    var i := FirstIncompleteDecides(c, a);
    var k := FirstIncompleteDecides(c, b);
    assert b[k] in multiset(a);
    var j :| 0 <= j < |a| && a[j] == b[k];
  }

  /** The order of the observations does not matter: a rearranged list succeeds exactly when the list
      does, with the same value and, but for order and numbers, the same residuals and reasons, and it fails with
      the same error if all incomplete observations lack the same. */
  lemma {:induction false} OrderDoesNotMatter(c: NetworkMagnitudeCalculator, m: MathLibrary, a: seq<ObservationImpl>,
      b: seq<ObservationImpl>)
    requires c.Valid() && AllValid(a) && AllValid(b) && multiset(a) == multiset(b)
    ensures c.NetworkResult(m, a).Value? <==> c.NetworkResult(m, b).Value?
    ensures c.NetworkResult(m, a).Value? ==>
      var before, after := c.NetworkResult(m, a).value, c.NetworkResult(m, b).value;
      && after.value == before.value
      && multiset(Residuals(after.residuals)) == multiset(Residuals(before.residuals))
      && multiset(Reasons(after.rejectedObservations)) == multiset(Reasons(before.rejectedObservations))
    ensures AllMissTheSame(c, a) && c.NetworkResult(m, a).Unexpected? ==>
      c.NetworkResult(m, b) == c.NetworkResult(m, a)
  {
    RearrangedChecks(c, a, b);
    RearrangedChecks(c, b, a);
    RearrangedOutcomes(c, m, a, b);
    RearrangedOutcomesSameSum(c.Outcomes(m, a), c.Outcomes(m, b));
    if AllMissTheSame(c, a) && !c.AllComplete(a) {
      RearrangedMissing(c, a, b);
    }
    if c.NetworkResult(m, a).Value? {
      RearrangedOutcomesSameReports(c.Outcomes(m, a), c.Outcomes(m, b), c.NetworkResult(m, a).value.value);
    }
    hide NetworkMagnitudeCalculator.StationResult, NetworkMagnitudeCalculator.Valid,
         NetworkMagnitudeCalculator.Complete, DistinctStations, ValueInRange, AllMissTheSame;
  }

  /** Every rearrangement of the observations gives the same result. */
  ghost predicate SameInEveryOrder(c: NetworkMagnitudeCalculator, m: MathLibrary, a: seq<ObservationImpl>)
    requires c.Valid() && AllValid(a)
  {
    forall b: seq<ObservationImpl> :: multiset(b) == multiset(a) && AllValid(b) ==>
      c.NetworkResult(m, b) == c.NetworkResult(m, a)
  }

  /** The i-th observation moved to the front. */
  function InFront(a: seq<ObservationImpl>, i: nat): seq<ObservationImpl>
    requires i < |a|
  {
    [a[i]] + a[..i] + a[i + 1..]
  }

  lemma {:induction false} InFrontRearranges(a: seq<ObservationImpl>, i: nat)
    requires i < |a|
    ensures multiset(InFront(a, i)) == multiset(a)
    ensures AllValid(a) ==> AllValid(InFront(a, i))
  {
    assert a == a[..i] + [a[i]] + a[i + 1..];
  }

  /** An incomplete observation in front is the one reported. */
  lemma {:induction false} FrontIsReported(c: NetworkMagnitudeCalculator, m: MathLibrary, a: seq<ObservationImpl>)
    requires c.Valid() && c.initialized && AllValid(a) && a != [] && !c.Complete(a[0])
    ensures c.NetworkResult(m, a) == Unexpected(c.Missing(a[0]))
  {
    hide NetworkMagnitudeCalculator.Complete, NetworkMagnitudeCalculator.Missing,
         NetworkMagnitudeCalculator.StationResult, NetworkMagnitudeCalculator.Valid;
  }

  /** A list that fails fails the same way in every order exactly when all its incomplete observations
      lack the same. */
  lemma {:induction false} SameErrorInEveryOrderExactlyWhen(c: NetworkMagnitudeCalculator, m: MathLibrary,
      a: seq<ObservationImpl>)
    requires c.Valid() && c.initialized && AllValid(a) && c.NetworkResult(m, a).Unexpected?
    ensures SameInEveryOrder(c, m, a) <==> AllMissTheSame(c, a)
  {
    hide NetworkMagnitudeCalculator.Complete, NetworkMagnitudeCalculator.Missing,
         NetworkMagnitudeCalculator.StationResult, NetworkMagnitudeCalculator.Valid,
         NetworkMagnitudeCalculator.NetworkResult;
    if AllMissTheSame(c, a) {
      forall b: seq<ObservationImpl> | multiset(b) == multiset(a) && AllValid(b)
        ensures c.NetworkResult(m, b) == c.NetworkResult(m, a)
      {
        OrderDoesNotMatter(c, m, a, b);
      }
    } else {
      var i, j :| 0 <= i < |a| && 0 <= j < |a| && !c.Complete(a[i]) && !c.Complete(a[j])
                  && c.Missing(a[i]) != c.Missing(a[j]);
      InFrontRearranges(a, i);
      InFrontRearranges(a, j);
      FrontIsReported(c, m, InFront(a, i));
      FrontIsReported(c, m, InFront(a, j));
    }
  }

  /** Which of two incomplete observations is reported depends on their order. */
  lemma {:induction false} OrderDecidesWhichIsMissing(c: NetworkMagnitudeCalculator, m: MathLibrary,
      a: ObservationImpl, b: ObservationImpl)
    requires c.Valid() && c.initialized && a.Valid() && b.Valid()
    requires !c.Complete(a) && !c.Complete(b)
    ensures AllValid([a, b]) && AllValid([b, a])
    ensures c.NetworkResult(m, [a, b]) == Unexpected(c.Missing(a))
    ensures c.NetworkResult(m, [b, a]) == Unexpected(c.Missing(b))
  {
    FrontIsReported(c, m, [a, b]);
    FrontIsReported(c, m, [b, a]);
  }
}
