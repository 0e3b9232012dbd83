/** How the network magnitude answers to changes of single observations: one more that cannot be
    used, channels swapped, amplitudes scaled. */
module NetworkStability {
  import opened Results
  import opened MathLibrary
  import opened Observations
  import opened Magnitudes
  import opened StationCalculators
  import opened NetworkAverages
  import opened NetworkCalculators
  import opened NetworkTheorems

  // ------------------------------------------------------------------ insertion

  /** Numbers after n make room for one more observation. */
  function Renumbered(residuals: seq<NumberedResidual>, n: int): seq<NumberedResidual> {
    seq(|residuals|, i requires 0 <= i < |residuals| =>
      if residuals[i].observationNumber <= n then residuals[i]
      else residuals[i].(observationNumber := residuals[i].observationNumber + 1))
  }

  lemma {:induction false} RenumberedBefore(outcomes: seq<StationOutcome>, networkValue: real, first: int, n: int)
    requires first + |outcomes| <= n + 1
    ensures Renumbered(ResidualsOf(outcomes, networkValue, first), n) == ResidualsOf(outcomes, networkValue, first)
  {
    if outcomes != [] {
      RenumberedBefore(outcomes[..|outcomes| - 1], networkValue, first, n);
    }
  }

  lemma {:induction false} RenumberedAfter(outcomes: seq<StationOutcome>, networkValue: real, first: int, n: int)
    requires n < first
    ensures Renumbered(ResidualsOf(outcomes, networkValue, first), n) == ResidualsOf(outcomes, networkValue, first + 1)
  {
    if outcomes != [] {
      RenumberedAfter(outcomes[..|outcomes| - 1], networkValue, first, n);
    }
  }

  lemma {:induction false} RenumberedAppend(a: seq<NumberedResidual>, b: seq<NumberedResidual>, n: int)
    ensures Renumbered(a + b, n) == Renumbered(a, n) + Renumbered(b, n)
  {
  }

  /** A rejected outcome anywhere leaves the magnitudes and, but for numbering, the residuals. */
  lemma {:induction false} RejectedOutcomeInserted(a: seq<StationOutcome>, x: StationOutcome, b: seq<StationOutcome>,
      networkValue: real)
    requires x.Unexpected?
    ensures AcceptedValues(a + [x] + b) == AcceptedValues(a + b)
    ensures ResidualsOf(a + [x] + b, networkValue, 1) == Renumbered(ResidualsOf(a + b, networkValue, 1), |a|)
    ensures RejectionsOf(a + [x] + b, 1) ==
            RejectionsOf(a, 1) + [Rejection(x.error, |a| + 1)] + RejectionsOf(b, |a| + 2)
  {
    AcceptedAppend(a + [x], b);
    AcceptedAppend(a, [x]);
    AcceptedAppend(a, b);
    assert AcceptedValues([x]) == [];
    ResidualsAppend(a + [x], b, networkValue, 1);
    ResidualsAppend(a, [x], networkValue, 1);
    ResidualsAppend(a, b, networkValue, 1);
    assert ResidualsOf([x], networkValue, 1 + |a|) == [];
    RenumberedAppend(ResidualsOf(a, networkValue, 1), ResidualsOf(b, networkValue, 1 + |a|), |a|);
    RenumberedBefore(a, networkValue, 1, |a|);
    RenumberedAfter(b, networkValue, 1 + |a|, |a|);
    RejectionsAppend(a + [x], b, 1);
    RejectionsAppend(a, [x], 1);
    assert RejectionsOf([x], 1 + |a|) == [Rejection(x.error, |a| + 1)];
  }

  lemma {:induction false} InsertedOutcomes(c: NetworkMagnitudeCalculator, m: MathLibrary, a: seq<ObservationImpl>,
      o: ObservationImpl, b: seq<ObservationImpl>)
    requires c.Valid() && AllValid(a) && o.Valid() && AllValid(b)
    ensures AllValid(a + [o] + b) && AllValid(a + b)
    ensures c.Outcomes(m, a + [o] + b) == c.Outcomes(m, a) + [c.StationResult(m, o)] + c.Outcomes(m, b)
    ensures c.Outcomes(m, a + b) == c.Outcomes(m, a) + c.Outcomes(m, b)
  {
  }

  predicate NewStation(o: ObservationImpl, observations: seq<ObservationImpl>) {
    forall i :: 0 <= i < |observations| ==> observations[i].stationName != o.stationName
  }

  lemma {:induction false} InsertedChecks(c: NetworkMagnitudeCalculator, a: seq<ObservationImpl>, o: ObservationImpl,
      b: seq<ObservationImpl>)
    requires c.Complete(o) && NewStation(o, a + b)
    ensures c.AllComplete(a + [o] + b) <==> c.AllComplete(a + b)
    ensures DistinctStations(a + [o] + b) <==> DistinctStations(a + b)
  {
    var more, less, n := a + [o] + b, a + b, |a|;
    assert forall i :: 0 <= i < n ==> less[i] == more[i];
    assert forall i :: n <= i < |less| ==> less[i] == more[i + 1];
    assert forall i :: n < i < |more| ==> more[i] == less[i - 1];
  }

  /** A complete observation of a new station that is rejected, put anywhere in the list, changes neither
      whether there is a network magnitude nor its value nor its residuals; numbers after it
      shift by one, and it is listed with its reason. */
  lemma {:induction false} RejectedObservationIsInert(c: NetworkMagnitudeCalculator, m: MathLibrary,
      a: seq<ObservationImpl>, o: ObservationImpl, b: seq<ObservationImpl>)
    requires c.Valid() && c.initialized && AllValid(a) && o.Valid() && AllValid(b)
    requires c.Complete(o) && NewStation(o, a + b) && c.StationResult(m, o).Unexpected?
    ensures AllValid(a + [o] + b) && AllValid(a + b)
    ensures c.NetworkResult(m, a + [o] + b).Value? <==> c.NetworkResult(m, a + b).Value?
    ensures c.NetworkResult(m, a + b).Value? ==>
      var more, less := c.NetworkResult(m, a + [o] + b).value, c.NetworkResult(m, a + b).value;
      && more.value == less.value
      && more.residuals == Renumbered(less.residuals, |a|)
      && more.rejectedObservations == RejectionsOf(c.Outcomes(m, a), 1)
         + [Rejection(c.StationResult(m, o).error, |a| + 1)] + RejectionsOf(c.Outcomes(m, b), |a| + 2)
  {
    InsertedOutcomes(c, m, a, o, b);
    InsertedChecks(c, a, o, b);
    ResultOutline(c, m, a + [o] + b);
    ResultOutline(c, m, a + b);
    var outcomesA, outcome, outcomesB := c.Outcomes(m, a), c.StationResult(m, o), c.Outcomes(m, b);
    hide NetworkMagnitudeCalculator.NetworkResult, NetworkMagnitudeCalculator.StationResult,
         NetworkMagnitudeCalculator.Valid, NetworkMagnitudeCalculator.Complete,
         NetworkMagnitudeCalculator.AllComplete, DistinctStations, Mean, ValueInRange;
    RejectedOutcomeInserted(outcomesA, outcome, outcomesB, 0.0);
    if c.NetworkResult(m, a + b).Value? {
      RejectedOutcomeInserted(outcomesA, outcome, outcomesB, c.NetworkResult(m, a + b).value.value);
    }
  }

  // -------------------------------------------------------- one magnitude changed

  /** One accepted magnitude shifted by delta shifts the sum by delta. */
  lemma {:induction false} ShiftedOutcome(outcomes: seq<StationOutcome>, i: nat, shifted: StationMagnitudeImpl)
    requires i < |outcomes| && outcomes[i].Value?
    ensures var changed := outcomes[i := Value(shifted)];
      && |AcceptedValues(changed)| == |AcceptedValues(outcomes)|
      && Sum(AcceptedValues(changed)) == Sum(AcceptedValues(outcomes)) + (shifted.value - outcomes[i].value.value)
  {
    var changed := outcomes[i := Value(shifted)];
    RemovedOutcome(outcomes, i);
    RemovedOutcome(changed, i);
    assert changed[..i] + changed[i + 1..] == outcomes[..i] + outcomes[i + 1..];
    assert AcceptedValues([outcomes[i]]) == [outcomes[i].value.value];
    assert AcceptedValues([changed[i]]) == [shifted.value];
    SumOfOne(outcomes[i].value.value);
    SumOfOne(shifted.value);
  }

  lemma {:induction false} SumOfOne(x: real)
    ensures Sum([x]) == x
  {
  }

  lemma {:induction false} ChangedOutcomes(c: NetworkMagnitudeCalculator, m: MathLibrary,
      observations: seq<ObservationImpl>, i: nat, o: ObservationImpl)
    requires c.Valid() && AllValid(observations) && i < |observations| && o.Valid()
    ensures AllValid(observations[i := o])
    ensures c.Outcomes(m, observations[i := o]) == c.Outcomes(m, observations)[i := c.StationResult(m, o)]
  {
  }

  /** The same observation with other amplitudes of the same station. */
  predicate SameButAmplitudes(o: ObservationImpl, p: ObservationImpl) {
    p == o.(amplitudes := p.amplitudes)
  }

  lemma {:induction false} ChangedChecks(c: NetworkMagnitudeCalculator, observations: seq<ObservationImpl>, i: nat,
      o: ObservationImpl)
    requires i < |observations| && SameButAmplitudes(observations[i], o)
    ensures c.AllComplete(observations[i := o]) <==> c.AllComplete(observations)
    ensures DistinctStations(observations[i := o]) <==> DistinctStations(observations)
  {
    var changed := observations[i := o];
    assert forall k :: 0 <= k < |changed| ==> changed[k].stationName == observations[k].stationName;
    assert forall k :: 0 <= k < |changed| ==> (c.Complete(changed[k]) <==> c.Complete(observations[k]));
  }

  /** A mean of n values after one of them moved by delta. */
  function Moved(mean: real, delta: real, n: nat): real
    requires n > 0
  {
    mean + delta / n as real
  }

  lemma {:induction false} MeanMoves(xs: seq<real>, ys: seq<real>, delta: real)
    requires |xs| == |ys| > 0 && Sum(ys) == Sum(xs) + delta
    ensures Mean(ys) == Moved(Mean(xs), delta, |xs|)
  {
  }

  /** With n accepted stations before, the network value afterwards is moved by delta / n, unless that takes it out
      of range. */
  ghost predicate NetworkValueMoves(c: NetworkMagnitudeCalculator, m: MathLibrary, before: seq<ObservationImpl>,
      after: seq<ObservationImpl>, delta: real)
    requires c.Valid() && AllValid(before) && AllValid(after) && c.NetworkResult(m, before).Value?
  {
    c.Accepted(m, before) != [] &&
    var moved := Moved(c.NetworkResult(m, before).value.value, delta, |c.Accepted(m, before)|);
    if ValueInRange(moved)
    then c.NetworkResult(m, after).Value? && c.NetworkResult(m, after).value.value == moved
    else c.NetworkResult(m, after) == Unexpected(ErrorCode.Algorithm)
  }

  /** Changing one accepted station's amplitudes so that its magnitude moves by delta. */
  lemma {:induction false} ChangedAmplitudes(c: NetworkMagnitudeCalculator, m: MathLibrary,
      observations: seq<ObservationImpl>, i: nat, o: ObservationImpl, delta: real)
    requires c.Valid() && c.initialized && AllValid(observations) && i < |observations| && o.Valid()
    requires SameButAmplitudes(observations[i], o)
    requires c.NetworkResult(m, observations).Value? && c.StationResult(m, observations[i]).Value?
    requires c.StationResult(m, o).Value?
    requires c.StationResult(m, o).value.value == c.StationResult(m, observations[i]).value.value + delta
    ensures AllValid(observations[i := o]) && NetworkValueMoves(c, m, observations, observations[i := o], delta)
  {
    ResultOutline(c, m, observations);
    ChangedOutcomes(c, m, observations, i, o);
    ChangedChecks(c, observations, i, o);
    ResultOutline(c, m, observations[i := o]);
    var outcomes := c.Outcomes(m, observations);
    assert outcomes[i] == c.StationResult(m, observations[i]);
    hide NetworkMagnitudeCalculator.NetworkResult, NetworkMagnitudeCalculator.StationResult,
         NetworkMagnitudeCalculator.Valid, NetworkMagnitudeCalculator.Complete,
         NetworkMagnitudeCalculator.AllComplete, DistinctStations, Mean, ValueInRange, Moved;
    ShiftedOutcome(outcomes, i, c.StationResult(m, o).value);
    MeanMoves(c.Accepted(m, observations), c.Accepted(m, observations[i := o]), delta);
  }

  /** What becomes of one observation when its amplitudes are scaled. */
  lemma {:induction false} ScaledOutcome(c: NetworkMagnitudeCalculator, m: MathLibrary, o: ObservationImpl,
      factor: Positive)
    requires c.Valid() && c.initialized && o.Valid() && o.hasAmplitudes && m.LogOfProducts()
    ensures var scaled := o.(amplitudes := Scaled(o.amplitudes, factor));
      && scaled.Valid()
      && (c.StationResult(m, scaled).Value? <==> c.StationResult(m, o).Value?)
      && (c.StationResult(m, o).Value? ==>
           c.StationResult(m, scaled).value.value == c.StationResult(m, o).value.value + m.log10(factor))
  {
    ScaledIsCompatible(o.amplitudes, factor);
    if o.stationName in c.calculators {
      assert c.CalculatorFor(o.stationName);
      ScalingShiftsMagnitude(c.calculators[o.stationName], m, o, factor);
    }
  }

  /** Scaling both amplitudes of one accepted station by 10^k moves the network value of n accepted
      stations by k / n. */
  lemma {:induction false} ScalingByPowerOfTen(c: NetworkMagnitudeCalculator, m: MathLibrary,
      observations: seq<ObservationImpl>, i: nat, k: int)
    requires c.Valid() && c.initialized && AllValid(observations) && i < |observations|
    requires m.LogOfProducts() && m.log10(10.0) == 1.0
    requires c.NetworkResult(m, observations).Value? && c.StationResult(m, observations[i]).Value?
    ensures observations[i].hasAmplitudes
    ensures var o := observations[i].(amplitudes := Scaled(observations[i].amplitudes, PowerOfTen(k)));
      && o.Valid() && AllValid(observations[i := o])
      && NetworkValueMoves(c, m, observations, observations[i := o], k as real)
  {
    assert observations[i].hasAmplitudes;
    var o := observations[i].(amplitudes := Scaled(observations[i].amplitudes, PowerOfTen(k)));
    LogOfPowerOfTen(m, k);
    ScaledOutcome(c, m, observations[i], PowerOfTen(k));
    hide NetworkMagnitudeCalculator.StationResult, NetworkMagnitudeCalculator.Valid,
         NetworkMagnitudeCalculator.NetworkResult, Scaled, NetworkValueMoves;
    ChangedAmplitudes(c, m, observations, i, o, k as real);
  }

  // --------------------------------------------------------------- swapped channels

  /** The same outcome, up to what a magnitude was made of. */
  predicate SameUpToAmplitudes(x: StationOutcome, y: StationOutcome) {
    if x.Value? then y.Value? && y.value.value == x.value.value else y == x
  }

  /** What becomes of one observation when its channels are swapped. */
  lemma {:induction false} SwappedOutcome(c: NetworkMagnitudeCalculator, m: MathLibrary, o: ObservationImpl)
    requires c.Valid() && o.Valid() && o.hasAmplitudes
    ensures var swapped := o.(amplitudes := Swapped(o.amplitudes));
      swapped.Valid() && SameUpToAmplitudes(c.StationResult(m, o), c.StationResult(m, swapped))
  {
    if c.initialized && o.stationName in c.calculators {
      assert c.CalculatorFor(o.stationName);
      c.calculators[o.stationName].SwappedChannelsSameMagnitude(m, o);
    }
  }

  lemma {:induction false} SameReports(a: seq<StationOutcome>, b: seq<StationOutcome>)
    requires |a| == |b| && forall k :: 0 <= k < |a| ==> SameUpToAmplitudes(a[k], b[k])
    ensures AcceptedValues(a) == AcceptedValues(b) && RejectionsOf(a, 1) == RejectionsOf(b, 1)
  {
    if a != [] {
      var n := |a| - 1;
      SameReports(a[..n], b[..n]);
      assert SameUpToAmplitudes(a[n], b[n]);
    }
  }

  lemma {:induction false} SameResidualValues(a: seq<StationOutcome>, b: seq<StationOutcome>, networkValue: real)
    requires AcceptedValues(a) == AcceptedValues(b)
    ensures ResidualValues(ResidualsOf(a, networkValue, 1)) == ResidualValues(ResidualsOf(b, networkValue, 1))
  {
    ResidualValuesAre(a, networkValue, 1);
    ResidualValuesAre(b, networkValue, 1);
  }

  /** Two results are alike: the same error, or the same value, residual values and rejections. */
  predicate SameMagnitude(before: Expected<NetworkMagnitudeImpl, ErrorCode>,
      after: Expected<NetworkMagnitudeImpl, ErrorCode>)
  {
    if before.Unexpected? then after == before
    else
      && after.Value? && after.value.value == before.value.value
      && ResidualValues(after.value.residuals) == ResidualValues(before.value.residuals)
      && after.value.rejectedObservations == before.value.rejectedObservations
  }

  /** A result depends on no more than the checks, the accepted magnitudes and the rejections. */
  lemma {:induction false} SameChecksSameMagnitude(c: NetworkMagnitudeCalculator, m: MathLibrary,
      a: seq<ObservationImpl>, b: seq<ObservationImpl>)
    requires c.Valid() && AllValid(a) && AllValid(b) && |a| == |b|
    requires c.AllComplete(a) <==> c.AllComplete(b)
    requires c.AllComplete(a) || c.FirstMissing(a) == c.FirstMissing(b)
    requires DistinctStations(a) <==> DistinctStations(b)
    requires c.Accepted(m, a) == c.Accepted(m, b)
    requires RejectionsOf(c.Outcomes(m, a), 1) == RejectionsOf(c.Outcomes(m, b), 1)
    ensures SameMagnitude(c.NetworkResult(m, a), c.NetworkResult(m, b))
  {
    if c.NetworkResult(m, a).Value? {
      SameResidualValues(c.Outcomes(m, a), c.Outcomes(m, b), Mean(c.Accepted(m, a)));
    }
    hide NetworkMagnitudeCalculator.StationResult, NetworkMagnitudeCalculator.Complete,
         NetworkMagnitudeCalculator.AllComplete, DistinctStations, ValueInRange;
  }

  lemma {:induction false} ChangedMissing(c: NetworkMagnitudeCalculator, observations: seq<ObservationImpl>, i: nat,
      o: ObservationImpl)
    requires i < |observations| && SameButAmplitudes(observations[i], o) && !c.AllComplete(observations)
    ensures !c.AllComplete(observations[i := o])
    ensures c.FirstMissing(observations[i := o]) == c.FirstMissing(observations)
  {
    ChangedChecks(c, observations, i, o);
    var k := FirstIncompleteDecides(c, observations);
    var changed := FirstIncompleteDecides(c, observations[i := o]);
    assert c.Complete(o) <==> c.Complete(observations[i]);
    assert FirstIncomplete(c, observations[i := o], k);
  }

  lemma {:induction false} SwappedReports(c: NetworkMagnitudeCalculator, m: MathLibrary,
      observations: seq<ObservationImpl>, i: nat)
    requires c.Valid() && AllValid(observations) && i < |observations| && observations[i].hasAmplitudes
    ensures var o := observations[i].(amplitudes := Swapped(observations[i].amplitudes));
      && o.Valid() && AllValid(observations[i := o])
      && c.Accepted(m, observations[i := o]) == c.Accepted(m, observations)
      && RejectionsOf(c.Outcomes(m, observations[i := o]), 1) == RejectionsOf(c.Outcomes(m, observations), 1)
  {
    hide NetworkMagnitudeCalculator.StationResult, NetworkMagnitudeCalculator.Valid, Swapped;
    var o := observations[i].(amplitudes := Swapped(observations[i].amplitudes));
    SwappedOutcome(c, m, observations[i]);
    ChangedOutcomes(c, m, observations, i, o);
    SameReports(c.Outcomes(m, observations), c.Outcomes(m, observations[i := o]));
  }

  /** Swapping the channels of any observation of any list, whether it succeeds or not, leaves the error or the
      value, the residuals' values and the rejections alone. */
  lemma {:induction false} SwappedChannelsSameNetworkValue(c: NetworkMagnitudeCalculator, m: MathLibrary,
      observations: seq<ObservationImpl>, i: nat)
    requires c.Valid() && AllValid(observations) && i < |observations| && observations[i].hasAmplitudes
    ensures var pair := observations[i].amplitudes;
      var o := observations[i].(amplitudes := AmplitudePair(pair.second, pair.first));
      && o.Valid() && AllValid(observations[i := o])
      && SameMagnitude(c.NetworkResult(m, observations), c.NetworkResult(m, observations[i := o]))
  {
    hide NetworkMagnitudeCalculator.StationResult, NetworkMagnitudeCalculator.Valid,
         NetworkMagnitudeCalculator.NetworkResult, NetworkMagnitudeCalculator.Accepted, SameMagnitude;
    var o := observations[i].(amplitudes := Swapped(observations[i].amplitudes));
    SwappedReports(c, m, observations, i);
    ChangedChecks(c, observations, i, o);
    if !c.AllComplete(observations) {
      ChangedMissing(c, observations, i, o);
    }
    SameChecksSameMagnitude(c, m, observations, observations[i := o]);
  }
}
