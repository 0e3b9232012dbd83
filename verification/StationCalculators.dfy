/** src/magnitude/stationMagnitudeCalculator.cpp: one station's magnitude. */
module StationCalculators {
  import opened Results
  import opened MathLibrary
  import opened Observations
  import opened Magnitudes
  import opened Stations
  import opened Distance
  import opened DistanceOptions

  datatype CalculatorErrorCode =
    | NoAmplitudes | NoEpicentralDistance | InvalidDepth | NegativeDistance | StationTooClose | StationTooFar
    | NoEventDepth | StationCorrectionMismatch | UninitializedDistanceCorrection | UninitializedStationCorrection
    | Uninitialized | Algorithmic

  /** Half the average of the two amplitudes. */
  function HalfAverage(pair: AmplitudePair): Positive
    requires Compatible(pair)
  {
    (pair.first.value + pair.second.value) / 4.0
  }

  /** A calculator, immutable once constructed. */
  datatype StationMagnitudeCalculator =
    StationMagnitudeCalculator(station: Station, distance: Distance, initialized: bool)
  {
    ghost predicate Valid() {
      station.Valid() && distance.Valid() && (initialized ==> station.initialized && distance.initialized)
    }

    static method Create(station: Station, distance: Distance)
      returns (r: Expected<StationMagnitudeCalculator, Exception>)
      requires station.Valid() && distance.Valid()
      ensures r == if station.initialized && distance.initialized
                   then Value(StationMagnitudeCalculator(station, distance, true)) else Unexpected(InvalidArgument)
    {
      if !station.initialized || !distance.initialized {
        return Unexpected(InvalidArgument);
      }
      return Value(StationMagnitudeCalculator(station, distance, true));
    }

    // ---------------------------------------------------------- corrections

    function DistanceCorrection(m: MathLibrary, epicentral: real, depth: real): Expected<real, CalculatorErrorCode>
      requires Valid()
    {
      if !initialized then Unexpected(CalculatorErrorCode.Uninitialized)
      else
        match distance.AtSource(m, epicentral, depth)
        case Value(correction) => Value(correction)
        case Unexpected(NegativeDistance) => Unexpected(CalculatorErrorCode.NegativeDistance)
        case Unexpected(StationTooClose) => Unexpected(CalculatorErrorCode.StationTooClose)
        case Unexpected(StationTooFar) => Unexpected(CalculatorErrorCode.StationTooFar)
        case Unexpected(InvalidSourceDepth) => Unexpected(CalculatorErrorCode.InvalidDepth)
        case Unexpected(Uninitialized) => Unexpected(UninitializedDistanceCorrection)
    }

    method GetDistanceCorrection(m: MathLibrary, epicentral: real, depth: real)
      returns (r: Expected<real, CalculatorErrorCode>)
      requires Valid()
      ensures r == DistanceCorrection(m, epicentral, depth)
    {
      if !initialized {
        return Unexpected(CalculatorErrorCode.Uninitialized);
      }
      if epicentral < 0.0 {
        return Unexpected(CalculatorErrorCode.NegativeDistance);
      }
      var correction := distance.LookupSource(m, epicentral, depth);
      if correction.Value? {
        return Value(correction.value);
      } else if correction.error == DistanceErrorCode.NegativeDistance {
        return Unexpected(CalculatorErrorCode.NegativeDistance);
      } else if correction.error == DistanceErrorCode.StationTooClose {
        return Unexpected(CalculatorErrorCode.StationTooClose);
      } else if correction.error == DistanceErrorCode.StationTooFar {
        return Unexpected(CalculatorErrorCode.StationTooFar);
      } else if correction.error == DistanceErrorCode.InvalidSourceDepth {
        return Unexpected(CalculatorErrorCode.InvalidDepth);
      } else if correction.error == DistanceErrorCode.Uninitialized {
        return Unexpected(UninitializedDistanceCorrection);
      } else {
        assert false; // the Algorithmic error
      }
    }

    method GetStationCorrection() returns (r: Expected<real, CalculatorErrorCode>)
      requires Valid()
      ensures r == if initialized then Value(station.correction) else Unexpected(CalculatorErrorCode.Uninitialized)
    {
      if !initialized {
        return Unexpected(CalculatorErrorCode.Uninitialized);
      }
      assert station.initialized; // so the uninitialized station correction error is out of reach
      return Value(station.correction);
    }

    // ------------------------------------------------------ station magnitude

    /** The station magnitude formula, packaged. */
    function Packaged(m: MathLibrary, o: ObservationImpl, distanceCorrection: real): StationMagnitudeImpl
      requires Compatible(o.amplitudes)
    {
      StationMagnitudeImpl(
        o.amplitudes, o.amplitudes.first.identifier.StationName(),
        m.log10(HalfAverage(o.amplitudes)) + distanceCorrection + station.correction,
        station.correction, distanceCorrection, true, true, true, true)
    }

    /** The depth the distance correction is given. */
    function DepthUsed(o: ObservationImpl): real {
      if distance.IsHypocentral() then o.sourceDepth else 0.0
    }

    function Result(m: MathLibrary, o: ObservationImpl): Expected<StationMagnitudeImpl, CalculatorErrorCode>
      requires Valid() && o.Valid()
    {
      if !initialized then Unexpected(CalculatorErrorCode.Uninitialized)
      else if !o.hasAmplitudes then Unexpected(NoAmplitudes)
      else if !o.hasEpicentralDistance then Unexpected(NoEpicentralDistance)
      else if o.stationName != station.Name() then Unexpected(StationCorrectionMismatch)
      else if distance.IsHypocentral() && !o.hasSourceDepth then Unexpected(NoEventDepth)
      else
        match DistanceCorrection(m, o.epicentralDistance, DepthUsed(o))
        case Value(correction) => Value(Packaged(m, o, correction))
        case Unexpected(error) => Unexpected(error)
    }

    /** operator(). No setter it calls outside its try block can throw, nor the one inside. */
    method Apply(m: MathLibrary, o: ObservationImpl) returns (r: Expected<StationMagnitudeImpl, CalculatorErrorCode>)
      requires Valid() && o.Valid()
      ensures r == Result(m, o)
    {
      if !initialized {
        return Unexpected(CalculatorErrorCode.Uninitialized);
      }
      if !o.hasAmplitudes {
        return Unexpected(NoAmplitudes);
      }
      if !o.hasEpicentralDistance {
        return Unexpected(NoEpicentralDistance);
      }
      var correctionName := station.identifier.ToString();
      assert correctionName == Value(station.Name());
      if o.stationName != correctionName.value {
        return Unexpected(StationCorrectionMismatch);
      }
      var eventDepth := 0.0;
      if distance.IsHypocentral() {
        if !o.hasSourceDepth {
          return Unexpected(NoEventDepth);
        }
        eventDepth := o.sourceDepth;
      }
      var amplitude1, amplitude2 := o.amplitudes.first.value, o.amplitudes.second.value;
      var averageAmplitude := 0.5 * (amplitude1 + amplitude2);
      var distanceCorrection := GetDistanceCorrection(m, o.epicentralDistance, eventDepth);
      if distanceCorrection.Unexpected? {
        return Unexpected(distanceCorrection.error);
      }
      var stationCorrection := GetStationCorrection();
      if stationCorrection.Unexpected? {
        assert false; // this calculator is initialized
      }
      var uncorrected := m.log10(0.5 * averageAmplitude);
      var value := uncorrected + distanceCorrection.value + stationCorrection.value;
      var result := new StationMagnitude();
      var stored := result.SetAmplitudes(o.amplitudes);
      if stored.Throw? {
        assert false; // the Algorithmic error
      }
      result.SetValue(value);
      result.SetStationCorrection(stationCorrection.value);
      result.SetDistanceCorrection(distanceCorrection.value);
      assert 0.5 * averageAmplitude == HalfAverage(o.amplitudes);
      return Value(result.impl);
    }

    // -------------------------------------------------------------- theorems

    /** The formula: log10 of a quarter of the amplitudes' sum, plus the distance correction, plus the
        station's. */
    lemma {:induction false} MagnitudeFollowsFormula(m: MathLibrary, o: ObservationImpl)
      requires Valid() && o.Valid() && Result(m, o).Value?
      ensures var magnitude := Result(m, o).value;
        && magnitude.stationCorrection == station.correction
        && (distance.IsHypocentral() ==>
             distance.AtSource(m, o.epicentralDistance, o.sourceDepth) == Value(magnitude.distanceCorrection))
        && (!distance.IsHypocentral() ==> distance.At(o.epicentralDistance) == Value(magnitude.distanceCorrection))
        && (exists x: Positive ::
             && 4.0 * x == o.amplitudes.first.value + o.amplitudes.second.value
             && magnitude.value == m.log10(x) + magnitude.distanceCorrection + station.correction)
    {
      var x: Positive := HalfAverage(o.amplitudes);
      assert 4.0 * x == o.amplitudes.first.value + o.amplitudes.second.value;
      if !distance.IsHypocentral() {
        distance.EpicentralIgnoresDepth(m, o.epicentralDistance, DepthUsed(o));
      }
    }

    /** How a distance correction fails, by the source itself and the ends of the table. */
    lemma {:induction false} DistanceErrorsExactlyWhen(m: MathLibrary, epicentral: real, depth: real)
      requires Valid() && initialized && m.HypotIsEuclidean()
      ensures var r, entered := DistanceCorrection(m, epicentral, depth), distance.TableDistance(m, epicentral, depth);
        var deep := distance.options.distanceType == Hypocentral && !(-8600.0 <= depth <= 900000.0);
        && (r == Unexpected(CalculatorErrorCode.NegativeDistance) <==> epicentral < 0.0)
        && (r == Unexpected(CalculatorErrorCode.InvalidDepth) <==> epicentral >= 0.0 && deep)
        && (r == Unexpected(CalculatorErrorCode.StationTooClose) <==>
             epicentral >= 0.0 && !deep && entered < distance.minimum)
        && (r == Unexpected(CalculatorErrorCode.StationTooFar) <==>
             epicentral >= 0.0 && !deep && distance.maximum < entered)
        && (r.Value? <==> epicentral >= 0.0 && !deep && distance.minimum <= entered <= distance.maximum)
    {
      assert m.hypot(epicentral, depth + distance.options.datum) >= 0.0;
    }

    /** What is checked before anything is computed, in this order. */
    lemma {:induction false} ChecksInOrder(m: MathLibrary, o: ObservationImpl)
      requires Valid() && initialized && o.Valid()
      ensures Result(m, o) == Unexpected(NoAmplitudes) <==> !o.hasAmplitudes
      ensures Result(m, o) == Unexpected(NoEpicentralDistance) <==> o.hasAmplitudes && !o.hasEpicentralDistance
      ensures Result(m, o) == Unexpected(StationCorrectionMismatch) <==>
        o.hasAmplitudes && o.hasEpicentralDistance && o.stationName != station.Name()
      ensures Result(m, o) == Unexpected(NoEventDepth) <==>
        && o.hasAmplitudes && o.hasEpicentralDistance && o.stationName == station.Name()
        && distance.options.distanceType == Hypocentral && !o.hasSourceDepth
      ensures Result(m, o) != Unexpected(CalculatorErrorCode.Uninitialized)
    {
    }

    /** For an observation of this station that has all that is needed, the only way to fail is by
        being too close or too far. */
    lemma {:induction false} OnlyRangeErrors(m: MathLibrary, o: ObservationImpl)
      requires Valid() && initialized && o.Valid() && m.HypotIsEuclidean()
      requires o.hasAmplitudes && o.hasEpicentralDistance && o.stationName == station.Name()
      requires distance.IsHypocentral() ==> o.hasSourceDepth
      ensures Result(m, o).Unexpected? ==>
        Result(m, o).error in {CalculatorErrorCode.StationTooClose, CalculatorErrorCode.StationTooFar}
    {
      distance.OnlyRangeErrors(m, o.epicentralDistance, DepthUsed(o));
    }

    /** Swapping the channels changes neither the outcome nor the magnitude. */
    lemma {:induction false} SwappedChannelsSameMagnitude(m: MathLibrary, o: ObservationImpl)
      requires Valid() && o.Valid() && o.hasAmplitudes
      ensures var swapped := o.(amplitudes := Swapped(o.amplitudes));
        && swapped.Valid()
        && (Result(m, swapped).Value? <==> Result(m, o).Value?)
        && (Result(m, o).Unexpected? ==> Result(m, swapped) == Result(m, o))
        && (Result(m, o).Value? ==>
             Result(m, swapped).value == Result(m, o).value.(amplitudes := Swapped(o.amplitudes)))
    {
    }
  }

  /** Both amplitudes times a factor. */
  function Scaled(pair: AmplitudePair, factor: Positive): AmplitudePair {
    AmplitudePair(pair.first.(value := pair.first.value * factor), pair.second.(value := pair.second.value * factor))
  }

  lemma {:induction false} ScaledIsCompatible(pair: AmplitudePair, factor: Positive)
    requires Compatible(pair)
    ensures Compatible(Scaled(pair, factor))
    ensures HalfAverage(Scaled(pair, factor)) == Product(HalfAverage(pair), factor)
  {
    var a, b := pair.first.value, pair.second.value;
    PositiveProduct(a, factor);
    PositiveProduct(b, factor);
    assert a * factor + b * factor == (a + b) * factor;
  }

  /** Scaling both amplitudes of an observation shifts its magnitude by the factor's logarithm
      and does not change whether it has one. */
  lemma {:induction false} ScalingShiftsMagnitude(c: StationMagnitudeCalculator, m: MathLibrary, o: ObservationImpl,
      factor: Positive)
    requires c.Valid() && o.Valid() && o.hasAmplitudes && m.LogOfProducts()
    ensures var scaled := o.(amplitudes := Scaled(o.amplitudes, factor));
      && scaled.Valid()
      && (c.Result(m, scaled).Value? <==> c.Result(m, o).Value?)
      && (c.Result(m, o).Unexpected? ==> c.Result(m, scaled) == c.Result(m, o))
      && (c.Result(m, o).Value? ==>
           c.Result(m, scaled).value == c.Result(m, o).value.(
             amplitudes := scaled.amplitudes, value := c.Result(m, o).value.value + m.log10(factor)))
  {
    ScaledIsCompatible(o.amplitudes, factor);
    assert m.log10(Product(HalfAverage(o.amplitudes), factor)) == m.log10(HalfAverage(o.amplitudes)) + m.log10(factor);
  }

  /** 10 to an integer power. */
  function PowerOfTen(k: int): Positive
    decreases if k < 0 then -k else k
  {
    if k == 0 then 1.0
    else if k > 0 then Product(PowerOfTen(k - 1), 10.0)
    else PowerOfTen(k + 1) / 10.0
  }

  /** log10(10^k) == k. */
  lemma {:induction false} LogOfPowerOfTen(m: MathLibrary, k: int)
    requires m.LogOfProducts() && m.log10(10.0) == 1.0
    ensures m.log10(PowerOfTen(k)) == k as real
    decreases if k < 0 then -k else k
  {
    if k == 0 {
      assert m.log10(Product(1.0, 1.0)) == m.log10(1.0) + m.log10(1.0);
    } else if k > 0 {
      LogOfPowerOfTen(m, k - 1);
      assert m.log10(Product(PowerOfTen(k - 1), 10.0)) == m.log10(PowerOfTen(k - 1)) + m.log10(10.0);
    } else {
      LogOfPowerOfTen(m, k + 1);
      assert Product(PowerOfTen(k), 10.0) == PowerOfTen(k + 1);
      assert m.log10(Product(PowerOfTen(k), 10.0)) == m.log10(PowerOfTen(k)) + m.log10(10.0);
    }
  }
}
