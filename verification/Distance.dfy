/** src/corrections/distance.cpp: the distance correction itself. */
module Distance {
  import opened Results
  import opened MathLibrary
  import opened Interpolation
  import opened DistanceTables
  import opened Rearrangements
  import opened DistanceOptions

  datatype DistanceErrorCode = NegativeDistance | StationTooClose | StationTooFar | InvalidSourceDepth | Uninitialized

  /** std::ranges::minmax_element. */
  method MinMaxElement(xs: seq<real>) returns (least: real, greatest: real)
    requires |xs| > 0
    ensures least in xs && greatest in xs
    ensures forall i :: 0 <= i < |xs| ==> least <= xs[i] <= greatest
  {
    least, greatest := xs[0], xs[0];
    for i := 1 to |xs|
      invariant least in xs && greatest in xs
      invariant forall k :: 0 <= k < i ==> least <= xs[k] <= greatest
    {
      if xs[i] < least {
        least := xs[i];
      }
      if xs[i] > greatest {
        greatest := xs[i];
      }
    }
  }

  /** A distance correction, immutable once constructed. */
  datatype Distance = Distance(options: DistanceOptionsImpl, abscissas: seq<real>, values: seq<real>,
                               minimum: real, maximum: real, initialized: bool)
  {
    /** What the constructor establishes. */
    ghost predicate Valid() {
      initialized ==>
        && options.Valid() && options.haveCorrections && options.hasInterpolation && options.hasType
        && |abscissas| == |values| == |options.corrections|
        && (forall i :: 0 <= i < |values| ==>
             abscissas[i] == options.corrections[i].distance && values[i] == options.corrections[i].correction)
        && StrictlyIncreasing(abscissas)
        && minimum == abscissas[0] >= 0.0 && maximum == abscissas[|abscissas| - 1]
    }

    /** The constructor. The extreme abscissas it finds are the ends of the table. */
    static method Create(options: DistanceOptionsImpl) returns (r: Expected<Distance, Exception>)
      requires options.Valid()
      ensures r.Value? <==> options.haveCorrections && options.hasInterpolation && options.hasType
      ensures r.Value? ==> r.value.Valid() && r.value.initialized && r.value.options == options
    {
      if !options.haveCorrections || !options.hasInterpolation || !options.hasType {
        return Unexpected(RuntimeError);
      }
      var table := options.corrections;
      var abscissas, values: seq<real> := [], [];
      for i := 0 to |table|
        invariant |abscissas| == |values| == i
        invariant forall k :: 0 <= k < i ==> abscissas[k] == table[k].distance && values[k] == table[k].correction
      {
        abscissas := abscissas + [table[i].distance];
        values := values + [table[i].correction];
      }
      var minimum, maximum := MinMaxElement(abscissas);
      return Value(Distance(options, abscissas, values, minimum, maximum, true));
    }

    /** The correction read off the table at a distance within it. */
    function CorrectionWithin(distance: real): real
      requires Valid() && initialized
    {
      if options.interpolation == Nearest
      then values[ClosestNode(distance, abscissas)]
      else Curve(distance, abscissas, values)
    }

    /** What the lookup by distance returns. */
    function At(distance: real): Expected<real, DistanceErrorCode>
      requires Valid()
    {
      if !initialized then Unexpected(Uninitialized)
      else if minimum <= distance <= maximum then Value(CorrectionWithin(distance))
      else if distance < 0.0 then Unexpected(NegativeDistance)
      else if distance < minimum then Unexpected(StationTooClose)
      else Unexpected(StationTooFar)
    }

    method Lookup(distance: real) returns (r: Expected<real, DistanceErrorCode>)
      requires Valid()
      ensures r == At(distance)
    {
      if !initialized {
        return Unexpected(Uninitialized);
      }
      if distance < 0.0 {
        return Unexpected(NegativeDistance);
      }
      if distance < minimum {
        return Unexpected(StationTooClose);
      }
      if distance > maximum {
        return Unexpected(StationTooFar);
      }
      var correction: real;
      if options.interpolation == Nearest {
        correction := InterpolateNearest(distance, abscissas, values);
      } else {
        correction := InterpolateLinearly(distance, abscissas, values);
      }
      return Value(correction);
    }

    predicate IsHypocentral() {
      options.distanceType == Hypocentral
    }

    predicate DepthInRange(depth: real) {
      -8600.0 <= depth <= 900000.0
    }

    /** The distance the table is entered with. */
    function TableDistance(m: MathLibrary, epicentral: real, depth: real): real {
      if IsHypocentral() then m.hypot(epicentral, depth + options.datum) else epicentral
    }

    /** What the lookup by epicentral distance and depth returns. */
    function AtSource(m: MathLibrary, epicentral: real, depth: real): Expected<real, DistanceErrorCode>
      requires Valid()
    {
      if !initialized then Unexpected(Uninitialized)
      else if epicentral < 0.0 then Unexpected(NegativeDistance)
      else if IsHypocentral() && !DepthInRange(depth) then Unexpected(InvalidSourceDepth)
      else At(TableDistance(m, epicentral, depth))
    }

    method LookupSource(m: MathLibrary, epicentral: real, depth: real) returns (r: Expected<real, DistanceErrorCode>)
      requires Valid()
      ensures r == AtSource(m, epicentral, depth)
    {
      if !initialized {
        return Unexpected(Uninitialized);
      }
      if epicentral < 0.0 {
        return Unexpected(NegativeDistance);
      }
      if options.distanceType == Hypocentral {
        if depth < -8600.0 || depth > 900000.0 {
          return Unexpected(InvalidSourceDepth);
        }
        var datum := -options.datum;
        var correctedDepth := depth - datum;
        var hypocentral := m.hypot(epicentral, correctedDepth);
        r := Lookup(hypocentral);
      } else {
        r := Lookup(epicentral);
      }
    }

    // -------------------------------------------------------------- theorems

    /** Between two abscissas of the table there is a correction. */
    lemma {:induction false} AtWithin(distance: real, i: nat, j: nat)
      requires Valid() && initialized && i <= j < |abscissas| && abscissas[i] <= distance <= abscissas[j]
      ensures |abscissas| == |values| && StrictlyIncreasing(abscissas)
      ensures At(distance) == Value(if options.interpolation == Nearest then values[ClosestNode(distance, abscissas)]
                                    else Curve(distance, abscissas, values))
    {
      assert minimum <= abscissas[i] && abscissas[j] <= maximum;
    }

    /** Entry k is the closest to a distance, the nearer end of the table winning ties. */
    ghost predicate ClosestEntry(distance: real, k: nat) {
      && k < |options.corrections|
      && (forall j :: 0 <= j < |options.corrections| ==>
           Abs(distance - options.corrections[k].distance) <= Abs(distance - options.corrections[j].distance))
      && (forall j :: 0 <= j < k ==>
           Abs(distance - options.corrections[k].distance) < Abs(distance - options.corrections[j].distance))
    }

    /** Nearest: the correction is that of the closest entry. */
    lemma {:induction false} NearestTakesClosestEntry(distance: real)
      requires Valid() && initialized && options.interpolation == Nearest && At(distance).Value?
      ensures exists k: nat :: ClosestEntry(distance, k) && At(distance).value == options.corrections[k].correction
    {
      var k := ClosestNode(distance, abscissas);
      assert forall j :: 0 <= j < |abscissas| ==> abscissas[j] == options.corrections[j].distance;
      assert ClosestEntry(distance, k);
    }

    /** Linear: the correction rises from entry i in proportion to the distance. */
    lemma {:induction false} LinearFollowsChord(distance: real, i: nat)
      requires Valid() && initialized && options.interpolation == Linear
      requires i + 1 < |options.corrections|
      requires options.corrections[i].distance <= distance <= options.corrections[i + 1].distance
      ensures var a, b := options.corrections[i], options.corrections[i + 1];
        && At(distance).Value?
        && InProportion(At(distance).value - a.correction, distance - a.distance,
                        b.correction - a.correction, b.distance - a.distance)
    {
      var a, b := options.corrections[i], options.corrections[i + 1];
      assert abscissas[i] == a.distance && abscissas[i + 1] == b.distance;
      assert values[i] == a.correction && values[i + 1] == b.correction;
      AtWithin(distance, i, i + 1);
      hide Chord, At, CorrectionWithin, Valid, InProportion;
      CurveRises(distance, abscissas, values, i);
    }

    /** Either way, a distance in the table given to the options gets the correction given with it. */
    lemma {:induction false} TableIsReadBack(table: seq<Entry>, i: nat)
      requires Valid() && initialized && StoredFor(options.corrections, table) && i < |table|
      ensures At(table[i].distance) == Value(table[i].correction)
    {
      assert table[i] in multiset(options.corrections);
      var k :| 0 <= k < |options.corrections| && options.corrections[k] == table[i];
      assert abscissas[k] == table[i].distance && values[k] == table[i].correction;
      AtWithin(abscissas[k], k, k);
      hide Chord, At, CorrectionWithin, Valid, StoredFor;
      CurveThroughNodes(abscissas, values, k);
      NodeIsClosestToItself(abscissas, k);
    }

    /** How a lookup ends, by the ends of the stored table. */
    lemma {:induction false} LookupEndsExactlyWhen(distance: real)
      requires Valid() && initialized
      ensures options.corrections != []
      ensures var first, last := options.corrections[0].distance,
                                 options.corrections[|options.corrections| - 1].distance;
        && (At(distance).Value? <==> first <= distance <= last)
        && (At(distance) == Unexpected(NegativeDistance) <==> distance < 0.0)
        && (At(distance) == Unexpected(StationTooClose) <==> 0.0 <= distance < first)
        && (At(distance) == Unexpected(StationTooFar) <==> last < distance)
    {
    }

    /** A source is refused for itself exactly when its distance is negative or, for hypocentral corrections, its
        depth is out of range. */
    lemma {:induction false} SourceRefusedExactlyWhen(m: MathLibrary, epicentral: real, depth: real)
      requires Valid() && initialized && m.HypotIsEuclidean()
      ensures AtSource(m, epicentral, depth) == Unexpected(NegativeDistance) <==> epicentral < 0.0
      ensures AtSource(m, epicentral, depth) == Unexpected(InvalidSourceDepth) <==>
        epicentral >= 0.0 && options.distanceType == Hypocentral && !(-8600.0 <= depth <= 900000.0)
    {
      assert m.hypot(epicentral, depth + options.datum) >= 0.0;
    }

    /** Epicentral corrections do not look at the depth. */
    lemma {:induction false} EpicentralIgnoresDepth(m: MathLibrary, epicentral: real, depth: real)
      requires Valid() && options.distanceType == Epicentral
      ensures AtSource(m, epicentral, depth) == At(epicentral)
    {
    }

    /** A distance is corrected exactly when it lies between the least and the greatest
        distance of the table the options were given, in whatever order that was. */
    lemma {:induction false} CorrectedExactlyWithinTable(table: seq<Entry>, distance: real)
      requires Valid() && initialized && StoredFor(options.corrections, table)
      ensures At(distance).Value? <==>
        (exists i, j :: 0 <= i < |table| && 0 <= j < |table| && table[i].distance <= distance <= table[j].distance)
    {
      var stored := options.corrections;
      SameLength(stored, table);
      if At(distance).Value? {
        assert stored[0] in multiset(table) && stored[|stored| - 1] in multiset(table);
        var i :| 0 <= i < |table| && table[i] == stored[0];
        var j :| 0 <= j < |table| && table[j] == stored[|stored| - 1];
        assert table[i].distance <= distance <= table[j].distance;
      }
      forall i | 0 <= i < |table| ensures minimum <= table[i].distance <= maximum {
        assert table[i] in multiset(stored);
        var k :| 0 <= k < |stored| && stored[k] == table[i];
        assert abscissas[k] == table[i].distance;
      }
    }

    /** The table distance of a hypocentral correction, decided by squares alone. */
    lemma {:induction false} HypocentralDecidedBySquares(m: MathLibrary, epicentral: real, depth: real)
      requires Valid() && initialized && IsHypocentral() && m.HypotIsEuclidean()
      requires epicentral >= 0.0 && DepthInRange(depth)
      ensures var square := Square(epicentral) + Square(depth + options.datum);
        && (AtSource(m, epicentral, depth) == Unexpected(StationTooClose) <==> square < Square(minimum))
        && (AtSource(m, epicentral, depth) == Unexpected(StationTooFar) <==> Square(maximum) < square)
        && (AtSource(m, epicentral, depth).Value? <==> Square(minimum) <= square <= Square(maximum))
    {
      var h := TableDistance(m, epicentral, depth);
      hide Square;
      SquaresCompare(h, minimum);
      assert maximum >= minimum;
      SquaresCompare(maximum, h);
    }

    /** Mirroring the depth in the datum does not change the result. */
    lemma {:induction false} MirroredDepthSameCorrection(m: MathLibrary, epicentral: real, depth: real)
      requires Valid() && m.HypotIsEuclidean() && IsHypocentral()
      requires DepthInRange(depth) && DepthInRange(-2.0 * options.datum - depth)
      ensures AtSource(m, epicentral, -2.0 * options.datum - depth) == AtSource(m, epicentral, depth)
    {
      var mirrored := -2.0 * options.datum - depth;
      var z := depth + options.datum;
      assert mirrored + options.datum == -z;
      SquareOfNegation(z);
      SquaresCompare(m.hypot(epicentral, z), m.hypot(epicentral, -z));
    }

    /** At the datum a hypocentral correction is the epicentral one. */
    lemma {:induction false} SourceAtDatumIsEpicentral(m: MathLibrary, epicentral: real)
      requires Valid() && m.HypotIsEuclidean() && IsHypocentral()
      requires DepthInRange(-options.datum)
      ensures AtSource(m, epicentral, -options.datum) == At(epicentral)
    {
      if initialized && epicentral >= 0.0 {
        assert -options.datum + options.datum == 0.0;
        assert Square(0.0) == 0.0;
        SquaresCompare(m.hypot(epicentral, 0.0), epicentral);
      }
    }

    lemma {:induction false} SquareGrows(a: real, b: real)
      requires Abs(a) <= Abs(b)
      ensures Square(a) <= Square(b)
    {
      SquareOfNegation(a);
      SquareOfNegation(b);
      SquaresCompare(Abs(a), Abs(b));
    }

    /** Moving away keeps a station too far; coming nearer keeps it too close. */
    lemma {:induction false} TooFarAndTooCloseAreMonotone(m: MathLibrary, e0: real, z0: real, e1: real, z1: real)
      requires Valid() && initialized && m.HypotIsEuclidean()
      requires 0.0 <= e0 <= e1 && Abs(z0 + options.datum) <= Abs(z1 + options.datum)
      requires IsHypocentral() ==> DepthInRange(z0) && DepthInRange(z1)
      ensures AtSource(m, e0, z0) == Unexpected(StationTooFar) ==> AtSource(m, e1, z1) == Unexpected(StationTooFar)
      ensures AtSource(m, e1, z1) == Unexpected(StationTooClose) ==> AtSource(m, e0, z0) == Unexpected(StationTooClose)
    {
      if IsHypocentral() {
        SquareGrows(e0, e1);
        SquareGrows(z0 + options.datum, z1 + options.datum);
        hide Square;
        HypocentralDecidedBySquares(m, e0, z0);
        HypocentralDecidedBySquares(m, e1, z1);
      }
    }

    /** How far the distances the table is entered with are apart, at most: as far as the sources. */
    lemma {:induction false} TableDistanceIsLipschitz(m: MathLibrary, e0: real, z0: real, e1: real, z1: real)
      requires m.HypotIsEuclidean()
      ensures Square(TableDistance(m, e1, z1) - TableDistance(m, e0, z0)) <= Square(e1 - e0) + Square(z1 - z0)
    {
      var b0, b1 := z0 + options.datum, z1 + options.datum;
      var h0, h1 := m.hypot(e0, b0), m.hypot(e1, b1);
      assert h0 >= 0.0 && Square(h0) == Square(e0) + Square(b0);
      assert h1 >= 0.0 && Square(h1) == Square(e1) + Square(b1);
      hide Square;
      LengthsDifferLess(e0, b0, h0, e1, b1, h1);
      assert b1 - b0 == z1 - z0;
      SquareIsNotNegative(z1 - z0);
    }

    lemma {:induction false} SquareOfBound(change: real, slope: real, run: real, squaredRun: real)
      requires Abs(change) <= Times(slope, Abs(run)) && Square(run) <= squaredRun
      ensures Square(change) <= Times(Square(slope), squaredRun)
    {
      hide Times, Square;
      SquareOfNegation(run);
      SquareGrows(change, Times(slope, Abs(run)));
      SquareOfTimes(slope, Abs(run));
      SquareIsNotNegative(slope);
      TimesGrows(Square(run), squaredRun, Square(slope));
      TimesCommutes(Square(slope), Square(run));
      TimesCommutes(Square(slope), squaredRun);
    }

    /** Within the table a linearly interpolated correction is Lipschitz in the position of the source, whatever
        the distance type: its change, squared, is at most the steepest slope squared times the square of
        the change of position. */
    lemma {:induction false} LinearCorrectionIsLipschitz(m: MathLibrary, e0: real, z0: real, e1: real, z1: real)
      requires Valid() && initialized && options.interpolation == Linear && m.HypotIsEuclidean()
      requires AtSource(m, e0, z0).Value? && AtSource(m, e1, z1).Value?
      ensures Square(AtSource(m, e1, z1).value - AtSource(m, e0, z0).value) <=
              Times(Square(Steepest(abscissas, values)), Square(e1 - e0) + Square(z1 - z0))
    {
      var d0, d1 := TableDistance(m, e0, z0), TableDistance(m, e1, z1);
      var change, steepest := AtSource(m, e1, z1).value - AtSource(m, e0, z0).value, Steepest(abscissas, values);
      assert change == Curve(d1, abscissas, values) - Curve(d0, abscissas, values);
      CurveIsLipschitz(d0, d1, abscissas, values);
      TableDistanceIsLipschitz(m, e0, z0, e1, z1);
      hide Square, Times;
      SquareOfBound(change, steepest, d1 - d0, Square(e1 - e0) + Square(z1 - z0));
    }

    /** With a sound source an initialized correction fails only by being too close or too far. */
    lemma {:induction false} OnlyRangeErrors(m: MathLibrary, epicentral: real, depth: real)
      requires Valid() && initialized && m.HypotIsEuclidean()
      requires epicentral >= 0.0 && (IsHypocentral() ==> DepthInRange(depth))
      ensures AtSource(m, epicentral, depth).Unexpected? ==>
        AtSource(m, epicentral, depth).error in {StationTooClose, StationTooFar}
    {
      assert TableDistance(m, epicentral, depth) >= 0.0;
    }
  }
}
