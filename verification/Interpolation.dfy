/** The two interpolators of src/corrections/distance.cpp and the curves they compute. */
module Interpolation {
  import opened MathLibrary

  function Abs(x: real): real {
    if x < 0.0 then -x else x
  }

  predicate Ascending(xs: seq<real>) {
    forall i, j :: 0 <= i < j < |xs| ==> xs[i] <= xs[j]
  }

  predicate StrictlyIncreasing(xs: seq<real>) {
    forall i, j :: 0 <= i < j < |xs| ==> xs[i] < xs[j]
  }

  /** std::lower_bound: the first position whose element is not less than x. */
  method LowerBound(xs: seq<real>, x: real) returns (first: nat)
    requires Ascending(xs)
    ensures first <= |xs|
    ensures forall j :: 0 <= j < first ==> xs[j] < x
    ensures forall j :: first <= j < |xs| ==> x <= xs[j]
  {
    first := 0;
    var count := |xs|;
    while count > 0
      invariant 0 <= count && first + count <= |xs|
      invariant forall j :: 0 <= j < first ==> xs[j] < x
      invariant forall j :: first + count <= j < |xs| ==> x <= xs[j]
    {
      var step := count / 2;
      if xs[first + step] < x {
        first := first + step + 1;
        count := count - (step + 1);
      } else {
        count := step;
      }
    }
  }

  /** std::upper_bound: the first position whose element is greater than x. */
  method UpperBound(xs: seq<real>, x: real) returns (first: nat)
    requires Ascending(xs)
    ensures first <= |xs|
    ensures forall j :: 0 <= j < first ==> xs[j] <= x
    ensures forall j :: first <= j < |xs| ==> x < xs[j]
  {
    first := 0;
    var count := |xs|;
    while count > 0
      invariant 0 <= count && first + count <= |xs|
      invariant forall j :: 0 <= j < first ==> xs[j] <= x
      invariant forall j :: first + count <= j < |xs| ==> x < xs[j]
    {
      var step := count / 2;
      if !(x < xs[first + step]) {
        first := first + step + 1;
        count := count - (step + 1);
      } else {
        count := step;
      }
    }
  }

  // ---------------------------------------------------------------- nearest

  /** The closest node by a linear scan, the lower index winning ties. The table
      need not be sorted. */
  function ClosestNode(x: real, xs: seq<real>): (k: nat)
    requires |xs| > 0
    ensures k < |xs|
    ensures forall j :: 0 <= j < |xs| ==> Abs(x - xs[k]) <= Abs(x - xs[j])
    ensures forall j :: 0 <= j < k ==> Abs(x - xs[k]) < Abs(x - xs[j])
  {
    var last := |xs| - 1;
    if last == 0 then 0
    else
      var k := ClosestNode(x, xs[..last]);
      if Abs(x - xs[last]) < Abs(x - xs[k]) then last else k
  }

  /** In a sorted table the closest node is next to the position of x. */
  lemma {:induction false} ClosestOfNeighbours(x: real, xs: seq<real>, it: nat)
    requires StrictlyIncreasing(xs) && |xs| > 0 && it <= |xs|
    requires forall j :: 0 <= j < it ==> xs[j] < x
    requires forall j :: it <= j < |xs| ==> x <= xs[j]
    ensures it == 0 ==> ClosestNode(x, xs) == 0
    ensures it == |xs| ==> ClosestNode(x, xs) == |xs| - 1
    ensures 0 < it < |xs| ==> ClosestNode(x, xs) == if x - xs[it - 1] <= xs[it] - x then it - 1 else it
  {
    var k := ClosestNode(x, xs);
    if k < it {
      assert Abs(x - xs[it - 1]) == x - xs[it - 1] && Abs(x - xs[k]) == x - xs[k];
    } else {
      assert Abs(x - xs[it]) == xs[it] - x && Abs(x - xs[k]) == xs[k] - x;
    }
  }

  /** A node is closest to itself. */
  lemma {:induction false} NodeIsClosestToItself(xs: seq<real>, k: nat)
    requires StrictlyIncreasing(xs) && k < |xs|
    ensures ClosestNode(xs[k], xs) == k
  {
    var closest := ClosestNode(xs[k], xs);
    assert Abs(xs[k] - xs[closest]) <= Abs(xs[k] - xs[k]);
  }

  method InterpolateNearest(x: real, xs: seq<real>, ys: seq<real>) returns (y: real)
    requires |xs| == |ys| && StrictlyIncreasing(xs)
    ensures y == if xs == [] then 0.0 else ys[ClosestNode(x, xs)]
  {
    if |xs| == 0 { return 0.0; }
    if |xs| == 1 { return ys[0]; }
    var it := LowerBound(xs, x);
    ClosestOfNeighbours(x, xs, it);
    if it == 0 { return ys[0]; }
    if it == |xs| { return ys[|ys| - 1]; }
    var nearest := if x - xs[it - 1] <= xs[it] - x then it - 1 else it;
    return ys[nearest];
  }

  // ----------------------------------------------------------------- linear

  /** The chord through two nodes. */
  function Chord(x: real, x0: real, y0: real, x1: real, y1: real): real
    requires x0 < x1
  {
    y0 + (x - x0) * (y1 - y0) / (x1 - x0)
  }

  /** The saturated piecewise linear curve, read from the left one node at a time. */
  function Curve(x: real, xs: seq<real>, ys: seq<real>): real
    requires |xs| == |ys| > 0 && StrictlyIncreasing(xs)
  {
    if |xs| == 1 || x <= xs[0] then ys[0]
    else if x <= xs[1] then Chord(x, xs[0], ys[0], xs[1], ys[1])
    else Curve(x, xs[1..], ys[1..])
  }

  method InterpolateLinearly(x: real, xs: seq<real>, ys: seq<real>) returns (y: real)
    requires |xs| == |ys| && StrictlyIncreasing(xs)
    ensures y == if xs == [] then 0.0 else Curve(x, xs, ys)
  {
    if |xs| == 0 { return 0.0; }
    if |xs| == 1 { return ys[0]; }
    if x <= xs[0] { return ys[0]; }
    if x >= xs[|xs| - 1] {
      CurveSaturates(x, xs, ys);
      return ys[|ys| - 1];
    }
    var it := UpperBound(xs, x);
    if it == 0 || it == |xs| {
      assert false; // the "Algorithmic error in binary search" throw
    }
    var i := if 0 < it - 1 then it - 1 else 0;
    CurveIsChord(x, xs, ys, i);
    return ys[i] + (x - xs[i]) * (ys[i + 1] - ys[i]) / (xs[i + 1] - xs[i]);
  }

  lemma {:induction false} ChordEnds(x0: real, y0: real, x1: real, y1: real)
    requires x0 < x1
    ensures Chord(x0, x0, y0, x1, y1) == y0
    ensures Chord(x1, x0, y0, x1, y1) == y1
  {
    var w, d := x1 - x0, y1 - y0;
    assert (w * d) / w == d;
  }

  /** A rise over a run is in proportion to the whole rise over the whole run. */
  predicate InProportion(rise: real, run: real, wholeRise: real, wholeRun: real) {
    rise * wholeRun == run * wholeRise
  }

  /** A chord rises in proportion to the distance run. */
  lemma {:induction false} ChordRises(x: real, x0: real, y0: real, x1: real, y1: real)
    requires x0 < x1
    ensures InProportion(Chord(x, x0, y0, x1, y1) - y0, x - x0, y1 - y0, x1 - x0)
  {
    var w, p := x1 - x0, (x - x0) * (y1 - y0);
    assert (p / w) * w == p;
  }

  /** Between two neighbouring nodes the curve is the chord through them. */
  lemma {:induction false} CurveIsChord(x: real, xs: seq<real>, ys: seq<real>, i: nat)
    requires |xs| == |ys| && StrictlyIncreasing(xs) && i + 1 < |xs|
    requires xs[i] <= x <= xs[i + 1]
    ensures Curve(x, xs, ys) == Chord(x, xs[i], ys[i], xs[i + 1], ys[i + 1])
  {
    if i == 0 {
      ChordEnds(xs[0], ys[0], xs[1], ys[1]);
    } else {
      if x == xs[1] {
        assert i == 1;
        ChordEnds(xs[0], ys[0], xs[1], ys[1]);
        ChordEnds(xs[1], ys[1], xs[2], ys[2]);
      } else {
        assert xs[1] <= xs[i];
        CurveIsChord(x, xs[1..], ys[1..], i - 1);
      }
    }
  }

  /** From each node to the next the curve rises in proportion to the distance run. */
  lemma {:induction false} CurveRises(x: real, xs: seq<real>, ys: seq<real>, i: nat)
    requires |xs| == |ys| && StrictlyIncreasing(xs) && i + 1 < |xs|
    requires xs[i] <= x <= xs[i + 1]
    ensures InProportion(Curve(x, xs, ys) - ys[i], x - xs[i], ys[i + 1] - ys[i], xs[i + 1] - xs[i])
  {
    hide Chord, InProportion;
    CurveIsChord(x, xs, ys, i);
    ChordRises(x, xs[i], ys[i], xs[i + 1], ys[i + 1]);
  }

  lemma {:induction false} CurveSaturates(x: real, xs: seq<real>, ys: seq<real>)
    requires |xs| == |ys| > 0 && StrictlyIncreasing(xs)
    requires xs[|xs| - 1] <= x
    ensures Curve(x, xs, ys) == ys[|ys| - 1]
  {
    if |xs| == 1 {
    } else if x == xs[1] {
      assert |xs| == 2;
      ChordEnds(xs[0], ys[0], xs[1], ys[1]);
    } else {
      assert xs[0] < xs[|xs| - 1] && xs[1] <= xs[|xs| - 1];
      CurveSaturates(x, xs[1..], ys[1..]);
    }
  }

  /** The curve passes through every node. */
  lemma {:induction false} CurveThroughNodes(xs: seq<real>, ys: seq<real>, i: nat)
    requires |xs| == |ys| && StrictlyIncreasing(xs) && i < |xs|
    ensures Curve(xs[i], xs, ys) == ys[i]
  {
    if i + 1 < |xs| {
      CurveIsChord(xs[i], xs, ys, i);
      ChordEnds(xs[i], ys[i], xs[i + 1], ys[i + 1]);
    } else {
      CurveSaturates(xs[i], xs, ys);
    }
  }

  function Slope(x0: real, y0: real, x1: real, y1: real): real
    requires x0 < x1
  {
    (y1 - y0) / (x1 - x0)
  }

  lemma {:induction false} TimesIsBounded(slope: real, bound: real, run: real)
    requires Abs(slope) <= bound && run >= 0.0
    ensures Abs(Times(slope, run)) <= Times(bound, run)
  {
    TimesGrows(slope, bound, run);
    TimesGrows(-bound, slope, run);
    assert Times(-bound, run) == -Times(bound, run);
  }

  /** A chord is the straight line with its slope. */
  lemma {:induction false} ChordIncrement(x: real, z: real, x0: real, y0: real, x1: real, y1: real)
    requires x0 < x1
    ensures Chord(z, x0, y0, x1, y1) - Chord(x, x0, y0, x1, y1) == Times(Slope(x0, y0, x1, y1), z - x)
  {
    var d, w := y1 - y0, x1 - x0;
    var s := d / w;
    assert d == s * w;
    assert (x - x0) * d == ((x - x0) * s) * w;
    assert (z - x0) * d == ((z - x0) * s) * w;
    assert (x - x0) * d / w == (x - x0) * s;
    assert (z - x0) * d / w == (z - x0) * s;
  }

  /** The slope of the segment that starts at node i. */
  function SegmentSlope(xs: seq<real>, ys: seq<real>, i: nat): real
    requires |xs| == |ys| && StrictlyIncreasing(xs) && i + 1 < |xs|
  {
    Slope(xs[i], ys[i], xs[i + 1], ys[i + 1])
  }

  /** The largest absolute slope of the curve's segments; 0 for a single node. */
  function Steepest(xs: seq<real>, ys: seq<real>): (s: real)
    requires |xs| == |ys| > 0 && StrictlyIncreasing(xs)
    ensures s >= 0.0
  {
    if |xs| == 1 then 0.0
    else
      var first := Abs(SegmentSlope(xs, ys, 0));
      var rest := Steepest(xs[1..], ys[1..]);
      if rest <= first then first else rest
  }

  lemma {:induction false} SteepestBoundsSlopes(xs: seq<real>, ys: seq<real>, i: nat)
    requires |xs| == |ys| && StrictlyIncreasing(xs) && i + 1 < |xs|
    ensures Abs(SegmentSlope(xs, ys, i)) <= Steepest(xs, ys)
  {
    if i > 0 {
      SteepestBoundsSlopes(xs[1..], ys[1..], i - 1);
    }
  }

  lemma {:induction false} SteepestIsASlope(xs: seq<real>, ys: seq<real>) returns (i: nat)
    requires |xs| == |ys| > 1 && StrictlyIncreasing(xs)
    ensures i + 1 < |xs| && Abs(SegmentSlope(xs, ys, i)) == Steepest(xs, ys)
  {
    i := 0;
    if |xs| > 2 && Steepest(xs[1..], ys[1..]) > Abs(SegmentSlope(xs, ys, 0)) {
      var j := SteepestIsASlope(xs[1..], ys[1..]);
      i := j + 1;
    }
  }

  /** Increments over two adjoining runs, each within its own slope. */
  lemma {:induction false} JoinIncrements(x: real, cx: real, m: real, cm: real, z: real, cz: real, s0: real, s1: real,
      bound: real)
    requires x <= m <= z && s0 <= bound && s1 <= bound
    requires Abs(cm - cx) <= Times(s0, m - x) && Abs(cz - cm) <= Times(s1, z - m)
    ensures Abs(cz - cx) <= Times(bound, z - x)
  {
    hide Times;
    TimesGrows(s0, bound, m - x);
    TimesGrows(s1, bound, z - m);
    TimesAdds(bound, m - x, z - m);
    assert (m - x) + (z - m) == z - x;
  }

  /** The increment up to a point at or below the second node. */
  lemma {:induction false} FirstIncrement(x: real, z: real, xs: seq<real>, ys: seq<real>)
    requires |xs| == |ys| > 1 && StrictlyIncreasing(xs) && x <= z <= xs[1]
    ensures Abs(Curve(z, xs, ys) - Curve(x, xs, ys)) <= Times(Steepest(xs, ys), z - x)
  {
    var bound := Steepest(xs, ys);
    TimesIsBounded(0.0, bound, z - x);
    TimesZero(z - x);
    hide Chord, Slope, Times;
    if xs[0] < z {
      var from := if x <= xs[0] then xs[0] else x;
      ChordEnds(xs[0], ys[0], xs[1], ys[1]);
      ChordIncrement(from, z, xs[0], ys[0], xs[1], ys[1]);
      SteepestBoundsSlopes(xs, ys, 0);
      TimesIsBounded(SegmentSlope(xs, ys, 0), bound, z - from);
      TimesIsBounded(0.0, bound, from - x);
      TimesZero(from - x);
      JoinIncrements(x, Curve(x, xs, ys), from, Curve(from, xs, ys), z, Curve(z, xs, ys), bound, bound, bound);
    }
  }

  /** The increment over x <= z, across nodes and the saturated ends. */
  lemma {:induction false} CurveIncrement(x: real, z: real, xs: seq<real>, ys: seq<real>)
    requires |xs| == |ys| > 0 && StrictlyIncreasing(xs) && x <= z
    ensures Abs(Curve(z, xs, ys) - Curve(x, xs, ys)) <= Times(Steepest(xs, ys), z - x)
    decreases |xs|
  {
    hide Chord, Slope, Times;
    var bound := Steepest(xs, ys);
    if |xs| == 1 {
      TimesZero(z - x);
    } else if z <= xs[1] {
      FirstIncrement(x, z, xs, ys);
    } else {
      var rest := Steepest(xs[1..], ys[1..]);
      if x > xs[1] {
        CurveIncrement(x, z, xs[1..], ys[1..]);
        TimesGrows(rest, bound, z - x);
      } else {
        CurveIncrement(xs[1], z, xs[1..], ys[1..]);
        FirstIncrement(x, xs[1], xs, ys);
        ChordEnds(xs[0], ys[0], xs[1], ys[1]);
        JoinIncrements(x, Curve(x, xs, ys), xs[1], ys[1], z, Curve(z, xs, ys), bound, rest, bound);
      }
    }
  }

  /** The curve is Lipschitz over all reals. */
  lemma {:induction false} CurveIsLipschitz(x: real, z: real, xs: seq<real>, ys: seq<real>)
    requires |xs| == |ys| > 0 && StrictlyIncreasing(xs)
    ensures Abs(Curve(z, xs, ys) - Curve(x, xs, ys)) <= Times(Steepest(xs, ys), Abs(z - x))
  {
    hide Chord, Slope, Times;
    if x <= z {
      CurveIncrement(x, z, xs, ys);
      assert Abs(z - x) == z - x;
    } else {
      CurveIncrement(z, x, xs, ys);
      assert Abs(z - x) == x - z;
    }
  }

  ghost predicate LipschitzWith(bound: real, xs: seq<real>, ys: seq<real>)
    requires |xs| == |ys| > 0 && StrictlyIncreasing(xs)
  {
    forall x, z :: Abs(Curve(z, xs, ys) - Curve(x, xs, ys)) <= Times(bound, Abs(z - x))
  }

  /** The steepest segment's slope is the least Lipschitz constant of the curve. */
  lemma {:induction false} SteepestIsTheLipschitzConstant(bound: real, xs: seq<real>, ys: seq<real>)
    requires |xs| == |ys| > 0 && StrictlyIncreasing(xs) && bound >= 0.0
    ensures LipschitzWith(bound, xs, ys) <==> Steepest(xs, ys) <= bound
  {
    hide Chord, Slope, Times;
    if Steepest(xs, ys) <= bound {
      forall x, z ensures Abs(Curve(z, xs, ys) - Curve(x, xs, ys)) <= Times(bound, Abs(z - x)) {
        CurveIsLipschitz(x, z, xs, ys);
        TimesGrows(Steepest(xs, ys), bound, Abs(z - x));
      }
    }
    if LipschitzWith(bound, xs, ys) && |xs| > 1 {
      var i := SteepestIsASlope(xs, ys);
      CurveThroughNodes(xs, ys, i);
      CurveThroughNodes(xs, ys, i + 1);
      assert Abs(Curve(xs[i + 1], xs, ys) - Curve(xs[i], xs, ys)) <= Times(bound, Abs(xs[i + 1] - xs[i]));
      SlopeWithin(bound, xs[i], ys[i], xs[i + 1], ys[i + 1]);
    }
  }

  lemma {:induction false} SlopeWithin(bound: real, x0: real, y0: real, x1: real, y1: real)
    requires x0 < x1 && Abs(y1 - y0) <= Times(bound, Abs(x1 - x0))
    ensures Abs(Slope(x0, y0, x1, y1)) <= bound
  {
    var s, w := Slope(x0, y0, x1, y1), x1 - x0;
    assert s * w == y1 - y0;
    if s > bound {
      assert (s - bound) * w > 0.0;
    }
    if s < -bound {
      assert (s + bound) * w < 0.0;
    }
  }

  lemma {:induction false} RiseSign(x0: real, y0: real, x1: real, y1: real, run: real)
    requires x0 < x1 && run >= 0.0
    ensures y0 <= y1 ==> Times(Slope(x0, y0, x1, y1), run) >= 0.0
    ensures y1 <= y0 ==> Times(Slope(x0, y0, x1, y1), run) <= 0.0
  {
    var s, w := Slope(x0, y0, x1, y1), x1 - x0;
    assert s * w == y1 - y0;
    if s > 0.0 {
      assert s * w > 0.0 && s * run >= 0.0;
    } else if s < 0.0 {
      assert (-s) * w > 0.0 && (-s) * run >= 0.0;
    }
  }

  /** Between two nodes the curve stays between the two values. */
  lemma {:induction false} CurveStaysBetweenNeighbours(x: real, xs: seq<real>, ys: seq<real>, i: nat)
    requires |xs| == |ys| && StrictlyIncreasing(xs) && i + 1 < |xs|
    requires xs[i] <= x <= xs[i + 1]
    ensures ys[i] <= ys[i + 1] ==> ys[i] <= Curve(x, xs, ys) <= ys[i + 1]
    ensures ys[i + 1] <= ys[i] ==> ys[i + 1] <= Curve(x, xs, ys) <= ys[i]
  {
    hide Chord, Slope, Times;
    CurveIsChord(x, xs, ys, i);
    ChordEnds(xs[i], ys[i], xs[i + 1], ys[i + 1]);
    ChordIncrement(xs[i], x, xs[i], ys[i], xs[i + 1], ys[i + 1]);
    ChordIncrement(x, xs[i + 1], xs[i], ys[i], xs[i + 1], ys[i + 1]);
    RiseSign(xs[i], ys[i], xs[i + 1], ys[i + 1], x - xs[i]);
    RiseSign(xs[i], ys[i], xs[i + 1], ys[i + 1], xs[i + 1] - x);
  }

  /** A table whose values do not decrease gives a curve that does not decrease. */
  lemma {:induction false} CurveIsMonotone(x: real, z: real, xs: seq<real>, ys: seq<real>)
    requires |xs| == |ys| > 0 && StrictlyIncreasing(xs) && Ascending(ys) && x <= z
    ensures Curve(x, xs, ys) <= Curve(z, xs, ys)
    decreases |xs|
  {
    hide Chord, Slope, Times;
    if |xs| == 1 || z <= xs[0] {
    } else if z <= xs[1] {
      CurveStaysBetweenNeighbours(z, xs, ys, 0);
      if x > xs[0] {
        ChordIncrement(x, z, xs[0], ys[0], xs[1], ys[1]);
        RiseSign(xs[0], ys[0], xs[1], ys[1], z - x);
      }
    } else if x > xs[1] {
      CurveIsMonotone(x, z, xs[1..], ys[1..]);
    } else {
      CurveIsMonotone(xs[1], z, xs[1..], ys[1..]);
      if x > xs[0] {
        CurveStaysBetweenNeighbours(x, xs, ys, 0);
      }
    }
  }
}
