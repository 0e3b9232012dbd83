/** What the network calculator makes of the outcomes of its stations: which it averages,
    which it rejects, and why the average is the one it should be. */
module NetworkAverages {
  import opened Results
  import opened MathLibrary
  import opened Magnitudes
  import opened Rearrangements

  /** What became of one observation. */
  type StationOutcome = Expected<StationMagnitudeImpl, StationErrorCode>

  function Sum(xs: seq<real>): real {
    if xs == [] then 0.0 else Sum(xs[..|xs| - 1]) + xs[|xs| - 1]
  }

  function Mean(xs: seq<real>): real
    requires xs != []
  {
    Sum(xs) / |xs| as real
  }

  /** The magnitudes of the accepted stations, in input order. */
  function AcceptedValues(outcomes: seq<StationOutcome>): seq<real> {
    if outcomes == [] then []
    else
      var last := outcomes[|outcomes| - 1];
      AcceptedValues(outcomes[..|outcomes| - 1]) + if last.Value? then [last.value.value] else []
  }

  /** The residual of one accepted station. */
  function ResidualOf(magnitude: StationMagnitudeImpl, networkValue: real): ResidualImpl {
    ResidualImpl(magnitude, networkValue - magnitude.value, true, true)
  }

  /** The accepted stations' residuals; the outcomes are numbered from first. */
  function ResidualsOf(outcomes: seq<StationOutcome>, networkValue: real, first: int): seq<NumberedResidual> {
    if outcomes == [] then []
    else
      var n := |outcomes| - 1;
      ResidualsOf(outcomes[..n], networkValue, first) +
      if outcomes[n].Value? then [NumberedResidual(ResidualOf(outcomes[n].value, networkValue), first + n)] else []
  }

  /** The other stations' rejections. */
  function RejectionsOf(outcomes: seq<StationOutcome>, first: int): seq<Rejection> {
    if outcomes == [] then []
    else
      var n := |outcomes| - 1;
      RejectionsOf(outcomes[..n], first) +
      if outcomes[n].Value? then [] else [Rejection(outcomes[n].error, first + n)]
  }

  function ResidualValues(residuals: seq<NumberedResidual>): seq<real> {
    seq(|residuals|, i requires 0 <= i < |residuals| => residuals[i].residual.value)
  }

  // ----------------------------------------------------------------- numbering

  predicate NumbersIncrease(numbers: seq<int>) {
    forall i, j :: 0 <= i < j < |numbers| ==> numbers[i] < numbers[j]
  }

  function ResidualNumbers(residuals: seq<NumberedResidual>): seq<int> {
    seq(|residuals|, i requires 0 <= i < |residuals| => residuals[i].observationNumber)
  }

  function RejectionNumbers(rejections: seq<Rejection>): seq<int> {
    seq(|rejections|, i requires 0 <= i < |rejections| => rejections[i].observationNumber)
  }

  /** Increasing numbers of n observations. */
  predicate InOrder(numbers: seq<int>, n: int) {
    NumbersIncrease(numbers) && forall i :: 0 <= i < |numbers| ==> 1 <= numbers[i] <= n
  }

  lemma {:induction false} ResidualsInOrder(outcomes: seq<StationOutcome>, networkValue: real)
    ensures InOrder(ResidualNumbers(ResidualsOf(outcomes, networkValue, 1)), |outcomes|)
  {
    if outcomes != [] {
      var n := |outcomes| - 1;
      ResidualsInOrder(outcomes[..n], networkValue);
      var rest := ResidualNumbers(ResidualsOf(outcomes[..n], networkValue, 1));
      assert ResidualNumbers(ResidualsOf(outcomes, networkValue, 1)) ==
             if outcomes[n].Value? then rest + [n + 1] else rest;
    }
  }

  lemma {:induction false} RejectionsInOrder(outcomes: seq<StationOutcome>)
    ensures InOrder(RejectionNumbers(RejectionsOf(outcomes, 1)), |outcomes|)
  {
    if outcomes != [] {
      var n := |outcomes| - 1;
      RejectionsInOrder(outcomes[..n]);
      var rest := RejectionNumbers(RejectionsOf(outcomes[..n], 1));
      assert RejectionNumbers(RejectionsOf(outcomes, 1)) == if outcomes[n].Value? then rest else rest + [n + 1];
    }
  }

  /** Observation k is listed as a residual exactly when its outcome has a magnitude, and
      carries that magnitude. */
  lemma {:induction false} ResidualsAreTheAccepted(outcomes: seq<StationOutcome>, networkValue: real,
      r: NumberedResidual)
    ensures r in ResidualsOf(outcomes, networkValue, 1) <==>
      && 1 <= r.observationNumber <= |outcomes|
      && outcomes[r.observationNumber - 1].Value?
      && r.residual == ResidualOf(outcomes[r.observationNumber - 1].value, networkValue)
  {
    if outcomes != [] {
      var n := |outcomes| - 1;
      ResidualsAreTheAccepted(outcomes[..n], networkValue, r);
    }
  }

  /** Observation k is listed as rejected exactly when its outcome has none, with its reason. */
  lemma {:induction false} RejectionsAreTheOthers(outcomes: seq<StationOutcome>, r: Rejection)
    ensures r in RejectionsOf(outcomes, 1) <==>
      1 <= r.observationNumber <= |outcomes| && outcomes[r.observationNumber - 1] == Unexpected(r.reason)
  {
    if outcomes != [] {
      var n := |outcomes| - 1;
      RejectionsAreTheOthers(outcomes[..n], r);
    }
  }

  lemma {:induction false} EveryOutcomeIsListedOnce(outcomes: seq<StationOutcome>, networkValue: real)
    ensures |ResidualsOf(outcomes, networkValue, 1)| + |RejectionsOf(outcomes, 1)| == |outcomes|
    ensures |ResidualsOf(outcomes, networkValue, 1)| == |AcceptedValues(outcomes)|
  {
    if outcomes != [] {
      EveryOutcomeIsListedOnce(outcomes[..|outcomes| - 1], networkValue);
    }
  }

  /** The numbers of residuals and rejections, each increasing, partition 1..n. */
  lemma {:induction false} NumbersPartitionTheInput(outcomes: seq<StationOutcome>, networkValue: real)
    ensures var accepted := ResidualNumbers(ResidualsOf(outcomes, networkValue, 1));
      var rejected := RejectionNumbers(RejectionsOf(outcomes, 1));
      && NumbersIncrease(accepted) && NumbersIncrease(rejected)
      && (forall k :: 1 <= k <= |outcomes| <==> k in accepted || k in rejected)
      && (forall k :: !(k in accepted && k in rejected))
  {
    ResidualsInOrder(outcomes, networkValue);
    RejectionsInOrder(outcomes);
    var accepted := ResidualNumbers(ResidualsOf(outcomes, networkValue, 1));
    var rejected := RejectionNumbers(RejectionsOf(outcomes, 1));
    forall k
      ensures 1 <= k <= |outcomes| <==> k in accepted || k in rejected
      ensures !(k in accepted && k in rejected)
    {
      AcceptedNumber(outcomes, networkValue, k);
      RejectedNumber(outcomes, k);
    }
  }

  lemma {:induction false} AcceptedNumber(outcomes: seq<StationOutcome>, networkValue: real, k: int)
    ensures k in ResidualNumbers(ResidualsOf(outcomes, networkValue, 1)) <==>
            1 <= k <= |outcomes| && outcomes[k - 1].Value?
  {
    if outcomes != [] {
      var n := |outcomes| - 1;
      AcceptedNumber(outcomes[..n], networkValue, k);
      var rest := ResidualNumbers(ResidualsOf(outcomes[..n], networkValue, 1));
      assert ResidualNumbers(ResidualsOf(outcomes, networkValue, 1)) ==
             if outcomes[n].Value? then rest + [n + 1] else rest;
    }
  }

  lemma {:induction false} RejectedNumber(outcomes: seq<StationOutcome>, k: int)
    ensures k in RejectionNumbers(RejectionsOf(outcomes, 1)) <==>
            1 <= k <= |outcomes| && outcomes[k - 1].Unexpected?
  {
    if outcomes != [] {
      var n := |outcomes| - 1;
      RejectedNumber(outcomes[..n], k);
      var rest := RejectionNumbers(RejectionsOf(outcomes[..n], 1));
      assert RejectionNumbers(RejectionsOf(outcomes, 1)) == if outcomes[n].Value? then rest else rest + [n + 1];
    }
  }

  // -------------------------------------------------------------- the average

  lemma {:induction false} MeanCompares(xs: seq<real>, q: real)
    requires xs != []
    ensures Times(q, |xs| as real) == Sum(xs) <==> q == Mean(xs)
    ensures Times(q, |xs| as real) <= Sum(xs) <==> q <= Mean(xs)
  {
    QuotientCompares(q, Sum(xs), |xs| as real);
  }

  lemma {:induction false} ResidualValuesAre(outcomes: seq<StationOutcome>, networkValue: real, first: int)
    ensures |ResidualValues(ResidualsOf(outcomes, networkValue, first))| == |AcceptedValues(outcomes)|
    ensures forall i :: 0 <= i < |AcceptedValues(outcomes)| ==>
      ResidualValues(ResidualsOf(outcomes, networkValue, first))[i] == networkValue - AcceptedValues(outcomes)[i]
  {
    if outcomes != [] {
      ResidualValuesAre(outcomes[..|outcomes| - 1], networkValue, first);
    }
  }

  /** How far c is from making the differences cancel. */
  function Imbalance(xs: seq<real>, c: real): real {
    if xs == [] then 0.0 else Imbalance(xs[..|xs| - 1], c) + (c - xs[|xs| - 1])
  }

  lemma {:induction false} ImbalanceIs(xs: seq<real>, c: real)
    ensures Imbalance(xs, c) == Times(c, |xs| as real) - Sum(xs)
  {
    hide Times;
    if xs == [] {
      TimesAdds(c, 0.0, 0.0);
    } else {
      ImbalanceIs(xs[..|xs| - 1], c);
      TimesAdds(c, (|xs| - 1) as real, 1.0);
    }
  }

  lemma {:induction false} ImbalanceIsSumOfDifferences(xs: seq<real>, ds: seq<real>, c: real)
    requires |ds| == |xs| && forall i :: 0 <= i < |xs| ==> ds[i] == c - xs[i]
    ensures Sum(ds) == Imbalance(xs, c)
  {
    if xs != [] {
      ImbalanceIsSumOfDifferences(xs[..|xs| - 1], ds[..|xs| - 1], c);
    }
  }

  lemma {:induction false} OnlyMeanBalances(xs: seq<real>, c: real)
    requires xs != []
    ensures Imbalance(xs, c) == 0.0 <==> c == Mean(xs)
  {
    hide Times, Mean;
    ImbalanceIs(xs, c);
    MeanCompares(xs, c);
  }

  /** About their mean the residuals cancel, and about nothing else. */
  lemma {:induction false} ResidualsSumToZeroOnlyAtMean(outcomes: seq<StationOutcome>, networkValue: real, first: int)
    requires AcceptedValues(outcomes) != []
    ensures Sum(ResidualValues(ResidualsOf(outcomes, networkValue, first))) == 0.0
            <==> networkValue == Mean(AcceptedValues(outcomes))
  {
    var differences := ResidualValues(ResidualsOf(outcomes, networkValue, first));
    ResidualValuesAre(outcomes, networkValue, first);
    ImbalanceIsSumOfDifferences(AcceptedValues(outcomes), differences, networkValue);
    OnlyMeanBalances(AcceptedValues(outcomes), networkValue);
  }

  lemma {:induction false} SumIsBounded(xs: seq<real>, low: real, high: real)
    requires forall i :: 0 <= i < |xs| ==> low <= xs[i] <= high
    ensures Times(low, |xs| as real) <= Sum(xs) <= Times(high, |xs| as real)
  {
    hide Times;
    if xs == [] {
      TimesAdds(low, 0.0, 0.0);
      TimesAdds(high, 0.0, 0.0);
    } else {
      SumIsBounded(xs[..|xs| - 1], low, high);
      TimesAdds(low, (|xs| - 1) as real, 1.0);
      TimesAdds(high, (|xs| - 1) as real, 1.0);
    }
  }

  /** The mean lies between any bounds of the magnitudes, so between the smallest and largest. */
  lemma {:induction false} MeanIsBetween(xs: seq<real>, low: real, high: real)
    requires xs != [] && forall i :: 0 <= i < |xs| ==> low <= xs[i] <= high
    ensures low <= Mean(xs) <= high
  {
    hide Times, Mean;
    SumIsBounded(xs, low, high);
    MeanCompares(xs, low);
    MeanCompares(xs, high);
  }

  /** The sum of squared residuals about c. */
  function SquaredResiduals(xs: seq<real>, c: real): real {
    if xs == [] then 0.0 else SquaredResiduals(xs[..|xs| - 1], c) + Square(c - xs[|xs| - 1])
  }

  lemma {:induction false} SquaredResidualsShift(xs: seq<real>, c: real, d: real)
    ensures SquaredResiduals(xs, d) ==
            SquaredResiduals(xs, c) + 2.0 * Times(d - c, Imbalance(xs, c)) + Times(Square(d - c), |xs| as real)
  {
    hide Times, Square;
    if xs == [] {
      TimesAdds(d - c, 0.0, 0.0);
      TimesAdds(Square(d - c), 0.0, 0.0);
    } else {
      var n := |xs| - 1;
      SquaredResidualsShift(xs[..n], c, d);
      SquareShift(c - xs[n], d - c);
      assert (c - xs[n]) + (d - c) == d - xs[n];
      TimesAdds(d - c, Imbalance(xs[..n], c), c - xs[n]);
      TimesAdds(Square(d - c), n as real, 1.0);
    }
  }

  /** The mean is the only value with the least sum of squared residuals. */
  lemma {:induction false} MeanMinimizesSquares(xs: seq<real>, d: real)
    requires xs != []
    ensures SquaredResiduals(xs, Mean(xs)) <= SquaredResiduals(xs, d)
    ensures SquaredResiduals(xs, Mean(xs)) == SquaredResiduals(xs, d) ==> d == Mean(xs)
  {
    hide Times, Square, Mean;
    var c := Mean(xs);
    SquaredResidualsShift(xs, c, d);
    OnlyMeanBalances(xs, c);
    TimesAdds(d - c, 0.0, 0.0);
    if d != c {
      SquareIsPositive(d - c);
      TimesPositive(Square(d - c), |xs| as real);
    }
  }

  // ------------------------------------------------------------------- joining

  lemma {:induction false} SumAppend(xs: seq<real>, ys: seq<real>)
    ensures Sum(xs + ys) == Sum(xs) + Sum(ys)
  {
    if ys == [] {
      assert xs + ys == xs;
    } else {
      SumAppend(xs, ys[..|ys| - 1]);
      assert (xs + ys)[..|xs + ys| - 1] == xs + ys[..|ys| - 1];
    }
  }

  lemma {:induction false} AcceptedAppend(a: seq<StationOutcome>, b: seq<StationOutcome>)
    ensures AcceptedValues(a + b) == AcceptedValues(a) + AcceptedValues(b)
  {
    if b == [] {
      assert a + b == a;
    } else {
      AcceptedAppend(a, b[..|b| - 1]);
      assert (a + b)[..|a + b| - 1] == a + b[..|b| - 1];
    }
  }

  lemma {:induction false} ResidualsAppend(a: seq<StationOutcome>, b: seq<StationOutcome>, networkValue: real,
      first: int)
    ensures ResidualsOf(a + b, networkValue, first) ==
            ResidualsOf(a, networkValue, first) + ResidualsOf(b, networkValue, first + |a|)
  {
    if b == [] {
      assert a + b == a;
    } else {
      ResidualsAppend(a, b[..|b| - 1], networkValue, first);
      assert (a + b)[..|a + b| - 1] == a + b[..|b| - 1];
    }
  }

  lemma {:induction false} RejectionsAppend(a: seq<StationOutcome>, b: seq<StationOutcome>, first: int)
    ensures RejectionsOf(a + b, first) == RejectionsOf(a, first) + RejectionsOf(b, first + |a|)
  {
    if b == [] {
      assert a + b == a;
    } else {
      RejectionsAppend(a, b[..|b| - 1], first);
      assert (a + b)[..|a + b| - 1] == a + b[..|b| - 1];
    }
  }

  /** Exchanging observations keeps their accepted magnitudes' sum and count. */
  lemma {:induction false} RearrangedOutcomesSameSum(a: seq<StationOutcome>, b: seq<StationOutcome>)
    requires multiset(a) == multiset(b)
    ensures Sum(AcceptedValues(a)) == Sum(AcceptedValues(b))
    ensures |AcceptedValues(a)| == |AcceptedValues(b)|
  {
    if a == [] {
      SameLength(a, b);
    } else {
      var n := |a| - 1;
      var i := MatchLast(a, b);
      RearrangedOutcomesSameSum(a[..n], b[..i] + b[i + 1..]);
      RemovedOutcome(b, i);
      RemovedOutcome(a, n);
      assert a[..n] + a[n + 1..] == a[..n];
    }
  }

  lemma {:induction false} RemovedOutcome(b: seq<StationOutcome>, i: nat)
    requires i < |b|
    ensures Sum(AcceptedValues(b)) == Sum(AcceptedValues(b[..i] + b[i + 1..])) + Sum(AcceptedValues([b[i]]))
    ensures |AcceptedValues(b)| == |AcceptedValues(b[..i] + b[i + 1..])| + |AcceptedValues([b[i]])|
  {
    assert b == b[..i] + ([b[i]] + b[i + 1..]);
    AcceptedAppend(b[..i], [b[i]] + b[i + 1..]);
    AcceptedAppend([b[i]], b[i + 1..]);
    AcceptedAppend(b[..i], b[i + 1..]);
    SumAppend(AcceptedValues(b[..i]), AcceptedValues([b[i]] + b[i + 1..]));
    SumAppend(AcceptedValues([b[i]]), AcceptedValues(b[i + 1..]));
    SumAppend(AcceptedValues(b[..i]), AcceptedValues(b[i + 1..]));
  }

  // --------------------------------------------------------------- what is reported

  /** The residuals without their numbers. */
  function Residuals(residuals: seq<NumberedResidual>): seq<ResidualImpl> {
    seq(|residuals|, i requires 0 <= i < |residuals| => residuals[i].residual)
  }

  /** The rejections' reasons without their numbers. */
  function Reasons(rejections: seq<Rejection>): seq<StationErrorCode> {
    seq(|rejections|, i requires 0 <= i < |rejections| => rejections[i].reason)
  }

  /** Without numbers, reports of joined outcomes are joined. */
  lemma {:induction false} ReportsAppend(a: seq<StationOutcome>, b: seq<StationOutcome>, networkValue: real)
    ensures Residuals(ResidualsOf(a + b, networkValue, 1)) ==
            Residuals(ResidualsOf(a, networkValue, 1)) + Residuals(ResidualsOf(b, networkValue, 1))
    ensures Reasons(RejectionsOf(a + b, 1)) == Reasons(RejectionsOf(a, 1)) + Reasons(RejectionsOf(b, 1))
  {
    if b == [] {
      assert a + b == a;
    } else {
      ReportsAppend(a, b[..|b| - 1], networkValue);
      assert (a + b)[..|a + b| - 1] == a + b[..|b| - 1];
      ReportsOfLast(a + b, networkValue);
      ReportsOfLast(b, networkValue);
    }
  }

  lemma {:induction false} ReportsOfLast(b: seq<StationOutcome>, networkValue: real)
    requires b != []
    ensures var n := |b| - 1;
      && Residuals(ResidualsOf(b, networkValue, 1)) ==
         Residuals(ResidualsOf(b[..n], networkValue, 1))
         + (if b[n].Value? then [ResidualOf(b[n].value, networkValue)] else [])
      && Reasons(RejectionsOf(b, 1)) ==
         Reasons(RejectionsOf(b[..n], 1)) + (if b[n].Value? then [] else [b[n].error])
  {
  }

  /** Without one outcome, its report is missing. */
  lemma {:induction false} RemovedReport(b: seq<StationOutcome>, i: nat, networkValue: real)
    requires i < |b|
    ensures multiset(Residuals(ResidualsOf(b, networkValue, 1))) ==
            multiset(Residuals(ResidualsOf(b[..i] + b[i + 1..], networkValue, 1)))
            + multiset(Residuals(ResidualsOf([b[i]], networkValue, 1)))
    ensures multiset(Reasons(RejectionsOf(b, 1))) ==
            multiset(Reasons(RejectionsOf(b[..i] + b[i + 1..], 1))) + multiset(Reasons(RejectionsOf([b[i]], 1)))
  {
    assert b == b[..i] + ([b[i]] + b[i + 1..]);
    ReportsAppend(b[..i], [b[i]] + b[i + 1..], networkValue);
    ReportsAppend([b[i]], b[i + 1..], networkValue);
    ReportsAppend(b[..i], b[i + 1..], networkValue);
  }

  /** Exchanging outcomes keeps, but for their order and numbers, the residuals and the reasons of rejections. */
  lemma {:induction false} RearrangedOutcomesSameReports(a: seq<StationOutcome>, b: seq<StationOutcome>,
      networkValue: real)
    requires multiset(a) == multiset(b)
    ensures multiset(Residuals(ResidualsOf(a, networkValue, 1))) == multiset(Residuals(ResidualsOf(b, networkValue, 1)))
    ensures multiset(Reasons(RejectionsOf(a, 1))) == multiset(Reasons(RejectionsOf(b, 1)))
  {
    if a == [] {
      SameLength(a, b);
    } else {
      var n := |a| - 1;
      var i := MatchLast(a, b);
      RearrangedOutcomesSameReports(a[..n], b[..i] + b[i + 1..], networkValue);
      RemovedReport(b, i, networkValue);
      RemovedReport(a, n, networkValue);
      assert a[..n] + a[n + 1..] == a[..n];
    }
  }
}
