/** src/magnitude/observation.cpp: what one station observed, and at which distance and depth. */
module Observations {
  import opened Results
  import opened Identifiers
  import opened Amplitudes

  datatype AmplitudePair = AmplitudePair(first: AmplitudeImpl, second: AmplitudeImpl)

  function Swapped(p: AmplitudePair): AmplitudePair {
    AmplitudePair(p.second, p.first)
  }

  /** Channels that name two components of one instrument: everything but the last letter
      is the same. */
  predicate ComponentsOfOneInstrument(a: string, b: string) {
    |a| == |b| > 0 && a[..|a| - 1] == b[..|b| - 1] && a[|a| - 1] != b[|b| - 1]
  }

  /** Streams of one station and location whose channels differ in their last letter alone. */
  ghost predicate SameInstrument(s: StreamIdentifierImpl, t: StreamIdentifierImpl) {
    && s.network + "." + s.station == t.network + "." + t.station
    && s.locationCode == t.locationCode
    && exists band: string, x: char, y: char :: s.channel == band + [x] && t.channel == band + [y] && x != y
  }

  lemma {:induction false} ComponentsShareTheirBand(a: string, b: string)
    ensures ComponentsOfOneInstrument(a, b) <==>
      exists band: string, x: char, y: char :: a == band + [x] && b == band + [y] && x != y
  {
    if ComponentsOfOneInstrument(a, b) {
      var n := |a| - 1;
      assert a == a[..n] + [a[n]] && b == a[..n] + [b[n]];
    }
  }

  /** Amplitudes measured on two components of one instrument at one station. */
  predicate Compatible(p: AmplitudePair) {
    var s, t := p.first.identifier, p.second.identifier;
    && p.first.Valid() && p.second.Valid() && p.first.Complete() && p.second.Complete()
    && s.StationName() == t.StationName()
    && s.locationCode == t.locationCode
    && ComponentsOfOneInstrument(s.channel, t.channel)
  }

  predicate DistanceInRange(distance: real) {
    0.0 <= distance <= 21000000.0
  }

  predicate SourceDepthInRange(depth: real) {
    -8600.0 <= depth <= 900000.0
  }

  datatype ObservationImpl = ObservationImpl(
    amplitudes: AmplitudePair, stationName: string, epicentralDistance: real, sourceDepth: real,
    hasAmplitudes: bool, hasEpicentralDistance: bool, hasSourceDepth: bool)
  {
    /** What every observation satisfies, whatever setters were called on it. */
    predicate Valid() {
      && (hasAmplitudes ==> Compatible(amplitudes) && stationName == amplitudes.first.identifier.StationName())
      && (hasEpicentralDistance ==> DistanceInRange(epicentralDistance))
      && (hasSourceDepth ==> SourceDepthInRange(sourceDepth))
    }
  }

  const UNSET_AMPLITUDE := AmplitudeImpl(StreamIdentifierImpl("", "", "", "", false), -1.0, false)

  const NEW_OBSERVATION :=
    ObservationImpl(AmplitudePair(UNSET_AMPLITUDE, UNSET_AMPLITUDE), "", 0.0, 0.0, false, false, false)

  /** A call of one of the setters. */
  datatype SetterCall =
    | SetAmplitudes(pair: AmplitudePair)
    | SetEpicentralDistance(distance: real)
    | SetDepth(depth: real)
  {
    predicate Accepted() {
      match this
      case SetAmplitudes(pair) => Compatible(pair)
      case SetEpicentralDistance(distance) => DistanceInRange(distance)
      case SetDepth(depth) => SourceDepthInRange(depth)
    }
  }

  /** The observation after a setter call; a rejected call changes nothing. */
  function After(o: ObservationImpl, call: SetterCall): ObservationImpl {
    if !call.Accepted() then o
    else
      match call
      case SetAmplitudes(pair) =>
        o.(amplitudes := pair, stationName := pair.first.identifier.StationName(), hasAmplitudes := true)
      case SetEpicentralDistance(distance) => o.(epicentralDistance := distance, hasEpicentralDistance := true)
      case SetDepth(depth) => o.(sourceDepth := depth, hasSourceDepth := true)
  }

  class Observation {
    var impl: ObservationImpl

    constructor ()
      ensures impl == NEW_OBSERVATION
    {
      impl := NEW_OBSERVATION;
    }

    method SetAmplitudes(pair: AmplitudePair) returns (r: Outcome)
      requires pair.first.Valid() && pair.second.Valid()
      modifies this
      ensures r == if Compatible(pair) then Pass else Throw(InvalidArgument)
      ensures r.Pass? <==>
        && pair.first.value > 0.0 && pair.second.value > 0.0
        && pair.first.hasIdentifier && pair.second.hasIdentifier
        && SameInstrument(pair.first.identifier, pair.second.identifier)
      ensures impl == After(old(impl), SetterCall.SetAmplitudes(pair))
    {
      ComponentsShareTheirBand(pair.first.identifier.channel, pair.second.identifier.channel);
      if !pair.first.HasValue() || !pair.second.HasValue() {
        return Throw(InvalidArgument);
      }
      if !pair.first.hasIdentifier || !pair.second.hasIdentifier {
        return Throw(InvalidArgument);
      }
      var stream1, stream2 := pair.first.identifier, pair.second.identifier;
      var name1 := stream1.ToString();
      var name2 := stream2.ToString();
      assert name1.Value? && name2.Value?;
      if name1 == name2 {
        SameNameNotCompatible(pair);
        return Throw(InvalidArgument);
      }
      var station1 := stream1.ToStationIdentifier();
      var station2 := stream2.ToStationIdentifier();
      assert station1.Value? && station2.Value?;
      var stationName1 := station1.value.ToString();
      var stationName2 := station2.value.ToString();
      if stationName1 != stationName2 {
        return Throw(InvalidArgument);
      }
      if stream1.locationCode != stream2.locationCode {
        return Throw(InvalidArgument);
      }
      var channel1, channel2 := stream1.channel, stream2.channel;
      if channel1[..|channel1| - 1] != channel2[..|channel2| - 1] {
        return Throw(InvalidArgument);
      }
      StreamNamesDifferByChannel(stream1, stream2);
      ChannelsDifferInLastLetter(channel1, channel2);
      impl := impl.(amplitudes := pair, stationName := stationName1.value, hasAmplitudes := true);
      return Pass;
    }

    method SetEpicentralDistance(distance: real) returns (r: Outcome)
      modifies this
      ensures r == if 0.0 <= distance <= 21000000.0 then Pass else Throw(InvalidArgument)
      ensures impl == After(old(impl), SetterCall.SetEpicentralDistance(distance))
    {
      if distance < 0.0 || distance > 21000000.0 {
        return Throw(InvalidArgument);
      }
      impl := impl.(epicentralDistance := distance, hasEpicentralDistance := true);
      return Pass;
    }

    method SetDepth(depth: real) returns (r: Outcome)
      modifies this
      ensures r == if -8600.0 <= depth <= 900000.0 then Pass else Throw(InvalidArgument)
      ensures impl == After(old(impl), SetterCall.SetDepth(depth))
    {
      if depth < -8600.0 || depth > 900000.0 {
        return Throw(InvalidArgument);
      }
      impl := impl.(sourceDepth := depth, hasSourceDepth := true);
      return Pass;
    }
  }

  lemma {:induction false} SameNameNotCompatible(pair: AmplitudePair)
    requires pair.first.identifier.Name() == pair.second.identifier.Name()
    ensures !Compatible(pair)
  {
    if Compatible(pair) {
      StreamNamesDifferByChannel(pair.first.identifier, pair.second.identifier);
    }
  }

  lemma {:induction false} ChannelsDifferInLastLetter(a: string, b: string)
    requires a != "" && b != "" && a[..|a| - 1] == b[..|b| - 1] && a != b
    ensures ComponentsOfOneInstrument(a, b)
  {
    assert a == a[..|a| - 1] + [a[|a| - 1]] && b == b[..|b| - 1] + [b[|b| - 1]];
  }

  // ---------------------------------------------------------------- theorems

  function Run(o: ObservationImpl, calls: seq<SetterCall>): ObservationImpl {
    if calls == [] then o else After(Run(o, calls[..|calls| - 1]), calls[|calls| - 1])
  }

  /** After any sequence of setter calls an observation is sound: its amplitudes, if any, are
      compatible and credited to their station, its distance and depth are in range. */
  lemma {:induction false} RunsKeepObservationsSound(calls: seq<SetterCall>)
    ensures Run(NEW_OBSERVATION, calls).Valid()
  {
    if calls != [] {
      RunsKeepObservationsSound(calls[..|calls| - 1]);
    }
  }

  /** What the last accepted call of each setter gave, if there was one. */
  function LastAmplitudes(calls: seq<SetterCall>): Option<AmplitudePair> {
    if calls == [] then None
    else
      var last := calls[|calls| - 1];
      if last.SetAmplitudes? && last.Accepted() then Some(last.pair) else LastAmplitudes(calls[..|calls| - 1])
  }

  function LastDistance(calls: seq<SetterCall>): Option<real> {
    if calls == [] then None
    else
      var last := calls[|calls| - 1];
      if last.SetEpicentralDistance? && last.Accepted() then Some(last.distance) else LastDistance(calls[..|calls| - 1])
  }

  function LastDepth(calls: seq<SetterCall>): Option<real> {
    if calls == [] then None
    else
      var last := calls[|calls| - 1];
      if last.SetDepth? && last.Accepted() then Some(last.depth) else LastDepth(calls[..|calls| - 1])
  }

  function Assembled(pair: Option<AmplitudePair>, distance: Option<real>, depth: Option<real>): ObservationImpl {
    ObservationImpl(
      if pair.Some? then pair.value else NEW_OBSERVATION.amplitudes,
      if pair.Some? then pair.value.first.identifier.StationName() else "",
      if distance.Some? then distance.value else 0.0,
      if depth.Some? then depth.value else 0.0,
      pair.Some?, distance.Some?, depth.Some?)
  }

  /** An observation is what the last accepted call of each setter gave it: rejected calls leave
      no trace and the setters do not disturb one another. */
  lemma {:induction false} RunsKeepTheLastAcceptedValues(calls: seq<SetterCall>)
    ensures Run(NEW_OBSERVATION, calls) == Assembled(LastAmplitudes(calls), LastDistance(calls), LastDepth(calls))
  {
    if calls != [] {
      RunsKeepTheLastAcceptedValues(calls[..|calls| - 1]);
    }
  }

  /** Whether a pair is accepted does not depend on the order of its channels, and neither
      does the station it is credited to. */
  lemma {:induction false} AcceptanceIsSymmetric(o: ObservationImpl, pair: AmplitudePair)
    ensures SetAmplitudes(pair).Accepted() <==> SetAmplitudes(Swapped(pair)).Accepted()
    ensures After(o, SetAmplitudes(pair)).stationName == After(o, SetAmplitudes(Swapped(pair))).stationName
  {
  }
}
