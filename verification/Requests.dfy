/** How observations are built from request messages (src/corrections/hypocenter.cpp,
    stationLocation.cpp, stationIdentifier.cpp and src/magnitude/observation.cpp). */
module Requests {
  import opened Results
  import opened Identifiers
  import opened Amplitudes
  import opened Observations

  datatype HypocenterMessage = HypocenterMessage(latitude: Option<real>, longitude: Option<real>, depth: Option<real>)

  datatype LocationMessage = LocationMessage(latitude: Option<real>, longitude: Option<real>)

  datatype Measurement = Measurement(
    amplitude1: Option<AmplitudeMessage>, amplitude2: Option<AmplitudeMessage>, location: Option<LocationMessage>)

  datatype Hypocenter = Hypocenter(latitude: real, longitude: real, depth: real)

  datatype StationLocation = StationLocation(latitude: real, longitude: real)

  /** The geodesic distance in meters, or what the geodesic library throws. */
  type Geodesic = (Hypocenter, StationLocation) -> Expected<real, Exception>

  predicate LatitudeInRange(latitude: real) {
    -90.0 <= latitude <= 90.0
  }

  /** Two longitudes that many whole turns apart. */
  predicate TurnsApart(from: real, to: real, turns: int) {
    to == from - 360.0 * turns as real
  }

  /** std::fmod by 360, made non-negative: the longitude of one turn that is whole turns away. */
  function Longitude(longitude: real): (lon: real)
    ensures 0.0 <= lon < 360.0
    ensures exists turns: int :: TurnsApart(longitude, lon, turns)
  {
    WholeTurns(longitude);
    longitude - 360.0 * (longitude / 360.0).Floor as real
  }

  lemma {:induction false} WholeTurns(longitude: real)
    ensures var lon := longitude - 360.0 * (longitude / 360.0).Floor as real;
      0.0 <= lon < 360.0 && TurnsApart(longitude, lon, (longitude / 360.0).Floor)
  {
    var turns := longitude / 360.0;
    assert turns.Floor as real <= turns < turns.Floor as real + 1.0;
  }

  /** There is no other such longitude. */
  lemma {:induction false} LongitudeIsUnique(longitude: real, lon: real)
    ensures lon == Longitude(longitude) <==>
      0.0 <= lon < 360.0 && exists turns: int :: TurnsApart(longitude, lon, turns)
  {
    if 0.0 <= lon < 360.0 {
      forall turns: int | TurnsApart(longitude, lon, turns) ensures lon == Longitude(longitude) {
        var own: int :| TurnsApart(longitude, Longitude(longitude), own);
        assert lon - Longitude(longitude) == 360.0 * (own - turns) as real;
        assert -1.0 < (own - turns) as real < 1.0;
      }
    }
  }

  /** The hypocenter a message describes, if it describes one. */
  function HypocenterDescribed(m: HypocenterMessage): (r: Option<Hypocenter>)
    ensures r.Some? <==>
      && m.latitude.Some? && m.longitude.Some? && m.depth.Some?
      && -90.0 <= m.latitude.value <= 90.0 && -8600.0 <= m.depth.value <= 900000.0
    ensures r.Some? ==>
      && r.value.latitude == m.latitude.value && r.value.depth == m.depth.value
      && r.value.longitude == Longitude(m.longitude.value)
  {
    if m.depth.Some? && m.latitude.Some? && m.longitude.Some?
       && LatitudeInRange(m.latitude.value) && SourceDepthInRange(m.depth.value) then
      Some(Hypocenter(m.latitude.value, Longitude(m.longitude.value), m.depth.value))
    else None
  }

  /** The station location a message describes, if it describes one. */
  function LocationDescribed(m: LocationMessage): (r: Option<StationLocation>)
    ensures r.Some? <==> m.latitude.Some? && m.longitude.Some? && -90.0 <= m.latitude.value <= 90.0
    ensures r.Some? ==> r.value.latitude == m.latitude.value && r.value.longitude == Longitude(m.longitude.value)
  {
    if m.latitude.Some? && m.longitude.Some? && LatitudeInRange(m.latitude.value) then
      Some(StationLocation(m.latitude.value, Longitude(m.longitude.value)))
    else None
  }

  /** The observation a measurement describes, or what its constructor throws. Only the geodesic
      library can throw anything but an invalid argument. */
  function ObservationDescribed(m: Measurement, hypocenter: Hypocenter, geodesic: Geodesic): Expected<ObservationImpl,
      Exception> {
    if m.amplitude1.None? || m.amplitude2.None? || m.location.None? || LocationDescribed(m.location.value).None? then
      Unexpected(InvalidArgument)
    else
      match geodesic(hypocenter, LocationDescribed(m.location.value).value)
      case Unexpected(exception) => Unexpected(exception)
      case Value(distance) =>
        var a, b := AmplitudeDescribed(m.amplitude1.value), AmplitudeDescribed(m.amplitude2.value);
        if a.Some? && b.Some? && Compatible(AmplitudePair(a.value, b.value))
           && DistanceInRange(distance) && SourceDepthInRange(hypocenter.depth) then
          Value(Assembled(Some(AmplitudePair(a.value, b.value)), Some(distance), Some(hypocenter.depth)))
        else Unexpected(InvalidArgument)
  }

  method ObservationFromMeasurement(m: Measurement, hypocenter: Hypocenter, geodesic: Geodesic)
    returns (r: Expected<ObservationImpl, Exception>)
    ensures r == ObservationDescribed(m, hypocenter, geodesic)
  {
    if m.amplitude1.None? || m.amplitude2.None? || m.location.None? {
      return Unexpected(InvalidArgument);
    }
    var location := LocationDescribed(m.location.value);
    if location.None? {
      return Unexpected(InvalidArgument);
    }
    var epicentralDistance := geodesic(hypocenter, location.value);
    if epicentralDistance.Unexpected? {
      return Unexpected(epicentralDistance.error);
    }
    var observation := new Observation();
    var amplitude1 := AmplitudeFromMessage(m.amplitude1.value);
    if amplitude1.Unexpected? {
      return Unexpected(amplitude1.error);
    }
    var amplitude2 := AmplitudeFromMessage(m.amplitude2.value);
    if amplitude2.Unexpected? {
      return Unexpected(amplitude2.error);
    }
    var result := observation.SetAmplitudes(AmplitudePair(amplitude1.value, amplitude2.value));
    if result.Throw? {
      return Unexpected(result.exception);
    }
    result := observation.SetEpicentralDistance(epicentralDistance.value);
    if result.Throw? {
      return Unexpected(result.exception);
    }
    result := observation.SetDepth(hypocenter.depth);
    if result.Throw? {
      return Unexpected(result.exception);
    }
    return Value(observation.impl);
  }

  /** An observation from a message is sound and lacks nothing. */
  lemma {:induction false} DescribedObservationsAreComplete(m: Measurement, hypocenter: Hypocenter, geodesic: Geodesic)
    ensures ObservationDescribed(m, hypocenter, geodesic).Value? ==>
      var o := ObservationDescribed(m, hypocenter, geodesic).value;
      o.Valid() && o.hasAmplitudes && o.hasEpicentralDistance && o.hasSourceDepth
  {
  }

  /** A measurement that names two amplitudes and a place. */
  predicate Placed(m: Measurement) {
    m.amplitude1.Some? && m.amplitude2.Some? && m.location.Some? && LocationDescribed(m.location.value).Some?
  }

  /** What becomes of a measurement, and what an observation takes from it. Only the geodesic library can throw anything
      but an invalid argument, and it is only asked about a measurement that names what it should. */
  lemma {:induction false} MeasurementDecides(m: Measurement, hypocenter: Hypocenter, geodesic: Geodesic)
    ensures var r := ObservationDescribed(m, hypocenter, geodesic);
      && (!Placed(m) ==> r == Unexpected(InvalidArgument))
      && (Placed(m) && geodesic(hypocenter, LocationDescribed(m.location.value).value).Unexpected? ==>
           r == Unexpected(geodesic(hypocenter, LocationDescribed(m.location.value).value).error))
      && (r.Unexpected? && r.error != InvalidArgument ==>
           Placed(m) && geodesic(hypocenter, LocationDescribed(m.location.value).value) == Unexpected(r.error))
      && (r.Value? <==>
           && Placed(m) && geodesic(hypocenter, LocationDescribed(m.location.value).value).Value?
           && 0.0 <= geodesic(hypocenter, LocationDescribed(m.location.value).value).value <= 21000000.0
           && -8600.0 <= hypocenter.depth <= 900000.0
           && AmplitudeDescribed(m.amplitude1.value).Some? && AmplitudeDescribed(m.amplitude2.value).Some?
           && SameInstrument(AmplitudeDescribed(m.amplitude1.value).value.identifier,
                             AmplitudeDescribed(m.amplitude2.value).value.identifier))
      && (r.Value? ==>
           && Some(r.value.amplitudes.first) == AmplitudeDescribed(m.amplitude1.value)
           && Some(r.value.amplitudes.second) == AmplitudeDescribed(m.amplitude2.value)
           && Value(r.value.epicentralDistance) == geodesic(hypocenter, LocationDescribed(m.location.value).value)
           && r.value.sourceDepth == hypocenter.depth)
  {
    if Placed(m) {
      var a, b := AmplitudeDescribed(m.amplitude1.value), AmplitudeDescribed(m.amplitude2.value);
      if a.Some? && b.Some? {
        DescribedAreCompatibleExactlyWhen(m.amplitude1.value, m.amplitude2.value);
      }
      hide Compatible, SameInstrument, AmplitudeDescribed;
    }
  }

  /** Amplitudes from messages are complete, so only their streams decide whether they make a pair. */
  lemma {:induction false} DescribedAreCompatibleExactlyWhen(m: AmplitudeMessage, n: AmplitudeMessage)
    requires AmplitudeDescribed(m).Some? && AmplitudeDescribed(n).Some?
    ensures Compatible(AmplitudePair(AmplitudeDescribed(m).value, AmplitudeDescribed(n).value)) <==>
            SameInstrument(AmplitudeDescribed(m).value.identifier, AmplitudeDescribed(n).value.identifier)
  {
    DescribedAmplitudesAreComplete(m);
    DescribedAmplitudesAreComplete(n);
    hide AmplitudeDescribed;
    ComponentsShareTheirBand(AmplitudeDescribed(m).value.identifier.channel,
                             AmplitudeDescribed(n).value.identifier.channel);
  }

  datatype StationMessage = StationMessage(network: Option<string>, station: Option<string>)

  predicate DescribesStation(m: StationMessage) {
    NonBlank(m.network) && NonBlank(m.station)
  }

  /** The station identifier a message describes. */
  function StationDescribed(m: StationMessage): StationIdentifierImpl
    requires DescribesStation(m)
  {
    StationIdentifierImpl(Normalize(m.network.value), Normalize(m.station.value))
  }

  method StationFromMessage(m: StationMessage) returns (r: Expected<StationIdentifierImpl, Exception>)
    ensures r == if DescribesStation(m) then Value(StationDescribed(m)) else Unexpected(InvalidArgument)
    ensures r.Value? ==> r.value.Complete()
    ensures r.Value? ==> r.value.Name() == Normalize(m.network.value) + "." + Normalize(m.station.value)
  {
    if m.network.None? || m.station.None? {
      return Unexpected(InvalidArgument);
    }
    r := MakeStationIdentifier(m.network.value, m.station.value);
  }
}
