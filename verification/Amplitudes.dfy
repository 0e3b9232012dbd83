/** src/magnitude/amplitude.cpp, and the messages amplitudes travel in. */
module Amplitudes {
  import opened Results
  import opened Identifiers

  /** What a copy of an amplitude carries; a value that was never set is negative. */
  datatype AmplitudeImpl = AmplitudeImpl(identifier: StreamIdentifierImpl, value: real, hasIdentifier: bool) {

    predicate Valid() {
      identifier.Valid() && (hasIdentifier ==> identifier.Complete())
    }

    predicate HasValue() {
      value > 0.0
    }

    predicate Complete() {
      HasValue() && hasIdentifier
    }
  }

  class Amplitude {
    var impl: AmplitudeImpl

    constructor ()
      ensures impl == AmplitudeImpl(StreamIdentifierImpl("", "", "", "", false), -1.0, false) && impl.Valid()
    {
      impl := AmplitudeImpl(StreamIdentifierImpl("", "", "", "", false), -1.0, false);
    }

    method SetValue(value: real) returns (r: Outcome)
      requires impl.Valid()
      modifies this
      ensures impl.Valid()
      ensures r == if value > 0.0 then Pass else Throw(InvalidArgument)
      ensures impl == if r.Pass? then old(impl).(value := value) else old(impl)
    {
      if value <= 0.0 {
        return Throw(InvalidArgument);
      }
      impl := impl.(value := value);
      return Pass;
    }

    method SetIdentifier(identifier: StreamIdentifierImpl) returns (r: Outcome)
      requires impl.Valid() && identifier.Valid()
      modifies this
      ensures impl.Valid()
      ensures r == if identifier.network != "" && identifier.station != "" && identifier.channel != ""
                      && identifier.hasLocationCode
                   then Pass else Throw(InvalidArgument)
      ensures impl == if r.Pass? then old(impl).(identifier := identifier, hasIdentifier := true) else old(impl)
    {
      if identifier.network == "" || identifier.station == "" || identifier.channel == "" {
        return Throw(InvalidArgument);
      }
      if !identifier.hasLocationCode {
        return Throw(InvalidArgument);
      }
      impl := impl.(identifier := identifier, hasIdentifier := true);
      return Pass;
    }
  }

  // ---------------------------------------------------------------- messages

  datatype StreamMessage = StreamMessage(
    network: Option<string>, station: Option<string>, channel: Option<string>, locationCode: Option<string>)

  datatype Units = Unspecified | Millimeters | Centimeters | Meters | Unknown

  datatype AmplitudeMessage = AmplitudeMessage(
    streamIdentifier: Option<StreamMessage>, value: Option<real>, units: Option<Units>)

  predicate NonBlank(code: Option<string>) {
    code.Some? && Normalize(code.value) != ""
  }

  /** The stream identifier a message describes, if it describes one. */
  function StreamDescribed(m: StreamMessage): Option<StreamIdentifierImpl> {
    if NonBlank(m.network) && NonBlank(m.station) && NonBlank(m.channel) then
      Some(StreamIdentifierImpl(
             Normalize(m.network.value), Normalize(m.station.value), Normalize(m.channel.value),
             if m.locationCode.Some? then Normalize(m.locationCode.value) else "", true))
    else None
  }

  /** The constructor from a message. */
  method StreamFromMessage(m: StreamMessage) returns (r: Expected<StreamIdentifierImpl, Exception>)
    ensures r == if StreamDescribed(m).Some? then Value(StreamDescribed(m).value) else Unexpected(InvalidArgument)
    ensures r.Value? ==> r.value.Valid() && r.value.Complete()
    ensures r.Value? <==> NonBlank(m.network) && NonBlank(m.station) && NonBlank(m.channel)
    ensures r.Value? ==>
      && r.value.network == Normalize(m.network.value) && r.value.station == Normalize(m.station.value)
      && r.value.channel == Normalize(m.channel.value)
      && r.value.locationCode == if m.locationCode.Some? then Normalize(m.locationCode.value) else ""
  {
    if m.network.None? || m.station.None? || m.channel.None? {
      return Unexpected(InvalidArgument);
    }
    var identifier := new StreamIdentifier();
    var result := identifier.SetNetwork(m.network.value);
    if result.Throw? {
      return Unexpected(result.exception);
    }
    result := identifier.SetStation(m.station.value);
    if result.Throw? {
      return Unexpected(result.exception);
    }
    result := identifier.SetChannel(m.channel.value);
    if result.Throw? {
      return Unexpected(result.exception);
    }
    if m.locationCode.Some? {
      identifier.SetLocationCode(m.locationCode.value);
    } else {
      identifier.SetLocationCode("");
    }
    return Value(identifier.impl);
  }

  /** How many millimeters one unit is; none for units the constructor rejects. */
  function MillimetersPer(units: Units): Option<real> {
    match units
    case Millimeters => Some(1.0)
    case Centimeters => Some(10.0)
    case Meters => Some(1000.0)
    case _ => None
  }

  /** The amplitude in millimeters a message describes, if it describes one. */
  function AmplitudeDescribed(m: AmplitudeMessage): Option<AmplitudeImpl> {
    if m.streamIdentifier.Some? && m.value.Some? && m.units.Some? && StreamDescribed(m.streamIdentifier.value).Some?
       && MillimetersPer(m.units.value).Some? && m.value.value > 0.0 then
      Some(AmplitudeImpl(StreamDescribed(m.streamIdentifier.value).value,
                         m.value.value * MillimetersPer(m.units.value).value, true))
    else None
  }

  /** The same amplitude in another unit. */
  function InUnits(m: AmplitudeMessage, value: real, units: Units): AmplitudeMessage {
    m.(value := Some(value), units := Some(units))
  }

  /** A centimeter is ten millimeters and a meter is a hundred centimeters. */
  lemma {:induction false} UnitsConvert(m: AmplitudeMessage, value: real)
    ensures AmplitudeDescribed(InUnits(m, value, Centimeters)) ==
            AmplitudeDescribed(InUnits(m, 10.0 * value, Millimeters))
    ensures AmplitudeDescribed(InUnits(m, value, Meters)) ==
            AmplitudeDescribed(InUnits(m, 100.0 * value, Centimeters))
  {
  }

  /** The constructor from a message. */
  method AmplitudeFromMessage(m: AmplitudeMessage) returns (r: Expected<AmplitudeImpl, Exception>)
    ensures r == if AmplitudeDescribed(m).Some? then Value(AmplitudeDescribed(m).value) else Unexpected(InvalidArgument)
    ensures r.Value? ==> r.value.Valid() && r.value.Complete()
    ensures r.Value? <==>
      && m.streamIdentifier.Some? && StreamDescribed(m.streamIdentifier.value).Some?
      && m.value.Some? && m.value.value > 0.0
      && m.units.Some? && m.units.value in {Millimeters, Centimeters, Meters}
    ensures r.Value? && m.units.value == Millimeters ==> r.value.value == m.value.value
    ensures r.Value? ==> Some(r.value.identifier) == StreamDescribed(m.streamIdentifier.value)
  {
    if m.streamIdentifier.None? || m.value.None? || m.units.None? {
      return Unexpected(InvalidArgument);
    }
    var amplitude := new Amplitude();
    var result: Outcome;
    if m.units.value == Unspecified {
      return Unexpected(InvalidArgument);
    } else if m.units.value == Millimeters {
      result := amplitude.SetValue(m.value.value);
    } else if m.units.value == Centimeters {
      result := amplitude.SetValue(m.value.value * 10.0);
    } else if m.units.value == Meters {
      result := amplitude.SetValue(m.value.value * 1000.0);
    } else {
      return Unexpected(InvalidArgument);
    }
    if result.Throw? {
      return Unexpected(result.exception);
    }
    var identifier := StreamFromMessage(m.streamIdentifier.value);
    if identifier.Unexpected? {
      return Unexpected(identifier.error);
    }
    result := amplitude.SetIdentifier(identifier.value);
    assert result.Pass?;
    return Value(amplitude.impl);
  }

  lemma {:induction false} DescribedAmplitudesAreComplete(m: AmplitudeMessage)
    requires AmplitudeDescribed(m).Some?
    ensures AmplitudeDescribed(m).value.Valid() && AmplitudeDescribed(m).value.Complete()
  {
    var s := m.streamIdentifier.value;
    NormalizedIffUnchanged(s.network.value);
    NormalizedIffUnchanged(s.station.value);
    NormalizedIffUnchanged(s.channel.value);
    NormalizedIffUnchanged(if s.locationCode.Some? then s.locationCode.value else "");
  }

  function StreamToMessage(s: StreamIdentifierImpl): StreamMessage
    requires s.Complete()
  {
    StreamMessage(Some(s.network), Some(s.station), Some(s.channel), Some(s.locationCode))
  }

  /** Amplitudes are sent in millimeters. */
  function AmplitudeToMessage(a: AmplitudeImpl): AmplitudeMessage
    requires a.Valid() && a.Complete()
  {
    AmplitudeMessage(Some(StreamToMessage(a.identifier)), Some(a.value), Some(Millimeters))
  }

  /** A complete amplitude survives the wire. */
  lemma {:induction false} AmplitudeRoundTrip(a: AmplitudeImpl)
    requires a.Valid() && a.Complete()
    ensures AmplitudeDescribed(AmplitudeToMessage(a)) == Some(a)
  {
    NormalizedIffUnchanged(a.identifier.network);
    NormalizedIffUnchanged(a.identifier.station);
    NormalizedIffUnchanged(a.identifier.channel);
    NormalizedIffUnchanged(a.identifier.locationCode);
  }
}
