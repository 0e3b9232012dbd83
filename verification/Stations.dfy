/** src/corrections/station.cpp, stationOptions.cpp and stationsSet.cpp: station corrections,
    the set that holds them and its loader. */
module Stations {
  import opened Results
  import opened Identifiers
  import opened TableEntries

  // ------------------------------------------------------------------ station

  datatype StationOptionsImpl = StationOptionsImpl(
    identifier: StationIdentifierImpl, correction: real, hasIdentifier: bool, hasCorrection: bool)
  {
    predicate Valid() {
      hasIdentifier ==> identifier.Valid() && identifier.Complete()
    }
  }

  class StationOptions {
    var impl: StationOptionsImpl

    constructor ()
      ensures impl == StationOptionsImpl(StationIdentifierImpl("", ""), 0.0, false, false) && impl.Valid()
    {
      impl := StationOptionsImpl(StationIdentifierImpl("", ""), 0.0, false, false);
    }

    method SetIdentifier(identifier: StationIdentifierImpl) returns (r: Outcome)
      requires impl.Valid() && identifier.Valid()
      modifies this
      ensures impl.Valid()
      ensures r == if identifier.Complete() then Pass else Throw(InvalidArgument)
      ensures impl == if r.Pass? then old(impl).(identifier := identifier, hasIdentifier := true) else old(impl)
    {
      if identifier.network == "" || identifier.station == "" {
        return Throw(InvalidArgument);
      }
      impl := impl.(identifier := identifier, hasIdentifier := true);
      return Pass;
    }

    method SetCorrection(correction: real)
      requires impl.Valid()
      modifies this
      ensures impl.Valid() && impl == old(impl).(correction := correction, hasCorrection := true)
    {
      impl := impl.(correction := correction, hasCorrection := true);
    }
  }

  /** A station's correction, immutable once constructed. */
  datatype Station = Station(identifier: StationIdentifierImpl, correction: real, initialized: bool) {

    predicate Valid() {
      initialized ==> identifier.Valid() && identifier.Complete()
    }

    /** The name of an initialized station. */
    function Name(): string {
      identifier.Name()
    }

    static method Create(options: StationOptionsImpl) returns (r: Expected<Station, Exception>)
      requires options.Valid()
      ensures r == if options.hasIdentifier && options.hasCorrection
                   then Value(Station(options.identifier, options.correction, true)) else Unexpected(InvalidArgument)
    {
      if !options.hasIdentifier || !options.hasCorrection {
        return Unexpected(InvalidArgument);
      }
      return Value(Station(options.identifier, options.correction, true));
    }
  }

  // -------------------------------------------------------------- stations set

  type Corrections = map<string, Station>

  /** Every key is the name of the station it maps to. */
  ghost predicate KeyedByName(corrections: Corrections) {
    forall name :: name in corrections ==>
      corrections[name].initialized && corrections[name].Valid() && corrections[name].Name() == name
  }

  datatype InsertCall = InsertCall(station: Station, overwrite: bool)

  function After(corrections: Corrections, call: InsertCall): Corrections {
    if call.station.initialized && (call.overwrite || call.station.Name() !in corrections)
    then corrections[call.station.Name() := call.station]
    else corrections
  }

  class StationsSet {
    var corrections: Corrections

    constructor ()
      ensures corrections == map[]
    {
      corrections := map[];
    }

    /** Tells whether the correction was stored. */
    method Insert(correction: Station, overwrite: bool) returns (r: Expected<bool, Exception>)
      requires KeyedByName(corrections) && correction.Valid()
      modifies this
      ensures KeyedByName(corrections)
      ensures r == if correction.initialized then Value(overwrite || correction.Name() !in old(corrections))
                   else Unexpected(InvalidArgument)
      ensures corrections == After(old(corrections), InsertCall(correction, overwrite))
    {
      if !correction.initialized {
        return Unexpected(InvalidArgument);
      }
      var name := correction.identifier.ToString();
      assert name == Value(correction.Name());
      if name.value in corrections {
        if overwrite {
          corrections := corrections[name.value := correction];
          return Value(true);
        }
        return Value(false);
      } else {
        corrections := corrections[name.value := correction];
        return Value(true);
      }
    }

    method GetCorrection(name: string) returns (r: Option<Station>)
      requires KeyedByName(corrections)
      ensures r == if name in corrections then Some(corrections[name]) else None
    {
      if name == "" {
        assert name in corrections ==> corrections[name].Name() != "";
        return None;
      }
      if name in corrections {
        return Some(corrections[name]);
      }
      return None;
    }
  }

  // ------------------------------------------------------- runs of insertions

  function Run(calls: seq<InsertCall>): Corrections {
    if calls == [] then map[] else After(Run(calls[..|calls| - 1]), calls[|calls| - 1])
  }

  predicate Names(call: InsertCall, name: string) {
    call.station.initialized && call.station.Name() == name
  }

  /** The call that decides the correction stored under a name: the last one that overwrites
      or, if none does, the first one. */
  predicate Decides(calls: seq<InsertCall>, k: nat, name: string) {
    && k < |calls| && Names(calls[k], name)
    && (forall j :: k < j < |calls| && Names(calls[j], name) ==> !calls[j].overwrite)
    && (!calls[k].overwrite ==> forall j :: 0 <= j < k ==> !Names(calls[j], name))
  }

  /** Every key is a station's name after any run of insertions. */
  lemma {:induction false} RunsAreKeyedByName(calls: seq<InsertCall>)
    requires forall call :: call in calls ==> call.station.Valid()
    ensures KeyedByName(Run(calls))
  {
    if calls != [] {
      RunsAreKeyedByName(calls[..|calls| - 1]);
    }
  }

  lemma {:induction false} StoredIffInserted(calls: seq<InsertCall>, name: string)
    ensures name in Run(calls) <==> exists k :: 0 <= k < |calls| && Names(calls[k], name)
  {
    if calls != [] {
      var last := |calls| - 1;
      StoredIffInserted(calls[..last], name);
      if name in Run(calls[..last]) {
        var k :| 0 <= k < last && Names(calls[..last][k], name);
        assert Names(calls[k], name);
      } else {
        assert forall k :: 0 <= k < last ==> !Names(calls[..last][k], name) && calls[..last][k] == calls[k];
      }
    }
  }

  /** Without overwriting the first correction of a name wins, with overwriting the last
      overwriting one does. */
  lemma {:induction false} DecidingCallIsStored(calls: seq<InsertCall>, k: nat, name: string)
    requires Decides(calls, k, name)
    ensures name in Run(calls) && Run(calls)[name] == calls[k].station
  {
    var last := |calls| - 1;
    StoredIffInserted(calls[..last], name);
    if k < last {
      assert Decides(calls[..last], k, name);
      DecidingCallIsStored(calls[..last], k, name);
    } else if !calls[k].overwrite {
      assert forall j :: 0 <= j < last ==> !Names(calls[..last][j], name);
    }
  }

  // -------------------------------------------------------------------- loader

  /** Network, station and correction as text: "UU.CWU 2.3" or "UU CWU 2.3" split on blanks. */
  function Fields(tokens: Tokens): Option<(string, string, string)> {
    if |tokens| == 3 then Some((tokens[0], tokens[1], tokens[2]))
    else if |tokens| == 2 && |SplitOnDots(tokens[0])| == 2 then
      Some((SplitOnDots(tokens[0])[0], SplitOnDots(tokens[0])[1], tokens[1]))
    else None
  }

  /** The station an entry describes, if it is well formed: its codes are not blank and its
      correction is a number to the last character. */
  function StationDescribed(tokens: Tokens, stod: NumberParser): Option<Station> {
    match Fields(tokens)
    case None => None
    case Some((network, station, number)) =>
      if Normalize(network) != "" && Normalize(station) != "" && stod(number).Value? && stod(number).value.1 == |number|
      then Some(Station(StationIdentifierImpl(Normalize(network), Normalize(station)), stod(number).value.0, true))
      else None
  }

  method ParseStation(tokens: Tokens, stod: NumberParser) returns (r: Expected<Station, Exception>)
    ensures r.Value? <==> StationDescribed(tokens, stod).Some?
    ensures r.Value? ==> StationDescribed(tokens, stod) == Some(r.value) && r.value.initialized && r.value.Valid()
  {
    var splitString := tokens;
    if |splitString| == 2 {
      var nameSplit := SplitOnDots(splitString[0]);
      if |nameSplit| != 2 {
        return Unexpected(InvalidArgument);
      }
      splitString := [nameSplit[0], nameSplit[1], splitString[1]];
    }
    if |splitString| != 3 {
      return Unexpected(InvalidArgument);
    }
    assert Fields(tokens) == Some((splitString[0], splitString[1], splitString[2]));
    var identifier := MakeStationIdentifier(splitString[0], splitString[1]);
    if identifier.Unexpected? {
      return Unexpected(identifier.error);
    }
    var parsed := stod(splitString[2]);
    if parsed.Unexpected? {
      return Unexpected(parsed.error);
    }
    if parsed.value.1 != |splitString[2]| {
      return Unexpected(InvalidArgument);
    }
    var options := new StationOptions();
    var result := options.SetIdentifier(identifier.value);
    assert result.Pass?;
    options.SetCorrection(parsed.value.0);
    r := Station.Create(options.impl);
  }

  /** An entry of three fields, the first two of which may be joined by a period if they have none. */
  ghost predicate EntryReads(tokens: Tokens, network: string, station: string, number: string) {
    || tokens == [network, station, number]
    || (DotFree(network) && DotFree(station) && tokens == [network + "." + station, number])
  }

  /** Either form of an entry gives its station's correction, if its codes are not blank and its number is one to
      the last character. */
  lemma {:induction false} EntryGivesCorrection(tokens: Tokens, network: string, station: string, number: string,
      stod: NumberParser)
    requires EntryReads(tokens, network, station, number)
    ensures var parsed := StationDescribed(tokens, stod);
      && (parsed.Some? <==> Normalize(network) != "" && Normalize(station) != ""
                            && stod(number).Value? && stod(number).value.1 == |number|)
      && (parsed.Some? ==>
           && parsed.value.initialized
           && parsed.value.identifier.network == Normalize(network)
           && parsed.value.identifier.station == Normalize(station)
           && parsed.value.Name() == Normalize(network) + "." + Normalize(station)
           && parsed.value.correction == stod(number).value.0)
  {
    if |tokens| == 2 {
      SplitJoined(network, station);
      SplitDotFree(station);
    }
  }

  /** No other entry is well formed. */
  lemma {:induction false} OtherEntriesAreRefused(tokens: Tokens, stod: NumberParser)
    requires forall network, station, number :: !EntryReads(tokens, network, station, number)
    ensures StationDescribed(tokens, stod) == None
  {
    if |tokens| == 3 {
      assert tokens == [tokens[0], tokens[1], tokens[2]];
      assert EntryReads(tokens, tokens[0], tokens[1], tokens[2]);
    } else if |tokens| == 2 && |SplitOnDots(tokens[0])| == 2 {
      SplitInTwo(tokens[0]);
      assert tokens == [tokens[0], tokens[1]];
      assert EntryReads(tokens, SplitOnDots(tokens[0])[0], SplitOnDots(tokens[0])[1], tokens[1]);
    }
  }

  ghost predicate WellFormed(rows: seq<Tokens>, stod: NumberParser) {
    forall i :: 0 <= i < |rows| ==> StationDescribed(rows[i], stod).Some?
  }

  ghost function StationsDescribed(rows: seq<Tokens>, stod: NumberParser): seq<Station>
    requires WellFormed(rows, stod)
  {
    seq(|rows|, i requires 0 <= i < |rows| => StationDescribed(rows[i], stod).value)
  }

  predicate DistinctNames(stations: seq<Station>) {
    forall i, j :: 0 <= i < j < |stations| ==> stations[i].Name() != stations[j].Name()
  }

  /** The set holds these corrections and no others. */
  ghost predicate HoldsExactly(corrections: Corrections, stations: seq<Station>) {
    && |corrections| == |stations|
    && (forall i :: 0 <= i < |stations| ==>
         stations[i].Name() in corrections && corrections[stations[i].Name()] == stations[i])
    && (forall name :: name in corrections ==> corrections[name] in stations && corrections[name].Name() == name)
  }

  lemma {:induction false} NextStationIsHeld(corrections: Corrections, stations: seq<Station>, station: Station)
    requires HoldsExactly(corrections, stations) && DistinctNames(stations)
    requires station.Name() !in corrections
    ensures HoldsExactly(corrections[station.Name() := station], stations + [station])
    ensures DistinctNames(stations + [station])
  {
  }

  lemma {:induction false} RepeatedNameIsRefused(corrections: Corrections, stations: seq<Station>, n: nat)
    requires n < |stations| && HoldsExactly(corrections, stations[..n])
    requires stations[n].Name() in corrections
    ensures !DistinctNames(stations)
  {
    var i :| 0 <= i < n && stations[..n][i] == corrections[stations[n].Name()];
    assert stations[i].Name() == stations[n].Name();
  }

  /** The first n rows are well formed and name different stations, and the set holds exactly those. */
  ghost predicate HoldsRows(corrections: Corrections, rows: seq<Tokens>, n: nat, stod: NumberParser) {
    && n <= |rows| && WellFormed(rows[..n], stod) && DistinctNames(StationsDescribed(rows[..n], stod))
    && KeyedByName(corrections) && HoldsExactly(corrections, StationsDescribed(rows[..n], stod))
  }

  lemma {:induction false} DescribedNext(rows: seq<Tokens>, n: nat, station: Station, stod: NumberParser)
    requires n < |rows| && WellFormed(rows[..n], stod) && StationDescribed(rows[n], stod) == Some(station)
    ensures WellFormed(rows[..n + 1], stod)
    ensures StationsDescribed(rows[..n + 1], stod) == StationsDescribed(rows[..n], stod) + [station]
  {
    assert forall i :: 0 <= i < n ==> rows[..n + 1][i] == rows[..n][i];
    assert rows[..n + 1][n] == rows[n];
  }

  lemma {:induction false} DescribedPrefix(rows: seq<Tokens>, n: nat, stod: NumberParser)
    requires n <= |rows| && WellFormed(rows, stod)
    ensures WellFormed(rows[..n], stod) && StationsDescribed(rows, stod)[..n] == StationsDescribed(rows[..n], stod)
  {
  }

  lemma {:induction false} NextRow(corrections: Corrections, rows: seq<Tokens>, n: nat, station: Station,
      stod: NumberParser)
    requires HoldsRows(corrections, rows, n, stod) && n < |rows|
    requires StationDescribed(rows[n], stod) == Some(station) && station.initialized && station.Valid()
    ensures station.Name() !in corrections ==> HoldsRows(corrections[station.Name() := station], rows, n + 1, stod)
    ensures station.Name() in corrections && WellFormed(rows, stod) ==> !DistinctNames(StationsDescribed(rows, stod))
  {
    hide StationDescribed, StationsDescribed, HoldsExactly, DistinctNames, WellFormed;
    DescribedNext(rows, n, station, stod);
    if station.Name() !in corrections {
      NextStationIsHeld(corrections, StationsDescribed(rows[..n], stod), station);
    } else if WellFormed(rows, stod) {
      DescribedPrefix(rows, n, stod);
      RepeatedRow(corrections, rows, n, station, stod);
    }
  }

  lemma {:induction false} RepeatedRow(corrections: Corrections, rows: seq<Tokens>, n: nat, station: Station,
      stod: NumberParser)
    requires n < |rows| && WellFormed(rows, stod) && StationDescribed(rows[n], stod) == Some(station)
    requires HoldsExactly(corrections, StationsDescribed(rows, stod)[..n]) && station.Name() in corrections
    ensures !DistinctNames(StationsDescribed(rows, stod))
  {
    assert StationsDescribed(rows, stod)[n] == station;
    hide StationsDescribed, StationDescribed;
    RepeatedNameIsRefused(corrections, StationsDescribed(rows, stod), n);
  }

  /** fromInitializationFile once the file's entries are looked up. It succeeds exactly when the
      entries before the first gap are well formed and name different stations, and then
      holds exactly their corrections. */
  method FromInitializationFile(entries: map<nat, Tokens>, stod: NumberParser)
    returns (r: Expected<Corrections, Exception>)
    ensures r.Value? <==>
      WellFormed(EntriesRead(entries), stod) && DistinctNames(StationsDescribed(EntriesRead(entries), stod))
    ensures r.Value? ==> KeyedByName(r.value) && HoldsExactly(r.value, StationsDescribed(EntriesRead(entries), stod))
  {
    ghost var rows := EntriesRead(entries);
    NextEntryRead(entries, 1);
    var stationsSet := new StationsSet();
    var i := 1;
    while i < ENTRY_LIMIT
      invariant 1 <= i <= |rows| + 1 && HoldsRows(stationsSet.corrections, rows, i - 1, stod)
    {
      NextEntryRead(entries, i);
      if i !in entries {
        break;
      }
      var station := ParseStation(entries[i], stod);
      if station.Unexpected? {
        return Unexpected(station.error);
      }
      NextRow(stationsSet.corrections, rows, i - 1, station.value, stod);
      var added := stationsSet.Insert(station.value, false);
      assert added.Value?;
      if !added.value {
        return Unexpected(InvalidArgument);
      }
      i := i + 1;
    }
    assert rows[..i - 1] == rows;
    return Value(stationsSet.corrections);
  }
}
