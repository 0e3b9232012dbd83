/** From a file's entries to the calculator the service uses (src/programOptions.hpp and the
    service's constructor in src/grpc/magnitudeService.cpp). */
module Configuration {
  import opened Results
  import opened Identifiers
  import opened DistanceTables
  import opened TableEntries
  import opened NetworkCalculators
  import DistanceOptions
  import Distance
  import Stations

  /** The entries of the sections that matter here, looked up. */
  datatype Entries = Entries(
    minimum: Option<int>, strategy: Option<string>,
    interpolation: Option<string>, distanceType: Option<string>, datum: Option<real>, distanceRows: map<nat, Tokens>,
    stationRows: map<nat, Tokens>)

  ghost predicate DistanceSectionLoads(entries: Entries, stod: NumberParser) {
    && DistanceOptions.KnownNames(entries.interpolation, entries.distanceType)
    && (DistanceOptions.ToLower(entries.distanceType.value) == "hypocentral" && entries.datum.Some? ==>
         DistanceOptions.DatumInRange(entries.datum.value))
    && DistanceOptions.RowsParse(EntriesRead(entries.distanceRows), stod)
    && Acceptable(DistanceOptions.Table(EntriesRead(entries.distanceRows), stod))
  }

  ghost predicate StationSectionLoads(entries: Entries, stod: NumberParser) {
    && Stations.WellFormed(EntriesRead(entries.stationRows), stod)
    && Stations.DistinctNames(Stations.StationsDescribed(EntriesRead(entries.stationRows), stod))
    && EntriesRead(entries.stationRows) != []
  }

  /** The options are the file's: its names in any letter case, its datum if hypocentral, and its table. */
  ghost predicate DistanceAsFiled(options: DistanceOptions.DistanceOptionsImpl, entries: Entries, stod: NumberParser)
    requires DistanceSectionLoads(entries, stod)
  {
    && (options.interpolation == DistanceOptions.Linear <==>
         DistanceOptions.ToLower(entries.interpolation.value) == "linear")
    && (options.interpolation == DistanceOptions.Nearest <==>
         DistanceOptions.ToLower(entries.interpolation.value) == "nearest")
    && (options.distanceType == DistanceOptions.Hypocentral <==>
         DistanceOptions.ToLower(entries.distanceType.value) == "hypocentral")
    && (options.distanceType == DistanceOptions.Epicentral <==>
         DistanceOptions.ToLower(entries.distanceType.value) == "epicentral")
    && options.datum == (if options.distanceType == DistanceOptions.Hypocentral && entries.datum.Some?
                         then entries.datum.value else 0.0)
    && StoredFor(options.corrections, DistanceOptions.Table(EntriesRead(entries.distanceRows), stod))
  }

  /** The distance corrections of the file. */
  method LoadDistance(entries: Entries, stod: NumberParser) returns (r: Expected<Distance.Distance, Exception>)
    ensures r.Value? <==> DistanceSectionLoads(entries, stod)
    ensures r.Value? ==> r.value.Valid() && r.value.initialized && DistanceAsFiled(r.value.options, entries, stod)
  {
    var options := DistanceOptions.FromInitializationFile(
      entries.interpolation, entries.distanceType, entries.datum, entries.distanceRows, stod);
    if options.Unexpected? {
      return Unexpected(options.error);
    }
    r := Distance.Distance.Create(options.value);
  }

  /** Builds the calculator. It exists exactly when the minimum is positive, the strategy is the average and
      both sections load; it is then valid, initialized, and holds the tables of the file. */
  method Configure(entries: Entries, stod: NumberParser) returns (r: Expected<NetworkMagnitudeCalculator, Exception>)
    ensures r.Value? <==>
      && (entries.minimum.Some? ==> entries.minimum.value >= 1)
      && (entries.strategy.Some? ==> DistanceOptions.ToLower(entries.strategy.value) == "average")
      && DistanceSectionLoads(entries, stod) && StationSectionLoads(entries, stod)
    ensures r.Value? ==> r.value.Valid() && r.value.initialized
    ensures r.Value? ==>
      r.value.options.minimumNumberOfStationMagnitudes == if entries.minimum.Some? then entries.minimum.value else 2
    ensures r.Value? ==>
      && DistanceAsFiled(r.value.options.distanceCorrections.value.options, entries, stod)
      && (r.value.requiresDepth <==> DistanceOptions.ToLower(entries.distanceType.value) == "hypocentral")
    ensures r.Value? ==>
      Stations.HoldsExactly(r.value.options.stationCorrections,
                            Stations.StationsDescribed(EntriesRead(entries.stationRows), stod))
  {
    hide DistanceSectionLoads;
    var options := new NetworkMagnitudeCalculatorOptions();
    var result := options.SetMinimumNumberOfStationMagnitudes(
      if entries.minimum.Some? then entries.minimum.value else options.impl.minimumNumberOfStationMagnitudes);
    if result.Throw? {
      return Unexpected(result.exception);
    }
    if entries.strategy.Some? {
      if DistanceOptions.ToLower(entries.strategy.value) != "average" {
        return Unexpected(InvalidArgument);
      }
    }
    var distance := LoadDistance(entries, stod);
    if distance.Unexpected? {
      return Unexpected(distance.error);
    }
    result := options.SetDistanceCorrections(distance.value);
    assert result.Pass?;
    var stations := Stations.FromInitializationFile(entries.stationRows, stod);
    if stations.Unexpected? {
      return Unexpected(stations.error);
    }
    result := options.SetStationCorrections(stations.value);
    if result.Throw? {
      return Unexpected(result.exception);
    }
    r := NetworkMagnitudeCalculator.Create(options.impl);
  }

  /** A configured calculator reads its file back: at the distance in a distance row the correction is the
      row's, whatever the interpolation. */
  lemma {:induction false} DistanceRowsAreReadBack(distance: Distance.Distance, entries: Entries, stod: NumberParser,
      i: nat)
    requires DistanceSectionLoads(entries, stod) && distance.Valid() && distance.initialized
    requires DistanceAsFiled(distance.options, entries, stod) && i < |EntriesRead(entries.distanceRows)|
    ensures var row := EntriesRead(entries.distanceRows)[i];
      && |row| == 2 && stod(row[0]).Value? && stod(row[1]).Value?
      && distance.At(stod(row[0]).value.0) == Value(stod(row[1]).value.0)
  {
    var rows := EntriesRead(entries.distanceRows);
    var table := DistanceOptions.Table(rows, stod);
    DistanceOptions.RowIsReadExactlyWhen(rows[i], stod);
    distance.TableIsReadBack(table, i);
  }

  /** And a station row gives the station it names, in either form, its correction. */
  lemma {:induction false} StationRowsAreReadBack(corrections: Stations.Corrections, rows: seq<Tokens>,
      stod: NumberParser, i: nat, network: string, station: string, number: string)
    requires Stations.WellFormed(rows, stod)
    requires Stations.HoldsExactly(corrections, Stations.StationsDescribed(rows, stod))
    requires i < |rows| && Stations.EntryReads(rows[i], network, station, number)
    ensures stod(number).Value?
    ensures var name := Normalize(network) + "." + Normalize(station);
      name in corrections && corrections[name].correction == stod(number).value.0
  {
    Stations.EntryGivesCorrection(rows[i], network, station, number, stod);
    assert Stations.StationDescribed(rows[i], stod).Some?;
    assert Stations.StationsDescribed(rows, stod)[i] == Stations.StationDescribed(rows[i], stod).value;
  }
}
