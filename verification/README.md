# Verified model of the local magnitude service

The service computes local magnitudes of earthquakes. An observation holds two amplitudes of one
station with its distance and the source depth; a station magnitude is log10 of half the average
amplitude plus a distance correction from a table plus a station correction; a network magnitude is
the average over all stations, with residuals and rejected observations reported by number. Requests
arrive by RPC and are counted by how they end. This project models that pipeline and proves what it
computes, what it refuses, and what it does not depend on.

## How the model is laid out

- `Interpolation`, `DistanceTables`, `DistanceOptions`, `Distance`: the distance correction, from an
  unsorted table to a lookup by hypocentral distance.
- `TableEntries`, `Stations`, `Configuration`: the loaders, from an entry's tokens to a calculator.
- `Identifiers`, `Amplitudes`, `Observations`, `Magnitudes`: the values that travel, and what each of
  their setters refuses.
- `StationCalculators`, `NetworkAverages`, `NetworkCalculators`: the calculators.
- `NetworkTheorems`, `NetworkStability`: when there is a network magnitude, what it is, and how it
  answers to changes of its observations.
- `Requests`, `MagnitudeService`, `Metrics`, `Accounting`: the three reactors, the counters, and every
  interleaving of requests in flight.
- `Packets`: unpacking integer samples on hosts of either byte order.
- `Results`, `MathLibrary`, `Rearrangements`: exceptions, std::expected, the two library functions, and
  lists with the same elements in another order.

## How the source is rendered

- A class whose setters update it is a class `X` with one field `impl`, a datatype `XImpl`. This is the
  source's own pImpl structure: copying a C++ object copies its implementation, so what is passed,
  stored and returned is an `XImpl`. What the setters establish is a predicate `Valid` on it.
- An object that never changes once constructed (`Distance`, `Station`, both calculators) is a datatype
  whose constructor is a static method `Create`, since a C++ constructor may throw.
- A throwing setter returns `Throw` and leaves the object as it was. Where the source calls it from a
  `noexcept` operator outside a try block, the model asserts that it passed.
- `assert false` stands where the source has a branch that the model shows to be out of reach.
- Doubles are reals, and 0.1 is one tenth. `log10` and `hypot` are parameters: `hypot` is required to be
  Euclidean and `log10` to turn products into sums only where a statement needs it. `log10` is only
  ever applied to a positive number, by its type. `std::stod` and the geodesic distance are parameters
  that may throw.
- Each mutex-guarded increment, each call of Finish and each OnDone is one atomic step of `Accounting`.

## Where code and documentation differ

- The header of `DistanceOptions` speaks of duplicate distances; the code refuses distances less than
  0.1 apart, and so does the model.
- The header of the network calculator lists error codes for stations (no correction, too close, too
  far, negative distance). No code returns them for a network, and the model leaves them out.
- An integer packet of 2^31 or more 32 bit samples is refused whatever its size, because the count is
  cast to a signed type first. `Packets.Unpack` states the exact condition.
- The setters do not check for periods, so two stations can share a name. It happens to a station exactly
  when its network has a period after the first character or its station code one before the last:
  `Identifiers.NameIsSharedExactlyWhen`.
- Which error is returned for incomplete observations can depend on the order of the observations;
  `NetworkTheorems.SameErrorInEveryOrderExactlyWhen` says when it does.

## Model

| member | source | states |
|---|---|---|
| `Interpolation.LowerBound` | src/corrections/distance.cpp:33 | The loop of std::lower_bound finds the only position with every smaller element before it and none from it on. |
| `Interpolation.UpperBound` | src/corrections/distance.cpp:55 | The loop of std::upper_bound finds the only position with every element not greater than x before it and none from it on. |
| `Interpolation.ClosestNode` | src/corrections/distance.cpp:38-40 | The reference for nearest interpolation: in any table, the node at least distance from x, the lower index winning ties. |
| `Interpolation.InterpolateNearest` | src/corrections/distance.cpp:24-41 | The binary search returns the value at the closest node, as a linear scan would, for every x and every strictly increasing table, and 0 for an empty one. |
| `Interpolation.InterpolateLinearly` | src/corrections/distance.cpp:43-62 | The binary search returns the piecewise linear curve read from the left; every index is in bounds, every denominator positive, and the "Algorithmic error" throw is out of reach. |
| `Interpolation.CurveIsChord` | src/corrections/distance.cpp:60-61 | Between any two neighbouring nodes the curve is the chord through them. |
| `Interpolation.CurveRises` | src/corrections/distance.cpp:55-61 | From each node to the next the curve rises in proportion to the distance run. |
| `Interpolation.CurveThroughNodes` | src/corrections/distance.cpp:43-62 | The curve passes through every node. |
| `Interpolation.CurveIsLipschitz` | src/corrections/distance.cpp:43-62 | Over all reals, across nodes and saturated ends, the curve moves no faster than its steepest segment. |
| `Interpolation.SteepestIsTheLipschitzConstant` | src/corrections/distance.cpp:43-62 | The largest absolute segment slope is the least Lipschitz constant: a non-negative bound works exactly when it is at least that slope. |
| `Interpolation.CurveStaysBetweenNeighbours` | src/corrections/distance.cpp:61 | Between two nodes the curve stays between their values. |
| `Interpolation.CurveIsMonotone` | src/corrections/distance.cpp:43-62 | Values that do not decrease give a curve that does not decrease. |
| `DistanceTables.Sort` | src/corrections/distanceOptions.cpp:163-168 | Sorting by distance: any ascending rearrangement of the table. |
| `DistanceTables.NeighboursDecidePairs` | src/corrections/distanceOptions.cpp:169-179 | On a sorted table the check of neighbours decides the gap between every two entries. |
| `DistanceTables.AcceptableIgnoresOrder` | src/corrections/distanceOptions.cpp:144-182 | Whether a table is acceptable does not depend on its order. |
| `DistanceTables.IncreasingRearrangementIsUnique` | src/corrections/distanceOptions.cpp:161-180 | A table has at most one strictly increasing rearrangement. |
| `DistanceTables.ReorderedTablesStoreTheSame` | src/corrections/distanceOptions.cpp:144-182 | Any reordering of an accepted table is accepted and stored as the same table. |
| `DistanceOptions.DistanceOptions.SetDatum` | src/corrections/distanceOptions.cpp:125-136 | Accepts a datum exactly in [-10000, 8600]; a rejected one changes nothing. |
| `DistanceOptions.DistanceOptions.SetCorrections` | src/corrections/distanceOptions.cpp:144-182 | Accepts a table exactly when it is non-empty, has no negative distance and every two entries are at least 0.1 apart; stores its increasing rearrangement; a rejected table changes nothing. |
| `DistanceOptions.ReadTable` | src/corrections/distanceOptions.cpp:289-321 | The table loop succeeds exactly when every row before the first gap parses, and returns those rows in order. |
| `DistanceOptions.RowIsReadExactlyWhen` | src/corrections/distanceOptions.cpp:303-315 | A row has exactly two tokens that start with numbers, the distance and then the correction. |
| `DistanceOptions.LowerCaseIs` | src/corrections/distanceOptions.cpp:232-255 | The lower case the names are compared in is a name's only spelling without capitals. |
| `DistanceOptions.FromInitializationFile` | src/corrections/distanceOptions.cpp:229-323 | The loader succeeds exactly when both names are known in any letter case, a hypocentral datum is in range, every row read parses and their table is acceptable; what it returns is determined by them. |
| `TableEntries.EntriesReadStopAtFirstGap` | src/corrections/distanceOptions.cpp:289-320 | Entries are read in order up to the first missing number, at most 65534 of them. |
| `TableEntries.EntriesAfterGapIgnored` | src/corrections/stationsSet.cpp:144-215 | Entries after the first gap have no effect. |
| `Distance.MinMaxElement` | src/corrections/distance.cpp:104-106 | The loop finds elements that bound all others. |
| `Distance.Distance.Create` | src/corrections/distance.cpp:79-110 | A correction is constructed exactly from complete options, and its limits are the first and last stored distances. |
| `Distance.Distance.Lookup` | src/corrections/distance.cpp:226-258 | The lookup by distance: a value exactly within the limits, the closest node's or the curve's, and otherwise the error that applies. |
| `Distance.Distance.LookupSource` | src/corrections/distance.cpp:260-291 | The lookup by epicentral distance and depth enters the table with the hypocentral distance below the datum, or the epicentral one. |
| `Distance.Distance.NearestTakesClosestEntry` | src/corrections/distance.cpp:24-41 | With nearest interpolation a correction is that of the closest entry of the stored table, the lower one on ties. |
| `Distance.Distance.LinearFollowsChord` | src/corrections/distance.cpp:43-62 | With linear interpolation a correction rises from one stored entry to the next in proportion to the distance. |
| `Distance.Distance.TableIsReadBack` | src/corrections/distance.cpp:79-110 | With either, a distance of the table the options were given gets the correction given with it. |
| `Distance.Distance.LookupEndsExactlyWhen` | src/corrections/distance.cpp:227-253 | A lookup by distance is corrected, negative, too close or too far exactly by the ends of the stored table. |
| `Distance.Distance.SourceRefusedExactlyWhen` | src/corrections/distance.cpp:256-291 | A source is refused for itself exactly when its distance is negative or, for hypocentral corrections, its depth out of range. |
| `Distance.Distance.EpicentralIgnoresDepth` | src/corrections/distance.cpp:256-291 | An epicentral correction does not look at the depth. |
| `Distance.Distance.CorrectedExactlyWithinTable` | src/corrections/distance.cpp:104-108 | A distance is corrected exactly when it lies between two distances of the table as it was given, in whatever order. |
| `Distance.Distance.HypocentralDecidedBySquares` | src/corrections/distance.cpp:271-285 | Hypocentral too close, too far and corrected are decided by comparing squares, whatever hypot computes as long as it is Euclidean. |
| `Distance.Distance.MirroredDepthSameCorrection` | src/corrections/distance.cpp:277-285 | Mirroring the depth in the datum does not change the result. |
| `Distance.Distance.SourceAtDatumIsEpicentral` | src/corrections/distance.cpp:277-290 | At the datum a hypocentral correction is the epicentral one. |
| `Distance.Distance.TooFarAndTooCloseAreMonotone` | src/corrections/distance.cpp:238-245 | Too far is kept when epicentral distance or depth below the datum grow, too close when they shrink. |
| `Distance.Distance.LinearCorrectionIsLipschitz` | src/corrections/distance.cpp:226-291 | Within the table a linearly interpolated correction changes, squared, by no more than the steepest slope squared times the squared change of source position, for both distance types. |
| `Distance.Distance.OnlyRangeErrors` | src/corrections/distance.cpp:260-291 | With a non-negative distance and a depth in range the only errors are too close and too far. |
| `Identifiers.RemoveBlanks` | src/corrections/stationIdentifier.cpp:20-26 | Removing blanks in place leaves the kept characters, in order, at the front. |
| `Identifiers.RemoveBlanksAndCapitalize` | src/corrections/stationIdentifier.cpp:16-33 | The edits in place amount to dropping blanks and then capitalizing. |
| `Identifiers.NormalizedIffUnchanged` | src/magnitude/streamIdentifier.cpp:16-33 | What is stored has no blanks and no small letters, and exactly such text is left alone. |
| `Identifiers.NormalizeIsIdempotent` | src/corrections/stationIdentifier.cpp:16-33 | Normalizing twice is normalizing once. |
| `Identifiers.NormalFormDecidesSpelling` | src/corrections/stationIdentifier.cpp:16-33 | Two texts get the same normal form exactly when one is the other with blanks put in or taken out and letters' case changed. |
| `Identifiers.BlankExactlyWhen` | src/corrections/stationIdentifier.cpp:16-33 | A code is blank, and refused, exactly when it has only the six blanks of the classic locale. |
| `Identifiers.CapitalsAre` | src/corrections/stationIdentifier.cpp:16-33 | Capitals are those of the English alphabet, and nothing else is changed. |
| `Identifiers.StationIdentifierImpl.ToString` | src/corrections/stationIdentifier.cpp:165-171 | Network, period, station; throws when either is missing. |
| `Identifiers.StationIdentifier.SetNetwork` | src/corrections/stationIdentifier.cpp:121-129 | Stores the normal form; a blank network is refused and changes nothing. |
| `Identifiers.StationIdentifier.SetStation` | src/corrections/stationIdentifier.cpp:143-151 | Stores the normal form; a blank station is refused and changes nothing. |
| `Identifiers.StreamIdentifierImpl.ToString` | src/magnitude/streamIdentifier.cpp:205-219 | The stream's name, without a trailing period for a blank location code; throws when a part is missing. |
| `Identifiers.StreamIdentifierImpl.ToStationIdentifier` | src/corrections/stationIdentifier.cpp:50-65 | Building a station identifier from a stream, which normalizes again, keeps its codes and cannot fail on a complete stream. |
| `Identifiers.StreamIdentifier.SetLocationCode` | src/magnitude/streamIdentifier.cpp:185-190 | Stores the normal form, blank or not. |
| `Identifiers.StationNameRoundTrip` | src/corrections/stationIdentifier.cpp:165-171 | With a period-free network, splitting a name at its first period recovers both codes. |
| `Identifiers.NamesAgreeExactlyWhen` | src/corrections/stationIdentifier.cpp:165-171 | Two stations have one name exactly when they are the same or split it at different periods; with period-free networks, exactly when they are the same. |
| `Identifiers.NameIsSharedExactlyWhen` | src/corrections/stationIdentifier.cpp:121-171 | Some other station the setters can produce has a station's name exactly when its network has a period after the first character or its station code one before the last. |
| `Identifiers.DottedStationsCanShareAName` | src/corrections/stationIdentifier.cpp:121-151 | An example of two different stations that share a name. |
| `Identifiers.StreamNamesDifferByChannel` | src/magnitude/observation.cpp:155-176 | Streams of one station and location differ in name exactly when their channels differ. |
| `Identifiers.StreamNameSplits` | src/magnitude/streamIdentifier.cpp:205-219 | A stream's name splits at its periods into its codes in order, if those have none. |
| `Amplitudes.Amplitude.SetValue` | src/magnitude/amplitude.cpp:104-115 | Accepts exactly positive values; a rejected one changes nothing. |
| `Amplitudes.Amplitude.SetIdentifier` | src/magnitude/amplitude.cpp:138-158 | Accepts exactly complete identifiers; a rejected one changes nothing. |
| `Amplitudes.StreamFromMessage` | src/magnitude/streamIdentifier.cpp:66-96 | A message makes a stream exactly when its network, station and channel are there and not blank. |
| `Amplitudes.AmplitudeFromMessage` | src/magnitude/amplitude.cpp:41-82 | A message makes an amplitude, in millimeters, exactly when stream, positive value and a known unit are there. |
| `Amplitudes.UnitsConvert` | src/magnitude/amplitude.cpp:58-78 | A centimeter is ten millimeters and a meter a hundred centimeters. |
| `Amplitudes.AmplitudeRoundTrip` | src/magnitude/amplitude.cpp:186-201 | A complete amplitude survives being sent and received. |
| `Observations.Observation.SetAmplitudes` | src/magnitude/observation.cpp:133-190 | Accepts a pair exactly when both are complete, of one station and location, on channels of equal length that differ in the last letter only; a rejected pair changes nothing. |
| `Observations.Observation.SetEpicentralDistance` | src/magnitude/observation.cpp:226-243 | Accepts exactly [0, 21000000]; a rejected distance changes nothing. |
| `Observations.Observation.SetDepth` | src/magnitude/observation.cpp:260-272 | Accepts exactly [-8600, 900000]; a rejected depth changes nothing. |
| `Observations.RunsKeepObservationsSound` | src/magnitude/observation.cpp:126-286 | After any sequence of setter calls the amplitudes are compatible and credited to their station, and distance and depth are in range. |
| `Observations.RunsKeepTheLastAcceptedValues` | src/magnitude/observation.cpp:126-286 | After any sequence of setter calls an observation holds what the last accepted call of each setter gave it; rejected calls leave no trace. |
| `Observations.AcceptanceIsSymmetric` | src/magnitude/observation.cpp:133-190 | Swapping the two amplitudes changes neither acceptance nor the station's name. |
| `Magnitudes.StationMagnitude.SetAmplitudes` | src/magnitude/stationMagnitude.cpp:149-165 | Accepts exactly what an observation accepts and names the same station; a rejected pair changes nothing. |
| `Magnitudes.Residual.SetStationMagnitude` | src/magnitude/residual.cpp:85-105 | Accepts exactly complete station magnitudes. |
| `Magnitudes.NetworkMagnitude.SetValue` | src/magnitude/networkMagnitude.cpp:76-84 | Accepts exactly [-10, 10]; a rejected value changes nothing. |
| `Magnitudes.NetworkMagnitude.SetResiduals` | src/magnitude/networkMagnitude.cpp:101-129 | Accepts exactly non-empty lists of complete, positively numbered residuals and stores them unchanged. |
| `Magnitudes.NetworkMagnitude.SetRejectedObservations` | src/magnitude/networkMagnitude.cpp:165-186 | Accepts exactly positively numbered rejections and stores them unchanged. |
| `Magnitudes.ToRejectedObservationsMessage` | src/magnitude/networkMagnitude.cpp:207-301 | One message for every rejection, in order, with its number and the reason its code stands for; the unspecified reason never survives. |
| `Magnitudes.ReasonsMean` | src/magnitude/networkMagnitude.cpp:231-293 | Each reason stands for exactly the code it is named after, invalid amplitudes for missing ones, and none is unspecified. |
| `Stations.StationsSet.Insert` | src/corrections/stationsSet.cpp:75-98 | Stores a station under its name unless one is there and overwriting is off, tells whether it did, and keeps every key its station's name. |
| `Stations.StationsSet.GetCorrection` | src/corrections/stationsSet.cpp:107-117 | Finds what is stored under a name; the blank name is never stored. |
| `Stations.RunsAreKeyedByName` | src/corrections/stationsSet.cpp:75-98 | After any run of insertions every key is its station's name. |
| `Stations.StoredIffInserted` | src/corrections/stationsSet.cpp:75-98 | A name is stored exactly when some call inserted it. |
| `Stations.DecidingCallIsStored` | src/corrections/stationsSet.cpp:75-98 | After any run the last overwriting call of a name decides or, if none overwrites, the first call. |
| `Stations.ParseStation` | src/corrections/stationsSet.cpp:162-200 | An entry makes a station exactly when it has two tokens with one period in the first or three tokens, codes that are not blank, and a correction that is a number to its last character. |
| `Stations.EntryGivesCorrection` | src/corrections/stationsSet.cpp:167-193 | An entry in either form, with codes that are not blank and a number to its last character, gives the station of those codes that correction. |
| `Stations.OtherEntriesAreRefused` | src/corrections/stationsSet.cpp:167-193 | No entry of another form is well formed. |
| `Stations.FromInitializationFile` | src/corrections/stationsSet.cpp:144-217 | The loader succeeds exactly when the entries before the first gap are well formed and name different stations, and then holds exactly their corrections. |
| `StationCalculators.StationMagnitudeCalculator.Create` | src/magnitude/stationMagnitudeCalculator.cpp:31-46 | A calculator is constructed exactly from an initialized station and an initialized correction. |
| `StationCalculators.StationMagnitudeCalculator.GetDistanceCorrection` | src/magnitude/stationMagnitudeCalculator.cpp:171-221 | The distance correction, or its error translated; the catch-all error is out of reach. |
| `StationCalculators.StationMagnitudeCalculator.DistanceErrorsExactlyWhen` | src/magnitude/stationMagnitudeCalculator.cpp:170-221 | Each error of a distance correction is returned exactly for the sources it is named after. |
| `StationCalculators.StationMagnitudeCalculator.GetStationCorrection` | src/magnitude/stationMagnitudeCalculator.cpp:223-244 | The station's correction; its own errors are out of reach once initialized. |
| `StationCalculators.StationMagnitudeCalculator.Apply` | src/magnitude/stationMagnitudeCalculator.cpp:91-169 | The magnitude and its parts, or the first error in order; no setter called can throw, guarded or not. |
| `StationCalculators.StationMagnitudeCalculator.MagnitudeFollowsFormula` | src/magnitude/stationMagnitudeCalculator.cpp:125-154 | A magnitude is log10 of a quarter of the amplitudes' sum plus the distance correction plus the station's. |
| `StationCalculators.StationMagnitudeCalculator.ChecksInOrder` | src/magnitude/stationMagnitudeCalculator.cpp:91-124 | Each earlier error is returned exactly when its own check is the first to fail. |
| `StationCalculators.StationMagnitudeCalculator.OnlyRangeErrors` | src/magnitude/stationMagnitudeCalculator.cpp:91-221 | For an observation of this station that lacks nothing the only errors are too close and too far. |
| `StationCalculators.StationMagnitudeCalculator.SwappedChannelsSameMagnitude` | src/magnitude/stationMagnitudeCalculator.cpp:127-154 | Swapping the channels changes neither the outcome nor the magnitude. |
| `StationCalculators.ScalingShiftsMagnitude` | src/magnitude/stationMagnitudeCalculator.cpp:127-154 | Scaling both amplitudes shifts the magnitude by the logarithm of the factor and never changes whether there is one. |
| `StationCalculators.LogOfPowerOfTen` | src/magnitude/stationMagnitudeCalculator.cpp:152 | For every integer k, log10 of 10 to the k is k. |
| `NetworkAverages.ResidualsAreTheAccepted` | src/magnitude/networkMagnitudeCalculator.cpp:421-433 | A numbered residual is listed exactly when that observation has a magnitude, and carries it. |
| `NetworkAverages.RejectionsAreTheOthers` | src/magnitude/networkMagnitudeCalculator.cpp:434-439 | A numbered rejection is listed exactly when that observation has none, with its reason. |
| `NetworkAverages.NumbersPartitionTheInput` | src/magnitude/networkMagnitudeCalculator.cpp:343-356 | The two lists of numbers are increasing and partition 1..n. |
| `NetworkAverages.ResidualsSumToZeroOnlyAtMean` | src/magnitude/networkMagnitudeCalculator.cpp:394-428 | Residuals about a value sum to zero exactly when it is the mean. |
| `NetworkAverages.MeanIsBetween` | src/magnitude/networkMagnitudeCalculator.cpp:372-394 | The mean lies between any bounds of the magnitudes. |
| `NetworkAverages.MeanMinimizesSquares` | src/magnitude/networkMagnitudeCalculator.cpp:372-394 | The mean alone has the least sum of squared residuals. |
| `NetworkAverages.RearrangedOutcomesSameSum` | src/magnitude/networkMagnitudeCalculator.cpp:372-389 | Rearranging the observations keeps the sum and number of accepted magnitudes. |
| `NetworkCalculators.NetworkMagnitudeCalculatorOptions.SetDistanceCorrections` | src/magnitude/networkMagnitudeCalculatorOptions.cpp:77-87 | Accepts exactly initialized corrections. |
| `NetworkCalculators.NetworkMagnitudeCalculatorOptions.SetStationCorrections` | src/magnitude/networkMagnitudeCalculatorOptions.cpp:116-125 | Accepts exactly non-empty sets. |
| `NetworkCalculators.NetworkMagnitudeCalculatorOptions.SetMinimumNumberOfStationMagnitudes` | src/magnitude/networkMagnitudeCalculatorOptions.cpp:142-150 | Accepts exactly positive minimums. |
| `NetworkCalculators.NetworkMagnitudeCalculator.Create` | src/magnitude/networkMagnitudeCalculator.cpp:41-103 | A calculator is constructed exactly from options with both corrections, with one station calculator per correction under the station's own name and depths required exactly for hypocentral corrections. |
| `NetworkCalculators.NetworkMagnitudeCalculator.GetStationCorrection` | src/magnitude/networkMagnitudeCalculator.cpp:184-217 | The correction of a named station if it has one; the other exceptions are out of reach. |
| `NetworkCalculators.NetworkMagnitudeCalculator.ComputeStationMagnitude` | src/magnitude/networkMagnitudeCalculator.cpp:223-291 | The station's outcome: a magnitude or the first error in order. |
| `NetworkCalculators.NetworkMagnitudeCalculator.CheckObservations` | src/magnitude/networkMagnitudeCalculator.cpp:306-321 | The loop reports what the first incomplete observation misses first, and nothing when all are complete. |
| `NetworkCalculators.NetworkMagnitudeCalculator.HasDuplicateStations` | src/magnitude/networkMagnitudeCalculator.cpp:322-330 | Inserting names into a set finds a repeated station exactly when two observations share a name. |
| `NetworkCalculators.NetworkMagnitudeCalculator.ComputeWorkItems` | src/magnitude/networkMagnitudeCalculator.cpp:343-356 | One work item for every observation, in order, numbered from 1, with that observation's outcome. |
| `NetworkCalculators.CountAndSum` | src/magnitude/networkMagnitudeCalculator.cpp:372-389 | The loop counts and sums exactly the accepted magnitudes. |
| `NetworkCalculators.Tabulate` | src/magnitude/networkMagnitudeCalculator.cpp:408-440 | The loop lists the residuals and the rejections in input order; setting a residual never throws. |
| `NetworkCalculators.Package` | src/magnitude/networkMagnitudeCalculator.cpp:394-443 | The algorithm error exactly for a value out of range; no later setter throws. |
| `NetworkCalculators.NetworkMagnitudeCalculator.Apply` | src/magnitude/networkMagnitudeCalculator.cpp:294-444 | The whole operator: its result is given by completeness, distinct stations and the list of accepted magnitudes alone, so the early test of the number of observations changes nothing. |
| `NetworkTheorems.CompleteObservationOutcome` | src/magnitude/networkMagnitudeCalculator.cpp:223-291 | A complete observation has a magnitude exactly when its station has a correction and its distance is within the table; it is then log10 of half the average amplitude plus both corrections. Otherwise the one of three reasons that applies is given. |
| `NetworkTheorems.StationMagnitudeFormula` | src/magnitude/networkMagnitudeCalculator.cpp:223-291 | A station magnitude is log10 of a quarter of the amplitudes' sum plus the correction of its station and of the table at its distance. |
| `NetworkTheorems.IncompleteObservationOutcome` | src/magnitude/networkMagnitudeCalculator.cpp:228-250 | An incomplete observation fails for the first thing it lacks. |
| `NetworkTheorems.OnlyThreeRejectionReasons` | src/magnitude/networkMagnitude.cpp:224-297 | On success every rejection is for no correction, too close or too far, and so is the reason a client is told. |
| `NetworkTheorems.RejectionReasonsAreRight` | src/magnitude/networkMagnitude.cpp:224-297 | On success a client's reason is no station correction, too close or too far exactly when the observation's station has none, or its distance is below or above the table. |
| `NetworkTheorems.SucceedsExactlyWhen` | src/magnitude/networkMagnitudeCalculator.cpp:298-407 | A network magnitude exists exactly when the list is non-empty, complete, without repeated stations, at least the minimum are usable and their mean is in [-10, 10]; it is that mean. |
| `NetworkTheorems.MissingDataErrors` | src/magnitude/networkMagnitudeCalculator.cpp:306-321 | Each error for missing data is returned exactly when the first incomplete observation lacks that, and has what is checked before it. |
| `NetworkTheorems.ErrorsInOrder` | src/magnitude/networkMagnitudeCalculator.cpp:298-407 | Each other error is returned exactly when the earlier checks pass and its own fails; the algorithm error exactly when the mean is out of range. |
| `NetworkTheorems.ResidualsBalance` | src/magnitude/networkMagnitudeCalculator.cpp:408-440 | On success the residuals sum to zero and each station magnitude plus its residual is the network value. |
| `NetworkTheorems.NetworkValueIsBestFit` | src/magnitude/networkMagnitudeCalculator.cpp:372-394 | On success no other value has as small a sum of squared residuals, and the value lies between the smallest and largest accepted magnitudes. |
| `NetworkTheorems.NumbersTieBackToObservations` | src/magnitude/networkMagnitudeCalculator.cpp:343-442 | On success the numbers of residuals and rejections partition 1..n in increasing order, and number k carries the outcome of observation k. |
| `NetworkTheorems.OrderDoesNotMatter` | src/magnitude/networkMagnitudeCalculator.cpp:294-444 | Rearranging the observations changes neither whether there is a magnitude, nor its value, nor, but for order and numbers, its residuals and reasons; nor the error if all incomplete observations lack the same. |
| `NetworkTheorems.SameErrorInEveryOrderExactlyWhen` | src/magnitude/networkMagnitudeCalculator.cpp:306-321 | A list that fails gives the same error in every order exactly when all its incomplete observations lack the same, in the order of the checks. |
| `NetworkTheorems.OrderDecidesWhichIsMissing` | src/magnitude/networkMagnitudeCalculator.cpp:306-321 | Of any two incomplete observations, the first is the one whose lack is reported. |
| `NetworkStability.RejectedObservationIsInert` | src/magnitude/networkMagnitudeCalculator.cpp:343-442 | A complete observation of a new station that is rejected, put anywhere, changes neither success nor value nor residuals; later numbers shift by one and it is listed with its reason. |
| `NetworkStability.ChangedAmplitudes` | src/magnitude/networkMagnitudeCalculator.cpp:372-394 | Moving one accepted magnitude by delta moves the value of n stations by delta / n, or fails with the algorithm error exactly if that is out of range. |
| `NetworkStability.ScalingByPowerOfTen` | testing/magnitude/networkMagnitudeCalculator.cpp:489-498 | Scaling one accepted station's amplitudes by 10 to any integer k moves the network value of n stations by k / n. |
| `NetworkStability.SwappedChannelsSameNetworkValue` | src/magnitude/stationMagnitudeCalculator.cpp:127-154 | Swapping the channels of any observation of any list leaves the error, or the value, the residuals' values and the rejections, as they were. |
| `Requests.Longitude` | src/corrections/hypocenter.cpp:110-120 | A longitude is brought into [0, 360) by whole turns. |
| `Requests.LongitudeIsUnique` | src/corrections/hypocenter.cpp:116-117 | It is the only longitude in [0, 360) that is whole turns away. |
| `Requests.ObservationFromMeasurement` | src/magnitude/observation.cpp:56-93 | The observation of a measurement, or what is thrown; only the geodesic library can throw anything but an invalid argument. |
| `Requests.MeasurementDecides` | src/magnitude/observation.cpp:55-93 | Which measurements are observations, what those take from them, and that only the geodesic library throws anything but an invalid argument. |
| `Requests.DescribedObservationsAreComplete` | src/magnitude/observation.cpp:56-93 | An observation from a message is sound and lacks nothing. |
| `Requests.StationFromMessage` | src/corrections/stationIdentifier.cpp:68-84 | A message names a station exactly when network and station are there and not blank. |
| `Metrics.OnlyOneCountMoves` | src/metrics/singleton.cpp:17-101 | Incrementing one counter of one route moves no other count; a blank route is not counted. |
| `Metrics.Singleton.IncrementSuccessCounter` | src/metrics/singleton.cpp:17-30 | One more success of the route, starting from none. |
| `Metrics.Singleton.IncrementUnauthenticatedCounter` | src/metrics/singleton.cpp:38-51 | One more unauthenticated request of the route, starting from none. |
| `Metrics.Singleton.IncrementServerErrorCounter` | src/metrics/singleton.cpp:60-73 | One more server error of the route, starting from none. |
| `Metrics.Singleton.IncrementClientErrorCounter` | src/metrics/singleton.cpp:82-95 | One more client error of the route, starting from none. |
| `Accounting.ScriptsAre` | src/grpc/magnitudeService.cpp:127-343 | An accepted request only finishes with OK; a refused one counts its error and then finishes with the status that goes with it. |
| `Accounting.RunsBalance` | src/grpc/magnitudeService.cpp:127-390 | After every step of every interleaving, for every route, successes counted plus those awaiting OnDone are the OK statuses, and each kind of error counted is that kind reported plus that kind about to be reported. |
| `Accounting.CountersBalanceFinishCalls` | src/grpc/magnitudeService.cpp:401-577 | At every moment the four counters of a route plus successes awaiting OnDone are its Finish calls plus errors counted but not yet reported. |
| `Accounting.CountersAreFinishCalls` | src/grpc/magnitudeService.cpp:127-390 | Whenever no constructor is between counting and finishing, the four counters plus successes awaiting OnDone are exactly the Finish calls. |
| `Accounting.EveryRequestIsCountedOnce` | src/grpc/magnitudeService.cpp:588-739 | Once all requests are done, each counter of a route is the number of that route's requests that ended with its status, and the four add up to all of the route's requests. |
| `Accounting.FinishedExactlyOnce` | src/grpc/magnitudeService.cpp:127-343 | In every interleaving each reactor calls Finish at most once, and exactly once by the end of its constructor. |
| `Accounting.EveryFinishIsItsReactors` | src/grpc/magnitudeService.cpp:127-343 | Every Finish call carries its own reactor's route and its reply's status. |
| `MagnitudeService.ValidateClient` | src/grpc/validateClient.hpp:10-23 | The scan accepts exactly the right token, or anyone when the token is blank. |
| `MagnitudeService.AuthorizedExactlyWhen` | src/grpc/validateClient.hpp:10-23 | A missing or blank token serves anyone; any other must be among the metadata. |
| `MagnitudeService.RequestReactor.Refuse` | src/grpc/magnitudeService.cpp:245-247 | An error is counted once, on the reactor's route, and then reported with its status. |
| `MagnitudeService.RequestReactor.OnDone` | src/grpc/magnitudeService.cpp:345-363 | Once the constructor has given its reply, counts a success exactly for an accepted request. |
| `MagnitudeService.ConstructorThenOnDoneIsARun` | src/grpc/magnitudeService.cpp:345-363 | A constructor followed by OnDone is a run of the accounting after any other run: the same metrics, one finished reactor and one Finish call more. |
| `MagnitudeService.PackObservations` | src/grpc/magnitudeService.cpp:182-218 | All observations in order, or what the first bad measurement throws. |
| `MagnitudeService.ObservedExactlyWhen` | src/grpc/magnitudeService.cpp:182-218 | Measurements unpack exactly when each is an observation, to those in order; else the first bad one decides what is thrown. |
| `MagnitudeService.NetworkResponse.Fill` | src/grpc/magnitudeService.cpp:258-282 | The response carries the value, every residual and every rejection, in order; no message conversion can throw. |
| `MagnitudeService.ComputeNetworkMagnitudeFromAmplitudes` | src/grpc/magnitudeService.cpp:130-343 | What the reactor counts and finishes with is its reply's script, and an accepted request's response carries the network magnitude of its observations. |
| `MagnitudeService.ComputeStationMagnitudesFromAmplitudes` | src/grpc/magnitudeService.cpp:404-530 | As above; an accepted request's response holds the magnitudes of exactly the observations that have one, in order. |
| `MagnitudeService.GetStationCorrections` | src/grpc/magnitudeService.cpp:591-695 | As above; an accepted request's response answers every station with its correction or the word that there is none, and no server error is ever counted. |
| `MagnitudeService.ErrorsThatReachTheService` | src/grpc/magnitudeService.cpp:284-336 | Of the calculator's errors only duplicates, too few observations and the algorithm error can reach the service. |
| `MagnitudeService.NetworkRequestOutcome` | src/grpc/magnitudeService.cpp:243-343 | Once a request's observations unpack, it is accepted exactly when stations are distinct, enough are usable and their mean is in range; it is a server error exactly when only the mean is out of range. |
| `MagnitudeService.BadRequestsAreRefused` | src/grpc/magnitudeService.cpp:130-236 | Both magnitude requests are unauthenticated exactly when unauthorized, the client's error when the hypocenter is missing or malformed or the first bad measurement is invalid, and the server's when that throws anything else. |
| `MagnitudeService.StationRequestOutcome` | src/grpc/magnitudeService.cpp:404-530 | A station magnitudes request is accepted exactly when it unpacks, and is the server's error only for what the geodesic library throws. |
| `MagnitudeService.ReasonsToldToClients` | src/grpc/magnitudeService.cpp:272-282 | A client is told of no reason but a missing correction and a station too close or too far. |
| `MagnitudeService.ClientsAreToldTheRightReason` | src/grpc/magnitudeService.cpp:272-282 | Every rejection in a response has the number of its observation and the reason that applies to it. |
| `MagnitudeService.ResponseTiesBackToRequest` | src/grpc/magnitudeService.cpp:258-271 | Each station's line in a response carries the number of an observation of the station it names; its amplitudes read back as those observed, its magnitude and corrections are that observation's, and magnitude plus residual is the network value. |
| `MagnitudeService.AddStationMagnitudes` | src/grpc/magnitudeService.cpp:452-500 | The loop adds the magnitude of every observation that has one, in order, up to the first bad measurement, whose exception it returns. |
| `MagnitudeService.StationMessagesInOrder` | src/grpc/magnitudeService.cpp:452-472 | An observation anywhere adds its message between those before and after it, or nothing. |
| `MagnitudeService.StationMessageTells` | src/magnitude/stationMagnitude.cpp:193-214 | What is sent of a station magnitude reads back, each number in its own field. |
| `MagnitudeService.SpellingDoesNotMatter` | src/grpc/magnitudeService.cpp:637-640 | Spelling a station with other blanks and letter case asks for the same correction. |
| `Configuration.Configure` | src/programOptions.hpp:66-99 | The calculator exists exactly when the minimum is positive, the strategy is the average and both sections load; it is then valid, holds the file's tables, interpolation, distance type and datum, and needs depths exactly for hypocentral corrections. |
| `Configuration.DistanceRowsAreReadBack` | src/corrections/distanceOptions.cpp:287-323 | A configured correction at a row's distance is the row's. |
| `Configuration.StationRowsAreReadBack` | src/corrections/stationsSet.cpp:144-217 | A configured calculator has, for every station row, that correction under that station's name. |
| `Packets.ReversedBytesReadBackwards` | src/waveformProcessing/packet.cpp:53-54 | Reversed bytes read most significant first are the bytes read least significant first. |
| `Packets.SampleIndependentOfHost` | src/waveformProcessing/packet.cpp:198 | Reversing exactly on a big-endian host reads the same sample on every host. |
| `Packets.ExpectedSizeIs` | src/waveformProcessing/packet.cpp:35 | The expected size is size times count, except for 2^31 or more 32 bit samples, where no data has it. |
| `Packets.HugeCountIsMiscast` | src/waveformProcessing/packet.cpp:35 | 2^31 samples of 4 bytes are expected to take some other size. |
| `Packets.Unpack` | src/waveformProcessing/packet.cpp:21-69 | Accepts exactly non-empty data of size times count bytes with fewer than 2^31 samples if they are 32 bit, and reads every block as the host does. |
| `Packets.Packet.SetData` | src/waveformProcessing/packet.cpp:192-202 | Sample i is the little-endian two's complement integer of block i on every host; refused data changes nothing. |
| `Packets.SampleIsInjective` | src/waveformProcessing/packet.cpp:42-46 | A sample determines its bytes. |
| `Packets.SamplesDetermineData` | src/waveformProcessing/packet.cpp:48-67 | The samples determine the data. |
| `Packets.EncodedSampleReadsBack` | src/waveformProcessing/packet.cpp:48-67 | Every integer of the type, encoded least significant byte first, reads back. |
| `Packets.SampleOfFourBytes` | src/waveformProcessing/packet.cpp:48-67 | Four bytes as a sample, by place value and sign. |

## Left out

- Floating-point rounding, infinities and NaN: all numbers are finite reals, so a station correction is
  finite even though its setter does not check, and the setters that throw only on numbers that are
  not finite do not throw.
- DistanceTables.Sort: its contract is what std::sort promises; its own steps are those of an insertion sort.
- Packets.Unpack: the conversion of a 64 bit integer to double, which may round, is not modelled; samples
  are integers. Unpacking of float and double is not modelled, because it needs the IEEE 754 format.
- Packet times and sampling rates.
- Metrics.Singleton.IncrementSuccessCounter: counters are unbounded integers, not 64 bit ones, and so are the others.
- Lists of 2^31 or more observations, where an observation's number would overflow an int.
- The geodesic computation (GeographicLib is not part of this model).
- Reading files, trimming entries and splitting them into tokens; the loaders start from the tokens.
- The identifier and version in a response, route durations, and the texts of errors and log messages.
- Server start and stop, TLS, OpenTelemetry, gRPC and protobuf mechanics, and their options.
- `src/waveformProcessing/streamIdentifier.cpp` and `src/corrections/stations.cpp`: the one repeats
  the magnitude stream identifier, the other wraps the stations set.
- Copying, moving and getters of values that are set.
