/** src/corrections/distanceOptions.cpp: the distance correction options and their loader. */
module DistanceOptions {
  import opened Results
  import opened Identifiers
  import opened Interpolation
  import opened DistanceTables
  import opened Rearrangements
  import opened TableEntries

  datatype InterpolationType = Nearest | Linear

  datatype DistanceType = Epicentral | Hypocentral

  predicate DatumInRange(datum: real) {
    -10000.0 <= datum <= 8600.0
  }

  /** What a copy of the options carries. */
  datatype DistanceOptionsImpl = DistanceOptionsImpl(
    corrections: seq<Entry>, interpolation: InterpolationType, distanceType: DistanceType,
    datum: real, haveCorrections: bool, hasInterpolation: bool, hasType: bool)
  {
    predicate Valid() {
      && DatumInRange(datum)
      && (haveCorrections ==> Acceptable(corrections) && IncreasingByDistance(corrections))
    }
  }

  class DistanceOptions {
    var impl: DistanceOptionsImpl

    constructor ()
      ensures impl == DistanceOptionsImpl([], Nearest, Epicentral, 0.0, false, false, false) && impl.Valid()
    {
      impl := DistanceOptionsImpl([], Nearest, Epicentral, 0.0, false, false, false);
    }

    method SetInterpolation(interpolation: InterpolationType)
      requires impl.Valid()
      modifies this
      ensures impl.Valid() && impl == old(impl).(interpolation := interpolation, hasInterpolation := true)
    {
      impl := impl.(interpolation := interpolation, hasInterpolation := true);
    }

    method SetType(distanceType: DistanceType)
      requires impl.Valid()
      modifies this
      ensures impl.Valid() && impl == old(impl).(distanceType := distanceType, hasType := true)
    {
      impl := impl.(distanceType := distanceType, hasType := true);
    }

    method SetDatum(datum: real) returns (r: Outcome)
      requires impl.Valid()
      modifies this
      ensures impl.Valid()
      ensures r == if -10000.0 <= datum <= 8600.0 then Pass else Throw(InvalidArgument)
      ensures impl == if r.Pass? then old(impl).(datum := datum) else old(impl)
    {
      if datum < -10000.0 || datum > 8600.0 {
        return Throw(InvalidArgument);
      }
      impl := impl.(datum := datum);
      return Pass;
    }

    /** Accepts a table exactly when it is non-empty, has no negative distance and every
        two entries, not just sorted neighbours, are apart; a rejected table changes
        nothing. */
    method SetCorrections(corrections: seq<Entry>) returns (r: Outcome)
      requires impl.Valid()
      modifies this
      ensures impl.Valid()
      ensures r == if Acceptable(corrections) then Pass else Throw(InvalidArgument)
      ensures r.Pass? <==>
        && corrections != [] && (forall entry :: entry in corrections ==> entry.distance >= 0.0)
        && forall i, j :: 0 <= i < j < |corrections| ==>
          || corrections[i].distance + 0.1 <= corrections[j].distance
          || corrections[j].distance + 0.1 <= corrections[i].distance
      ensures r.Throw? ==> impl == old(impl)
      ensures r.Pass? ==> StoredFor(impl.corrections, corrections)
      ensures r.Pass? ==> impl == old(impl).(corrections := impl.corrections, haveCorrections := true)
    {
      if |corrections| == 0 {
        return Throw(InvalidArgument);
      }
      var negative := HasNegativeDistance(corrections);
      if negative {
        return Throw(InvalidArgument);
      }
      var sorted := Sort(corrections);
      SameLength(sorted, corrections);
      NeighboursDecidePairs(sorted);
      var i := 0;
      while i < |sorted| - 1
        invariant 0 <= i < |sorted|
        invariant forall k :: 0 < k <= i ==> Abs(sorted[k - 1].distance - sorted[k].distance) >= TOLERANCE
      {
        if Abs(sorted[i].distance - sorted[i + 1].distance) < TOLERANCE {
          RejectedByNeighbours(sorted, corrections, i + 1);
          return Throw(InvalidArgument);
        }
        i := i + 1;
      }
      SortedTableIsAcceptable(sorted, corrections);
      impl := impl.(corrections := sorted, haveCorrections := true);
      return Pass;
    }
  }

  /** std::ranges::any_of with a negative distance. */
  method HasNegativeDistance(corrections: seq<Entry>) returns (negative: bool)
    ensures negative <==> !NoNegativeDistance(corrections)
  {
    for i := 0 to |corrections|
      invariant forall k :: 0 <= k < i ==> corrections[k].distance >= 0.0
    {
      if corrections[i].distance < 0.0 {
        return true;
      }
    }
    return false;
  }

  lemma {:induction false} RejectedByNeighbours(sorted: seq<Entry>, corrections: seq<Entry>, i: nat)
    requires SortedByDistance(sorted) && multiset(sorted) == multiset(corrections)
    requires 0 < i < |sorted| && Abs(sorted[i - 1].distance - sorted[i].distance) < TOLERANCE
    ensures !Acceptable(corrections)
  {
    if Acceptable(corrections) {
      AcceptableIgnoresOrder(corrections, sorted);
    }
  }

  lemma {:induction false} SortedTableIsAcceptable(sorted: seq<Entry>, corrections: seq<Entry>)
    requires |corrections| > 0 && NoNegativeDistance(corrections)
    requires multiset(sorted) == multiset(corrections) && SortedByDistance(sorted) && PairwiseApart(sorted)
    ensures Acceptable(corrections) && StoredFor(sorted, corrections)
  {
    SameLength(sorted, corrections);
    forall i | 0 <= i < |sorted| ensures sorted[i].distance >= 0.0 {
      assert sorted[i] in multiset(corrections);
    }
    AcceptableIgnoresOrder(sorted, corrections);
    ApartSortedIsIncreasing(sorted);
  }

  // ------------------------------------------------------------------ loader

  function ToLower(s: string): string {
    seq(|s|, i requires 0 <= i < |s| => if 'A' <= s[i] <= 'Z' then s[i] - 'A' + 'a' else s[i])
  }

  /** The lower case of a text is its only spelling without capitals. */
  lemma {:induction false} LowerCaseIs(s: string)
    ensures Capitalized(ToLower(s)) == Capitalized(s)
    ensures forall i :: 0 <= i < |ToLower(s)| ==> ToLower(s)[i] !in UPPER
  {
  }

  /** One row of the table: exactly two tokens, both starting with a number. */
  function ParseRow(tokens: Tokens, stod: NumberParser): Expected<Entry, Exception> {
    if |tokens| != 2 then Unexpected(InvalidArgument)
    else if stod(tokens[0]).Unexpected? then Unexpected(stod(tokens[0]).error)
    else if stod(tokens[1]).Unexpected? then Unexpected(stod(tokens[1]).error)
    else Value(Entry(stod(tokens[0]).value.0, stod(tokens[1]).value.0))
  }

  ghost predicate RowsParse(rows: seq<Tokens>, stod: NumberParser) {
    forall i :: 0 <= i < |rows| ==> ParseRow(rows[i], stod).Value?
  }

  ghost function Table(rows: seq<Tokens>, stod: NumberParser): seq<Entry>
    requires RowsParse(rows, stod)
  {
    seq(|rows|, i requires 0 <= i < |rows| => ParseRow(rows[i], stod).value)
  }

  /** The entry has the distance in the row's first token and the correction in its second. */
  ghost predicate EntryOfRow(entry: Entry, tokens: Tokens, stod: NumberParser) {
    && |tokens| == 2 && stod(tokens[0]).Value? && stod(tokens[1]).Value?
    && entry.distance == stod(tokens[0]).value.0 && entry.correction == stod(tokens[1]).value.0
  }

  /** A row is read exactly when it has two tokens that start with numbers. */
  lemma {:induction false} RowIsReadExactlyWhen(tokens: Tokens, stod: NumberParser)
    ensures ParseRow(tokens, stod).Value? <==> |tokens| == 2 && stod(tokens[0]).Value? && stod(tokens[1]).Value?
    ensures ParseRow(tokens, stod).Value? ==> EntryOfRow(ParseRow(tokens, stod).value, tokens, stod)
  {
  }

  method ReadRow(tokens: Tokens, stod: NumberParser) returns (r: Expected<Entry, Exception>)
    ensures r == ParseRow(tokens, stod)
  {
    if |tokens| != 2 {
      return Unexpected(InvalidArgument);
    }
    var distance := stod(tokens[0]);
    if distance.Unexpected? {
      return Unexpected(distance.error);
    }
    var value := stod(tokens[1]);
    if value.Unexpected? {
      return Unexpected(value.error);
    }
    return Value(Entry(distance.value.0, value.value.0));
  }

  /** The table loop of the loader. */
  method ReadTable(entries: map<nat, Tokens>, stod: NumberParser) returns (r: Expected<seq<Entry>, Exception>)
    ensures r.Value? <==> RowsParse(EntriesRead(entries), stod)
    ensures r.Value? ==> r.value == Table(EntriesRead(entries), stod)
    ensures r.Value? ==> forall i :: 0 <= i < |EntriesRead(entries)| ==>
      EntryOfRow(r.value[i], EntriesRead(entries)[i], stod)
  {
    hide ParseRow, EntriesRead;
    ghost var rows := EntriesRead(entries);
    NextEntryRead(entries, 1);
    var corrections: seq<Entry> := [];
    var i := 1;
    while i < ENTRY_LIMIT
      invariant 1 <= i <= |rows| + 1 && |corrections| == i - 1
      invariant forall k :: 0 <= k < i - 1 ==> ParseRow(rows[k], stod) == Value(corrections[k])
    {
      NextEntryRead(entries, i);
      if i in entries {
        var row := ReadRow(entries[i], stod);
        if row.Unexpected? {
          return Unexpected(row.error);
        }
        corrections := corrections + [row.value];
      } else {
        break;
      }
      i := i + 1;
    }
    forall k | 0 <= k < |rows| ensures EntryOfRow(corrections[k], rows[k], stod) {
      RowIsReadExactlyWhen(rows[k], stod);
    }
    return Value(corrections);
  }

  /** The names the interpolation and distance type entries may have, in any letter case. */
  predicate KnownNames(interpolation: Option<string>, distanceType: Option<string>) {
    && interpolation.Some? && ToLower(interpolation.value) in {"linear", "nearest"}
    && distanceType.Some? && ToLower(distanceType.value) in {"epicentral", "hypocentral"}
  }

  /** fromInitializationFile once the file's entries are looked up. It succeeds exactly when
      both names are known, a hypocentral datum is in range, every row before the first gap
      parses and their table is acceptable. */
  method FromInitializationFile(interpolation: Option<string>, distanceType: Option<string>, datum: Option<real>,
      entries: map<nat, Tokens>, stod: NumberParser)
    returns (r: Expected<DistanceOptionsImpl, Exception>)
    ensures r.Value? <==>
      && KnownNames(interpolation, distanceType)
      && (ToLower(distanceType.value) == "hypocentral" && datum.Some? ==> DatumInRange(datum.value))
      && RowsParse(EntriesRead(entries), stod)
      && Acceptable(Table(EntriesRead(entries), stod))
    ensures r.Value? ==>
      && r.value.Valid() && r.value.haveCorrections && r.value.hasInterpolation && r.value.hasType
      && StoredFor(r.value.corrections, Table(EntriesRead(entries), stod))
      && (r.value.interpolation == Linear <==> ToLower(interpolation.value) == "linear")
      && (r.value.distanceType == Hypocentral <==> ToLower(distanceType.value) == "hypocentral")
      && r.value.datum == if r.value.distanceType == Hypocentral && datum.Some? then datum.value else 0.0
  {
    var options := new DistanceOptions();
    if interpolation.None? {
      return Unexpected(InvalidArgument);
    }
    var interpolationName := ToLower(interpolation.value);
    if interpolationName == "linear" {
      options.SetInterpolation(Linear);
    } else if interpolationName == "nearest" {
      options.SetInterpolation(Nearest);
    } else {
      return Unexpected(InvalidArgument);
    }
    if distanceType.None? {
      return Unexpected(InvalidArgument);
    }
    var typeName := ToLower(distanceType.value);
    if typeName == "epicentral" {
      options.SetType(Epicentral);
    } else if typeName == "hypocentral" {
      options.SetType(Hypocentral);
    } else {
      return Unexpected(InvalidArgument);
    }
    if options.impl.distanceType == Hypocentral {
      var result := options.SetDatum(if datum.Some? then datum.value else options.impl.datum);
      if result.Throw? {
        return Unexpected(result.exception);
      }
    }
    var table := ReadTable(entries, stod);
    if table.Unexpected? {
      return Unexpected(table.error);
    }
    var result := options.SetCorrections(table.value);
    if result.Throw? {
      return Unexpected(result.exception);
    }
    return Value(options.impl);
  }
}
