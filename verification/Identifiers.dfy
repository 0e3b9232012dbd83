/** src/corrections/stationIdentifier.cpp and src/magnitude/streamIdentifier.cpp: names of
    stations and streams, and the normal form their codes are stored in. */
module Identifiers {
  import opened Results

  // ---------------------------------------------------------- normal form

  /** std::isspace in the classic locale. */
  predicate IsSpace(c: char) {
    c == ' ' || 9 as char <= c <= 13 as char
  }

  /** std::toupper in the classic locale. */
  function ToUpper(c: char): char {
    if 'a' <= c <= 'z' then c - 'a' + 'A' else c
  }

  function WithoutBlanks(s: string): string {
    if s == "" then ""
    else if IsSpace(s[0]) then WithoutBlanks(s[1..])
    else [s[0]] + WithoutBlanks(s[1..])
  }

  function Capitalized(s: string): string {
    seq(|s|, i requires 0 <= i < |s| => ToUpper(s[i]))
  }

  /** Blanks removed, then capitalized. */
  function Normalize(s: string): string {
    Capitalized(WithoutBlanks(s))
  }

  predicate Normalized(s: string) {
    forall i :: 0 <= i < |s| ==> !IsSpace(s[i]) && ToUpper(s[i]) == s[i]
  }

  lemma {:induction false} WithoutBlanksAppend(s: string, t: string)
    ensures WithoutBlanks(s + t) == WithoutBlanks(s) + WithoutBlanks(t)
  {
    hide IsSpace;
    if s == "" {
      assert s + t == t;
    } else {
      var rest, kept := s[1..], if IsSpace(s[0]) then "" else [s[0]];
      WithoutBlanksAppend(rest, t);
      assert (s + t)[0] == s[0] && (s + t)[1..] == rest + t;
      assert WithoutBlanks(s) == kept + WithoutBlanks(rest);
      assert WithoutBlanks(s + t) == kept + WithoutBlanks(rest + t);
    }
  }

  /** std::remove_if(isspace): the kept characters move to the front, in order. */
  method RemoveBlanks(text: array<char>) returns (kept: nat)
    modifies text
    ensures kept <= text.Length && text[..kept] == WithoutBlanks(old(text[..]))
  {
    kept := 0;
    for i := 0 to text.Length
      invariant kept <= i
      invariant text[..kept] == WithoutBlanks(old(text[..i]))
      invariant forall k :: i <= k < text.Length ==> text[k] == old(text[k])
    {
      var c := text[i];
      assert old(text[..i + 1]) == old(text[..i]) + [c];
      WithoutBlanksAppend(old(text[..i]), [c]);
      if !IsSpace(c) {
        text[kept] := c;
        kept := kept + 1;
      }
    }
    assert old(text[..text.Length]) == old(text[..]);
  }

  /** The edits in place: erase what remove_if leaves behind, then transform. */
  method RemoveBlanksAndCapitalize(input: string) returns (result: string)
    ensures result == Normalize(input)
  {
    var text := new char[|input|](i requires 0 <= i < |input| => input[i]);
    assert text[..] == input;
    var kept := RemoveBlanks(text);
    ghost var filtered := text[..kept];
    for i := 0 to kept
      invariant forall k :: 0 <= k < i ==> text[k] == ToUpper(filtered[k])
      invariant forall k :: i <= k < kept ==> text[k] == filtered[k]
    {
      text[i] := ToUpper(text[i]);
    }
    result := text[..kept];
  }

  lemma {:induction false} WithoutBlanksHasNone(s: string)
    ensures forall i :: 0 <= i < |WithoutBlanks(s)| ==> !IsSpace(WithoutBlanks(s)[i])
  {
    if s != "" {
      WithoutBlanksHasNone(s[1..]);
    }
  }

  lemma {:induction false} NothingToRemove(s: string)
    requires forall i :: 0 <= i < |s| ==> !IsSpace(s[i])
    ensures WithoutBlanks(s) == s
  {
    if s != "" {
      NothingToRemove(s[1..]);
    }
  }

  /** Stored codes are in normal form, and only those are left alone. */
  lemma {:induction false} NormalizedIffUnchanged(s: string)
    ensures Normalized(Normalize(s))
    ensures Normalized(s) <==> Normalize(s) == s
  {
    WithoutBlanksHasNone(s);
    if Normalized(s) {
      NothingToRemove(s);
    }
  }

  lemma {:induction false} NormalizeIsIdempotent(s: string)
    ensures Normalize(Normalize(s)) == Normalize(s)
  {
    NormalizedIffUnchanged(s);
    NormalizedIffUnchanged(Normalize(s));
  }

  /** t is another spelling of s: it is s with blanks put in or taken out and letters'
      case changed. */
  ghost predicate SameSpelling(s: string, t: string)
    decreases |s| + |t|
  {
    || (s == "" && t == "")
    || (s != "" && IsSpace(s[0]) && SameSpelling(s[1..], t))
    || (t != "" && IsSpace(t[0]) && SameSpelling(s, t[1..]))
    || (s != "" && t != "" && ToUpper(s[0]) == ToUpper(t[0]) && SameSpelling(s[1..], t[1..]))
  }

  lemma {:induction false} NormalizeFirst(s: string)
    requires s != ""
    ensures Normalize(s) == (if IsSpace(s[0]) then "" else [ToUpper(s[0])]) + Normalize(s[1..])
  {
  }

  /** Two spellings get the same normal form exactly when they differ only in blanks and case. */
  lemma {:induction false} NormalFormDecidesSpelling(s: string, t: string)
    ensures SameSpelling(s, t) <==> Normalize(s) == Normalize(t)
    decreases |s| + |t|
  {
    if s != "" {
      NormalizeFirst(s);
      NormalFormDecidesSpelling(s[1..], t);
    }
    if t != "" {
      NormalizeFirst(t);
      NormalFormDecidesSpelling(s, t[1..]);
    }
    if s != "" && t != "" {
      NormalFormDecidesSpelling(s[1..], t[1..]);
      if !IsSpace(s[0]) && !IsSpace(t[0]) && Normalize(s) == Normalize(t) {
        assert Normalize(s)[0] == ToUpper(s[0]) && Normalize(t)[0] == ToUpper(t[0]);
        assert Normalize(s)[1..] == Normalize(s[1..]) && Normalize(t)[1..] == Normalize(t[1..]);
      }
    }
  }

  const SPACES: string := " \t\n\U{000B}\U{000C}\r"
  const LOWER: string := "abcdefghijklmnopqrstuvwxyz"
  const UPPER: string := "ABCDEFGHIJKLMNOPQRSTUVWXYZ"

  /** The classic locale has six blanks. */
  lemma {:induction false} BlanksAre(c: char)
    ensures IsSpace(c) <==> c in SPACES
  {
    assert SPACES == [' ', 9 as char, 10 as char, 11 as char, 12 as char, 13 as char];
  }

  /** It has capitals for the letters of the English alphabet alone. */
  lemma {:induction false} CapitalsAre(c: char, i: nat)
    ensures c !in LOWER ==> ToUpper(c) == c
    ensures i < 26 ==> ToUpper(LOWER[i]) == UPPER[i]
  {
    AlphabetsRun(i);
    if 'a' <= c <= 'z' {
      AlphabetsRun((c - 'a') as int);
      assert LOWER[(c - 'a') as int] == c;
    }
  }

  lemma {:induction false} AlphabetsRun(i: nat)
    ensures i < 26 ==> LOWER[i] == 'a' + i as char && UPPER[i] == 'A' + i as char
  {
  }

  /** A code is blank, and refused, exactly when it has nothing but blanks. */
  lemma {:induction false} BlankExactlyWhen(s: string)
    ensures Normalize(s) == "" <==> forall i :: 0 <= i < |s| ==> s[i] in SPACES
  {
    if s != "" {
      NormalizeFirst(s);
      BlankExactlyWhen(s[1..]);
      BlanksAre(s[0]);
    }
  }

  // ----------------------------------------------------- station identifier

  datatype StationIdentifierImpl = StationIdentifierImpl(network: string, station: string) {

    predicate Valid() {
      Normalized(network) && Normalized(station)
    }

    predicate Complete() {
      network != "" && station != ""
    }

    /** The name of a complete identifier. */
    function Name(): string {
      network + "." + station
    }

    method ToString() returns (r: Expected<string, Exception>)
      ensures r == if Complete() then Value(Name()) else Unexpected(RuntimeError)
    {
      if network == "" {
        return Unexpected(RuntimeError);
      }
      var result := network;
      result := result + ".";
      if station == "" {
        return Unexpected(RuntimeError);
      }
      result := result + station;
      return Value(result);
    }
  }

  class StationIdentifier {
    var impl: StationIdentifierImpl

    constructor ()
      ensures impl == StationIdentifierImpl("", "") && impl.Valid()
    {
      impl := StationIdentifierImpl("", "");
    }

    method SetNetwork(network: string) returns (r: Outcome)
      requires impl.Valid()
      modifies this
      ensures impl.Valid()
      ensures r == if Normalize(network) == "" then Throw(InvalidArgument) else Pass
      ensures impl == if r.Pass? then old(impl).(network := Normalize(network)) else old(impl)
    {
      var code := RemoveBlanksAndCapitalize(network);
      NormalizedIffUnchanged(network);
      if code == "" {
        return Throw(InvalidArgument);
      }
      impl := impl.(network := code);
      return Pass;
    }

    method SetStation(station: string) returns (r: Outcome)
      requires impl.Valid()
      modifies this
      ensures impl.Valid()
      ensures r == if Normalize(station) == "" then Throw(InvalidArgument) else Pass
      ensures impl == if r.Pass? then old(impl).(station := Normalize(station)) else old(impl)
    {
      var code := RemoveBlanksAndCapitalize(station);
      NormalizedIffUnchanged(station);
      if code == "" {
        return Throw(InvalidArgument);
      }
      impl := impl.(station := code);
      return Pass;
    }
  }

  /** The identifier setters, applied to fresh codes: what the loaders and the message
      constructor do. */
  method MakeStationIdentifier(network: string, station: string) returns (r: Expected<StationIdentifierImpl, Exception>)
    ensures r == if Normalize(network) == "" || Normalize(station) == "" then Unexpected(InvalidArgument)
                 else Value(StationIdentifierImpl(Normalize(network), Normalize(station)))
    ensures r.Value? ==> r.value.Valid() && r.value.Complete()
  {
    var identifier := new StationIdentifier();
    var result := identifier.SetNetwork(network);
    if result.Throw? {
      return Unexpected(result.exception);
    }
    result := identifier.SetStation(station);
    if result.Throw? {
      return Unexpected(result.exception);
    }
    return Value(identifier.impl);
  }

  // ------------------------------------------------------ stream identifier

  datatype StreamIdentifierImpl = StreamIdentifierImpl(
    network: string, station: string, channel: string, locationCode: string, hasLocationCode: bool)
  {
    predicate Valid() {
      Normalized(network) && Normalized(station) && Normalized(channel) && Normalized(locationCode)
    }

    predicate Complete() {
      network != "" && station != "" && channel != "" && hasLocationCode
    }

    /** The station's part of the stream's name. */
    function StationName(): string {
      network + "." + station
    }

    /** The name of a complete identifier; a blank location code leaves no trailing dot. */
    function Name(): string {
      StationName() + "." + channel + (if locationCode == "" then "" else "." + locationCode)
    }

    method ToString() returns (r: Expected<string, Exception>)
      ensures r == if Complete() then Value(Name()) else Unexpected(RuntimeError)
    {
      if network == "" || station == "" || channel == "" || !hasLocationCode {
        return Unexpected(RuntimeError);
      }
      var result := network;
      result := result + ".";
      result := result + station;
      result := result + ".";
      result := result + channel;
      if locationCode != "" {
        result := result + ".";
        result := result + locationCode;
      }
      assert result == Name();
      return Value(result);
    }

    /** The station identifier built from a stream identifier normalizes its codes again. */
    method ToStationIdentifier() returns (r: Expected<StationIdentifierImpl, Exception>)
      requires Valid()
      ensures r == if network == "" || station == "" then Unexpected(InvalidArgument)
                   else Value(StationIdentifierImpl(network, station))
    {
      if network == "" || station == "" {
        return Unexpected(InvalidArgument);
      }
      NormalizedIffUnchanged(network);
      NormalizedIffUnchanged(station);
      r := MakeStationIdentifier(network, station);
    }
  }

  class StreamIdentifier {
    var impl: StreamIdentifierImpl

    constructor ()
      ensures impl == StreamIdentifierImpl("", "", "", "", false) && impl.Valid()
    {
      impl := StreamIdentifierImpl("", "", "", "", false);
    }

    method SetNetwork(network: string) returns (r: Outcome)
      requires impl.Valid()
      modifies this
      ensures impl.Valid()
      ensures r == if Normalize(network) == "" then Throw(InvalidArgument) else Pass
      ensures impl == if r.Pass? then old(impl).(network := Normalize(network)) else old(impl)
    {
      var code := RemoveBlanksAndCapitalize(network);
      NormalizedIffUnchanged(network);
      if code == "" {
        return Throw(InvalidArgument);
      }
      impl := impl.(network := code);
      return Pass;
    }

    method SetStation(station: string) returns (r: Outcome)
      requires impl.Valid()
      modifies this
      ensures impl.Valid()
      ensures r == if Normalize(station) == "" then Throw(InvalidArgument) else Pass
      ensures impl == if r.Pass? then old(impl).(station := Normalize(station)) else old(impl)
    {
      var code := RemoveBlanksAndCapitalize(station);
      NormalizedIffUnchanged(station);
      if code == "" {
        return Throw(InvalidArgument);
      }
      impl := impl.(station := code);
      return Pass;
    }

    method SetChannel(channel: string) returns (r: Outcome)
      requires impl.Valid()
      modifies this
      ensures impl.Valid()
      ensures r == if Normalize(channel) == "" then Throw(InvalidArgument) else Pass
      ensures impl == if r.Pass? then old(impl).(channel := Normalize(channel)) else old(impl)
    {
      var code := RemoveBlanksAndCapitalize(channel);
      NormalizedIffUnchanged(channel);
      if code == "" {
        return Throw(InvalidArgument);
      }
      impl := impl.(channel := code);
      return Pass;
    }

    /** A location code may be blank. */
    method SetLocationCode(locationCode: string)
      requires impl.Valid()
      modifies this
      ensures impl.Valid()
      ensures impl == old(impl).(locationCode := Normalize(locationCode), hasLocationCode := true)
    {
      var code := RemoveBlanksAndCapitalize(locationCode);
      NormalizedIffUnchanged(locationCode);
      impl := impl.(locationCode := code, hasLocationCode := true);
    }
  }

  // -------------------------------------------------------------- theorems

  predicate DotFree(s: string) {
    forall i :: 0 <= i < |s| ==> s[i] != '.'
  }

  /** The length of the text before the first dot. */
  function BeforeDot(s: string): (n: nat)
    ensures n <= |s|
  {
    if s == "" || s[0] == '.' then 0 else 1 + BeforeDot(s[1..])
  }

  lemma {:induction false} BeforeDotOfJoin(network: string, rest: string)
    requires DotFree(network)
    ensures BeforeDot(network + "." + rest) == |network|
  {
    var name := network + "." + rest;
    if network != "" {
      BeforeDotOfJoin(network[1..], rest);
      assert name[1..] == network[1..] + "." + rest;
    }
  }

  /** Splitting a station name at its first dot recovers both codes. */
  lemma {:induction false} StationNameRoundTrip(identifier: StationIdentifierImpl)
    requires DotFree(identifier.network)
    ensures var name, n := identifier.Name(), BeforeDot(identifier.Name());
      n < |name| && StationIdentifierImpl(name[..n], name[n + 1..]) == identifier
  {
    BeforeDotOfJoin(identifier.network, identifier.station);
  }

  /** One name split at two of its dots: a's at a later one, with the text in between. */
  ghost predicate SplitLater(a: StationIdentifierImpl, b: StationIdentifierImpl) {
    exists between: string ::
      && a.network == b.network + "." + between
      && b.station == between + "." + a.station
  }

  lemma {:induction false} LongerNetworkSplitsLater(a: StationIdentifierImpl, b: StationIdentifierImpl)
    requires a.Name() == b.Name() && |b.network| < |a.network|
    ensures SplitLater(a, b)
  {
    var name, p, q := a.Name(), |b.network|, |a.network|;
    var between := name[p + 1..q];
    assert name[p] == '.' == name[q];
    assert a.network == name[..q] == name[..p] + [name[p]] + between;
    assert b.station == name[p + 1..] == between + [name[q]] + name[q + 1..];
    assert a.network == b.network + "." + between && b.station == between + "." + a.station;
  }

  /** Two identifiers have one name exactly when they are equal or split it at different dots. So on codes
      without dots, names are different for different stations. */
  lemma {:induction false} NamesAgreeExactlyWhen(a: StationIdentifierImpl, b: StationIdentifierImpl)
    ensures a.Name() == b.Name() <==> a == b || SplitLater(a, b) || SplitLater(b, a)
    ensures DotFree(a.network) && DotFree(b.network) ==> (a.Name() == b.Name() <==> a == b)
  {
    if a.Name() == b.Name() {
      if |b.network| < |a.network| {
        LongerNetworkSplitsLater(a, b);
      } else if |a.network| < |b.network| {
        LongerNetworkSplitsLater(b, a);
      } else {
        assert a.network == a.Name()[..|a.network|] && a.station == a.Name()[|a.network| + 1..];
      }
    }
    if SplitLater(a, b) {
      SplitLaterHasDot(a, b);
    }
    if SplitLater(b, a) {
      SplitLaterHasDot(b, a);
    }
  }

  lemma {:induction false} SplitLaterHasDot(a: StationIdentifierImpl, b: StationIdentifierImpl)
    requires SplitLater(a, b)
    ensures a.Name() == b.Name() && |b.network| < |a.network| && a.network[|b.network|] == '.'
  {
    var between :| a.network == b.network + "." + between && b.station == between + "." + a.station;
    assert a.Name() == b.network + "." + between + "." + a.station == b.Name();
  }

  /** Some other station that the setters can produce has this station's name. */
  ghost predicate NameIsShared(a: StationIdentifierImpl) {
    exists b: StationIdentifierImpl :: b != a && b.Valid() && b.Complete() && b.Name() == a.Name()
  }

  /** A dot in the network after its first character, or in the station before its last. */
  predicate SplitsElsewhere(a: StationIdentifierImpl) {
    || (exists k :: 0 < k < |a.network| && a.network[k] == '.')
    || (exists k :: 0 <= k < |a.station| - 1 && a.station[k] == '.')
  }

  lemma {:induction false} SplitEarlier(a: StationIdentifierImpl, k: nat)
    requires a.Valid() && a.Complete() && 0 < k < |a.network| && a.network[k] == '.'
    ensures NameIsShared(a)
  {
    var b := StationIdentifierImpl(a.network[..k], a.network[k + 1..] + "." + a.station);
    assert a.network == b.network + "." + a.network[k + 1..];
    assert b.Name() == a.Name() && |b.network| != |a.network|;
  }

  lemma {:induction false} SplitInStation(a: StationIdentifierImpl, k: nat)
    requires a.Valid() && a.Complete() && k < |a.station| - 1 && a.station[k] == '.'
    ensures NameIsShared(a)
  {
    var b := StationIdentifierImpl(a.network + "." + a.station[..k], a.station[k + 1..]);
    assert a.station == a.station[..k] + "." + b.station;
    assert b.Name() == a.Name() && |b.network| != |a.network|;
  }

  lemma {:induction false} OtherSplitHasDot(a: StationIdentifierImpl, b: StationIdentifierImpl)
    requires a.Complete() && b.Complete() && b != a && b.Name() == a.Name()
    ensures SplitsElsewhere(a)
  {
    NamesAgreeExactlyWhen(a, b);
    if SplitLater(a, b) {
      SplitLaterHasDot(a, b);
    } else {
      var between :| b.network == a.network + "." + between && a.station == between + "." + b.station;
      assert a.station[|between|] == '.';
    }
  }

  /** A station's name is some other station's too exactly when it has a dot to split it at instead. */
  lemma {:induction false} NameIsSharedExactlyWhen(a: StationIdentifierImpl)
    requires a.Valid() && a.Complete()
    ensures NameIsShared(a) <==> SplitsElsewhere(a)
  {
    if NameIsShared(a) {
      var b: StationIdentifierImpl :| b != a && b.Valid() && b.Complete() && b.Name() == a.Name();
      OtherSplitHasDot(a, b);
    }
    if k :| 0 < k < |a.network| && a.network[k] == '.' {
      SplitEarlier(a, k);
    }
    if k :| 0 <= k < |a.station| - 1 && a.station[k] == '.' {
      SplitInStation(a, k);
    }
  }

  /** boost::split on periods; adjacent periods are not merged. */
  function SplitOnDots(s: string): (parts: seq<string>)
    ensures parts != []
    decreases |s|
  {
    var n := BeforeDot(s);
    if n >= |s| then [s] else [s[..n]] + SplitOnDots(s[n + 1..])
  }

  lemma {:induction false} SplitJoined(first: string, rest: string)
    requires DotFree(first)
    ensures SplitOnDots(first + "." + rest) == [first] + SplitOnDots(rest)
  {
    BeforeDotOfJoin(first, rest);
    assert (first + "." + rest)[..|first|] == first && (first + "." + rest)[|first| + 1..] == rest;
  }

  lemma {:induction false} SplitDotFree(s: string)
    requires DotFree(s)
    ensures SplitOnDots(s) == [s]
  {
    BeforeDotExtent(s);
  }

  lemma {:induction false} BeforeDotExtent(s: string)
    ensures BeforeDot(s) < |s| ==> s[BeforeDot(s)] == '.'
    ensures DotFree(s[..BeforeDot(s)])
  {
    if s != "" && s[0] != '.' {
      BeforeDotExtent(s[1..]);
    }
  }

  lemma {:induction false} SplitInTwo(s: string)
    requires |SplitOnDots(s)| == 2
    ensures var parts := SplitOnDots(s);
      s == parts[0] + "." + parts[1] && DotFree(parts[0]) && DotFree(parts[1])
  {
    BeforeDotExtent(s);
    var rest := s[BeforeDot(s) + 1..];
    BeforeDotExtent(rest);
    assert s == s[..BeforeDot(s)] + [s[BeforeDot(s)]] + rest;
    assert BeforeDot(rest) >= |rest|;
    assert rest[..BeforeDot(rest)] == rest;
  }

  /** A stream's name splits at its periods into its codes, if those have none. */
  lemma {:induction false} StreamNameSplits(s: StreamIdentifierImpl)
    requires DotFree(s.network) && DotFree(s.station) && DotFree(s.channel) && DotFree(s.locationCode)
    ensures SplitOnDots(s.Name()) ==
            [s.network, s.station, s.channel] + (if s.locationCode == "" then [] else [s.locationCode])
  {
    var tail := s.channel + (if s.locationCode == "" then "" else "." + s.locationCode);
    assert s.Name() == s.network + "." + (s.station + "." + tail);
    SplitJoined(s.network, s.station + "." + tail);
    SplitJoined(s.station, tail);
    SplitDotFree(s.locationCode);
    if s.locationCode == "" {
      assert tail == s.channel;
      SplitDotFree(s.channel);
    } else {
      assert tail == s.channel + "." + s.locationCode;
      SplitJoined(s.channel, s.locationCode);
    }
  }

  /** An example: two stations that share a name. */
  lemma {:induction false} DottedStationsCanShareAName() returns (a: StationIdentifierImpl, b: StationIdentifierImpl)
    ensures a != b && a.Valid() && b.Valid() && a.Complete() && b.Complete() && a.Name() == b.Name()
  {
    a := StationIdentifierImpl("U.V", "W");
    b := StationIdentifierImpl("U", "V.W");
    assert a.network != b.network;
    assert a.Name() == "U.V.W" == b.Name();
  }

  /** Streams of one station and location have different names exactly when their channels differ. */
  lemma {:induction false} StreamNamesDifferByChannel(a: StreamIdentifierImpl, b: StreamIdentifierImpl)
    requires a.StationName() == b.StationName() && a.locationCode == b.locationCode
    ensures a.Name() == b.Name() <==> a.channel == b.channel
  {
    if a.Name() == b.Name() {
      var start := |a.StationName()| + 1;
      assert |a.channel| == |b.channel|;
      assert a.Name()[start..start + |a.channel|] == a.channel;
      assert b.Name()[start..start + |b.channel|] == b.channel;
    }
  }
}
