/** The numbered entries of an initialization file's table, already looked up and split
    into tokens. Both table loaders walk them the same way: from entry 1 upwards, to the
    first number that is missing or to the last 16 bit number but one. */
module TableEntries {
  import opened Results

  type Tokens = seq<string>

  /** std::numeric_limits<uint16_t>::max(), which the loop index never reaches. */
  const ENTRY_LIMIT: nat := 65535

  /** std::stod: the number and how many characters it took, or what it throws. */
  type NumberParser = string -> Expected<(real, nat), Exception>

  /** The entries read from number i on. */
  function EntriesFrom(entries: map<nat, Tokens>, i: nat): seq<Tokens>
    decreases ENTRY_LIMIT - i
  {
    if i < ENTRY_LIMIT && i in entries then [entries[i]] + EntriesFrom(entries, i + 1) else []
  }

  /** The entries a loader reads. */
  function EntriesRead(entries: map<nat, Tokens>): seq<Tokens> {
    EntriesFrom(entries, 1)
  }

  lemma {:induction false} EntriesFromExtent(entries: map<nat, Tokens>, i: nat)
    requires i <= ENTRY_LIMIT
    ensures var n := i + |EntriesFrom(entries, i)|;
      && n <= ENTRY_LIMIT
      && (forall k :: i <= k < n ==> k in entries && EntriesFrom(entries, i)[k - i] == entries[k])
      && (n == ENTRY_LIMIT || n !in entries)
    decreases ENTRY_LIMIT - i
  {
    if i < ENTRY_LIMIT && i in entries {
      EntriesFromExtent(entries, i + 1);
    }
  }

  /** Entries are read in order up to the first gap, at most 65534 of them. */
  lemma {:induction false} EntriesReadStopAtFirstGap(entries: map<nat, Tokens>)
    ensures var read := EntriesRead(entries);
      && |read| <= 65534
      && (forall k :: 0 <= k < |read| ==> k + 1 in entries && read[k] == entries[k + 1])
      && (|read| == 65534 || |read| + 1 !in entries)
  {
    EntriesFromExtent(entries, 1);
    var read := EntriesRead(entries);
    forall k | 0 <= k < |read| ensures k + 1 in entries && read[k] == entries[k + 1] {
      assert read[(k + 1) - 1] == entries[k + 1];
    }
  }

  /** Entry i, when all before it were there. */
  lemma {:induction false} NextEntryRead(entries: map<nat, Tokens>, i: nat)
    requires 1 <= i <= |EntriesRead(entries)| + 1
    ensures |EntriesRead(entries)| < ENTRY_LIMIT
    ensures i < ENTRY_LIMIT ==> (i in entries <==> i <= |EntriesRead(entries)|)
    ensures i in entries && i <= |EntriesRead(entries)| ==> EntriesRead(entries)[i - 1] == entries[i]
  {
    EntriesFromExtent(entries, 1);
    assert i <= |EntriesRead(entries)| ==> EntriesFrom(entries, 1)[i - 1] == entries[i];
  }

  lemma {:induction false} EntriesFromIgnoreLater(entries: map<nat, Tokens>, other: map<nat, Tokens>, i: nat)
    requires i <= ENTRY_LIMIT
    requires var n := i + |EntriesFrom(entries, i)|;
      && (forall k :: i <= k < n && k in entries ==> k in other && other[k] == entries[k])
      && (n < ENTRY_LIMIT ==> n !in other)
    ensures EntriesFrom(entries, i) == EntriesFrom(other, i)
    decreases ENTRY_LIMIT - i
  {
    if i < ENTRY_LIMIT && i in entries {
      EntriesFromIgnoreLater(entries, other, i + 1);
    }
  }

  /** Entries after the first gap have no effect: a file that agrees up to the gap reads
      the same. */
  lemma {:induction false} EntriesAfterGapIgnored(entries: map<nat, Tokens>, other: map<nat, Tokens>)
    requires var n := 1 + |EntriesRead(entries)|;
      && (forall k :: 1 <= k < n && k in entries ==> k in other && other[k] == entries[k])
      && (n < ENTRY_LIMIT ==> n !in other)
    ensures EntriesRead(entries) == EntriesRead(other)
  {
    EntriesFromIgnoreLater(entries, other, 1);
  }
}
