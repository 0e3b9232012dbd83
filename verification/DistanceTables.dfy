/** Sorting a distance correction table, and why checking neighbours checks every pair. */
module DistanceTables {
  import opened Interpolation
  import opened Rearrangements

  /** A distance in meters and the correction there in magnitude units. */
  datatype Entry = Entry(distance: real, correction: real)

  /** Entries nearer than this are "the same spot in practice". */
  const TOLERANCE: real := 0.1

  predicate SortedByDistance(s: seq<Entry>) {
    forall i, j :: 0 <= i < j < |s| ==> s[i].distance <= s[j].distance
  }

  predicate IncreasingByDistance(s: seq<Entry>) {
    forall i, j :: 0 <= i < j < |s| ==> s[i].distance < s[j].distance
  }

  predicate PairwiseApart(s: seq<Entry>) {
    forall i, j :: 0 <= i < j < |s| ==> Abs(s[i].distance - s[j].distance) >= TOLERANCE
  }

  predicate NoNegativeDistance(s: seq<Entry>) {
    forall i :: 0 <= i < |s| ==> s[i].distance >= 0.0
  }

  /** The tables setCorrections is documented to accept. */
  predicate Acceptable(s: seq<Entry>) {
    |s| > 0 && NoNegativeDistance(s) && PairwiseApart(s)
  }

  method InsertSorted(s: seq<Entry>, e: Entry) returns (r: seq<Entry>)
    requires SortedByDistance(s)
    ensures SortedByDistance(r) && multiset(r) == multiset(s) + multiset{e}
  {
    var k := |s|;
    while k > 0 && e.distance < s[k - 1].distance
      invariant 0 <= k <= |s|
      invariant forall j :: k <= j < |s| ==> e.distance < s[j].distance
    {
      k := k - 1;
    }
    SpliceSorted(s, k, e);
    assert s == s[..k] + s[k..];
    r := s[..k] + [e] + s[k..];
  }

  lemma {:induction false} SpliceSorted(s: seq<Entry>, k: nat, e: Entry)
    requires SortedByDistance(s) && k <= |s|
    requires k > 0 ==> s[k - 1].distance <= e.distance
    requires k < |s| ==> e.distance <= s[k].distance
    ensures SortedByDistance(s[..k] + [e] + s[k..])
  {
    var r := s[..k] + [e] + s[k..];
    assert forall i :: 0 <= i < k ==> r[i] == s[i] && r[i].distance <= e.distance;
    assert forall i :: k < i < |r| ==> r[i] == s[i - 1] && e.distance <= r[i].distance;
  }

  /** std::sort on the distances: any ascending rearrangement may be returned. */
  method Sort(s: seq<Entry>) returns (r: seq<Entry>)
    ensures SortedByDistance(r) && multiset(r) == multiset(s)
  {
    r := [];
    for n := 0 to |s|
      invariant SortedByDistance(r) && multiset(r) == multiset(s[..n])
    {
      assert s[..n + 1] == s[..n] + [s[n]];
      r := InsertSorted(r, s[n]);
    }
    assert s[..|s|] == s;
  }

  /** On a sorted table the neighbour check decides the all-pairs property. */
  lemma {:induction false} NeighboursDecidePairs(s: seq<Entry>)
    requires SortedByDistance(s)
    ensures PairwiseApart(s) <==> forall i :: 0 < i < |s| ==> Abs(s[i - 1].distance - s[i].distance) >= TOLERANCE
  {
    if forall i :: 0 < i < |s| ==> Abs(s[i - 1].distance - s[i].distance) >= TOLERANCE {
      forall i, j | 0 <= i < j < |s| ensures Abs(s[i].distance - s[j].distance) >= TOLERANCE {
        assert s[i].distance <= s[j - 1].distance;
        assert Abs(s[j - 1].distance - s[j].distance) >= TOLERANCE;
      }
    }
  }

  lemma {:induction false} ApartEntriesAreSingle(s: seq<Entry>, e: Entry)
    requires PairwiseApart(s)
    ensures multiset(s)[e] <= 1
  {
    if |s| > 0 {
      var last := |s| - 1;
      assert s == s[..last] + [s[last]];
      ApartEntriesAreSingle(s[..last], e);
      assert forall i :: 0 <= i < last ==> Abs(s[i].distance - s[last].distance) >= TOLERANCE;
      assert s[last] !in s[..last];
    }
  }

  /** Acceptance does not depend on the order of the table. */
  lemma {:induction false} AcceptableIgnoresOrder(a: seq<Entry>, b: seq<Entry>)
    requires multiset(a) == multiset(b) && Acceptable(a)
    ensures Acceptable(b)
  {
    SameLength(a, b);
    forall i | 0 <= i < |b| ensures b[i].distance >= 0.0 && b[i] in a {
      assert b[i] in multiset(b);
    }
    forall i, j | 0 <= i < j < |b| ensures Abs(b[i].distance - b[j].distance) >= TOLERANCE {
      if b[i] == b[j] {
        RepeatedCounts(b, i, j);
        ApartEntriesAreSingle(a, b[i]);
      } else {
        var p :| 0 <= p < |a| && a[p] == b[i];
        var q :| 0 <= q < |a| && a[q] == b[j];
        if p < q {
          assert Abs(a[p].distance - a[q].distance) >= TOLERANCE;
        } else {
          assert Abs(a[q].distance - a[p].distance) >= TOLERANCE;
        }
      }
    }
  }

  lemma {:induction false} SameFarthestEntry(a: seq<Entry>, b: seq<Entry>)
    requires |a| == |b| > 0 && multiset(a) == multiset(b) && IncreasingByDistance(a) && IncreasingByDistance(b)
    ensures a[|a| - 1] == b[|b| - 1]
  {
    var n := |a| - 1;
    assert a[n] in multiset(b) && b[n] in multiset(a);
    assert forall i :: 0 <= i < n ==> a[i].distance < a[n].distance && b[i].distance < b[n].distance;
  }

  /** An accepted table has exactly one increasing rearrangement. */
  lemma {:induction false} IncreasingRearrangementIsUnique(a: seq<Entry>, b: seq<Entry>)
    requires multiset(a) == multiset(b) && IncreasingByDistance(a) && IncreasingByDistance(b)
    ensures a == b
  {
    SameLength(a, b);
    if |a| > 0 {
      var n := |a| - 1;
      SameFarthestEntry(a, b);
      SamePrefixEntries(a, b);
      IncreasingRearrangementIsUnique(a[..n], b[..n]);
      assert forall i :: 0 <= i < n ==> a[i] == a[..n][i] == b[..n][i] == b[i];
    }
  }

  lemma {:induction false} SamePrefixEntries(a: seq<Entry>, b: seq<Entry>)
    requires |a| == |b| > 0 && multiset(a) == multiset(b) && a[|a| - 1] == b[|b| - 1]
    ensures multiset(a[..|a| - 1]) == multiset(b[..|b| - 1])
  {
    var n := |a| - 1;
    WithoutOne(a, n);
    WithoutOne(b, n);
    assert a[..n] + a[n + 1..] == a[..n] && b[..n] + b[n + 1..] == b[..n];
  }

  lemma {:induction false} ApartSortedIsIncreasing(s: seq<Entry>)
    requires SortedByDistance(s) && PairwiseApart(s)
    ensures IncreasingByDistance(s)
  {
    forall i, j | 0 <= i < j < |s| ensures s[i].distance < s[j].distance {
      assert Abs(s[i].distance - s[j].distance) >= TOLERANCE;
    }
  }

  /** What an options object holds after accepting a table: its only increasing
      rearrangement, itself acceptable. */
  ghost predicate StoredFor(stored: seq<Entry>, table: seq<Entry>) {
    multiset(stored) == multiset(table) && IncreasingByDistance(stored) && Acceptable(stored)
  }

  /** Any reordering of an accepted table is accepted and stored as the same table. */
  lemma {:induction false} ReorderedTablesStoreTheSame(a: seq<Entry>, b: seq<Entry>, stored: seq<Entry>,
      other: seq<Entry>)
    requires multiset(a) == multiset(b) && Acceptable(a)
    ensures Acceptable(b)
    ensures StoredFor(stored, a) && StoredFor(other, b) ==> stored == other
  {
    AcceptableIgnoresOrder(a, b);
    if StoredFor(stored, a) && StoredFor(other, b) {
      IncreasingRearrangementIsUnique(stored, other);
    }
  }
}
