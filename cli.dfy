/**
 * The border-crossings command of src/main.rs (`run_cli`): the stages between
 * reading the records and printing the report. Records from excluded sources
 * are dropped, the rest are put in timestamp order, turned into crossings,
 * optionally stripped of missing-data crossings and of crossings that only
 * change subregions, cleared of crossings that gain no region over their
 * predecessor, and rendered.
 */
module Cli {
  import opened Sequences
  import opened Data
  import opened Retain
  import opened Detector
  import Report

  /** The exclusion test: the record's source is not one of the excluded ones. */
  function NotExcluded(excluded: set<Source>): Record -> bool {
    (r: Record) => r.source !in excluded
  }

  /** The records whose source is not excluded, in their order (`Vec::retain`). */
  function ExcludeSources(records: seq<Record>, excluded: set<Source>): seq<Record> {
    Keep(records, NotExcluded(excluded))
  }

  /**
   * Exactly the records whose source is not excluded remain, each as often as
   * before, in their order.
   */
  lemma {:induction false} ExcludeSourcesSelects(records: seq<Record>, excluded: set<Source>)
    ensures var kept := ExcludeSources(records, excluded);
      && |kept| <= |records|
      && (forall r :: r in kept <==> r in records && r.source !in excluded)
      && (forall r :: multiset(kept)[r] == if r.source !in excluded then multiset(records)[r] else 0)
      && IsSubsequence(kept, records)
  {
    KeepSelects(records, NotExcluded(excluded));
  }

  /** `x` placed into `s` before the first record that is not earlier than it. */
  function InsertByTime(x: Record, s: seq<Record>): (r: seq<Record>)
    ensures multiset(r) == multiset(s) + multiset{x}
    decreases |s|
  {
    if s == [] || x.timestamp <= s[0].timestamp then [x] + s
    else
      assert s == [s[0]] + s[1..];
      [s[0]] + InsertByTime(x, s[1..])
  }

  /**
   * The records in timestamp order. The program sorts with an unstable sort,
   * which may order records with equal timestamps either way; this is one of
   * the orders it may produce.
   */
  function SortByTime(s: seq<Record>): (r: seq<Record>)
    ensures multiset(r) == multiset(s)
    decreases |s|
  {
    if s == [] then []
    else
      assert s == [s[0]] + s[1..];
      InsertByTime(s[0], SortByTime(s[1..]))
  }

  /** Dropping the first record of an ordered sequence leaves it ordered. */
  lemma {:induction false} TailSorted(s: seq<Record>)
    requires s != [] && Sorted(s)
    ensures Sorted(s[1..])
  {
    forall i, j | 0 <= i < j < |s[1..]| ensures RecordTime(s[1..][i]) <= RecordTime(s[1..][j]) {
      assert s[1..][i] == s[i + 1] && s[1..][j] == s[j + 1];
    }
  }

  /** A record no later than every record of an ordered sequence can go in front of it. */
  lemma {:induction false} ConsSorted(head: Record, s: seq<Record>)
    requires Sorted(s)
    requires forall y :: y in s ==> head.timestamp <= y.timestamp
    ensures Sorted([head] + s)
  {
    var r := [head] + s;
    forall i, j | 0 <= i < j < |r| ensures RecordTime(r[i]) <= RecordTime(r[j]) {
      assert r[j] == s[j - 1];
      if i > 0 {
        assert r[i] == s[i - 1];
      } else {
        assert r[j] in s;
      }
    }
  }

  /** Inserting into an ordered sequence keeps it ordered. */
  lemma {:induction false} InsertSorted(x: Record, s: seq<Record>)
    requires Sorted(s)
    ensures Sorted(InsertByTime(x, s))
    decreases |s|
  {
    if s == [] {
    } else if x.timestamp <= s[0].timestamp {
      forall y | y in s ensures x.timestamp <= y.timestamp {
        var k :| 0 <= k < |s| && s[k] == y;
        assert k == 0 || RecordTime(s[0]) <= RecordTime(s[k]);
      }
      ConsSorted(x, s);
    } else {
      var rest := InsertByTime(x, s[1..]);
      TailSorted(s);
      InsertSorted(x, s[1..]);
      forall y | y in rest ensures s[0].timestamp <= y.timestamp {
        assert y in multiset(rest);
        if y != x {
          assert y in multiset(s[1..]);
          var k :| 0 <= k < |s[1..]| && s[1..][k] == y;
          assert s[k + 1] == y;
          assert RecordTime(s[0]) <= RecordTime(s[k + 1]);
        }
      }
      ConsSorted(s[0], rest);
    }
  }

  /** The sort leaves the records in timestamp order, with the same records as before. */
  lemma {:induction false} SortByTimeSorts(s: seq<Record>)
    ensures Sorted(SortByTime(s))
    ensures |SortByTime(s)| == |s|
    ensures forall r :: r in SortByTime(s) <==> r in s
    decreases |s|
  {
    var sorted := SortByTime(s);
    assert |sorted| == |multiset(sorted)| == |multiset(s)| == |s|;
    forall r ensures r in sorted <==> r in s {
      assert r in sorted <==> r in multiset(sorted);
    }
    if s != [] {
      SortByTimeSorts(s[1..]);
      InsertSorted(s[0], SortByTime(s[1..]));
    }
  }

  /** Records already in timestamp order come out of the sort unchanged. */
  lemma {:induction false} SortByTimeOfSorted(s: seq<Record>)
    requires Sorted(s)
    ensures SortByTime(s) == s
    decreases |s|
  {
    if s != [] {
      TailSorted(s);
      SortByTimeOfSorted(s[1..]);
      if |s| > 1 {
        assert RecordTime(s[0]) <= RecordTime(s[1]);
      }
      assert s == [s[0]] + s[1..];
    }
  }

  /**
   * `sorted` is one of the orders `sort_unstable_by_key` may give the kept
   * records: in timestamp order, and the same records as often as before.
   */
  ghost predicate SortsKept(records: seq<Record>, excluded: set<Source>, sorted: seq<Record>) {
    && Sorted(sorted)
    && multiset(sorted) == multiset(ExcludeSources(records, excluded))
  }

  /** The model's sort gives one of those orders. */
  lemma {:induction false} SortByTimeSortsKept(records: seq<Record>, excluded: set<Source>)
    ensures SortsKept(records, excluded, SortByTime(ExcludeSources(records, excluded)))
    ensures |SortByTime(ExcludeSources(records, excluded))| <= |records|
  {
    SortByTimeSorts(ExcludeSources(records, excluded));
    ExcludeSourcesSelects(records, excluded);
  }

  /** Whatever the order, the sorted records are exactly those not excluded. */
  lemma {:induction false} SortsKeptMembers(records: seq<Record>, excluded: set<Source>, sorted: seq<Record>)
    requires SortsKept(records, excluded, sorted)
    ensures forall r :: r in sorted <==> r in records && r.source !in excluded
  {
    var kept := ExcludeSources(records, excluded);
    ExcludeSourcesSelects(records, excluded);
    forall r ensures r in sorted <==> r in kept {
      assert r in sorted <==> r in multiset(sorted);
      assert r in kept <==> r in multiset(kept);
    }
  }

  /** The timestamps strictly increase: no two records share one. */
  ghost predicate StrictlySorted(s: seq<Record>) {
    forall i, j :: 0 <= i < j < |s| ==> s[i].timestamp < s[j].timestamp
  }

  /**
   * When no two records share a timestamp there is only one timestamp order:
   * any ordered arrangement of the same records is that one.
   */
  lemma {:induction false} SortedUnique(a: seq<Record>, b: seq<Record>)
    requires StrictlySorted(a) && Sorted(b) && multiset(a) == multiset(b)
    ensures a == b
    decreases |a|
  {
    assert |a| == |multiset(a)| == |multiset(b)| == |b|;
    if a != [] {
      SameFirst(a, b);
      var restA, restB := a[1..], b[1..];
      SameRest(a, b);
      TailSorted(b);
      StrictTail(a);
      SortedUnique(restA, restB);
      assert a == [a[0]] + restA && b == [b[0]] + restB;
    }
  }

  /** Two sequences with the same first element and the same multiset have the same rest. */
  lemma {:induction false} SameRest(a: seq<Record>, b: seq<Record>)
    requires a != [] && b != [] && a[0] == b[0] && multiset(a) == multiset(b)
    ensures multiset(a[1..]) == multiset(b[1..])
  {
    assert a == [a[0]] + a[1..] && b == [b[0]] + b[1..];
    assert multiset(a) == multiset{a[0]} + multiset(a[1..]);
    assert multiset(b) == multiset{b[0]} + multiset(b[1..]);
    assert multiset(a[1..]) == multiset(a) - multiset{a[0]};
    assert multiset(b[1..]) == multiset(b) - multiset{b[0]};
  }

  /** Dropping the first record keeps the timestamps strictly increasing. */
  lemma {:induction false} StrictTail(a: seq<Record>)
    requires a != [] && StrictlySorted(a)
    ensures StrictlySorted(a[1..])
  {
    forall i, j | 0 <= i < j < |a[1..]| ensures a[1..][i].timestamp < a[1..][j].timestamp {
      assert a[1..][i] == a[i + 1] && a[1..][j] == a[j + 1];
    }
  }

  /** Both arrangements start with the one earliest record. */
  lemma {:induction false} SameFirst(a: seq<Record>, b: seq<Record>)
    requires StrictlySorted(a) && Sorted(b) && multiset(a) == multiset(b) && a != [] && b != []
    ensures a[0] == b[0]
  {
    assert b[0] in multiset(a) && a[0] in multiset(b);
    var k :| 0 <= k < |a| && a[k] == b[0];
    var l :| 0 <= l < |b| && b[l] == a[0];
    assert RecordTime(b[0]) <= RecordTime(b[l]) by {
      if l > 0 {
        assert RecordTime(b[0]) <= RecordTime(b[l]);
      }
    }
  }

  /**
   * Records none of which is excluded and whose timestamps strictly increase
   * are sorted into their own order, whichever order the sort may pick.
   */
  lemma {:induction false} OnlyOrder(records: seq<Record>, excluded: set<Source>, sorted: seq<Record>)
    requires forall i :: 0 <= i < |records| ==> records[i].source !in excluded
    requires StrictlySorted(records)
    requires SortsKept(records, excluded, sorted)
    ensures sorted == records
  {
    KeepAll(records, NotExcluded(excluded));
    SortedUnique(records, sorted);
  }

  /** The crossing does not carry the missing-data marker. */
  predicate HasData(crossing: BorderCrossing) {
    MissingData !in crossing.newRegions
  }

  /** The crossings left once those carrying the missing-data marker are dropped. */
  function StripMissingData(crossings: seq<BorderCrossing>): seq<BorderCrossing> {
    Keep(crossings, HasData)
  }

  /**
   * Exactly the crossings without the missing-data marker remain, each as
   * often as before, in their order.
   */
  lemma {:induction false} StripMissingDataSelects(crossings: seq<BorderCrossing>)
    ensures var kept := StripMissingData(crossings);
      && (forall c :: c in kept <==> c in crossings && MissingData !in c.newRegions)
      && (forall c :: multiset(kept)[c] == if MissingData !in c.newRegions then multiset(crossings)[c] else 0)
      && IsSubsequence(kept, crossings)
  {
    KeepSelects(crossings, HasData);
  }

  /**
   * The subregion filter's test: among the regions `current` has and
   * `previous` does not, at least one is not a subregion.
   */
  predicate AddsNonSubregion(current: BorderCrossing, previous: BorderCrossing) {
    exists r :: r in current.newRegions - previous.newRegions && !IsSubregion(r)
  }

  /** The duplicate filter's test: `current` has a region that `previous` does not. */
  predicate AddsRegion(current: BorderCrossing, previous: BorderCrossing) {
    |current.newRegions - previous.newRegions| > 0
  }

  /**
   * The detector's crossings for the sorted records, optionally stripped of
   * missing-data crossings and of crossings that only change subregions:
   * what the duplicate filter is given.
   */
  function BeforeDedup(
    sorted: seq<Record>, ignoreSubregions: bool, ignoreMissingData: bool, regionsOf: RegionsOf)
    : seq<BorderCrossing>
  {
    var detected := Detect(sorted, regionsOf);
    var present := if ignoreMissingData then StripMissingData(detected) else detected;
    if ignoreSubregions then Retained(present, AddsNonSubregion) else present
  }

  /** The crossings the command reports for the sorted records, stage by stage. */
  function Crossings(
    sorted: seq<Record>, ignoreSubregions: bool, ignoreMissingData: bool, regionsOf: RegionsOf)
    : seq<BorderCrossing>
  {
    Retained(BeforeDedup(sorted, ignoreSubregions, ignoreMissingData, regionsOf), AddsRegion)
  }

  /**
   * The border-crossings command from the parsed records to the report text.
   * A vector's length stays below half the `usize` range, so the detector's
   * at most `2n - 1` crossings fit one.
   */
  method RunBorderCrossings(
    records: seq<Record>, excluded: set<Source>, ignoreSubregions: bool, ignoreMissingData: bool,
    lookup: Lookup, renderTime: int -> string, listing: Report.Listing)
    returns (crossings: seq<BorderCrossing>, report: string)
    requires |records| < USIZE_LIMIT / 2
    ensures SortsKept(records, excluded, SortByTime(ExcludeSources(records, excluded)))
    ensures crossings ==
      Crossings(SortByTime(ExcludeSources(records, excluded)), ignoreSubregions, ignoreMissingData, RecordRegions(lookup))
    ensures report == Report.ReportFrom(crossings, 0, renderTime, listing)
  {
    var kept := ExcludeSources(records, excluded);
    var sorted := SortByTime(kept);
    SortByTimeSortsKept(records, excluded);
    SortByTimeSorts(kept);
    var regionsOf := RecordRegions(lookup);
    crossings := RecordsToBorderCrossings(sorted, regionsOf);
    DetectLength(sorted, regionsOf);
    if ignoreMissingData {
      crossings := StripMissingData(crossings);
      KeepCounts(Detect(sorted, regionsOf), HasData);
    }
    if ignoreSubregions {
      crossings := CompareAndRetain(crossings, AddsNonSubregion);
    }
    crossings := CompareAndRetain(crossings, AddsRegion);
    report := Report.DisplayBorderCrossings(crossings, renderTime, listing);
  }

  /** The command's crossings are a selection, in order, of the detector's. */
  lemma {:induction false} PipelineSelects(
    sorted: seq<Record>, ignoreSubregions: bool, ignoreMissingData: bool, regionsOf: RegionsOf)
    ensures IsSubsequence(Crossings(sorted, ignoreSubregions, ignoreMissingData, regionsOf), Detect(sorted, regionsOf))
  {
    var detected := Detect(sorted, regionsOf);
    var present := if ignoreMissingData then StripMissingData(detected) else detected;
    if ignoreMissingData {
      StripMissingDataSelects(detected);
    } else {
      SubsequenceReflexive(detected);
    }
    var major := BeforeDedup(sorted, ignoreSubregions, ignoreMissingData, regionsOf);
    if ignoreSubregions {
      RetainedIsSubsequence(present, AddsNonSubregion);
      SubsequenceTransitive(major, present, detected);
    }
    var crossings := Retained(major, AddsRegion);
    RetainedIsSubsequence(major, AddsRegion);
    SubsequenceTransitive(crossings, major, detected);
  }

  /** For records in timestamp order, the reported crossings are in timestamp order. */
  lemma {:induction false} PipelineSorted(
    sorted: seq<Record>, ignoreSubregions: bool, ignoreMissingData: bool, regionsOf: RegionsOf)
    requires Sorted(sorted)
    ensures SortedBy(Crossings(sorted, ignoreSubregions, ignoreMissingData, regionsOf), CrossingTime)
  {
    PipelineSelects(sorted, ignoreSubregions, ignoreMissingData, regionsOf);
    DetectSorted(sorted, regionsOf);
    SubsequenceSorted(
      Crossings(sorted, ignoreSubregions, ignoreMissingData, regionsOf), Detect(sorted, regionsOf), CrossingTime);
  }

  /**
   * Every reported crossing is one the detector emitted, and with the
   * missing-data flag none carries the marker.
   */
  lemma {:induction false} PipelineMembers(
    sorted: seq<Record>, ignoreSubregions: bool, ignoreMissingData: bool, regionsOf: RegionsOf)
    ensures forall c :: c in Crossings(sorted, ignoreSubregions, ignoreMissingData, regionsOf) ==>
      && c in Detect(sorted, regionsOf)
      && (ignoreMissingData ==> MissingData !in c.newRegions)
  {
    var detected := Detect(sorted, regionsOf);
    var present := if ignoreMissingData then StripMissingData(detected) else detected;
    if ignoreMissingData {
      StripMissingDataSelects(detected);
    }
    var major := BeforeDedup(sorted, ignoreSubregions, ignoreMissingData, regionsOf);
    var crossings := Retained(major, AddsRegion);
    RetainedIsSubsequence(major, AddsRegion);
    SubsequenceMembers(crossings, major);
    if ignoreSubregions {
      RetainedIsSubsequence(present, AddsNonSubregion);
      SubsequenceMembers(major, present);
    }
    assert forall c :: c in crossings ==> c in present;
  }

  /**
   * Each reported crossing is either the crossing of a record from a source
   * that is not excluded, or a missing-data crossing whose region set is the
   * marker alone; with the missing-data flag there are none of the latter.
   * This holds for every order the sort may give.
   */
  lemma {:induction false} PipelineCrossings(
    records: seq<Record>, excluded: set<Source>, sorted: seq<Record>,
    ignoreSubregions: bool, ignoreMissingData: bool, regionsOf: RegionsOf)
    requires SortsKept(records, excluded, sorted)
    ensures forall c :: c in Crossings(sorted, ignoreSubregions, ignoreMissingData, regionsOf) ==>
      if MissingData in c.newRegions then !ignoreMissingData && c.newRegions == {MissingData}
      else exists r :: r in records && r.source !in excluded && c == CrossingFrom(r, regionsOf)
  {
    var crossings := Crossings(sorted, ignoreSubregions, ignoreMissingData, regionsOf);
    SortsKeptMembers(records, excluded, sorted);
    PipelineMembers(sorted, ignoreSubregions, ignoreMissingData, regionsOf);
    CrossingOrigins(sorted, regionsOf);
    MissingDataCrossingsAreExact(sorted, regionsOf);
    forall c | c in crossings
      ensures if MissingData in c.newRegions then !ignoreMissingData && c.newRegions == {MissingData}
              else exists r :: r in records && r.source !in excluded && c == CrossingFrom(r, regionsOf)
    {
      if MissingData !in c.newRegions && IsRecordCrossing(sorted, |sorted|, regionsOf, c) {
        var j :| 0 <= j < |sorted| && c == CrossingFrom(sorted[j], regionsOf);
        assert sorted[j] in sorted;
      }
    }
  }

  /**
   * The command reports nothing exactly when every record is excluded;
   * otherwise its first crossing is that of an earliest record from a source
   * that is not excluded, whichever filters are on and whichever order the
   * sort gives.
   */
  lemma {:induction false} PipelineFirstCrossing(
    records: seq<Record>, excluded: set<Source>, sorted: seq<Record>,
    ignoreSubregions: bool, ignoreMissingData: bool, regionsOf: RegionsOf)
    requires SortsKept(records, excluded, sorted)
    ensures var crossings := Crossings(sorted, ignoreSubregions, ignoreMissingData, regionsOf);
      && (crossings == [] <==> forall r :: r in records ==> r.source in excluded)
      && (crossings != [] ==>
            exists first :: first in records && first.source !in excluded
              && crossings[0] == CrossingFrom(first, regionsOf)
              && forall r :: r in records && r.source !in excluded ==> first.timestamp <= r.timestamp)
  {
    SortsKeptMembers(records, excluded, sorted);
    var detected := Detect(sorted, regionsOf);
    FirstCrossing(sorted, regionsOf);
    var present := if ignoreMissingData then StripMissingData(detected) else detected;
    if ignoreMissingData {
      KeepIsSubsequence(detected, HasData);
    }
    var major := BeforeDedup(sorted, ignoreSubregions, ignoreMissingData, regionsOf);
    var crossings := Retained(major, AddsRegion);
    RetainedSelects(present, AddsNonSubregion);
    RetainedSelects(major, AddsRegion);
    if sorted == [] {
      assert detected == [];
      forall r | r in records ensures r.source in excluded {
        assert r !in sorted;
      }
    } else {
      var first := sorted[0];
      assert detected[0] == CrossingFrom(first, regionsOf);
      assert present[0] == detected[0];
      assert major[0] == detected[0];
      assert crossings[0] == CrossingFrom(first, regionsOf);
      assert first in sorted;
      forall r | r in records && r.source !in excluded ensures first.timestamp <= r.timestamp {
        assert r in sorted;
        var k :| 0 <= k < |sorted| && sorted[k] == r;
        assert RecordTime(sorted[0]) <= RecordTime(sorted[k]) || k == 0;
      }
      assert first in records && first.source !in excluded;
    }
  }

  /**
   * The subregion filter drops a move between two subregions of the same
   * region and keeps a move into a new region: of {a, x}, {a, y}, {b}, with
   * x and y subregions and a and b not, it keeps {a, x} and {b}.
   */
  lemma {:induction false} SubregionMoveDropped(t0: int, t1: int, t2: int, a: Region, b: Region, x: Region, y: Region)
    requires !IsSubregion(a) && !IsSubregion(b) && IsSubregion(x) && IsSubregion(y)
    requires a != b && x != y
    ensures var crossings := [BorderCrossing(t0, {a, x}), BorderCrossing(t1, {a, y}), BorderCrossing(t2, {b})];
      Retained(crossings, AddsNonSubregion) == [crossings[0], crossings[2]]
  {
    var c0, c1, c2 := BorderCrossing(t0, {a, x}), BorderCrossing(t1, {a, y}), BorderCrossing(t2, {b});
    assert c1.newRegions - c0.newRegions == {y};
    assert !AddsNonSubregion(c1, c0);
    assert b in c2.newRegions - c1.newRegions;
    assert AddsNonSubregion(c2, c1);
    RetainedOfThree(c0, c1, c2, AddsNonSubregion);
  }

  /**
   * The duplicate filter is not idempotent: for crossings into {a, b}, {a},
   * {b}, one pass keeps {a, b}, {b} (as {b} gains b over {a}), and a second
   * pass drops {b} as well.
   */
  lemma {:induction false} DedupNotIdempotent(t0: int, t1: int, t2: int)
    ensures var a, b := UnknownCode("A"), UnknownCode("B");
      var crossings := [BorderCrossing(t0, {a, b}), BorderCrossing(t1, {a}), BorderCrossing(t2, {b})];
      && Retained(crossings, AddsRegion) == [crossings[0], crossings[2]]
      && Retained(Retained(crossings, AddsRegion), AddsRegion) == [crossings[0]]
  {
    var a, b := UnknownCode("A"), UnknownCode("B");
    var c0, c1, c2 := BorderCrossing(t0, {a, b}), BorderCrossing(t1, {a}), BorderCrossing(t2, {b});
    assert c1.newRegions - c0.newRegions == {};
    assert b in c2.newRegions - c1.newRegions;
    assert c2.newRegions - c0.newRegions == {};
    RetainedOfThree(c0, c1, c2, AddsRegion);
    RetainedOfTwo(c0, c2, AddsRegion);
  }

  /**
   * The duplicate filter can leave two neighbouring crossings into the same
   * regions: for {a, b}, {a}, {a, b} it keeps the first and the last, because
   * the last gains b over the dropped {a}.
   */
  lemma {:induction false} DedupLeavesAdjacentDuplicate(t0: int, t1: int, t2: int)
    ensures var a, b := UnknownCode("A"), UnknownCode("B");
      var crossings := [BorderCrossing(t0, {a, b}), BorderCrossing(t1, {a}), BorderCrossing(t2, {a, b})];
      var kept := Retained(crossings, AddsRegion);
      && kept == [crossings[0], crossings[2]]
      && kept[0].newRegions == kept[1].newRegions
  {
    var a, b := UnknownCode("A"), UnknownCode("B");
    var c0, c1, c2 := BorderCrossing(t0, {a, b}), BorderCrossing(t1, {a}), BorderCrossing(t2, {a, b});
    assert c1.newRegions - c0.newRegions == {};
    assert b in c2.newRegions - c1.newRegions;
    RetainedOfThree(c0, c1, c2, AddsRegion);
  }

  /**
   * With the missing-data flag, a day-long gap inside one region leaves a
   * single crossing: the missing-data crossing is dropped and the re-entry,
   * which gains nothing over the first crossing, is dropped as a duplicate.
   * Without the flag all three crossings are reported. (The region set must
   * not be empty: a re-entry into no region gains nothing over the
   * missing-data crossing, and the duplicate filter would drop it.)
   */
  lemma {:induction false} MissingDataIgnored(
    r0: Record, r1: Record, r2: Record, excluded: set<Source>, sorted: seq<Record>, regionsOf: RegionsOf)
    requires r1.timestamp == r0.timestamp + 2 * 3600
    requires r2.timestamp == r0.timestamp + 3 * DAY
    requires regionsOf(r1) == regionsOf(r0) == regionsOf(r2) != {}
    requires r0.source !in excluded && r1.source !in excluded && r2.source !in excluded
    requires SortsKept([r0, r1, r2], excluded, sorted)
    ensures Crossings(sorted, false, true, regionsOf) == [CrossingFrom(r0, regionsOf)]
    ensures Crossings(sorted, false, false, regionsOf) ==
      [CrossingFrom(r0, regionsOf), MissingDataCrossing(r1.timestamp + DAY), CrossingFrom(r2, regionsOf)]
  {
    var records := [r0, r1, r2];
    var c0, c2 := CrossingFrom(r0, regionsOf), CrossingFrom(r2, regionsOf);
    var gap := MissingDataCrossing(r1.timestamp + DAY);
    assert sorted == records by {
      OnlyOrder(records, excluded, sorted);
    }
    assert Detect(records, regionsOf) == [c0, gap, c2] by {
      GapThenReentry(r0, r1, r2, regionsOf);
    }
    FiltersOnGap(c0, gap, c2);
  }

  /**
   * The filters on a crossing, a missing-data crossing and a re-entry into
   * the same non-empty regions: the duplicate filter keeps all three, while
   * stripping the missing-data crossing first lets it drop the re-entry.
   */
  lemma {:induction false} FiltersOnGap(c0: BorderCrossing, gap: BorderCrossing, c2: BorderCrossing)
    requires gap.newRegions == {MissingData}
    requires c2.newRegions == c0.newRegions != {} && MissingData !in c0.newRegions
    ensures Retained([c0, gap, c2], AddsRegion) == [c0, gap, c2]
    ensures Retained(StripMissingData([c0, gap, c2]), AddsRegion) == [c0]
  {
    var detected := [c0, gap, c2];
    assert gap.newRegions - c0.newRegions == {MissingData};
    assert c2.newRegions - gap.newRegions == c2.newRegions;
    assert AddsRegion(gap, c0) && AddsRegion(c2, gap) && !AddsRegion(c2, c0);
    RetainedOfThree(c0, gap, c2, AddsRegion);
    assert detected[1..] == [gap, c2] && detected[1..][1..] == [c2] && [c2][1..] == [];
    assert Keep([c2], HasData) == [c2];
    assert Keep([gap, c2], HasData) == [c2];
    assert HasData(c0);
    assert Keep(detected, HasData) == [c0] + Keep([gap, c2], HasData);
    assert StripMissingData(detected) == [c0, c2];
    RetainedOfTwo(c0, c2, AddsRegion);
  }

  /**
   * The duplicate filter does not do what the comment at src/main.rs:79-82
   * says it is for. With the missing-data flag, records in {A, B}, then two
   * days later in {A} only, then an hour later in {A, B} again are reported
   * as two neighbouring crossings into {A, B}: the crossing into {A} gains
   * nothing over the first and is dropped, and the last gains B over the
   * dropped one. The intended filter reports the first crossing alone.
   */
  lemma {:induction false} StrippedGapLeavesDuplicate(
    r0: Record, r1: Record, r2: Record, excluded: set<Source>, sorted: seq<Record>, regionsOf: RegionsOf)
    requires r1.timestamp == r0.timestamp + 2 * DAY
    requires r2.timestamp == r1.timestamp + 3600
    requires regionsOf(r1) < regionsOf(r0) && regionsOf(r2) == regionsOf(r0)
    requires r0.source !in excluded && r1.source !in excluded && r2.source !in excluded
    requires SortsKept([r0, r1, r2], excluded, sorted)
    ensures var reported := Crossings(sorted, false, true, regionsOf);
      && reported == [CrossingFrom(r0, regionsOf), CrossingFrom(r2, regionsOf)]
      && reported[0].newRegions == reported[1].newRegions
    ensures IntendedCrossings(sorted, false, true, regionsOf) == [CrossingFrom(r0, regionsOf)]
  {
    var records := [r0, r1, r2];
    var c0, c1, c2 := CrossingFrom(r0, regionsOf), CrossingFrom(r1, regionsOf), CrossingFrom(r2, regionsOf);
    var gap := MissingDataCrossing(r0.timestamp + DAY);
    assert sorted == records by {
      OnlyOrder(records, excluded, sorted);
    }
    assert Detect(records, regionsOf) == [c0, gap, c1, c2] by {
      GapIntoFewerRegions(r0, r1, r2, regionsOf);
    }
    FiltersOnFewerRegions(c0, gap, c1, c2);
  }

  /**
   * The filters on a crossing, a missing-data crossing, a crossing into fewer
   * regions and one back into the first regions, with the missing-data flag:
   * the duplicate filter keeps the first and the last, which do not differ,
   * while the intended filter keeps the first alone.
   */
  lemma {:induction false} FiltersOnFewerRegions(
    c0: BorderCrossing, gap: BorderCrossing, c1: BorderCrossing, c2: BorderCrossing)
    requires gap.newRegions == {MissingData}
    requires c1.newRegions < c0.newRegions && c2.newRegions == c0.newRegions
    requires HasData(c0)
    ensures Retained(StripMissingData([c0, gap, c1, c2]), AddsRegion) == [c0, c2]
    ensures RetainedAgainstKept(StripMissingData([c0, gap, c1, c2]), AddsRegion) == [c0]
  {
    assert StripMissingData([c0, gap, c1, c2]) == [c0, c1, c2] by {
      StripGapCrossing(c0, gap, c1, c2);
    }
    assert !AddsRegion(c1, c0) by {
      assert c1.newRegions - c0.newRegions == {};
    }
    assert AddsRegion(c2, c1) by {
      var b :| b in c0.newRegions && b !in c1.newRegions;
      assert b in c2.newRegions - c1.newRegions;
    }
    assert !AddsRegion(c2, c0) by {
      assert c2.newRegions - c0.newRegions == {};
    }
    RetainedOfThree(c0, c1, c2, AddsRegion);
    assert RetainedAgainstKept([c0, c1, c2], AddsRegion) == [c0] by {
      assert [c0, c1, c2][1..] == [c1, c2] && [c1, c2][1..] == [c2] && [c2][1..] == [];
      assert KeptAfter([c2], AddsRegion, c0) == [];
      assert KeptAfter([c1, c2], AddsRegion, c0) == [];
    }
  }

  /** Stripping the missing-data crossing from four crossings, the second being it. */
  lemma {:induction false} StripGapCrossing(
    c0: BorderCrossing, gap: BorderCrossing, c1: BorderCrossing, c2: BorderCrossing)
    requires gap.newRegions == {MissingData}
    requires HasData(c0) && HasData(c1) && HasData(c2)
    ensures StripMissingData([c0, gap, c1, c2]) == [c0, c1, c2]
  {
    var detected := [c0, gap, c1, c2];
    assert detected[1..] == [gap, c1, c2] && detected[1..][1..] == [c1, c2];
    assert [c1, c2][1..] == [c2] && [c2][1..] == [];
    assert Keep([c2], HasData) == [c2];
    assert Keep([c1, c2], HasData) == [c1, c2];
    assert Keep([gap, c1, c2], HasData) == [c1, c2];
  }

  /**
   * The command's crossings with the duplicate filter the comment at
   * src/main.rs:79-82 describes: each crossing is compared with the last
   * crossing kept. No reported crossing then lacks a region its reported
   * predecessor has not got, so no two neighbouring crossings are into the
   * same regions.
   */
  function IntendedCrossings(
    sorted: seq<Record>, ignoreSubregions: bool, ignoreMissingData: bool, regionsOf: RegionsOf)
    : (reported: seq<BorderCrossing>)
    ensures forall i :: 0 < i < |reported| ==>
      AddsRegion(reported[i], reported[i - 1]) && reported[i].newRegions != reported[i - 1].newRegions
    ensures IsSubsequence(reported, BeforeDedup(sorted, ignoreSubregions, ignoreMissingData, regionsOf))
    ensures var before := BeforeDedup(sorted, ignoreSubregions, ignoreMissingData, regionsOf);
      before != [] ==> |reported| > 0 && reported[0] == before[0]
  {
    RetainedAgainstKept(BeforeDedup(sorted, ignoreSubregions, ignoreMissingData, regionsOf), AddsRegion)
  }

  /**
   * The intended filter walks the crossings that reach it in order. It
   * reports the first, and reports each later one exactly when that crossing
   * gains a region over the last crossing reported before it; after the last
   * crossing, what it has reported is the command's report.
   */
  lemma {:induction false} IntendedCrossingsStep(
    sorted: seq<Record>, ignoreSubregions: bool, ignoreMissingData: bool, regionsOf: RegionsOf, n: nat)
    requires n < |BeforeDedup(sorted, ignoreSubregions, ignoreMissingData, regionsOf)|
    ensures var b := BeforeDedup(sorted, ignoreSubregions, ignoreMissingData, regionsOf);
      var so := RetainedAgainstKept(b[..n], AddsRegion);
      && (n == 0 ==> RetainedAgainstKept(b[..1], AddsRegion) == [b[0]])
      && (n > 0 ==>
            && |so| > 0
            && RetainedAgainstKept(b[..n + 1], AddsRegion) ==
                 so + (if AddsRegion(b[n], so[|so| - 1]) then [b[n]] else []))
      && (n + 1 == |b| ==>
            RetainedAgainstKept(b[..n + 1], AddsRegion) ==
              IntendedCrossings(sorted, ignoreSubregions, ignoreMissingData, regionsOf))
  {
    var b := BeforeDedup(sorted, ignoreSubregions, ignoreMissingData, regionsOf);
    assert b[..n + 1] == b[..n] + [b[n]];
    assert b[..|b|] == b;
    RetainedAgainstKeptStep(b[..n], b[n], AddsRegion);
  }
}
