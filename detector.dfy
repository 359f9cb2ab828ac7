/**
 * The crossing detector of src/main.rs (`records_to_border_crossings`): one
 * forward pass over timestamp-ordered records that emits a crossing whenever
 * the observed location gains a region, and a synthetic missing-data crossing
 * one day after any record that is followed by a gap of a day or more.
 */
module Detector {
  import opened Wrappers
  import opened Sequences
  import opened Data

  /** One day, in the seconds timestamps count. */
  const DAY: int := 86400

  /** The synthetic crossing into "no data" at time `t`. */
  function MissingDataCrossing(t: int): BorderCrossing {
    BorderCrossing(t, {MissingData})
  }

  /** The last crossing emitted so far carries the missing-data marker. */
  predicate EndsWithMissingData(crossings: seq<BorderCrossing>) {
    |crossings| > 0 && MissingData in crossings[|crossings| - 1].newRegions
  }

  /** `record` lies in a region that `prev` does not: their region-set difference is non-empty. */
  predicate GainsRegion(record: Record, prev: Record, regionsOf: RegionsOf) {
    |regionsOf(record) - regionsOf(prev)| > 0
  }

  /** Gaining a region means the new region set is not contained in the old one. */
  lemma {:induction false} GainsRegionIffNotSubset(record: Record, prev: Record, regionsOf: RegionsOf)
    ensures GainsRegion(record, prev, regionsOf) <==> !(regionsOf(record) <= regionsOf(prev))
  {
    var diff := regionsOf(record) - regionsOf(prev);
    if |diff| == 0 {
      forall x | x in regionsOf(record) ensures x in regionsOf(prev) {
        assert x !in diff;
      }
    } else {
      var x :| x in diff;
    }
  }

  /** The crossings after the gap check for `record`, which follows `prev`. */
  function WithGap(crossings: seq<BorderCrossing>, prev: Record, record: Record): seq<BorderCrossing> {
    if record.timestamp - prev.timestamp >= DAY
    then crossings + [MissingDataCrossing(prev.timestamp + DAY)]
    else crossings
  }

  /**
   * The crossings after the pass has handled `record`, given those emitted
   * before it and the record handled just before it, if any.
   */
  function Step(crossings: seq<BorderCrossing>, maybePrev: Option<Record>, record: Record, regionsOf: RegionsOf)
    : seq<BorderCrossing>
  {
    match maybePrev
    case None => crossings + [CrossingFrom(record, regionsOf)]
    case Some(prev) =>
      var withGap := WithGap(crossings, prev, record);
      if GainsRegion(record, prev, regionsOf) || EndsWithMissingData(withGap)
      then withGap + [CrossingFrom(record, regionsOf)]
      else withGap
  }

  /** The crossings the pass emits for `records`. */
  function Detect(records: seq<Record>, regionsOf: RegionsOf): seq<BorderCrossing>
    decreases |records|
  {
    if records == [] then []
    else
      var n := |records| - 1;
      Step(Detect(records[..n], regionsOf), if n == 0 then None else Some(records[n - 1]), records[n], regionsOf)
  }

  /** The records are in non-decreasing timestamp order. */
  ghost predicate Sorted(records: seq<Record>) {
    SortedBy(records, RecordTime)
  }

  /**
   * The detector. It requires the records in timestamp order, as its callers
   * sort them first, and returns crossings in timestamp order.
   */
  method RecordsToBorderCrossings(records: seq<Record>, regionsOf: RegionsOf) returns (crossings: seq<BorderCrossing>)
    requires Sorted(records)
    ensures crossings == Detect(records, regionsOf)
    ensures SortedBy(crossings, CrossingTime)
  {
    crossings := [];
    var maybePrev: Option<Record> := None;
    var i := 0;
    while i < |records|
      invariant i <= |records|
      invariant crossings == Detect(records[..i], regionsOf)
      invariant maybePrev == if i == 0 then None else Some(records[i - 1])
    {
      var record := records[i];
      crossings := HandleRecord(crossings, maybePrev, record, regionsOf);
      DetectPrefixStep(records, regionsOf, i);
      maybePrev := Some(record);
      i := i + 1;
    }
    assert records[..|records|] == records;
    DetectSorted(records, regionsOf);
  }

  /**
   * One iteration of the detector's loop: the gap check against the previous
   * record, then the crossing for `record` when it gains a region or follows
   * a missing-data crossing; the first record always gives a crossing.
   */
  method HandleRecord(crossings: seq<BorderCrossing>, maybePrev: Option<Record>, record: Record, regionsOf: RegionsOf)
    returns (updated: seq<BorderCrossing>)
    ensures updated == Step(crossings, maybePrev, record, regionsOf)
  {
    updated := crossings;
    match maybePrev {
      case Some(prev) =>
        var interval := record.timestamp - prev.timestamp;
        if interval >= DAY {
          updated := updated + [BorderCrossing(prev.timestamp + DAY, {MissingData})];
        }
        assert updated == WithGap(crossings, prev, record);
        var locationDiff := regionsOf(record) - regionsOf(prev);
        if |locationDiff| > 0 ||
           (|updated| > 0 && MissingData in updated[|updated| - 1].newRegions)
        {
          updated := updated + [CrossingFrom(record, regionsOf)];
        }
      case None =>
        updated := updated + [CrossingFrom(record, regionsOf)];
    }
  }

  /** Handling record `i` turns the crossings of the records before it into those up to it. */
  lemma {:induction false} DetectPrefixStep(records: seq<Record>, regionsOf: RegionsOf, i: nat)
    requires i < |records|
    ensures Detect(records[..i + 1], regionsOf) ==
      Step(Detect(records[..i], regionsOf), if i == 0 then None else Some(records[i - 1]), records[i], regionsOf)
  {
    assert records[..i + 1][..i] == records[..i];
  }

  /**
   * The last crossing emitted for a non-empty input is a real one: it never
   * carries the missing-data marker, because a missing-data crossing is always
   * followed by a crossing for the record after the gap.
   */
  lemma {:induction false} LastIsReal(records: seq<Record>, regionsOf: RegionsOf)
    requires |records| > 0
    ensures |Detect(records, regionsOf)| > 0
    ensures !EndsWithMissingData(Detect(records, regionsOf))
    decreases |records|
  {
    var n := |records| - 1;
    if n > 0 {
      LastIsReal(records[..n], regionsOf);
    }
  }

  /**
   * What handling record `i` (not the first) appends: after a gap of at least
   * a day, a missing-data crossing at the previous record's time plus a day
   * followed by a crossing for record `i`, even when its regions are unchanged;
   * otherwise a crossing for record `i` exactly when it gained a region.
   */
  lemma {:induction false} StepAppends(records: seq<Record>, regionsOf: RegionsOf, i: nat)
    requires 0 < i < |records|
    ensures var prev, record := records[i - 1], records[i];
      var before, after := Detect(records[..i], regionsOf), Detect(records[..i + 1], regionsOf);
      && (record.timestamp - prev.timestamp >= DAY ==>
            after == before + [MissingDataCrossing(prev.timestamp + DAY), CrossingFrom(record, regionsOf)])
      && (record.timestamp - prev.timestamp < DAY ==>
            after == before + if regionsOf(record) <= regionsOf(prev) then []
                              else [CrossingFrom(record, regionsOf)])
  {
    var prefix := records[..i + 1];
    assert prefix[..i] == records[..i];
    assert prefix[i - 1] == records[i - 1] && prefix[i] == records[i];
    var prev, record := records[i - 1], records[i];
    LastIsReal(records[..i], regionsOf);
    GainsRegionIffNotSubset(record, prev, regionsOf);
  }

  /** An empty input gives no crossings; otherwise the first record gives the first crossing. */
  lemma {:induction false} FirstCrossing(records: seq<Record>, regionsOf: RegionsOf)
    ensures records == [] ==> Detect(records, regionsOf) == []
    ensures records != [] ==>
      |Detect(records, regionsOf)| > 0 && Detect(records, regionsOf)[0] == CrossingFrom(records[0], regionsOf)
    decreases |records|
  {
    if |records| > 1 {
      var n := |records| - 1;
      FirstCrossing(records[..n], regionsOf);
      assert records[..n][0] == records[0];
    }
  }

  /** Each record adds at most two crossings, and the first exactly one. */
  lemma {:induction false} DetectLength(records: seq<Record>, regionsOf: RegionsOf)
    ensures records != [] ==> 1 <= |Detect(records, regionsOf)| <= 2 * |records| - 1
    ensures records == [] ==> Detect(records, regionsOf) == []
    decreases |records|
  {
    if |records| > 1 {
      DetectLength(records[..|records| - 1], regionsOf);
    }
  }

  /** The crossings are ordered by time and all lie between `lo` and `hi`. */
  ghost predicate OrderedWithin(crossings: seq<BorderCrossing>, lo: int, hi: int) {
    && SortedBy(crossings, CrossingTime)
    && forall k :: 0 <= k < |crossings| ==> lo <= crossings[k].timestamp <= hi
  }

  /**
   * Ordered crossings up to `mid` followed by ordered crossings from `mid` to
   * `hi` are ordered crossings up to `hi`.
   */
  lemma AppendOrdered(before: seq<BorderCrossing>, tail: seq<BorderCrossing>, lo: int, mid: int, hi: int)
    requires OrderedWithin(before, lo, mid) && OrderedWithin(tail, mid, hi) && lo <= mid <= hi
    ensures OrderedWithin(before + tail, lo, hi)
  {
    var all := before + tail;
    forall k | 0 <= k < |all| ensures lo <= all[k].timestamp <= hi {
      if k < |before| {
        assert all[k] == before[k];
      } else {
        assert all[k] == tail[k - |before|];
      }
    }
    forall k, l | 0 <= k < l < |all| ensures CrossingTime(all[k]) <= CrossingTime(all[l]) {
      if l < |before| {
        assert all[k] == before[k] && all[l] == before[l];
      } else if k < |before| {
        assert all[k] == before[k] && all[l] == tail[l - |before|];
      } else {
        assert all[k] == tail[k - |before|] && all[l] == tail[l - |before|];
      }
    }
  }

  /**
   * For ordered records the crossings are ordered too, and lie between the
   * first and the last record's timestamps.
   */
  lemma {:induction false} DetectSorted(records: seq<Record>, regionsOf: RegionsOf)
    requires Sorted(records)
    ensures SortedBy(Detect(records, regionsOf), CrossingTime)
    ensures records != [] ==>
      OrderedWithin(Detect(records, regionsOf), records[0].timestamp, records[|records| - 1].timestamp)
    decreases |records|
  {
    if |records| == 1 {
      assert Detect(records, regionsOf) == [CrossingFrom(records[0], regionsOf)];
    } else if |records| > 1 {
      var n := |records| - 1;
      var init := records[..n];
      assert Sorted(init) by {
        forall i, j | 0 <= i < j < |init| ensures RecordTime(init[i]) <= RecordTime(init[j]) {
          assert init[i] == records[i] && init[j] == records[j];
        }
      }
      DetectSorted(init, regionsOf);
      assert init[0] == records[0] && init[n - 1] == records[n - 1];
      assert RecordTime(records[0]) <= RecordTime(records[n - 1]) <= RecordTime(records[n]);
      DetectSortedStep(records, regionsOf);
    }
  }

  /** Handling the last record keeps the crossings ordered, up to its timestamp. */
  lemma DetectSortedStep(records: seq<Record>, regionsOf: RegionsOf)
    requires |records| > 1
    requires var n := |records| - 1;
      && records[0].timestamp <= records[n - 1].timestamp <= records[n].timestamp
      && OrderedWithin(Detect(records[..n], regionsOf), records[0].timestamp, records[n - 1].timestamp)
    ensures OrderedWithin(Detect(records, regionsOf), records[0].timestamp, records[|records| - 1].timestamp)
  {
    var n := |records| - 1;
    var prev, record := records[n - 1], records[n];
    var before := Detect(records[..n], regionsOf);
    StepAppends(records, regionsOf, n);
    assert records[..n + 1] == records;
    var tail :=
      if record.timestamp - prev.timestamp >= DAY
      then [MissingDataCrossing(prev.timestamp + DAY), CrossingFrom(record, regionsOf)]
      else if regionsOf(record) <= regionsOf(prev) then []
      else [CrossingFrom(record, regionsOf)];
    assert Detect(records, regionsOf) == before + tail;
    assert OrderedWithin(tail, prev.timestamp, record.timestamp);
    AppendOrdered(before, tail, records[0].timestamp, prev.timestamp, record.timestamp);
  }

  /** `crossing` is the crossing of one of the first `n` records. */
  ghost predicate IsRecordCrossing(records: seq<Record>, n: nat, regionsOf: RegionsOf, crossing: BorderCrossing)
    requires n <= |records|
  {
    exists j :: 0 <= j < n && crossing == CrossingFrom(records[j], regionsOf)
  }

  /**
   * `crossing` is the missing-data crossing one day after a record that the
   * next record, among the first `n`, follows by a day or more.
   */
  ghost predicate IsGapCrossing(records: seq<Record>, n: nat, crossing: BorderCrossing)
    requires n <= |records|
  {
    exists j :: 0 < j < n && records[j].timestamp - records[j - 1].timestamp >= DAY &&
      crossing == MissingDataCrossing(records[j - 1].timestamp + DAY)
  }

  /**
   * Every crossing for the first `n` records is either a record's crossing
   * or a missing-data crossing for a gap between two of those records.
   */
  lemma {:induction false} CrossingOriginsUpTo(records: seq<Record>, n: nat, regionsOf: RegionsOf)
    requires n <= |records|
    ensures forall c :: c in Detect(records[..n], regionsOf) ==>
      IsRecordCrossing(records, n, regionsOf, c) || IsGapCrossing(records, n, c)
    decreases n
  {
    if n > 0 {
      CrossingOriginsUpTo(records, n - 1, regionsOf);
      forall c | c in Detect(records[..n], regionsOf)
        ensures IsRecordCrossing(records, n, regionsOf, c) || IsGapCrossing(records, n, c)
      {
        if c in Detect(records[..n - 1], regionsOf) {
          OriginWidens(records, n - 1, regionsOf, c);
        } else {
          NewCrossingOrigin(records, n, regionsOf, c);
        }
      }
    }
  }

  /** An origin among the first `n` records is an origin among the first `n + 1`. */
  lemma OriginWidens(records: seq<Record>, n: nat, regionsOf: RegionsOf, c: BorderCrossing)
    requires n < |records|
    requires IsRecordCrossing(records, n, regionsOf, c) || IsGapCrossing(records, n, c)
    ensures IsRecordCrossing(records, n + 1, regionsOf, c) || IsGapCrossing(records, n + 1, c)
  {
    if IsRecordCrossing(records, n, regionsOf, c) {
      var j :| 0 <= j < n && c == CrossingFrom(records[j], regionsOf);
      assert 0 <= j < n + 1;
    } else {
      var j :| 0 < j < n && records[j].timestamp - records[j - 1].timestamp >= DAY &&
        c == MissingDataCrossing(records[j - 1].timestamp + DAY);
      assert 0 < j < n + 1;
    }
  }

  /** A crossing that handling record `n - 1` adds is that record's crossing or a gap crossing before it. */
  lemma NewCrossingOrigin(records: seq<Record>, n: nat, regionsOf: RegionsOf, c: BorderCrossing)
    requires 0 < n <= |records|
    requires c in Detect(records[..n], regionsOf) && c !in Detect(records[..n - 1], regionsOf)
    ensures IsRecordCrossing(records, n, regionsOf, c) || IsGapCrossing(records, n, c)
  {
    DetectPrefixStep(records, regionsOf, n - 1);
    if c != CrossingFrom(records[n - 1], regionsOf) {
      assert n > 1 && records[n - 1].timestamp - records[n - 2].timestamp >= DAY;
      assert c == MissingDataCrossing(records[n - 2].timestamp + DAY);
    }
  }

  /**
   * Every crossing is either a record's crossing (its timestamp and full
   * region set) or a missing-data crossing for a gap between two records.
   */
  lemma CrossingOrigins(records: seq<Record>, regionsOf: RegionsOf)
    ensures forall c :: c in Detect(records, regionsOf) ==>
      IsRecordCrossing(records, |records|, regionsOf, c) || IsGapCrossing(records, |records|, c)
  {
    CrossingOriginsUpTo(records, |records|, regionsOf);
    assert records[..|records|] == records;
  }

  /**
   * A detected crossing carries the missing-data marker exactly when its set
   * is the marker alone: stripping crossings that contain the marker and
   * stripping those that equal it are the same on the detector's output.
   */
  lemma {:induction false} MissingDataCrossingsAreExact(records: seq<Record>, regionsOf: RegionsOf)
    ensures forall c :: c in Detect(records, regionsOf) ==>
      (MissingData in c.newRegions <==> c.newRegions == {MissingData})
  {
    CrossingOrigins(records, regionsOf);
  }

  /**
   * Three records in the same regions, at t, t + 2 hours and t + 3 days,
   * give a crossing at t, a missing-data crossing one day after the SECOND
   * record (t + 26 hours), and a crossing back into the same regions at
   * t + 3 days.
   */
  lemma {:induction false} GapThenReentry(r0: Record, r1: Record, r2: Record, regionsOf: RegionsOf)
    requires r1.timestamp == r0.timestamp + 2 * 3600
    requires r2.timestamp == r0.timestamp + 3 * DAY
    requires regionsOf(r1) == regionsOf(r0) == regionsOf(r2)
    ensures Detect([r0, r1, r2], regionsOf) == [
      CrossingFrom(r0, regionsOf),
      MissingDataCrossing(r1.timestamp + DAY),
      CrossingFrom(r2, regionsOf)]
  {
    var records := [r0, r1, r2];
    assert records[..1] == [r0];
    assert records[..2] == [r0, r1];
    StepAppends(records, regionsOf, 1);
    StepAppends(records, regionsOf, 2);
    assert records[..3] == records;
  }

  /**
   * A record, a record in fewer regions a day or more later, and, within the
   * day, a record back in regions the second lacks: a crossing, a
   * missing-data crossing one day after the first record, a crossing for
   * the second record (it follows the missing-data crossing) and one for
   * the third.
   */
  lemma {:induction false} GapIntoFewerRegions(r0: Record, r1: Record, r2: Record, regionsOf: RegionsOf)
    requires r1.timestamp - r0.timestamp >= DAY
    requires r2.timestamp - r1.timestamp < DAY
    requires !(regionsOf(r2) <= regionsOf(r1))
    ensures Detect([r0, r1, r2], regionsOf) == [
      CrossingFrom(r0, regionsOf),
      MissingDataCrossing(r0.timestamp + DAY),
      CrossingFrom(r1, regionsOf),
      CrossingFrom(r2, regionsOf)]
  {
    var records := [r0, r1, r2];
    assert records[..1] == [r0];
    StepAppends(records, regionsOf, 1);
    StepAppends(records, regionsOf, 2);
    assert records[..3] == records;
  }
}
