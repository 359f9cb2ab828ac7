/**
 * The report of src/main.rs (`display_border_crossings` and
 * `border_crossing_to_string`): one text block per crossing, giving its time,
 * its regions and the whole days until the next crossing.
 *
 * Two things the program takes from libraries are parameters: `renderTime`
 * formats a timestamp (RFC 2822 in the program), and `listing` walks a
 * region set as a hash set's iterator does: every region exactly once, in an
 * order nothing fixes.
 */
module Report {
  import opened Wrappers
  import opened Sequences
  import opened Data
  import Detector

  /**
   * The whole days from `from` to `to`, rounded toward zero as
   * `TimeDelta::num_days` does: the largest number of days that fits in the
   * interval, with the interval's sign.
   */
  function WholeDays(from: int, to: int): (days: int)
    ensures from <= to ==> 0 <= days && days * Detector.DAY <= to - from < (days + 1) * Detector.DAY
    ensures to < from ==> days <= 0 && -days * Detector.DAY <= from - to < (-days + 1) * Detector.DAY
  {
    if from <= to then (to - from) / Detector.DAY else -((from - to) / Detector.DAY)
  }

  /** The decimal digit for `d`. */
  function Digit(d: nat): char
    requires d < 10
  {
    ('0' as int + d) as char
  }

  /** The value of a decimal digit character. */
  function DigitValue(c: char): nat
    requires '0' <= c <= '9'
  {
    (c as int - '0' as int) as nat
  }

  /** Decimal digits only. */
  predicate IsDigits(s: string) {
    forall i :: 0 <= i < |s| ==> '0' <= s[i] <= '9'
  }

  /**
   * `n` in decimal: a non-empty run of digits without a leading zero (except
   * for zero itself).
   */
  function NatToString(n: nat): (s: string)
    ensures |s| > 0 && IsDigits(s)
    ensures |s| > 1 ==> s[0] != '0'
    decreases n
  {
    if n < 10 then [Digit(n)] else NatToString(n / 10) + [Digit(n % 10)]
  }

  /** The number a run of decimal digits stands for. */
  function ParseNat(s: string): nat
    requires IsDigits(s)
    decreases |s|
  {
    if s == [] then 0 else ParseNat(s[..|s| - 1]) * 10 + DigitValue(s[|s| - 1])
  }

  /** Reading back a number written in decimal gives the number. */
  lemma {:induction false} NatToStringRoundTrip(n: nat)
    ensures ParseNat(NatToString(n)) == n
    decreases n
  {
    var s := NatToString(n);
    if n < 10 {
      assert s[..0] == [];
    } else {
      NatToStringRoundTrip(n / 10);
      assert s[..|s| - 1] == NatToString(n / 10);
    }
  }

  /** `n` as `{n}` formats an integer: a minus sign before the digits of a negative. */
  function IntToString(n: int): (s: string)
    ensures n >= 0 ==> s == NatToString(n)
    ensures n < 0 ==> s == "-" + NatToString(-n)
  {
    if n < 0 then "-" + NatToString(-n) else NatToString(n)
  }

  /** The number an optionally signed decimal stands for, if it is one. */
  function ParseInt(s: string): Option<int> {
    if |s| > 0 && s[0] == '-' && IsDigits(s[1..]) then
      var magnitude: int := ParseNat(s[1..]);
      Some(-magnitude)
    else if IsDigits(s) then Some(ParseNat(s) as int)
    else None
  }

  /** A minus sign before the digits of `m` reads back as `-m`. */
  lemma {:induction false} NegativeRoundTrip(m: nat)
    ensures ParseInt("-" + NatToString(m)) == Some(-(m as int))
  {
    var digits := NatToString(m);
    var s := "-" + digits;
    NatToStringRoundTrip(m);
    assert s[0] == '-' && s[1..] == digits;
  }

  /** The digits of `m` alone read back as `m`. */
  lemma {:induction false} NonNegativeRoundTrip(m: nat)
    ensures ParseInt(NatToString(m)) == Some(m)
  {
    var s := NatToString(m);
    NatToStringRoundTrip(m);
    assert s[0] != '-';
  }

  /** The day count in a duration line can be read back exactly. */
  lemma {:induction false} IntToStringRoundTrip(n: int)
    ensures ParseInt(IntToString(n)) == Some(n)
  {
    var s := IntToString(n);
    if n < 0 {
      var m: nat := -n;
      assert s == "-" + NatToString(m);
      NegativeRoundTrip(m);
      assert ParseInt(s) == Some(-(m as int));
    } else {
      assert s == NatToString(n);
      NonNegativeRoundTrip(n);
    }
  }

  /** The lines of `parts` joined with `separator` between them. */
  function Join(parts: seq<string>, separator: string): string
    decreases |parts|
  {
    if parts == [] then ""
    else if |parts| == 1 then parts[0]
    else parts[0] + separator + Join(parts[1..], separator)
  }

  /** Joining five parts puts the separator between each neighbouring pair. */
  lemma {:induction false} JoinFive(a: string, b: string, c: string, d: string, e: string, separator: string)
    ensures Join([a, b, c, d, e], separator) ==
      a + separator + b + separator + c + separator + d + separator + e
  {
    assert Join([e], separator) == e;
    assert [d, e][1..] == [e];
    assert Join([d, e], separator) == d + separator + e;
    assert [c, d, e][1..] == [d, e];
    assert Join([c, d, e], separator) == c + separator + (d + separator + e);
    assert [b, c, d, e][1..] == [c, d, e];
    assert Join([b, c, d, e], separator) == b + separator + (c + separator + (d + separator + e));
    assert [a, b, c, d, e][1..] == [b, c, d, e];
  }

  /** A set of regions, walked in some order: each region once, and no other. */
  ghost predicate Enumerates(listed: seq<Region>, regions: set<Region>) {
    && |listed| == |regions|
    && (forall x :: x in listed <==> x in regions)
    && (forall i, j :: 0 <= i < j < |listed| ==> listed[i] != listed[j])
  }

  /** One way of walking a set: any element, then the rest. */
  ghost function SomeEnumeration(regions: set<Region>): (listed: seq<Region>)
    ensures Enumerates(listed, regions)
    decreases regions
  {
    if regions == {} then []
    else
      var x :| x in regions;
      var rest := SomeEnumeration(regions - {x});
      assert forall y :: y in [x] + rest <==> y == x || y in rest;
      [x] + rest
  }

  /** The iteration order of hash sets of regions: it walks each set's regions exactly once. */
  type Listing = f: set<Region> -> seq<Region> | forall regions :: Enumerates(f(regions), regions)
    ghost witness (regions: set<Region>) => SomeEnumeration(regions)

  /** The line of each listed region, showing the region's name. */
  function RegionLineList(listed: seq<Region>): seq<string> {
    seq(|listed|, i requires 0 <= i < |listed| => "    | " + RegionName(listed[i]))
  }

  /** The region lines of a block, one per listed region. */
  function RegionLines(listed: seq<Region>): string {
    Join(RegionLineList(listed), "\n")
  }

  /** The duration line of a block: days to the next crossing, or unknown for the last. */
  function DurationLine(crossing: BorderCrossing, next: Option<BorderCrossing>): string {
    match next
    case Some(n) => "    | Duration: " + IntToString(WholeDays(crossing.timestamp, n.timestamp)) + " Days"
    case None => "    | Duration Unknown"
  }

  /** The block for one crossing, given the crossing after it, if any. */
  function BorderCrossingToString(
    crossing: BorderCrossing, next: Option<BorderCrossing>,
    renderTime: int -> string, listing: set<Region> -> seq<Region>): string
  {
    Join([renderTime(crossing.timestamp),
          "    |",
          RegionLines(listing(crossing.newRegions)),
          DurationLine(crossing, next),
          "    |\n"], "\n")
  }

  /** The crossing after index `i`, if there is one. */
  function NextCrossing(crossings: seq<BorderCrossing>, i: nat): (next: Option<BorderCrossing>)
    requires i < |crossings|
    ensures next.Some? <==> i < |crossings| - 1
    ensures next.Some? ==> next.value == crossings[i + 1]
  {
    if i + 1 < |crossings| then Some(crossings[i + 1]) else None
  }

  /** The block of each crossing, rendered with the crossing after it. */
  function Blocks(
    crossings: seq<BorderCrossing>, renderTime: int -> string, listing: set<Region> -> seq<Region>)
    : seq<string>
  {
    seq(|crossings|, k requires 0 <= k < |crossings| =>
      BorderCrossingToString(crossings[k], NextCrossing(crossings, k), renderTime, listing))
  }

  /** Blocks `i` onwards, concatenated. */
  function ConcatFrom(blocks: seq<string>, i: nat): string
    requires i <= |blocks|
    decreases |blocks| - i
  {
    if i == |blocks| then "" else blocks[i] + ConcatFrom(blocks, i + 1)
  }

  /** The first `n` blocks, concatenated. */
  function ConcatUpTo(blocks: seq<string>, n: nat): string
    requires n <= |blocks|
  {
    if n == 0 then "" else ConcatUpTo(blocks, n - 1) + blocks[n - 1]
  }

  /** The blocks before `i` and from `i` on make up all the blocks, concatenated. */
  lemma {:induction false} ConcatSplit(blocks: seq<string>, i: nat)
    requires i <= |blocks|
    ensures ConcatUpTo(blocks, i) + ConcatFrom(blocks, i) == ConcatFrom(blocks, 0)
    decreases i
  {
    if i == 0 {
      assert ConcatUpTo(blocks, 0) == "";
    } else {
      ConcatSplit(blocks, i - 1);
      var before, block, after := ConcatUpTo(blocks, i - 1), blocks[i - 1], ConcatFrom(blocks, i);
      assert ConcatUpTo(blocks, i) == before + block;
      assert ConcatFrom(blocks, i - 1) == block + after;
      assert (before + block) + after == before + (block + after);
    }
  }

  /** The blocks of crossings `i` onwards, concatenated. */
  function ReportFrom(
    crossings: seq<BorderCrossing>, i: nat,
    renderTime: int -> string, listing: set<Region> -> seq<Region>): string
    requires i <= |crossings|
  {
    ConcatFrom(Blocks(crossings, renderTime, listing), i)
  }

  /** The blocks of the first `n` crossings, concatenated. */
  function ReportUpTo(
    crossings: seq<BorderCrossing>, n: nat,
    renderTime: int -> string, listing: set<Region> -> seq<Region>): string
    requires n <= |crossings|
  {
    ConcatUpTo(Blocks(crossings, renderTime, listing), n)
  }

  /** The blocks before crossing `i` and from crossing `i` on make up the whole report. */
  lemma {:induction false} ReportSplit(
    crossings: seq<BorderCrossing>, i: nat,
    renderTime: int -> string, listing: set<Region> -> seq<Region>)
    requires i <= |crossings|
    ensures ReportUpTo(crossings, i, renderTime, listing) + ReportFrom(crossings, i, renderTime, listing)
         == ReportFrom(crossings, 0, renderTime, listing)
  {
    ConcatSplit(Blocks(crossings, renderTime, listing), i);
  }

  /**
   * The report: the blocks of all crossings, one after another, in the
   * order of the crossings.
   */
  method DisplayBorderCrossings(
    crossings: seq<BorderCrossing>, renderTime: int -> string, listing: Listing)
    returns (report: string)
    ensures report == ReportFrom(crossings, 0, renderTime, listing)
  {
    report := "";
    for i := 0 to |crossings|
      invariant report == ReportUpTo(crossings, i, renderTime, listing)
    {
      var crossing := crossings[i];
      var maybeNext := if i + 1 < |crossings| then Some(crossings[i + 1]) else None;
      assert maybeNext == NextCrossing(crossings, i);
      var block := BorderCrossingToString(crossing, maybeNext, renderTime, listing);
      assert Blocks(crossings, renderTime, listing)[i] == block;
      report := report + block;
    }
    ReportSplit(crossings, |crossings|, renderTime, listing);
  }

  /**
   * The block of crossing `i`: its time, a rule, one line naming each of the
   * crossing's regions exactly once, the duration line and a closing rule.
   * Every crossing but the last reports the whole days to the next crossing,
   * which are never negative for crossings in time order; the last reports
   * that its duration is unknown.
   */
  lemma {:induction false} BlockDuration(
    crossings: seq<BorderCrossing>, i: nat,
    renderTime: int -> string, listing: Listing)
    requires i < |crossings|
    ensures var block := BorderCrossingToString(crossings[i], NextCrossing(crossings, i), renderTime, listing);
      var line := DurationLine(crossings[i], NextCrossing(crossings, i));
      var listed := listing(crossings[i].newRegions);
      var lines := RegionLineList(listed);
      && block == renderTime(crossings[i].timestamp) + "\n" + "    |" + "\n"
                  + Join(lines, "\n") + "\n" + line + "\n" + "    |\n"
      && |lines| == |listed| == |crossings[i].newRegions|
      && (forall k :: 0 <= k < |lines| ==> lines[k] == "    | " + RegionName(listed[k]))
      && (forall r :: r in listed <==> r in crossings[i].newRegions)
      && (forall k, l :: 0 <= k < l < |listed| ==> listed[k] != listed[l])
      && (i == |crossings| - 1 ==> line == "    | Duration Unknown")
      && (i < |crossings| - 1 ==>
            line == "    | Duration: "
                    + IntToString(WholeDays(crossings[i].timestamp, crossings[i + 1].timestamp)) + " Days")
      && (i < |crossings| - 1 && SortedBy(crossings, CrossingTime) ==>
            WholeDays(crossings[i].timestamp, crossings[i + 1].timestamp) >= 0)
  {
    var next := NextCrossing(crossings, i);
    JoinFive(renderTime(crossings[i].timestamp), "    |", RegionLines(listing(crossings[i].newRegions)),
             DurationLine(crossings[i], next), "    |\n", "\n");
    assert Enumerates(listing(crossings[i].newRegions), crossings[i].newRegions);
    if i < |crossings| - 1 && SortedBy(crossings, CrossingTime) {
      assert CrossingTime(crossings[i]) <= CrossingTime(crossings[i + 1]);
    }
  }

  /**
   * The report is one block per crossing, in order: the report from crossing
   * `i` on is the block of crossing `i` followed by the report from the next
   * crossing on. No crossings give an empty report, and a single crossing
   * gives one block with an unknown duration.
   */
  lemma {:induction false} ReportBlocks(
    crossings: seq<BorderCrossing>, renderTime: int -> string, listing: Listing)
    ensures forall i :: 0 <= i < |crossings| ==>
      ReportFrom(crossings, i, renderTime, listing) ==
      BorderCrossingToString(crossings[i], NextCrossing(crossings, i), renderTime, listing)
      + ReportFrom(crossings, i + 1, renderTime, listing)
    ensures crossings == [] ==> ReportFrom(crossings, 0, renderTime, listing) == ""
    ensures |crossings| == 1 ==>
      ReportFrom(crossings, 0, renderTime, listing) ==
      renderTime(crossings[0].timestamp) + "\n" + "    |" + "\n" + RegionLines(listing(crossings[0].newRegions))
      + "\n" + "    | Duration Unknown" + "\n" + "    |\n"
  {
    var blocks := Blocks(crossings, renderTime, listing);
    forall i | 0 <= i < |crossings|
      ensures ReportFrom(crossings, i, renderTime, listing) ==
        BorderCrossingToString(crossings[i], NextCrossing(crossings, i), renderTime, listing)
        + ReportFrom(crossings, i + 1, renderTime, listing)
    {
      assert ConcatFrom(blocks, i) == blocks[i] + ConcatFrom(blocks, i + 1);
    }
    if |crossings| == 1 {
      BlockDuration(crossings, 0, renderTime, listing);
      assert ConcatFrom(blocks, 1) == "";
    }
  }
}
