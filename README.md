# Border-crossing engine of takeout-travel-history

takeout-travel-history reads a Google Takeout location history and lists every
time the location crossed a recognised border. This project models the
engine of its `border-crossings` command in Dafny and proves properties of the
model. The file, JSON and geometry plumbing is not modelled.

The engine has these parts:

- **Records** (`Data`, src/core/data.rs). A raw location record becomes a
  `Record` only when it has both coordinates. Its source tag is mapped to a
  `Source`. The regions a record lies in come from a boundary lookup, and
  each code is classified against the ISO 3166 tables in a fixed precedence:
  country, then subdivision, then obsolete code, then unknown code.
- **The detector** (`Detector`, `records_to_border_crossings` in
  src/main.rs). It is one forward pass over timestamp-ordered records:
  - the first record always gives a crossing;
  - a gap of a day or more adds a `{MissingData}` crossing one day after the
    earlier record;
  - a record gives a crossing when it gains a region over the record before
    it, or when the last crossing carries the missing-data marker.
- **The pairwise filter** (`Retain`, `compare_and_retain`). It keeps the
  first element, and each later element whose predicate holds against its
  original predecessor in the input.
- **The command's stages** (`Cli`, `run_cli`), in order:
  1. drop records from excluded sources;
  2. sort the rest by time;
  3. detect crossings;
  4. optionally strip missing-data crossings;
  5. optionally strip crossings that only change subregions;
  6. strip crossings that gain no region over their predecessor;
  7. render the report.
- **The report** (`Report`, `display_border_crossings` and
  `border_crossing_to_string`). It has one text block per crossing, and each
  block but the last shows the whole days until the next crossing; the
  last block shows "Duration Unknown".

The modules share a few helpers:

- `Sequences` holds `Keep`, the contents-level model of `Vec::retain`, and
  facts about order-preserving subsequences.
- `Json` holds the shape of the raw record.
- `Wrappers` holds `Option`.

Three behaviours of the code are worth stating on their own terms:

- **Duplicate filter.** The comment at src/main.rs:79-82 says this stage
  strips consecutive crossings that no longer differ. The code compares each
  crossing with its original predecessor, not with the last crossing kept.
  As a result the filter is not idempotent (`Cli.DedupNotIdempotent`). It
  can also leave two neighbouring crossings into the same regions
  (`Cli.DedupLeavesAdjacentDuplicate`), and it does so on records the
  command really reads (`Cli.StrippedGapLeavesDuplicate`, see Findings).
- **Missing-data stripping.** The stage removes crossings whose set
  contains the marker. On the detector's output that is the same as
  removing those whose set is exactly `{MissingData}`
  (`Detector.MissingDataCrossingsAreExact`).
- **Gap crossing time.** After a gap, the missing-data crossing is one day
  after the record just before the gap, as the comment at src/main.rs:215
  says. It is not one day after the first record in the region
  (`Detector.GapThenReentry`).

Foreign collaborators are parameters of the model:

- the boundary lookup and the three ISO 3166 tables (`Data.Lookup`);
- the RFC 2822 time renderer (`renderTime`);
- the iteration of a region hash set (`listing`, of type `Report.Listing`):
  it yields each region of the set exactly once, in an order nothing fixes.

The detector and the filters take the region assignment as a `RegionsOf`
value. This is any function from records to region sets that never yields
the missing-data marker. `Data.RecordRegions` gives the program's own
assignment, and `Cli.RunBorderCrossings` passes it. Timestamps are whole
seconds, and a day is 86400 of them.

The program sorts with `sort_unstable_by_key`, which may put records with
equal timestamps in either order. The stages after the sort therefore take
the sorted records as a parameter, and the pipeline lemmas hold for every
arrangement that `Cli.SortsKept` admits: in timestamp order, with the kept
records as often as before.

## Model

| member | source | states |
|---|---|---|
| Data.FromJson | src/core/data.rs:32-45 | no record exactly when the latitude or the longitude is missing; otherwise the record carries both coordinates, the timestamp and the mapped source |
| Data.SourceFromJson | src/core/data.rs:77-87 | an absent tag maps to NONE, and each of CELL, UNKNOWN, GPS and WIFI maps to the source of the same name, each in both directions |
| Data.UnknownCodeEquality | src/core/data.rs:90-97 | two unknown-code regions are equal exactly when their codes are equal |
| Data.FromCode | src/core/data.rs:100-115 | a country code wins over a subdivision, which wins over an obsolete code; a code found in no table stays an unknown code with the code unchanged; the missing-data marker never comes out |
| Data.Regions | src/core/data.rs:47-58 | a record's region set holds the classification of every looked-up code and nothing else, and never holds the missing-data marker |
| Data.RecordRegions | src/core/data.rs:47-58 | as a function of the record, every record's region set holds the classification of each code the lookup reports for its coordinate, and nothing else |
| Data.RegionName | src/core/data.rs:118-129 | the marker shows as "Missing Data", an unknown code as the code itself, and the other regions as their table names |
| Data.NameOfDecodedCode | src/core/data.rs:100-129 | a decoded code shows as the name from the first table that knows it, or as the code itself |
| Data.CrossingFrom | src/core/data.rs:151-158 | a record's crossing has the record's timestamp and its full region set, without the marker |
| Data.RecordsFromJson | src/main.rs:155-159 | the records of a document are the raw records that have both coordinates, converted one for one and in their order |
| Data.RecordsFromJsonMembers | src/main.rs:155-159 | every raw record with both coordinates gives a record, and every record comes from one |
| Data.LocatedGivesRecord | src/main.rs:155-159 | a raw record with both coordinates is converted into a record of the document |
| Data.RecordHasSource | src/main.rs:155-159 | every record of the document is the conversion of a raw record with both coordinates |
| Sequences.KeepSelects | src/main.rs:56 | retain keeps each element that passes the test as often as it occurs, and no other element, in their order; a passing first element stays first |
| Sequences.KeepCounts | src/main.rs:56 | retain keeps each passing element as often as it occurs and drops every failing one |
| Sequences.KeepIsSubsequence | src/main.rs:56 | retain keeps the order of the elements, and a passing first element stays first |
| Sequences.KeepAll | src/main.rs:56 | retain changes nothing when every element passes |
| Retain.WrappingPredecessor | src/main.rs:104 | in a release build, `i - 1` is the predecessor index for `i > 0` and wraps to the largest `usize` at 0 |
| Retain.CheckedPredecessor | src/main.rs:104 | in a debug build, `i - 1` fails exactly at 0 |
| Retain.RetainedSelects | src/main.rs:95-117 | the filter returns `v` read at increasing indices; index `j` is kept exactly when `j = 0` or the predicate holds of `v[j]` and its original predecessor `v[j-1]`; the result is a subsequence that starts with `v[0]` |
| Retain.RetainedIsSubsequence | src/main.rs:100-117 | the filter's result is an order-preserving subsequence of its input |
| Retain.RetainedOfTwo | src/main.rs:100-117 | on two elements the filter keeps the first, and the second exactly when it passes against the first |
| Retain.RetainedOfThree | src/main.rs:100-117 | on three elements each later element is tested against its original predecessor |
| Retain.RetainedSplit | src/main.rs:102-116 | the elements kept before index `i` followed by those kept from `i` on are the whole selection |
| Retain.CompareAndRetain | src/main.rs:100-117 | the loop returns exactly the filter's selection, with the wrapped index at 0 finding no element |
| Retain.CompareAndRetainDebug | src/main.rs:100-117 | in a debug build the filter panics exactly when the input is non-empty |
| Retain.KeptAfter | src/main.rs:79-82 | a filter that compares with the last element kept keeps each element only when it passes against the kept one before it, in order, and keeps nothing only when every element fails against the starting one |
| Retain.KeptAfterStep | src/main.rs:79-82 | a filter that compares with the last element kept works left to right: on one more element it keeps what it kept before, and keeps the new element exactly when it passes against the element kept last |
| Retain.RetainedAgainstKept | src/main.rs:79-82 | the corrected duplicate filter keeps the first element and then only elements that pass against the kept element before them, as a subsequence |
| Retain.RetainedAgainstKeptStep | src/main.rs:79-82 | the corrected filter keeps a lone element, and on one more element keeps what it kept before and keeps the new element exactly when it passes against the element kept last |
| Retain.RetainedAgainstKeptUnique | src/main.rs:79-82 | these laws determine the corrected filter: any filter obeying them returns what it returns on every input |
| Detector.GainsRegionIffNotSubset | src/main.rs:221-222 | the region difference is non-empty exactly when the new set is not contained in the old one |
| Detector.RecordsToBorderCrossings | src/main.rs:202-238 | the loop returns the detector's crossings for ordered records, and they are in timestamp order |
| Detector.HandleRecord | src/main.rs:208-232 | one loop iteration: the gap check against the previous record, then the record's crossing when it gains a region or follows a missing-data crossing; the first record always gives one |
| Detector.LastIsReal | src/main.rs:220-228 | for a non-empty input the last crossing never carries the missing-data marker |
| Detector.StepAppends | src/main.rs:211-228 | a gap of a day or more appends a `{MissingData}` crossing at the previous record's time plus a day and then the record's crossing, even with unchanged regions; otherwise the record's crossing is appended exactly when its regions are not a subset of the previous record's |
| Detector.FirstCrossing | src/main.rs:203-238 | empty input gives no crossings; otherwise the first crossing is the first record's |
| Detector.DetectLength | src/main.rs:203-238 | n > 0 records give between 1 and 2n - 1 crossings |
| Detector.AppendOrdered | src/main.rs:202-238 | ordered crossings up to a time followed by ordered crossings from that time are ordered |
| Detector.DetectSortedStep | src/main.rs:207-236 | handling the last of ordered records keeps the crossings ordered and no later than its timestamp |
| Detector.DetectSorted | src/main.rs:202-238 | for ordered records the crossings are ordered and lie between the first and the last record's timestamps |
| Detector.CrossingOriginsUpTo | src/main.rs:207-236 | every crossing for the first n records is one of their crossings or the missing-data crossing of a gap between two of them |
| Detector.OriginWidens | src/main.rs:207-236 | an origin among the first n records stays an origin among the first n + 1 |
| Detector.NewCrossingOrigin | src/main.rs:211-231 | a crossing added for record n is that record's crossing or the missing-data crossing of the gap just before it |
| Detector.CrossingOrigins | src/main.rs:211-232 | every crossing is a record's crossing, or the missing-data crossing of a gap between two records |
| Detector.MissingDataCrossingsAreExact | src/main.rs:211-218 | a detected crossing contains the marker exactly when its set is the marker alone |
| Detector.GapThenReentry | src/main.rs:211-228 | records in one region set at t, t + 2 h and t + 3 days give a crossing at t, a missing-data crossing at t + 26 h and a re-entry crossing at t + 3 days |
| Detector.GapIntoFewerRegions | src/main.rs:207-236 | a record, one in fewer regions a day or more later, and one back in the first regions within the day give a crossing, a missing-data crossing a day after the first record, and crossings for the second and third records |
| Report.WholeDays | src/main.rs:175 | whole days between two times, truncated toward zero: the largest count of days that fits, with the interval's sign |
| Report.NatToString | src/main.rs:176 | a count is written as a non-empty run of digits without a leading zero |
| Report.NatToStringRoundTrip | src/main.rs:176 | reading back a written count gives the count |
| Report.IntToString | src/main.rs:176 | a negative day count is written as a minus sign before its magnitude's digits |
| Report.NegativeRoundTrip | src/main.rs:176 | a minus sign before the digits of a magnitude reads back as its negation |
| Report.NonNegativeRoundTrip | src/main.rs:176 | the digits of a count read back as the count |
| Report.IntToStringRoundTrip | src/main.rs:176 | the day count in a duration line reads back exactly |
| Report.JoinFive | src/main.rs:180-187 | joining the five parts of a block puts the separator between each neighbouring pair |
| Report.NextCrossing | src/main.rs:195 | there is a next crossing exactly when the crossing is not the last, and it is the following one |
| Report.DisplayBorderCrossings | src/main.rs:191-200 | the loop returns the concatenated blocks of all crossings, in order |
| Report.ConcatSplit | src/main.rs:193-197 | the blocks before index i followed by the blocks from index i on are all the blocks, concatenated |
| Report.ReportSplit | src/main.rs:193-197 | the blocks before crossing i followed by the blocks from crossing i on are the whole report |
| Report.BlockDuration | src/main.rs:162-189 | a block is the time, a rule, one line naming each of the crossing's regions exactly once, the duration line and a closing rule; the last block's duration is unknown, every other block shows the whole days to the next crossing, and these are never negative for ordered crossings |
| Report.ReportBlocks | src/main.rs:191-200 | the report from crossing i on is the block of crossing i followed by the report from the next crossing on; no crossings give an empty report, and a single crossing gives one block with an unknown duration |
| Cli.ExcludeSourcesSelects | src/main.rs:55-56 | exactly the records whose source is not excluded remain, each as often as before, in their order |
| Cli.InsertByTime | src/main.rs:59 | inserting a record adds exactly that record |
| Cli.SortByTime | src/main.rs:59 | the sort permutes the records |
| Cli.ConsSorted | src/main.rs:59 | a record no later than every record of an ordered sequence can go in front of it |
| Cli.InsertSorted | src/main.rs:59 | inserting into an ordered sequence keeps it ordered |
| Cli.SortByTimeSorts | src/main.rs:59 | the sorted records are in timestamp order, as many as before and the same ones |
| Cli.SortByTimeOfSorted | src/main.rs:59 | records already in order come out of the sort unchanged |
| Cli.SortByTimeSortsKept | src/main.rs:59 | the model's sort gives one of the arrangements an unstable sort by timestamp may give |
| Cli.SortsKeptMembers | src/main.rs:55-59 | whatever the order, the sorted records are exactly those whose source is not excluded |
| Cli.SortedUnique | src/main.rs:59 | when no two records share a timestamp, every sorted arrangement of them is the same |
| Cli.OnlyOrder | src/main.rs:55-59 | records none of which is excluded and whose timestamps strictly increase are sorted into their own order |
| Cli.StripMissingDataSelects | src/main.rs:65-67 | exactly the crossings without the missing-data marker remain, each as often as before, in their order |
| Cli.RunBorderCrossings | src/main.rs:55-88 | the command sorts the kept records into an admissible order, its crossings are the stages applied in order to them, and the report is their rendering |
| Cli.PipelineSelects | src/main.rs:55-85 | the reported crossings are an order-preserving selection of the detector's crossings for the kept, sorted records |
| Cli.PipelineSorted | src/main.rs:55-85 | for records in timestamp order the reported crossings are in timestamp order |
| Cli.PipelineMembers | src/main.rs:62-85 | every reported crossing is one the detector emitted, and with the missing-data flag none carries the marker |
| Cli.PipelineCrossings | src/main.rs:55-85 | for every order the sort may give, each reported crossing is the crossing of a record from a source that is not excluded, or a `{MissingData}` crossing, and the latter only when the missing-data flag is off |
| Cli.PipelineFirstCrossing | src/main.rs:55-85 | nothing is reported exactly when every record is excluded; otherwise the first reported crossing is that of an earliest non-excluded record, whichever flags are set and whichever order the sort gives |
| Cli.SubregionMoveDropped | src/main.rs:69-77 | of {a, x}, {a, y}, {b} with x and y subregions, the subregion filter drops the move between subregions and keeps the move into b |
| Cli.DedupNotIdempotent | src/main.rs:79-85 | on {a, b}, {a}, {b} one pass of the duplicate filter keeps {a, b}, {b}, and a second pass keeps only {a, b} |
| Cli.DedupLeavesAdjacentDuplicate | src/main.rs:79-85 | on {a, b}, {a}, {a, b} the duplicate filter keeps two neighbouring crossings with equal region sets |
| Cli.MissingDataIgnored | src/main.rs:64-85 | a day-long gap inside one non-empty region set leaves a single crossing with the missing-data flag, and three crossings without it |
| Cli.FiltersOnGap | src/main.rs:64-85 | the duplicate filter keeps a crossing, a missing-data crossing and a re-entry; after stripping the missing-data crossing it keeps only the first |
| Cli.StrippedGapLeavesDuplicate | src/main.rs:79-85 | with the missing-data flag, records in {A, B}, two days later in {A} and an hour after that in {A, B} are reported as two neighbouring crossings into {A, B}; the intended filter reports only the first |
| Cli.FiltersOnFewerRegions | src/main.rs:64-85 | after stripping the missing-data crossing, the duplicate filter keeps the first and last of crossings into S, a smaller set and S again, while the intended filter keeps the first alone |
| Cli.StripGapCrossing | src/main.rs:65-67 | stripping removes the missing-data crossing and keeps the other three |
| Cli.IntendedCrossings | src/main.rs:79-85 | with the duplicate filter compared against the last kept crossing, the first crossing that reaches the filter is reported, and every reported crossing gains a region over the one before it, so no two neighbours are into the same regions |
| Cli.IntendedCrossingsStep | src/main.rs:79-85 | the intended filter walks the crossings in order and reports each later crossing exactly when it gains a region over the last crossing reported before it; the last step gives the report |

## Left out

- Reading the ZIP or JSON file and deserialising it (src/main.rs:119-153) is I/O and library code. The model starts from parsed raw records.
- Command-line parsing and printing the report (src/main.rs:11-49, 89) are library calls. The `Cli` members take the options as parameters and return the report text.
- Timestamp parsing (src/core/data.rs:39) and its panic on a malformed timestamp are left out. Raw records carry an integer timestamp in seconds, so sub-second precision is not modelled.
- RFC 2822 formatting of a time is the `renderTime` parameter.
- The boundary lookup, including the panic when `LatLon::new` rejects a coordinate (src/core/data.rs:48-54), is the `Lookup.ids` parameter.
- The division of the fixed-point coordinates by 1E7 (src/core/data.rs:37-38) is floating-point arithmetic. Coordinates stay raw integers, which is all the lookup needs.
- The ISO 3166 tables and their names are the `IsoTables` parameter.
- The order of the region lines inside a block is hash-set iteration order, which is unspecified. It is the `listing` parameter, which walks each region exactly once.
- `Region::is_subregion` is not part of this model. `Data.IsSubregion` takes it to mean "is a subdivision".
- The source match (src/core/data.rs:79-84) names variants that the raw-record enum in src/core/json.rs does not declare. The model's raw tag has only the four variants the match maps.
- `Display for BorderCrossing` (src/core/data.rs:137-149) is not called by the command and is not modelled.
- Cli.SortByTime: this is a stable insertion sort, while the program uses an unstable sort. `Cli.RunBorderCrossings` uses it, so its result is one of the orders the program may produce. The pipeline lemmas take any order that `Cli.SortsKept` admits.
- Cli.RunBorderCrossings: requires fewer than 2^63 records, so that the detector's at most 2n - 1 crossings fit a `usize` for `compare_and_retain`. A Rust vector of these records cannot be longer anyway.
- Cli.Crossings: models the duplicate filter as written, comparing with the original predecessor, and `Cli.RunBorderCrossings` reports this. The filter the comment at src/main.rs:79-82 describes is `Cli.IntendedCrossings` (see Findings).
- Retain.CompareAndRetain: models the release build, where `i - 1` wraps. The debug-build panic is `Retain.CompareAndRetainDebug` (see Findings).

## Findings

| source | as written | input that shows it | evidently intended | confidence | as-written member | corrected member |
|---|---|---|---|---|---|---|
| src/main.rs:102-104 | `v.get(i - 1)` with `i: usize` starting at 0 | any non-empty vector in a debug build: `0 - 1` overflows and panics | the first element has no predecessor and is kept (comments at src/main.rs:99 and 111) | not executed | Retain.CompareAndRetainDebug | Retain.CompareAndRetain |
| src/main.rs:83-85 | the duplicate filter compares each crossing with its original predecessor | with the missing-data flag, records in {A, B} at t, in {A} at t + 2 days and in {A, B} at t + 2 days + 1 hour: the report holds two neighbouring crossings into {A, B} | no two neighbouring reported crossings that do not differ (the comment at src/main.rs:79-82): compare with the last crossing kept | not executed | Cli.StrippedGapLeavesDuplicate | Cli.IntendedCrossings |
