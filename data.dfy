/**
 * Value types of the engine and the conversions between them
 * (src/core/data.rs): location records, their sources, the regions a record
 * lies in, and border crossings.
 *
 * The two foreign libraries the file leans on are parameters here: the
 * boundary lookup that maps a coordinate to region codes, and the ISO 3166
 * tables that classify a code. Both are gathered in `Lookup`.
 */
module Data {
  import opened Wrappers
  import opened Sequences
  import Json

  /** The technology that produced a location fix. */
  datatype Source = WIFI | GPS | CELL | UNKNOWN | NONE

  /**
   * Converts the raw source tag. An absent tag becomes `NONE`; each present
   * tag becomes the `Source` of the same name, so no two inputs share a result.
   */
  function SourceFromJson(json: Option<Json.JsonSource>): (s: Source)
    ensures s == NONE <==> json.None?
    ensures s == CELL <==> json == Some(Json.CELL)
    ensures s == UNKNOWN <==> json == Some(Json.UNKNOWN)
    ensures s == GPS <==> json == Some(Json.GPS)
    ensures s == WIFI <==> json == Some(Json.WIFI)
  {
    match json
    case Some(tag) =>
      (match tag
       case CELL => CELL
       case UNKNOWN => UNKNOWN
       case GPS => GPS
       case WIFI => WIFI)
    case None => NONE
  }

  /**
   * A cleaned-up location record. The coordinates are kept in the raw
   * fixed-point form; the engine only ever hands them to the boundary lookup.
   */
  datatype Record = Record(latitudeE7: int, longitudeE7: int, timestamp: int, source: Source)

  /**
   * Builds a record from a raw one. There is no record exactly when the
   * latitude or the longitude is missing; otherwise the record keeps both
   * coordinates, the timestamp and the converted source.
   */
  function FromJson(json: Json.JsonRecord): (r: Option<Record>)
    ensures r.None? <==> json.latitudeE7.None? || json.longitudeE7.None?
    ensures r.Some? ==>
      && r.value.latitudeE7 == json.latitudeE7.value
      && r.value.longitudeE7 == json.longitudeE7.value
      && r.value.timestamp == json.timestamp
      && r.value.source == SourceFromJson(json.source)
  {
    match (json.latitudeE7, json.longitudeE7)
    case (Some(latitude), Some(longitude)) =>
      Some(Record(latitude, longitude, json.timestamp, SourceFromJson(json.source)))
    case _ => None
  }

  /** An entry of the ISO 3166-1 country table. */
  datatype CountryInfo = CountryInfo(alpha2: string, name: string)
  /** An entry of the ISO 3166-2 subdivision table. */
  datatype SubdivisionInfo = SubdivisionInfo(code: string, name: string)
  /** An entry of the ISO 3166-3 table of formerly used country codes. */
  datatype ObsoleteInfo = ObsoleteInfo(code: string, name: string)

  /** The three ISO 3166 lookups, each answering "is this code in my table". */
  datatype IsoTables = IsoTables(
    fromAlpha2: string -> Option<CountryInfo>,
    subdivisionFromCode: string -> Option<SubdivisionInfo>,
    obsoleteFromCode: string -> Option<ObsoleteInfo>)

  /**
   * The foreign lookups the engine depends on: the region codes whose
   * boundary contains a coordinate, and the ISO tables.
   */
  datatype Lookup = Lookup(ids: (int, int) -> seq<string>, tables: IsoTables)

  /** A region a record lies in, or the marker for a stretch without data. */
  datatype Region =
    | CountryCode(country: CountryInfo)
    | Subdivision(subdivision: SubdivisionInfo)
    | Obsolete(obsolete: ObsoleteInfo)
    | UnknownCode(code: string)
    | MissingData

  /**
   * Classifies a boundary code. The country table wins over the subdivision
   * table, which wins over the obsolete-code table; a code in none of them is
   * kept verbatim as an unknown code. The missing-data marker never comes out.
   */
  function FromCode(tables: IsoTables, code: string): (r: Region)
    ensures r.CountryCode? <==> tables.fromAlpha2(code).Some?
    ensures r.CountryCode? ==> r.country == tables.fromAlpha2(code).value
    ensures r.Subdivision? <==>
      tables.fromAlpha2(code).None? && tables.subdivisionFromCode(code).Some?
    ensures r.Subdivision? ==> r.subdivision == tables.subdivisionFromCode(code).value
    ensures r.Obsolete? <==>
      && tables.fromAlpha2(code).None?
      && tables.subdivisionFromCode(code).None?
      && tables.obsoleteFromCode(code).Some?
    ensures r.Obsolete? ==> r.obsolete == tables.obsoleteFromCode(code).value
    ensures r.UnknownCode? <==>
      && tables.fromAlpha2(code).None?
      && tables.subdivisionFromCode(code).None?
      && tables.obsoleteFromCode(code).None?
    ensures r.UnknownCode? ==> r.code == code
    ensures !r.MissingData?
  {
    var countryCode := tables.fromAlpha2(code);
    var subdivision := tables.subdivisionFromCode(code);
    var obsolete := tables.obsoleteFromCode(code);
    if countryCode.Some? then CountryCode(countryCode.value)
    else if subdivision.Some? then Subdivision(subdivision.value)
    else if obsolete.Some? then Obsolete(obsolete.value)
    else UnknownCode(code)
  }

  /** Two unknown codes are the same region exactly when their codes are equal. */
  lemma UnknownCodeEquality(a: string, b: string)
    ensures UnknownCode(a) == UnknownCode(b) <==> a == b
  {
  }

  /**
   * The regions a record lies in: the codes the boundary lookup reports for
   * its coordinate, each classified, and nothing else. The set never holds
   * the missing-data marker.
   */
  function Regions(record: Record, lookup: Lookup): (regions: set<Region>)
    ensures MissingData !in regions
    ensures forall code :: code in lookup.ids(record.latitudeE7, record.longitudeE7) ==>
      FromCode(lookup.tables, code) in regions
    ensures forall region :: region in regions ==>
      exists code :: code in lookup.ids(record.latitudeE7, record.longitudeE7) && region == FromCode(lookup.tables, code)
  {
    set code | code in lookup.ids(record.latitudeE7, record.longitudeE7) :: FromCode(lookup.tables, code)
  }

  /**
   * The text a region is shown as: the table name of a country, subdivision
   * or obsolete code, the code itself for an unknown code, and "Missing Data"
   * for the marker.
   */
  function RegionName(region: Region): (s: string)
    ensures region.MissingData? ==> s == "Missing Data"
    ensures region.UnknownCode? ==> s == region.code
    ensures region.CountryCode? ==> s == region.country.name
    ensures region.Subdivision? ==> s == region.subdivision.name
    ensures region.Obsolete? ==> s == region.obsolete.name
  {
    match region
    case CountryCode(c) => c.name
    case Subdivision(s) => s.name
    case Obsolete(o) => o.name
    case UnknownCode(u) => u
    case MissingData => "Missing Data"
  }

  /**
   * What a decoded boundary code is shown as: the name from the first table
   * that knows the code, or the code itself when none does.
   */
  lemma NameOfDecodedCode(tables: IsoTables, code: string)
    ensures RegionName(FromCode(tables, code)) ==
      if tables.fromAlpha2(code).Some? then tables.fromAlpha2(code).value.name
      else if tables.subdivisionFromCode(code).Some? then tables.subdivisionFromCode(code).value.name
      else if tables.obsoleteFromCode(code).Some? then tables.obsoleteFromCode(code).value.name
      else code
  {
  }

  /**
   * The reading of the subdivision flag's test: a region is a subregion when
   * it is a subdivision.
   */
  predicate IsSubregion(region: Region) {
    region.Subdivision?
  }

  /** The moment the observed set of regions became `newRegions`. */
  datatype BorderCrossing = BorderCrossing(timestamp: int, newRegions: set<Region>)

  /**
   * A way of giving each record its region set that, like `Regions`, never
   * puts the missing-data marker in it.
   */
  type RegionsOf = f: Record -> set<Region> | forall r :: MissingData !in f(r)
    witness (r: Record) => {}

  /**
   * `Record::regions` with the lookup fixed, as a function of the record:
   * every record's set holds the classification of each code the boundary
   * lookup reports for its coordinate, and nothing else.
   */
  function RecordRegions(lookup: Lookup): (regionsOf: RegionsOf)
    ensures forall r: Record, code :: code in lookup.ids(r.latitudeE7, r.longitudeE7) ==>
      FromCode(lookup.tables, code) in regionsOf(r)
    ensures forall r: Record, region :: region in regionsOf(r) ==>
      exists code :: code in lookup.ids(r.latitudeE7, r.longitudeE7) && region == FromCode(lookup.tables, code)
  {
    r => Regions(r, lookup)
  }

  /**
   * The crossing a record stands for: its timestamp and its full region set,
   * which never includes the missing-data marker.
   */
  function CrossingFrom(record: Record, regionsOf: RegionsOf): (c: BorderCrossing)
    ensures c.timestamp == record.timestamp
    ensures c.newRegions == regionsOf(record)
    ensures MissingData !in c.newRegions
  {
    BorderCrossing(record.timestamp, regionsOf(record))
  }

  /** The timestamp of a record, as a key for ordering. */
  function RecordTime(record: Record): int {
    record.timestamp
  }

  /** The timestamp of a crossing, as a key for ordering. */
  function CrossingTime(crossing: BorderCrossing): int {
    crossing.timestamp
  }

  /** The raw record has both coordinates, so it converts to a record. */
  predicate HasPosition(json: Json.JsonRecord) {
    FromJson(json).Some?
  }

  /**
   * The records of a raw document: the raw records that have both
   * coordinates, converted, one for one and in their original order.
   */
  function RecordsFromJson(raw: seq<Json.JsonRecord>): (records: seq<Record>)
    ensures var located := Keep(raw, HasPosition);
      && |records| == |located|
      && forall i :: 0 <= i < |records| ==> FromJson(located[i]) == Some(records[i])
    decreases |raw|
  {
    if raw == [] then []
    else
      var head := FromJson(raw[0]);
      var rest := RecordsFromJson(raw[1..]);
      if head.Some? then [head.value] + rest else rest
  }

  /**
   * Every raw record with both coordinates gives a record, and every record
   * comes from such a raw record.
   */
  lemma {:induction false} RecordsFromJsonMembers(raw: seq<Json.JsonRecord>)
    ensures forall j :: j in raw && FromJson(j).Some? ==> FromJson(j).value in RecordsFromJson(raw)
    ensures forall r :: r in RecordsFromJson(raw) ==> exists j :: j in raw && FromJson(j) == Some(r)
  {
    forall j | j in raw && FromJson(j).Some? ensures FromJson(j).value in RecordsFromJson(raw) {
      LocatedGivesRecord(raw, j);
    }
    forall r | r in RecordsFromJson(raw) ensures exists j :: j in raw && FromJson(j) == Some(r) {
      RecordHasSource(raw, r);
    }
  }

  /** A raw record with both coordinates gives its record. */
  lemma {:induction false} LocatedGivesRecord(raw: seq<Json.JsonRecord>, j: Json.JsonRecord)
    requires j in raw && HasPosition(j)
    ensures FromJson(j).value in RecordsFromJson(raw)
  {
    var located := Keep(raw, HasPosition);
    KeepSelects(raw, HasPosition);
    var i :| 0 <= i < |located| && located[i] == j;
    assert FromJson(located[i]) == Some(RecordsFromJson(raw)[i]);
  }

  /** A record comes from a raw record of the document. */
  lemma {:induction false} RecordHasSource(raw: seq<Json.JsonRecord>, r: Record)
    requires r in RecordsFromJson(raw)
    ensures exists j :: j in raw && FromJson(j) == Some(r)
  {
    var records, located := RecordsFromJson(raw), Keep(raw, HasPosition);
    KeepSelects(raw, HasPosition);
    var i :| 0 <= i < |records| && records[i] == r;
    assert located[i] in located;
  }
}
