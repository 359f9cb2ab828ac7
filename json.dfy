/**
 * The shape of one raw location record of a Google Takeout "Records.json"
 * document, as the deserialiser hands it to the engine (src/core/json.rs).
 */
module Json {
  import opened Wrappers

  /** The source tags that the conversion into `Source` distinguishes. */
  datatype JsonSource = CELL | UNKNOWN | GPS | WIFI

  /**
   * One raw record. Coordinates are fixed-point integers (degrees times 1e7)
   * and may be absent; the timestamp is given already parsed, as a count of
   * seconds.
   */
  datatype JsonRecord = JsonRecord(
    latitudeE7: Option<int>,
    longitudeE7: Option<int>,
    accuracy: Option<int>,
    verticalAccuracy: Option<int>,
    source: Option<JsonSource>,
    timestamp: int)

}
