/** The rows of the position table at each stage of the pipeline, its options and its errors. */
module Records {
  import opened Wrappers
  import opened Calendar

  /** A CSV row after column selection: `None` stands for a missing (NaN) cell. */
  datatype RawRow = RawRow(time: Option<real>, lat: Option<real>, lon: Option<real>,
                           height: Option<real>, id: Option<string>)

  /** A row with every cell present: feed time in seconds, degrees, feet, identifier. */
  datatype Row = Row(time: real, lat: real, lon: real, height: real, id: string)

  /** A Shapely point `(lon, lat, height)`. */
  datatype Point = Point(lon: real, lat: real, height: real)

  /** An output row: `id`, `datetime`, `unix_timestamp`, `geometry`. */
  datatype Fix = Fix(id: string, datetime: DateTime, unix: int, geometry: Point)

  /** The two copies of the module: src/atmdatatools/adsb_tools.py (`Package`, with the previous-day
      correction) and src/ATM-datatools/adsb_tools.py (`Standalone`, one date for every row). */
  datatype Variant = Package | Standalone

  /** The keyword options; `downsample == 0` stands for `None` or `0` (no downsampling). */
  datatype Options = Options(downsample: nat, floor: Option<real>, ceiling: Option<real>)

  /** The failures that abort a query. */
  datatype Error =
    | InvalidDate     // the reference date text does not name a day
    | EmptyTable      // no row survives normalisation (`IndexError` / `AttributeError` in the source)
    | UnknownAirport  // `KeyError` from the airport table
    | InvalidMode     // `ValueError` from an airport filter

  /** Python truthiness of an optional bound: `None` and `0` are false. */
  predicate IsSet(bound: Option<real>)
  {
    bound.Some? && bound.value != 0.0
  }
}
