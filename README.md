# ADS-B track reconstruction, modelled in Dafny

This project models the core of `adsb_tools.py`, the ADS-B pre-processing module of ATM-datatools. It takes a table of position reports, where each row holds a time of day in seconds, a latitude, a longitude, a geometric height and a target identifier. It turns that table into flight tracks.

- **Normalisation:**
  - Rows with a missing cell are dropped.
  - Identifiers are stripped of surrounding whitespace.
  - Rows whose identifier is empty or made only of `0` are dropped.
  - The optional height floor and ceiling are applied.
- **Stamping:** every row gets a calendar date, a wall-clock time truncated to whole seconds, a Unix timestamp and a point `(lon, lat, height)`.
- **Segmentation:** the rows are grouped by identifier, in sorted identifier order. Within a group, every consecutive pair more than 15 minutes apart (either way) starts a new segment, named `id_1`, `id_2`, …
- **Thinning:** the table is optionally downsampled to every n-th row. Identifiers with two rows or fewer are then dropped.
- **Queries:**
  - By airport: one track per identifier, kept when its first point (departure), last point (arrival) or either point lies inside the box of Changi (WSSS) or Seletar (WSSL).
  - By flight id: the rows whose identifier contains the query text.

The repository ships two copies of the module, and the model covers both through `Records.Variant`:

- **`Package`** is `src/atmdatatools/adsb_tools.py`. The caller passes the date text. Rows before the minimum feed time are stamped with the previous day. All options default to `None`, and the unset `arrdep` is `None`.
- **`Standalone`** is `src/ATM-datatools/adsb_tools.py`. The date is the first eight characters of the file's base name, and every row gets that one date. The defaults are `downsample=0`, `floor=100` and `ceiling=0`, and the unset `arrdep` is `0`.

Module layout:

| module | contents |
|---|---|
| `Wrappers` | `Option` and `Result` |
| `Seqs` | order-preserving selection |
| `Text` | Python `str.strip`, substring search, decimal digits, string order, `os.path.basename` |
| `Calendar` | proleptic Gregorian dates, ISO 8601 texts, Unix time |
| `Records` | the row types, options and errors |
| `Normalise` | the cleaning stages |
| `Stamping` | the date stamping |
| `Segment` | the gap segmenter, as an imperative method proved against a specification |
| `SegmentFacts` | its properties |
| `Thinning` | downsampling and pruning |
| `Airports` | the airport filters |
| `Pipeline` | `read_adsb` / `adsb_preprocessing` |
| `Query` | the two query functions |

Where the code and its documentation disagree, the model follows the code:

- A table with no surviving row is an error (`EmptyTable`), not an empty result. In the package, computing the day-start index fails. In the standalone copy, reading `df2.id` of the empty result fails (src/ATM-datatools/adsb_tools.py:85, on the empty frame created at line 67).
- In the package, an invalid date text fails before the empty-table error. In the standalone copy, the empty-table error comes first.
- An invalid `arrdep` raises only when at least one track exists. An unknown airport name raises even when there are no tracks.

## Model

| member | source | states |
|---|---|---|
| Normalise.Normalised | src/atmdatatools/adsb_tools.py:35-60 | The six cleaning stages; its contract is stated by Normalise.NormalisedIsSurvivors, Normalise.SurvivorsComeFromInput and Normalise.SurvivorsComplete. |
| Normalise.NormalisedIsSurvivors | src/atmdatatools/adsb_tools.py:35-60 | The staged normaliser (drop NaN, strip, drop empty ids, drop all-zero ids, floor, ceiling) equals an independent one-row-at-a-time definition: a row is kept, cleaned and in order exactly when it is complete, its stripped id is non-empty and not all `0`, and its height passes every bound that is set. |
| Normalise.CleanedRowProperties | src/ATM-datatools/adsb_tools.py:31-46 | A surviving row's identifier is non-empty, not all zeros and already stripped; its height is at or above a set floor and at or below a set ceiling. |
| Normalise.SurvivorsComeFromInput | src/atmdatatools/adsb_tools.py:35-60 | Every normalised row is the cleaned form of some surviving input row. |
| Normalise.SurvivorsComplete | src/atmdatatools/adsb_tools.py:35-60 | Every surviving input row appears, cleaned, in the normalised table. |
| Normalise.SurvivorsAreSubsequence | src/atmdatatools/adsb_tools.py:35-60 | The normalised table keeps the input order: it is a subsequence of the cleaned complete rows. |
| Normalise.IdentifierExamples | src/atmdatatools/adsb_tools.py:46-52 | `" UAL123 "` is kept as `UAL123`; `"0000"` and a blank identifier are dropped. |
| Normalise.BoundExamples | src/ATM-datatools/adsb_tools.py:40-46 | A bound of 0 or `None` filters nothing; a non-zero floor keeps exactly the heights at or above it, a non-zero ceiling exactly those at or below it. |
| Normalise.StripIdempotent | src/atmdatatools/adsb_tools.py:46 | Stripping an already stripped identifier changes nothing. |
| Text.Strip | src/atmdatatools/adsb_tools.py:46 | Python `str.strip()`; its contract is stated by Text.StripIsInnerPart, Text.StripUnique and Normalise.StripIdempotent. |
| Text.StripIsInnerPart | src/atmdatatools/adsb_tools.py:46 | `str.strip()` returns a middle slice of its argument: what it removes at each end is whitespace, and the result neither starts nor ends with whitespace. |
| Text.StripUnique | src/ATM-datatools/adsb_tools.py:32 | Conversely, any whitespace prefix and suffix around a text without whitespace at its ends are exactly what stripping removes. |
| Text.Basename | src/ATM-datatools/adsb_tools.py:122 | `os.path.basename` returns the suffix of the path after its last `/`, which contains no `/`. |
| Text.BasenameOfJoin | src/ATM-datatools/adsb_tools.py:122 | The base name of `dir/name` is `name` when `name` contains no `/`. |
| Segment.GroupKeys | src/atmdatatools/adsb_tools.py:85-87 | The group keys are strictly increasing in code-point order and cover exactly the identifiers present. |
| Calendar.PreviousDay | src/atmdatatools/adsb_tools.py:68 | Subtracting one day gives a valid date whose day number is exactly one less. |
| Calendar.UnixTimestampIsPosix | src/atmdatatools/adsb_tools.py:79 | From 1970 on, the model's Unix timestamp equals the POSIX formula for Seconds Since the Epoch on the same fields. |
| Calendar.BasicDateRoundTrip | src/atmdatatools/adsb_tools.py:67 | Re-punctuating `YYYYMMDD` as `YYYY-MM-DD` and parsing it returns the date the text was made from. |
| Calendar.FormatExtendedDateRoundTrip | src/atmdatatools/adsb_tools.py:68-69 | Formatting a date with `%Y-%m-%d` and parsing it back returns the same date. |
| Calendar.ShortDateStrIsInvalid | src/atmdatatools/adsb_tools.py:67-68 | The model's strict `YYYY-MM-DD` reader rejects a date text shorter than eight characters. |
| Calendar.ClockTextRoundTrip | src/ATM-datatools/adsb_tools.py:59 | The `HH:MM:SS` text of a second of the day parses back to that second. |
| Calendar.TimeTextTruncates | src/ATM-datatools/adsb_tools.py:56-59 | The first eight characters of the time of day are its `HH:MM:SS` (the fraction is dropped), and they parse back to the whole second of the day. |
| Stamping.DayStartIndex | src/atmdatatools/adsb_tools.py:72 | The day-start index is the first row holding the minimum feed time: every earlier row has a strictly larger time. |
| Stamping.StampRowFields | src/atmdatatools/adsb_tools.py:75-82 | A stamped row keeps its identifier, its date is the given one, its second of the day is the whole part of the feed time modulo one day, its Unix timestamp is that date-time's, and its point is `(lon, lat, height)`. |
| Stamping.StampAcrossMidnight | src/atmdatatools/adsb_tools.py:66-79 | The package's stamping with the previous day before the day-start index; its contract is stated by Stamping.DayBoundaryDates and Stamping.MinimumFirstMeansOneDate. |
| Stamping.StampSingleDate | src/ATM-datatools/adsb_tools.py:52-60 | The standalone copy's stamping with one date; its contract is stated by Stamping.StampRowFields and Pipeline.MidnightWrapExample. |
| Stamping.DayBoundaryDates | src/atmdatatools/adsb_tools.py:72-78 | Across midnight, a row gets the previous day exactly when it comes before the day-start index, and the reference day otherwise. |
| Stamping.MinimumFirstMeansOneDate | src/atmdatatools/adsb_tools.py:72-78 | When the first row holds the minimum time, stamping across midnight is the same as stamping with one date. |
| Stamping.PreviousDayIsOneDayEarlier | src/atmdatatools/adsb_tools.py:68-79 | The same time of day on the previous day is exactly 86400 s earlier. |
| Stamping.DayBoundaryExample | src/atmdatatools/adsb_tools.py:72-78 | Five reports just before midnight followed by one at 00:00:10 get the previous day and the reference day respectively. |
| Segment.GapIndices | src/atmdatatools/adsb_tools.py:89-91 | The gap positions lie inside the group, with a successor row, and are strictly increasing. |
| Segment.GapIndicesCountSplits | src/atmdatatools/adsb_tools.py:91-96 | The number of gap positions before a row equals the number of gaps before it in the specification. |
| Segment.SegmentIds | src/atmdatatools/adsb_tools.py:85-97 | The outer loop over the sorted keys, with the group renaming of Segment.RenameGroup inside it, produces exactly the specified segmentation. |
| Segment.RenameGroup | src/atmdatatools/adsb_tools.py:88-96 | The inner loop (for each gap position, in order, rename every later row of the group with the next suffix) produces exactly the specified renaming of that group. |
| SegmentFacts.NameChangesExactlyAtGaps | src/atmdatatools/adsb_tools.py:89-96 | Within a group, two consecutive rows get different names if and only if the time between them is more than 15 minutes either way. |
| SegmentFacts.ResolvedName | src/atmdatatools/adsb_tools.py:93-96 | A row's new name is the base id with the number of earlier gaps as suffix (no suffix before the first gap); nothing but the id changes. |
| SegmentFacts.SuffixOrderExample | src/ATM-datatools/adsb_tools.py:74-77 | Three gaps give the names `b`, `b_1`, `b_2`, `b_3` in order. |
| SegmentFacts.ResolveGroupCompact | src/atmdatatools/adsb_tools.py:89-96 | Each renamed group is compact: rows sharing a name are contiguous and no row between them is followed by a gap. |
| SegmentFacts.ResolveGroupWithoutGap | src/atmdatatools/adsb_tools.py:91-97 | A group without gaps is left unchanged. |
| SegmentFacts.SegmentNameInjective | src/atmdatatools/adsb_tools.py:95 | Different suffix numbers give different names. |
| SegmentFacts.SuffixedNameUnique | src/atmdatatools/adsb_tools.py:95 | Two suffixed names are equal only when base and number are. |
| SegmentFacts.NameCollision | src/atmdatatools/adsb_tools.py:95 | Names of different bases collide only when one base already is a suffixed name of the other. |
| SegmentFacts.GroupedPartition | src/atmdatatools/adsb_tools.py:85-88 | Concatenating the groups in key order is a permutation of the table. |
| SegmentFacts.SegmentedLength | src/atmdatatools/adsb_tools.py:85-97 | Segmentation keeps the number of rows. |
| SegmentFacts.SegmentedRows | src/ATM-datatools/adsb_tools.py:66-78 | Every segmented row is an input row whose id was replaced by a suffixed name of the same base. |
| SegmentFacts.SegmentedHasNoGap | src/atmdatatools/adsb_tools.py:85-97 | When no identifier already looks like a suffixed name of another, the output has no gap over 15 minutes within any identifier. |
| SegmentFacts.SegmentedWithoutGap | src/ATM-datatools/adsb_tools.py:66-78 | A table without gaps is only regrouped: the result is the groups in key order, a permutation of the input. |
| SegmentFacts.SegmentIdempotent | src/ATM-datatools/adsb_tools.py:66-78 | When no identifier is a suffixed name of another, segmenting the output again gives the same rows up to order. |
| SegmentFacts.CollisionBreaksGapRule | src/atmdatatools/adsb_tools.py:95 | The rows `ABC`@0, `ABC`@1000, `ABC_1`@5000 break the no-suffix-collision hypothesis, and their segmentation keeps a gap inside `ABC_1`. |
| Thinning.Downsample | src/atmdatatools/adsb_tools.py:100-101 | `iloc[::n]` when `n` is set, the table unchanged otherwise; its contract is stated by Thinning.StrideIndex, Thinning.StrideLength and Thinning.DownsampleRowOrigin. |
| Thinning.DownsampleRowOrigin | src/atmdatatools/adsb_tools.py:100-101 | Row `q` of the downsampled table is a row of the input, namely row `q*n` when `n` is set. |
| Thinning.StrideIndex | src/atmdatatools/adsb_tools.py:100-101 | The i-th row kept by `iloc[::n]` is row `i*n` of the input. |
| Thinning.StrideLength | src/ATM-datatools/adsb_tools.py:81-82 | `iloc[::n]` keeps row number k exactly when `k*n` is a row of the input. |
| Thinning.StrideExample | src/atmdatatools/adsb_tools.py:101 | Every second row of five is rows 0, 2 and 4. |
| Thinning.Prune | src/atmdatatools/adsb_tools.py:104-106 | Dropping the identifiers with two rows or fewer; its contract is stated by Thinning.PruneCounts, Thinning.PruneMembership, Thinning.PruneIdempotent and Thinning.PruneRowOrigin. |
| Thinning.PruneRowOrigin | src/atmdatatools/adsb_tools.py:104-106 | Every pruned row is a row of the table before pruning. |
| Thinning.PruneCounts | src/atmdatatools/adsb_tools.py:104-106 | Pruning keeps an identifier's whole group when it has three rows or more and removes it completely otherwise. |
| Thinning.PruneAtLeastThree | src/ATM-datatools/adsb_tools.py:85-87 | Every identifier left after pruning has at least three rows. |
| Thinning.PruneMembership | src/atmdatatools/adsb_tools.py:104-106 | A row survives pruning if and only if its identifier has at least three rows; the order is kept. |
| Thinning.PruneIdempotent | src/atmdatatools/adsb_tools.py:104-106 | Pruning twice is pruning once. |
| Thinning.ThinnedAtLeastThree | src/ATM-datatools/adsb_tools.py:80-87 | After downsampling and pruning, every row comes from the downsampled table and its identifier has at least three rows. |
| Airports.ArrDep | src/atmdatatools/adsb_tools.py:197-213 | An airport filter fails, with the invalid-mode error, exactly when the mode is not `arr`, `dep` or the variant's unset value; accepting a track means one of its end points lies in the box. |
| Airports.WsssArrDep | src/atmdatatools/adsb_tools.py:197-213 | Changi: `arr` accepts exactly when the last point is within longitude 103.9–104.1 and latitude 1.3–1.4, `dep` the same for the first point, unset for either. |
| Airports.WsslArrDep | src/ATM-datatools/adsb_tools.py:196-212 | Seletar: the same rule with longitude 103.86–103.88 and latitude 1.40–1.43. |
| Airports.AirportBox | src/atmdatatools/adsb_tools.py:180-187 | Only `WSSS` and `WSSL` name an airport, each with its box. |
| Airports.ModesReadOneEnd | src/atmdatatools/adsb_tools.py:200-207 | `arr` depends only on the last point, `dep` only on the first. |
| Airports.UnsetIsEither | src/ATM-datatools/adsb_tools.py:189-192 | The unset mode succeeds and accepts exactly when `arr` or `dep` would. |
| Airports.SentinelsDiffer | src/ATM-datatools/adsb_tools.py:189 | The package rejects `0` and the standalone copy rejects `None` as mode; `ARR` is rejected (comparison is case-sensitive). |
| Airports.WsssBoundsInclusive | src/atmdatatools/adsb_tools.py:201 | The box bounds are inclusive; points just outside are rejected. |
| Airports.SeletarToChangiExample | src/ATM-datatools/adsb_tools.py:178-212 | A flight from Seletar to Changi departs WSSL and arrives at WSSS, but neither arrives at WSSL nor departs WSSS. |
| Pipeline.DefaultOptions | src/ATM-datatools/adsb_tools.py:114-118 | Standalone defaults filter below 100 ft only; package defaults filter nothing; neither downsamples. |
| Pipeline.Preprocessed | src/atmdatatools/adsb_tools.py:9-114 | The specification of `read_adsb` / `adsb_preprocessing` for both variants; its contract is stated by Pipeline.Preprocess, Pipeline.PreprocessedErrors, Pipeline.OutputRowOrigin, Pipeline.OutputWithinBounds, Pipeline.OutputAtLeastThree and Pipeline.OutputHasNoGap. |
| Pipeline.Preprocess | src/atmdatatools/adsb_tools.py:24-111 | The stage-by-stage pipeline (normalise, date, stamp, segment, downsample, prune) equals its specification, including the error cases. |
| Pipeline.PreprocessedErrors | src/atmdatatools/adsb_tools.py:67-72 | The pipeline fails exactly when the date text is invalid or no row survives normalisation, and reports the error the variant reaches first. |
| Pipeline.ShortDateFails | src/atmdatatools/adsb_tools.py:67-68 | With the model's strict date reader, a date text shorter than eight characters makes the modelled pipeline fail with `InvalidDate`. |
| Pipeline.OutputRowOrigin | src/ATM-datatools/adsb_tools.py:17-93 | Every output row comes from a surviving input row: its id is a suffixed name of the cleaned id, its point is that row's, and its time of day is that row's whole second. |
| Pipeline.OutputWithinBounds | src/ATM-datatools/adsb_tools.py:40-46 | Every output height respects the set floor and ceiling. |
| Pipeline.OutputAtLeastThree | src/atmdatatools/adsb_tools.py:104-106 | Every output identifier has at least three rows. |
| Pipeline.OutputHasNoGap | src/atmdatatools/adsb_tools.py:84-106 | Without downsampling, and when no normalised identifier is a suffixed segment name of another, no output identifier has a gap over 15 minutes. |
| Pipeline.MidnightWrapExample | src/ATM-datatools/adsb_tools.py:59-77 | Reports at 23:59:00 and 00:01:00 are a 120 s step across midnight in the package, but 86280 s backwards (a gap) with one date in the standalone copy. |
| Query.Tracks | src/atmdatatools/adsb_tools.py:176-177 | There is one track per distinct identifier. |
| Query.TracksAreGroups | src/atmdatatools/adsb_tools.py:176-177 | Each track lists, in table order, the points of exactly the rows with its identifier, and the tracks come in key order. |
| Query.EveryIdHasTrack | src/ATM-datatools/adsb_tools.py:126 | Every row's identifier has a track. |
| Query.OutputTracksHaveThreePoints | src/ATM-datatools/adsb_tools.py:126-127 | Every track built from the pipeline output has at least three points. |
| Query.ByAirport | src/atmdatatools/adsb_tools.py:147-193 | The package's `read_adsb_byairport`; its contract is stated by Query.ByAirportPropagates, Query.ByAirportErrors and Query.ByAirportSelects. |
| Query.ByFlightId | src/atmdatatools/adsb_tools.py:117-144 | The package's `read_adsb_byflightid`; its contract is stated by Query.ByFlightIdSelects and Query.QueryMatchesSegments. |
| Query.StandaloneByAirport | src/ATM-datatools/adsb_tools.py:96-143 | The standalone `read_adsb_byairport`: the airport query of the standalone variant on the date text Query.FileDate takes from the file name; Query.ByAirportPropagates, Query.ByAirportErrors and Query.ByAirportSelects state its contract through that equation, and Query.FileDateOfPath the date it uses. |
| Query.StandaloneByFlightId | src/ATM-datatools/adsb_tools.py:146-174 | The standalone `read_adsb_byflightid`: the flight-id query of the standalone variant on the date text Query.FileDate takes from the file name; Query.ByFlightIdSelects states its contract through that equation. |
| Query.ByAirportPropagates | src/atmdatatools/adsb_tools.py:173 | A failing pipeline makes the airport query fail with the same error. |
| Query.ByAirportErrors | src/ATM-datatools/adsb_tools.py:130-138 | An unknown airport fails; with a known airport the query fails exactly when there is a track and the mode is invalid. |
| Query.ByAirportSelects | src/atmdatatools/adsb_tools.py:187-188 | A successful airport query returns, in key order, exactly the tracks the airport filter accepts. |
| Query.ByFlightIdSelects | src/ATM-datatools/adsb_tools.py:169 | A successful flight-id query returns, in order, exactly the pipeline rows whose identifier contains the query text. |
| Query.QueryMatchesSegments | src/atmdatatools/adsb_tools.py:139 | Querying a base identifier also finds all its segments (`MEDIC77` finds `MEDIC77_1`). |
| Query.FileDate | src/ATM-datatools/adsb_tools.py:165 | The date text is at most the first eight characters of the base name, and exactly eight when the name is that long. |
| Query.FileDateOfPath | src/ATM-datatools/adsb_tools.py:122 | For `dir/name` the date text is the first eight characters of `name`. |
| Query.FileDateExample | src/ATM-datatools/adsb_tools.py:122 | `dir/20230105_feed.csv` gives `20230105`. |

## Left out

- Reading the CSV file and selecting and renaming its columns. The model starts from the five selected columns. A missing column, which raises `KeyError`, is not modelled.
- The `astype` conversion to `float`. Cells are already numbers or missing, so a conversion failure is not modelled.
- Non-string identifiers: both copies raise on them. The package raises at the `.str` accessor (src/atmdatatools/adsb_tools.py:46), the standalone copy at `x.strip()` (src/ATM-datatools/adsb_tools.py:32). The model's identifiers are always text.
- The regular expressions: `^0+$` is modelled as "non-empty and all `0`". The flight-id query is modelled as a literal substring search, with no regular-expression metacharacters.
- The `radius` option is accepted and ignored by the source, and the model has no such option.
- `downsample` is a natural number, with 0 standing for `None` and `0`. Negative, float and other truthy values are not modelled.
- Python equality between `False`, `0.0` and `0` when matching a mode is not modelled. Only the text modes, `None` and the integer `0` are distinguished.
- Date parsing: pandas accepts more spellings than `YYYY-MM-DD` with four, two and two digits, and limits timestamps to years 1677–2262. The model parses exactly that shape, with a four-digit year.
- Floating point: times, coordinates and heights are exact reals. Rounding in the seconds-to-time conversion and in coordinate comparisons is not modelled. Fractional seconds are dropped when the time is truncated to `HH:MM:SS`, as in the source.
- Shapely, geopandas, the `LineString` objects, the CRS and `reset_index` are modelled as plain sequences of points and rows.
- Calendar.ShortDateStrIsInvalid: pandas' `to_datetime` also reads one-digit months and days. From `2023051` the source builds `2023-05-1`, which pandas reads as 1 May 2023, so the source pipeline runs; the model's strict reader rejects it.
- Pipeline.ShortDateFails: for the same reason, the source does not fail on every date text shorter than eight characters. `2023051` gives `2023-05-1`, which pandas accepts as 1 May 2023; the modelled pipeline fails on it.
- Airports.ArrDep: requires a non-empty path. The source would raise an `IndexError` on an empty one, but every track it builds has at least three points (Query.OutputTracksHaveThreePoints).
- SegmentFacts.SegmentedHasNoGap: assumes no identifier is a suffixed name of another. SegmentFacts.CollisionBreaksGapRule shows the property fails otherwise: the source renames rows into an existing identifier without re-checking its gaps.
- Pipeline.OutputHasNoGap: assumes no downsampling. Downsampling removes rows and can open new gaps inside a segment after segmentation.
- Pipeline.Preprocess: the pandas frame, its index and its mutation in place are modelled as a sequence value reassigned stage by stage. The labels used by `tmp.loc[idx+1:]` are increasing row numbers, so label slicing is positional slicing.
