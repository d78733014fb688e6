/** The query façade: tracks filtered by airport (`read_adsb_byairport`) or rows filtered by flight
    identifier (`read_adsb_byflightid`), in both copies. */
module Query {
  import opened Wrappers
  import opened Seqs
  import opened Text
  import opened Records
  import opened Segment
  import opened Thinning
  import opened Airports
  import opened Pipeline

  /** One row of `df.groupby('id')['geometry'].apply(list)` turned into a line: an identifier and its
      points in table order. */
  datatype Track = Track(id: string, path: seq<Point>)

  function Points(g: seq<Fix>): seq<Point>
  {
    seq(|g|, j requires 0 <= j < |g| => g[j].geometry)
  }

  /** The tracks of a table, one per identifier, in ascending identifier order. */
  function Tracks(df: seq<Fix>): (ts: seq<Track>)
    ensures |ts| == |GroupKeys(df)|
  {
    var ks := GroupKeys(df);
    seq(|ks|, i requires 0 <= i < |ks| => Track(ks[i], Points(Group(df, ks[i]))))
  }

  /** A track the classifier accepts. */
  predicate Selected(v: Variant, b: Box, mode: ModeArg, t: Track)
  {
    |t.path| > 0 && ArrDep(v, b, t.path, mode) == Ok(true)
  }

  /** `df_geo.loc[df_geo.apply(filter, args=[arrdep])]`: the classifier is only called on existing tracks,
      so a bad mode raises only when there is at least one. */
  function SelectTracks(v: Variant, b: Box, mode: ModeArg, ts: seq<Track>): Result<seq<Track>, Error>
  {
    if |ts| > 0 && !IsValidMode(v, mode) then Err(InvalidMode)
    else Ok(Filter(ts, (t: Track) => Selected(v, b, mode, t)))
  }

  /** `read_adsb_byairport`: preprocessing errors first, then the airport lookup, then the classifier. */
  function ByAirport(v: Variant, raw: seq<RawRow>, datestr: string, airport: string, mode: ModeArg, opts: Options)
    : Result<seq<Track>, Error>
  {
    match Preprocessed(v, raw, datestr, opts)
    case Err(e) => Err(e)
    case Ok(df) =>
      match AirportBox(airport)
      case None => Err(UnknownAirport)
      case Some(b) => SelectTracks(v, b, mode, Tracks(df))
  }

  /** `read_adsb_byflightid`: the rows whose resolved identifier contains the query. */
  function ByFlightId(v: Variant, raw: seq<RawRow>, datestr: string, flightid: string, opts: Options)
    : Result<seq<Fix>, Error>
  {
    match Preprocessed(v, raw, datestr, opts)
    case Err(e) => Err(e)
    case Ok(df) => Ok(Filter(df, (f: Fix) => HasSubstring(f.id, flightid)))
  }

  /** The standalone copy takes the date from the file name: `os.path.basename(fname)[0:8]`. */
  function FileDate(fname: string): (d: string)
    ensures |d| <= 8 && |d| <= |Basename(fname)| && '/' !in d
    ensures d == Basename(fname)[..|d|]
    ensures |Basename(fname)| >= 8 ==> |d| == 8
  {
    Slice(Basename(fname), 0, 8)
  }

  function StandaloneByAirport(raw: seq<RawRow>, fname: string, airport: string, mode: ModeArg, opts: Options)
    : Result<seq<Track>, Error>
  {
    ByAirport(Standalone, raw, FileDate(fname), airport, mode, opts)
  }

  function StandaloneByFlightId(raw: seq<RawRow>, fname: string, flightid: string, opts: Options)
    : Result<seq<Fix>, Error>
  {
    ByFlightId(Standalone, raw, FileDate(fname), flightid, opts)
  }

  // ---- tracks ----

  /** Track `i` holds exactly the points of the rows with its identifier, in table order; identifiers
      come in strictly ascending order and each identifier of the table has its track. */
  lemma TracksAreGroups(df: seq<Fix>, i: nat)
    requires i < |Tracks(df)|
    ensures var t := Tracks(df)[i];
            && t.id == GroupKeys(df)[i]
            && |t.path| == IdCount(df, t.id)
            && forall j :: 0 <= j < |t.path| ==> t.path[j] == Group(df, t.id)[j].geometry
  {
  }

  lemma EveryIdHasTrack(df: seq<Fix>, r: nat) returns (i: nat)
    requires r < |df|
    ensures i < |Tracks(df)| && Tracks(df)[i].id == df[r].id
  {
    assert Ids(df)[r] == df[r].id;
    assert df[r].id in Ids(df);
    var ks := GroupKeys(df);
    assert df[r].id in ks;
    i :| 0 <= i < |ks| && ks[i] == df[r].id;
  }

  /** Every track built from preprocessed rows has at least three points, so its first and last point
      exist. */
  lemma OutputTracksHaveThreePoints(v: Variant, raw: seq<RawRow>, datestr: string, opts: Options, i: nat)
    requires Preprocessed(v, raw, datestr, opts).Ok?
    requires i < |Tracks(Preprocessed(v, raw, datestr, opts).value)|
    ensures |Tracks(Preprocessed(v, raw, datestr, opts).value)[i].path| >= 3
  {
    var df := Preprocessed(v, raw, datestr, opts).value;
    var k := GroupKeys(df)[i];
    assert k in Ids(df);
    var r :| 0 <= r < |df| && Ids(df)[r] == k;
    OutputAtLeastThree(v, raw, datestr, opts, r);
  }

  // ---- the airport query ----

  /** A failed preprocessing run fails the airport query with the same error. */
  lemma ByAirportPropagates(v: Variant, raw: seq<RawRow>, datestr: string, airport: string, mode: ModeArg, opts: Options)
    requires Preprocessed(v, raw, datestr, opts).Err?
    ensures ByAirport(v, raw, datestr, airport, mode, opts) == Err(Preprocessed(v, raw, datestr, opts).error)
  {
  }

  /** After a successful preprocessing run: an unknown airport fails even when no track is left, and a bad
      mode fails only when a track is left. */
  lemma ByAirportErrors(v: Variant, raw: seq<RawRow>, datestr: string, airport: string, mode: ModeArg, opts: Options)
    requires Preprocessed(v, raw, datestr, opts).Ok?
    ensures var ts := Tracks(Preprocessed(v, raw, datestr, opts).value);
            var known := airport == "WSSS" || airport == "WSSL";
            var r := ByAirport(v, raw, datestr, airport, mode, opts);
            && (r == Err(UnknownAirport) <==> !known)
            && (r == Err(InvalidMode) <==> known && |ts| > 0 && !IsValidMode(v, mode))
            && (r.Ok? <==> known && (|ts| == 0 || IsValidMode(v, mode)))
  {
    var df := Preprocessed(v, raw, datestr, opts).value;
    assert ByAirport(v, raw, datestr, airport, mode, opts)
        == if AirportBox(airport).None? then Err(UnknownAirport)
           else SelectTracks(v, AirportBox(airport).value, mode, Tracks(df));
  }

  /** A known airport returns exactly the tracks its classifier accepts, in identifier order. */
  lemma ByAirportSelects(v: Variant, raw: seq<RawRow>, datestr: string, airport: string, mode: ModeArg, opts: Options)
    requires ByAirport(v, raw, datestr, airport, mode, opts).Ok?
    ensures var ts := Tracks(Preprocessed(v, raw, datestr, opts).value);
            var b := AirportBox(airport).value;
            var r := ByAirport(v, raw, datestr, airport, mode, opts).value;
            && (forall i :: 0 <= i < |ts| ==> (ts[i] in r <==> |ts[i].path| > 0 && ArrDep(v, b, ts[i].path, mode) == Ok(true)))
            && (forall j :: 0 <= j < |r| ==> r[j] in ts && ArrDep(v, b, r[j].path, mode) == Ok(true))
            && IsSubsequence(r, ts)
  {
    var ts := Tracks(Preprocessed(v, raw, datestr, opts).value);
    var b := AirportBox(airport).value;
    assert ByAirport(v, raw, datestr, airport, mode, opts) == SelectTracks(v, b, mode, ts);
    SelectTracksSelects(v, b, mode, ts);
  }

  lemma SelectTracksSelects(v: Variant, b: Box, mode: ModeArg, ts: seq<Track>)
    requires SelectTracks(v, b, mode, ts).Ok?
    ensures var r := SelectTracks(v, b, mode, ts).value;
            && (forall i :: 0 <= i < |ts| ==> (ts[i] in r <==> |ts[i].path| > 0 && ArrDep(v, b, ts[i].path, mode) == Ok(true)))
            && (forall j :: 0 <= j < |r| ==> r[j] in ts && ArrDep(v, b, r[j].path, mode) == Ok(true))
            && IsSubsequence(r, ts)
  {
    FilterIsSubsequence(ts, (t: Track) => Selected(v, b, mode, t));
  }

  // ---- the flight-identifier query ----

  /** Exactly the rows whose identifier contains the query are kept, in table order. */
  lemma ByFlightIdSelects(v: Variant, raw: seq<RawRow>, datestr: string, flightid: string, opts: Options)
    requires ByFlightId(v, raw, datestr, flightid, opts).Ok?
    ensures var df := Preprocessed(v, raw, datestr, opts).value;
            var r := ByFlightId(v, raw, datestr, flightid, opts).value;
            && (forall i :: 0 <= i < |df| ==> (df[i] in r <==> HasSubstring(df[i].id, flightid)))
            && (forall j :: 0 <= j < |r| ==> HasSubstring(r[j].id, flightid))
            && IsSubsequence(r, df)
  {
    var df := Preprocessed(v, raw, datestr, opts).value;
    FilterIsSubsequence(df, (f: Fix) => HasSubstring(f.id, flightid));
  }

  /** A base identifier matches all of its segments: querying `MEDIC77` also returns `MEDIC77_1`. */
  lemma QueryMatchesSegments(base: string, n: nat)
    ensures HasSubstring(SegmentName(base, n), base)
    ensures HasSubstring("MEDIC77_1", "MEDIC77")
  {
    if n == 0 {
      assert SegmentName(base, n) == base + [];
      PrefixIsSubstring(base, []);
    } else {
      PrefixIsSubstring(base, "_" + NatToString(n));
      assert SegmentName(base, n) == base + ("_" + NatToString(n));
    }
    PrefixIsSubstring("MEDIC77", "_1");
    assert "MEDIC77" + "_1" == "MEDIC77_1";
  }

  /** The standalone copy reads the date from the first eight characters of the file's name, whatever
      directory it is in. */
  lemma FileDateOfPath(dir: string, name: string)
    requires '/' !in name && |name| >= 8
    ensures FileDate(dir + "/" + name) == name[..8]
  {
    BasenameOfJoin(dir, name);
  }

  lemma FileDateExample(dir: string)
    ensures FileDate(dir + "/" + "20230105_feed.csv") == "20230105"
  {
    var name := "20230105_feed.csv";
    assert '/' !in name;
    FileDateOfPath(dir, name);
  }
}
