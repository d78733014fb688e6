/** Preprocessing from raw rows to resolved, thinned fixes (`read_adsb` in the package,
    `adsb_preprocessing` in the standalone copy). */
module Pipeline {
  import opened Wrappers
  import opened Seqs
  import opened Text
  import opened Calendar
  import opened Records
  import opened Normalise
  import opened Stamping
  import opened Segment
  import opened SegmentFacts
  import opened Thinning

  /** The keyword defaults: `None` everywhere in the package; `downsample=0, floor=100, ceiling=0`
      in the standalone copy. */
  function DefaultOptions(v: Variant): (o: Options)
    ensures o.downsample == 0
    ensures v == Package ==> !IsSet(o.floor) && !IsSet(o.ceiling)
    ensures v == Standalone ==> o.floor == Some(100.0) && !IsSet(o.ceiling)
  {
    match v
    case Package => Options(0, None, None)
    case Standalone => Options(0, Some(100.0), Some(0.0))
  }

  /** Day-boundary stamping in the package, one date in the standalone copy. */
  function Stamped(v: Variant, df: seq<Row>, date: Date): (r: seq<Fix>)
    requires |df| > 0 && IsValidDate(date)
    ensures |r| == |df|
  {
    match v
    case Package => StampAcrossMidnight(df, date)
    case Standalone => StampSingleDate(df, date)
  }

  /** The result of preprocessing. The package parses the date before it looks up the first row of the
      day, so a bad date wins over an empty table; the standalone copy parses the date row by row, so an
      empty table fails first (on `df2.id` of the empty result). */
  function Preprocessed(v: Variant, raw: seq<RawRow>, datestr: string, opts: Options): Result<seq<Fix>, Error>
  {
    var df := Normalised(raw, opts.floor, opts.ceiling);
    var date := ParseBasicDate(datestr);
    if v == Package && date.None? then Err(InvalidDate)
    else if df == [] then Err(EmptyTable)
    else if date.None? then Err(InvalidDate)
    else Ok(Thinned(Segmented(Stamped(v, df, date.value)), opts.downsample))
  }

  /** Preprocessing as the source performs it: the table is reassigned stage by stage. */
  method Preprocess(v: Variant, raw: seq<RawRow>, datestr: string, opts: Options) returns (r: Result<seq<Fix>, Error>)
    ensures r == Preprocessed(v, raw, datestr, opts)
  {
    var df := DropMissing(raw);
    df := StripIds(df);
    df := Filter(df, HasNonEmptyId);
    df := Filter(df, HasNonZeroId);
    if IsSet(opts.floor) {
      df := Filter(df, AtOrAbove(opts.floor.value));
    }
    if IsSet(opts.ceiling) {
      df := Filter(df, AtOrBelow(opts.ceiling.value));
    }
    assert df == Normalised(raw, opts.floor, opts.ceiling);
    var date := ParseBasicDate(datestr);
    var stamped: seq<Fix>;
    if v == Package {
      if date.None? {
        return Err(InvalidDate);
      }
      if |df| == 0 {
        return Err(EmptyTable);
      }
      stamped := StampAcrossMidnight(df, date.value);
    } else {
      if |df| == 0 {
        return Err(EmptyTable);
      }
      if date.None? {
        return Err(InvalidDate);
      }
      stamped := StampSingleDate(df, date.value);
    }
    var df2 := SegmentIds(stamped);
    if opts.downsample > 0 {
      df2 := Stride(df2, opts.downsample);
    }
    df2 := Prune(df2);
    r := Ok(df2);
  }

  // ---- errors ----

  /** When preprocessing fails, and with which error, in each copy. */
  lemma PreprocessedErrors(v: Variant, raw: seq<RawRow>, datestr: string, opts: Options)
    ensures var r := Preprocessed(v, raw, datestr, opts);
            var empty := Normalised(raw, opts.floor, opts.ceiling) == [];
            var bad := ParseBasicDate(datestr).None?;
            && (r.Ok? <==> !empty && !bad)
            && (v == Package ==> (r == Err(InvalidDate) <==> bad) && (r == Err(EmptyTable) <==> !bad && empty))
            && (v == Standalone ==> (r == Err(EmptyTable) <==> empty) && (r == Err(InvalidDate) <==> !empty && bad))
  {
  }

  /** A reference date text shorter than eight characters never names a day. */
  lemma ShortDateFails(v: Variant, raw: seq<RawRow>, datestr: string, opts: Options)
    requires |datestr| < 8
    ensures Preprocessed(v, raw, datestr, opts).Err?
  {
    ShortDateStrIsInvalid(datestr);
  }

  // ---- where each output row comes from ----

  lemma StampedRow(v: Variant, df: seq<Row>, date: Date, j: nat)
    requires |df| > 0 && IsValidDate(date) && j < |df|
    ensures exists d :: IsValidDate(d) && Stamped(v, df, date)[j] == StampRow(df[j], d)
  {
    if v == Package {
      var k := DayStartIndex(df);
      var d := if j < k then PreviousDay(date) else date;
      assert Stamped(v, df, date)[j] == StampRow(df[j], d);
    } else {
      assert Stamped(v, df, date)[j] == StampRow(df[j], date);
    }
  }

  lemma ThinnedRowOrigin(s: seq<Fix>, n: nat, i: nat) returns (k: nat)
    requires i < |Thinned(s, n)|
    ensures k < |s| && Thinned(s, n)[i] == s[k]
  {
    var q := PruneRowOrigin(Downsample(s, n), i);
    k := DownsampleRowOrigin(s, n, q);
  }

  /** Every output row is a raw row that survives normalisation: same position and height, its feed time
      truncated to whole seconds, and its cleaned identifier or one of that identifier's segment names. */
  lemma OutputRowOrigin(v: Variant, raw: seq<RawRow>, datestr: string, opts: Options, i: nat) returns (m: nat, n: nat)
    requires Preprocessed(v, raw, datestr, opts).Ok? && i < |Preprocessed(v, raw, datestr, opts).value|
    ensures m < |raw| && Survives(raw[m], opts.floor, opts.ceiling)
    ensures var f := Preprocessed(v, raw, datestr, opts).value[i];
            var c := Cleaned(raw[m]);
            && f.id == SegmentName(c.id, n)
            && f.geometry == Point(c.lon, c.lat, c.height)
            && f.datetime.second == SecondOfDay(c.time)
  {
    var df := Normalised(raw, opts.floor, opts.ceiling);
    var date := ParseBasicDate(datestr).value;
    var st := Stamped(v, df, date);
    var seg := Segmented(st);
    var out := Thinned(seg, opts.downsample);
    var k := ThinnedRowOrigin(seg, opts.downsample, i);
    SegmentedRows(st);
    var j: nat, n': nat :| j < |st| && seg[k] == st[j].(id := SegmentName(st[j].id, n'));
    StampedRow(v, df, date, j);
    var d :| IsValidDate(d) && st[j] == StampRow(df[j], d);
    NormalisedIsSurvivors(raw, opts.floor, opts.ceiling);
    m := SurvivorsComeFromInput(raw, opts.floor, opts.ceiling, j);
    n := n';
  }

  /** The altitude band holds for every output row. */
  lemma OutputWithinBounds(v: Variant, raw: seq<RawRow>, datestr: string, opts: Options, i: nat)
    requires Preprocessed(v, raw, datestr, opts).Ok? && i < |Preprocessed(v, raw, datestr, opts).value|
    ensures var h := Preprocessed(v, raw, datestr, opts).value[i].geometry.height;
            && (IsSet(opts.floor) ==> h >= opts.floor.value)
            && (IsSet(opts.ceiling) ==> h <= opts.ceiling.value)
  {
    var m, n := OutputRowOrigin(v, raw, datestr, opts, i);
  }

  /** Every identifier in the output has at least three rows. */
  lemma OutputAtLeastThree(v: Variant, raw: seq<RawRow>, datestr: string, opts: Options, i: nat)
    requires Preprocessed(v, raw, datestr, opts).Ok? && i < |Preprocessed(v, raw, datestr, opts).value|
    ensures var out := Preprocessed(v, raw, datestr, opts).value;
            IdCount(out, out[i].id) >= 3
  {
    var df := Normalised(raw, opts.floor, opts.ceiling);
    var date := ParseBasicDate(datestr).value;
    ThinnedAtLeastThree(Segmented(Stamped(v, df, date)), opts.downsample, i);
  }

  // ---- the gap rule end to end ----

  lemma StampedKeepsIds(v: Variant, df: seq<Row>, date: Date)
    requires |df| > 0 && IsValidDate(date) && SuffixFree(RowIds(df))
    ensures NoSuffixCollision(Stamped(v, df, date))
  {
    var st := Stamped(v, df, date);
    forall i | 0 <= i < |st| ensures Ids(st)[i] == RowIds(df)[i] {
      StampedRow(v, df, date, i);
    }
    assert Ids(st) == RowIds(df);
  }

  /** Pruning removes whole identifiers, so it keeps every remaining identifier free of gaps. */
  lemma PruneKeepsNoGap(df: seq<Fix>)
    requires NoGapPerId(df)
    ensures NoGapPerId(Prune(df))
  {
    forall x ensures NoGap(Group(Prune(df), x)) {
      PruneCounts(df, x);
    }
  }

  /** Without downsampling, consecutive fixes of one output identifier are at most 15 minutes apart
      (given identifiers that are not already suffixed names). */
  lemma OutputHasNoGap(v: Variant, raw: seq<RawRow>, datestr: string, opts: Options)
    requires Preprocessed(v, raw, datestr, opts).Ok? && opts.downsample == 0
    requires SuffixFree(RowIds(Normalised(raw, opts.floor, opts.ceiling)))
    ensures NoGapPerId(Preprocessed(v, raw, datestr, opts).value)
  {
    var df := Normalised(raw, opts.floor, opts.ceiling);
    var st := Stamped(v, df, ParseBasicDate(datestr).value);
    StampedKeepsIds(v, df, ParseBasicDate(datestr).value);
    SegmentedHasNoGap(st);
    PruneKeepsNoGap(Segmented(st));
  }

  /** One aircraft seen at 23:59:00 and again at 00:01:00. The standalone copy stamps both on one date,
      so the second fix is 86280 s before the first and starts a new segment; the package moves the
      first fix to the previous day, and the two are 120 s apart. */
  lemma MidnightWrapExample(r1: Row, r2: Row, ref: Date)
    requires IsValidDate(ref) && r1.id == r2.id && r1.time == 86340.0 && r2.time == 60.0
    ensures StampSingleDate([r1, r2], ref)[1].unix - StampSingleDate([r1, r2], ref)[0].unix == -86280
    ensures IsGap(StampSingleDate([r1, r2], ref), 0)
    ensures StampAcrossMidnight([r1, r2], ref)[1].unix - StampAcrossMidnight([r1, r2], ref)[0].unix == 120
    ensures !IsGap(StampAcrossMidnight([r1, r2], ref), 0)
  {
    assert SecondOfDay(86340.0) == 86340 && SecondOfDay(60.0) == 60;
    assert DayStartIndex([r1, r2]) == 1;
  }
}
