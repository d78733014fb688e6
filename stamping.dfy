/** Timestamping: the day-boundary resolver of src/atmdatatools and the single-date stamping of
    src/ATM-datatools. */
module Stamping {
  import opened Calendar
  import opened Records

  /** Row `j` holds the smallest feed time of the table. */
  ghost predicate IsMinimum(df: seq<Row>, j: int)
    requires 0 <= j < |df|
  {
    forall l :: 0 <= l < |df| ==> df[j].time <= df[l].time
  }

  /** `dayidx`: the first row holding the minimum feed time. */
  function DayStartIndex(df: seq<Row>): (k: nat)
    requires |df| > 0
    ensures k < |df| && IsMinimum(df, k)
    ensures forall j :: 0 <= j < k ==> df[j].time > df[k].time
  {
    if |df| == 1 then 0
    else
      var k := DayStartIndex(df[..|df| - 1]);
      if df[|df| - 1].time < df[k].time then |df| - 1 else k
  }

  /** One output row: its date and the feed time truncated to a second of the day. */
  function StampRow(r: Row, date: Date): (f: Fix)
    requires IsValidDate(date)
    ensures IsValidDateTime(f.datetime)
  {
    var t := DateTime(date, SecondOfDay(r.time));
    Fix(r.id, t, UnixTimestamp(t), Point(r.lon, r.lat, r.height))
  }

  /** Rows before `dayidx` are stamped on the previous day, rows from it on with the reference date. */
  function StampAcrossMidnight(df: seq<Row>, ref: Date): (r: seq<Fix>)
    requires |df| > 0 && IsValidDate(ref)
    ensures |r| == |df|
  {
    var k := DayStartIndex(df);
    seq(|df|, i requires 0 <= i < |df| => StampRow(df[i], if i < k then PreviousDay(ref) else ref))
  }

  /** Every row is stamped with the one reference date. */
  function StampSingleDate(df: seq<Row>, ref: Date): (r: seq<Fix>)
    requires IsValidDate(ref)
    ensures |r| == |df|
  {
    seq(|df|, i requires 0 <= i < |df| => StampRow(df[i], ref))
  }

  /** Stamping keeps the identifier and the position, and its timestamp is the POSIX seconds of the
      assigned date at the truncated feed time. */
  lemma StampRowFields(r: Row, date: Date)
    requires IsValidDate(date)
    ensures var f := StampRow(r, date);
            && f.id == r.id && f.geometry == Point(r.lon, r.lat, r.height)
            && f.datetime.date == date && f.datetime.second == r.time.Floor % 86400
            && f.unix == EpochDay(date) * 86400 + r.time.Floor % 86400
  {
  }

  /** The day boundary, stated without `dayidx`: a row is stamped with the reference date exactly when
      a minimum of the feed time occurs at or before it; otherwise it is stamped the day before. */
  lemma DayBoundaryDates(df: seq<Row>, ref: Date, i: int)
    requires |df| > 0 && IsValidDate(ref) && 0 <= i < |df|
    ensures var d := StampAcrossMidnight(df, ref)[i].datetime.date;
            && (d == ref <==> exists j :: 0 <= j <= i && IsMinimum(df, j))
            && (d == PreviousDay(ref) <==> forall j :: 0 <= j <= i ==> !IsMinimum(df, j))
  {
    var k := DayStartIndex(df);
    assert EpochDay(PreviousDay(ref)) != EpochDay(ref);
    if k <= i {
      assert IsMinimum(df, k);
    } else {
      forall j | 0 <= j <= i ensures !IsMinimum(df, j) {
        assert df[j].time > df[k].time;
      }
    }
  }

  /** When the first row is a minimum, no row is moved to the previous day. */
  lemma MinimumFirstMeansOneDate(df: seq<Row>, ref: Date)
    requires |df| > 0 && IsValidDate(ref) && IsMinimum(df, 0)
    ensures StampAcrossMidnight(df, ref) == StampSingleDate(df, ref)
  {
    assert DayStartIndex(df) == 0;
  }

  /** A row moved to the previous day is stamped exactly one day (86400 s) earlier than the same feed
      time on the reference date. */
  lemma PreviousDayIsOneDayEarlier(r: Row, ref: Date)
    requires IsValidDate(ref)
    ensures StampRow(r, PreviousDay(ref)).unix == StampRow(r, ref).unix - 86400
  {
  }

  /** The worked example of the day boundary: five late-evening rows followed by the day's first reading
      at 10 s. The first five rows are stamped on the previous day and the rest on the reference day. */
  lemma DayBoundaryExample(df: seq<Row>, ref: Date)
    requires |df| >= 6 && IsValidDate(ref)
    requires forall j :: 0 <= j < 5 ==> 86280.0 <= df[j].time < 86400.0
    requires df[5].time == 10.0
    requires forall j :: 5 <= j < |df| ==> df[j].time >= 10.0
    ensures forall j :: 0 <= j < 5 ==> StampAcrossMidnight(df, ref)[j].datetime.date == PreviousDay(ref)
    ensures forall j :: 5 <= j < |df| ==> StampAcrossMidnight(df, ref)[j].datetime.date == ref
  {
    assert IsMinimum(df, 5);
    assert DayStartIndex(df) == 5;
  }
}
