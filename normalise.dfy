/** The record normaliser: missing cells, identifier clean-up and the altitude band. */
module Normalise {
  import opened Wrappers
  import opened Seqs
  import opened Text
  import opened Records

  predicate IsComplete(r: RawRow)
  {
    r.time.Some? && r.lat.Some? && r.lon.Some? && r.height.Some? && r.id.Some?
  }

  function ToRow(r: RawRow): Row
    requires IsComplete(r)
  {
    Row(r.time.value, r.lat.value, r.lon.value, r.height.value, r.id.value)
  }

  /** `df.dropna(inplace=True)` followed by the `astype` conversion. */
  function DropMissing(raw: seq<RawRow>): (df: seq<Row>)
    ensures |df| <= |raw|
  {
    if raw == [] then []
    else if IsComplete(raw[0]) then [ToRow(raw[0])] + DropMissing(raw[1..])
    else DropMissing(raw[1..])
  }

  /** `df['id'] = df['id'].str.strip()`. */
  function StripIds(df: seq<Row>): (r: seq<Row>)
    ensures |r| == |df|
  {
    if df == [] then [] else [df[0].(id := Strip(df[0].id))] + StripIds(df[1..])
  }

  predicate HasNonEmptyId(r: Row)
  {
    |r.id| != 0
  }

  predicate HasNonZeroId(r: Row)
  {
    !AllZeros(r.id)
  }

  function AtOrAbove(floor: real): Row -> bool
  {
    (r: Row) => r.height >= floor
  }

  function AtOrBelow(ceiling: real): Row -> bool
  {
    (r: Row) => r.height <= ceiling
  }

  /** `if floor: df = df.loc[(df.height >= floor)]`. */
  function ApplyFloor(df: seq<Row>, floor: Option<real>): seq<Row>
  {
    if IsSet(floor) then Filter(df, AtOrAbove(floor.value)) else df
  }

  /** `if ceiling: df = df.loc[(df.height <= ceiling)]`. */
  function ApplyCeiling(df: seq<Row>, ceiling: Option<real>): seq<Row>
  {
    if IsSet(ceiling) then Filter(df, AtOrBelow(ceiling.value)) else df
  }

  /** The normaliser: every stage in source order. */
  function Normalised(raw: seq<RawRow>, floor: Option<real>, ceiling: Option<real>): seq<Row>
  {
    var df := DropMissing(raw);
    var df := StripIds(df);
    var df := Filter(df, HasNonEmptyId);
    var df := Filter(df, HasNonZeroId);
    var df := ApplyFloor(df, floor);
    ApplyCeiling(df, ceiling)
  }

  // ---- a one-row reference definition ----

  /** The row a complete raw row becomes: its identifier stripped. */
  function Cleaned(r: RawRow): Row
    requires IsComplete(r)
  {
    ToRow(r).(id := Strip(r.id.value))
  }

  /** Whether a raw row survives normalisation, decided on that row alone. */
  predicate Survives(r: RawRow, floor: Option<real>, ceiling: Option<real>)
  {
    && IsComplete(r)
    && |Strip(r.id.value)| != 0
    && !AllZeros(Strip(r.id.value))
    && (IsSet(floor) ==> r.height.value >= floor.value)
    && (IsSet(ceiling) ==> r.height.value <= ceiling.value)
  }

  /** The surviving rows, cleaned, in input order. */
  function Survivors(raw: seq<RawRow>, floor: Option<real>, ceiling: Option<real>): seq<Row>
  {
    if raw == [] then []
    else if Survives(raw[0], floor, ceiling) then [Cleaned(raw[0])] + Survivors(raw[1..], floor, ceiling)
    else Survivors(raw[1..], floor, ceiling)
  }

  /** The identifier column. */
  function RowIds(df: seq<Row>): (r: seq<string>)
    ensures |r| == |df|
  {
    seq(|df|, i requires 0 <= i < |df| => df[i].id)
  }

  lemma {:induction false} StripIdsConcat(a: seq<Row>, b: seq<Row>)
    ensures StripIds(a + b) == StripIds(a) + StripIds(b)
  {
    if a == [] {
      assert a + b == b;
    } else {
      assert (a + b)[1..] == a[1..] + b;
      StripIdsConcat(a[1..], b);
    }
  }

  lemma ApplyBoundsConcat(a: seq<Row>, b: seq<Row>, floor: Option<real>, ceiling: Option<real>)
    ensures ApplyFloor(a + b, floor) == ApplyFloor(a, floor) + ApplyFloor(b, floor)
    ensures ApplyCeiling(a + b, ceiling) == ApplyCeiling(a, ceiling) + ApplyCeiling(b, ceiling)
  {
    if IsSet(floor) { FilterConcat(a, b, AtOrAbove(floor.value)); }
    if IsSet(ceiling) { FilterConcat(a, b, AtOrBelow(ceiling.value)); }
  }

  /** Every stage of the normaliser works row by row, so the normaliser distributes over concatenation. */
  lemma NormalisedConcat(a: seq<RawRow>, b: seq<RawRow>, floor: Option<real>, ceiling: Option<real>)
    ensures Normalised(a + b, floor, ceiling) == Normalised(a, floor, ceiling) + Normalised(b, floor, ceiling)
  {
    DropMissingConcat(a, b);
    var d1, d2 := DropMissing(a), DropMissing(b);
    StripIdsConcat(d1, d2);
    var s1, s2 := StripIds(d1), StripIds(d2);
    FilterConcat(s1, s2, HasNonEmptyId);
    var e1, e2 := Filter(s1, HasNonEmptyId), Filter(s2, HasNonEmptyId);
    FilterConcat(e1, e2, HasNonZeroId);
    var z1, z2 := Filter(e1, HasNonZeroId), Filter(e2, HasNonZeroId);
    ApplyBoundsConcat(z1, z2, floor, ceiling);
    ApplyBoundsConcat(ApplyFloor(z1, floor), ApplyFloor(z2, floor), floor, ceiling);
  }

  lemma {:induction false} DropMissingConcat(a: seq<RawRow>, b: seq<RawRow>)
    ensures DropMissing(a + b) == DropMissing(a) + DropMissing(b)
  {
    if a == [] {
      assert a + b == b;
    } else {
      assert (a + b)[1..] == a[1..] + b;
      DropMissingConcat(a[1..], b);
    }
  }

  lemma NormalisedSingle(x: RawRow, floor: Option<real>, ceiling: Option<real>)
    ensures Normalised([x], floor, ceiling) == if Survives(x, floor, ceiling) then [Cleaned(x)] else []
  {
    if IsComplete(x) {
      assert DropMissing([x]) == [ToRow(x)];
      assert StripIds([ToRow(x)]) == [Cleaned(x)];
    }
  }

  /** The staged normaliser equals the row-by-row reference: a row survives exactly when its stripped
      id is non-empty and not all '0', it has every cell, and its height lies in the configured band;
      survivors keep their input order. */
  lemma NormalisedCons(raw: seq<RawRow>, floor: Option<real>, ceiling: Option<real>)
    requires raw != []
    ensures Normalised(raw, floor, ceiling)
         == (if Survives(raw[0], floor, ceiling) then [Cleaned(raw[0])] else []) + Normalised(raw[1..], floor, ceiling)
  {
    assert raw == [raw[0]] + raw[1..];
    NormalisedConcat([raw[0]], raw[1..], floor, ceiling);
    NormalisedSingle(raw[0], floor, ceiling);
  }

  lemma {:induction false} NormalisedIsSurvivors(raw: seq<RawRow>, floor: Option<real>, ceiling: Option<real>)
    ensures Normalised(raw, floor, ceiling) == Survivors(raw, floor, ceiling)
  {
    if raw != [] {
      NormalisedIsSurvivors(raw[1..], floor, ceiling);
      NormalisedCons(raw, floor, ceiling);
    }
  }

  /** A surviving row's identifier is stripped, non-empty and not all '0', and its height lies within
      the configured band. */
  lemma CleanedRowProperties(r: RawRow, floor: Option<real>, ceiling: Option<real>)
    requires Survives(r, floor, ceiling)
    ensures var c := Cleaned(r);
            && |c.id| != 0 && !AllZeros(c.id) && Strip(c.id) == c.id
            && (IsSet(floor) ==> c.height >= floor.value)
            && (IsSet(ceiling) ==> c.height <= ceiling.value)
  {
    StripIdempotent(r.id.value);
  }

  lemma StripIdempotent(s: string)
    ensures Strip(Strip(s)) == Strip(s)
  {
    var m := Strip(s);
    var _ := StripIsInnerPart(s);
    StripUnique([], m, []);
    assert [] + m + [] == m;
  }

  /** Every output row is the cleaned form of a raw row that survives. */
  lemma {:induction false} SurvivorsComeFromInput(raw: seq<RawRow>, floor: Option<real>, ceiling: Option<real>, k: int)
      returns (i: int)
    requires 0 <= k < |Survivors(raw, floor, ceiling)|
    ensures 0 <= i < |raw| && Survives(raw[i], floor, ceiling)
    ensures Survivors(raw, floor, ceiling)[k] == Cleaned(raw[i])
  {
    if Survives(raw[0], floor, ceiling) && k == 0 {
      i := 0;
    } else {
      var k' := if Survives(raw[0], floor, ceiling) then k - 1 else k;
      var i' := SurvivorsComeFromInput(raw[1..], floor, ceiling, k');
      i := i' + 1;
    }
  }

  /** Every raw row that survives appears, cleaned, in the output. */
  lemma {:induction false} SurvivorsComplete(raw: seq<RawRow>, floor: Option<real>, ceiling: Option<real>, i: int)
    requires 0 <= i < |raw| && Survives(raw[i], floor, ceiling)
    ensures Cleaned(raw[i]) in Survivors(raw, floor, ceiling)
  {
    if i > 0 {
      SurvivorsComplete(raw[1..], floor, ceiling, i - 1);
    }
  }

  lemma {:induction false} SurvivorsAreSubsequence(raw: seq<RawRow>, floor: Option<real>, ceiling: Option<real>)
    ensures IsSubsequence(Survivors(raw, floor, ceiling), CleanedAll(raw))
  {
    if raw != [] {
      SurvivorsAreSubsequence(raw[1..], floor, ceiling);
      var a, b := Survivors(raw, floor, ceiling), CleanedAll(raw);
      var a', b' := Survivors(raw[1..], floor, ceiling), CleanedAll(raw[1..]);
      if Survives(raw[0], floor, ceiling) {
        assert a == [Cleaned(raw[0])] + a' && b == [Cleaned(raw[0])] + b';
        assert a[1..] == a' && b[1..] == b';
      } else if IsComplete(raw[0]) {
        assert a == a' && b == [Cleaned(raw[0])] + b';
        assert b[1..] == b';
      } else {
        assert a == a' && b == b';
      }
    }
  }

  /** All complete rows, cleaned, in order: the sequence survivors are selected from. */
  function CleanedAll(raw: seq<RawRow>): seq<Row>
  {
    if raw == [] then []
    else if IsComplete(raw[0]) then [Cleaned(raw[0])] + CleanedAll(raw[1..])
    else CleanedAll(raw[1..])
  }

  /** The examples of the identifier rules: padded ids are trimmed, empty and all-zero ids dropped. */
  lemma IdentifierExamples(t: real, lat: real, lon: real, h: real)
    ensures Survives(RawRow(Some(t), Some(lat), Some(lon), Some(h), Some(" UAL123 ")), None, None)
    ensures Cleaned(RawRow(Some(t), Some(lat), Some(lon), Some(h), Some(" UAL123 "))).id == "UAL123"
    ensures !Survives(RawRow(Some(t), Some(lat), Some(lon), Some(h), Some("0000")), None, None)
    ensures !Survives(RawRow(Some(t), Some(lat), Some(lon), Some(h), Some("  ")), None, None)
  {
    StripExample();
    StripZeros();
    StripBlank();
  }

  lemma StripZeros()
    ensures Strip("0000") == "0000" && AllZeros("0000")
  {
    StripUnique([], "0000", []);
    assert [] + "0000" + [] == "0000";
  }

  lemma StripBlank()
    ensures Strip("  ") == []
  {
    StripUnique("  ", [], []);
    assert "  " + [] + [] == "  ";
  }

  /** A bound of 0 or `None` filters nothing; a set floor keeps exactly heights at or above it. */
  lemma BoundExamples(r: RawRow, f: real)
    requires IsComplete(r) && |Strip(r.id.value)| != 0 && !AllZeros(Strip(r.id.value))
    ensures Survives(r, Some(0.0), None) && Survives(r, None, Some(0.0)) && Survives(r, None, None)
    ensures f != 0.0 ==> (Survives(r, Some(f), None) <==> r.height.value >= f)
    ensures f != 0.0 ==> (Survives(r, None, Some(f)) <==> r.height.value <= f)
  {
  }
}
