/** What the segmenter guarantees: how segment names are formed and told apart, where a group is cut,
    and what happens to the table as a whole. */
module SegmentFacts {
  import opened Seqs
  import opened Text
  import opened Records
  import opened Segment
  import Calendar

  // ---- segment names ----

  /** The suffix of a suffixed name is all digits, so no '_' follows the separator. */
  lemma NoUnderscoreInSuffix(a: string, m: nat, k: int)
    requires m >= 1 && |a| < k < |SegmentName(a, m)|
    ensures SegmentName(a, m)[k] != '_'
  {
    var na := NatToString(m);
    assert SegmentName(a, m)[k] == na[k - |a| - 1];
    assert IsDigit(na[k - |a| - 1]);
  }

  /** Two suffixed names are equal only when their bases and their suffixes are: the last '_' of a
      suffixed name is the one before the suffix, since the suffix is all digits. */
  lemma SuffixedNameUnique(a: string, m: nat, b: string, n: nat)
    requires m >= 1 && n >= 1 && SegmentName(a, m) == SegmentName(b, n)
    ensures a == b && m == n
  {
    var s := SegmentName(a, m);
    var na, nb := NatToString(m), NatToString(n);
    assert s == a + "_" + na && s == b + "_" + nb;
    assert s[|a|] == '_' && s[|b|] == '_';
    if |a| < |b| {
      NoUnderscoreInSuffix(a, m, |b|);
    } else if |b| < |a| {
      NoUnderscoreInSuffix(b, n, |a|);
    } else {
      assert a == s[..|a|] == b;
      assert na == s[|a| + 1..] == nb;
      NatToStringInjective(m, n);
    }
  }

  /** Within one group, different split counts give different names. */
  lemma SegmentNameInjective(b: string, m: nat, n: nat)
    requires SegmentName(b, m) == SegmentName(b, n)
    ensures m == n
  {
    if m >= 1 && n >= 1 {
      SuffixedNameUnique(b, m, b, n);
    }
  }

  /** Names of segments of different groups coincide only when one identifier is a segment name of
      the other: the first segment of `a` and the `j`-th of `b`, or the other way round. */
  lemma NameCollision(a: string, i: nat, b: string, j: nat)
    requires a != b && SegmentName(a, i) == SegmentName(b, j)
    ensures (i == 0 && j >= 1 && a == SegmentName(b, j)) || (j == 0 && i >= 1 && b == SegmentName(a, i))
  {
    if i >= 1 && j >= 1 {
      SuffixedNameUnique(a, i, b, j);
    }
  }

  // ---- one group ----

  lemma {:induction false} SplitsMonotone(g: seq<Fix>, i: int, j: int)
    requires 0 <= i <= j <= |g|
    ensures SplitsBefore(g, i) <= SplitsBefore(g, j)
  {
    if i < j {
      SplitsMonotone(g, i, j - 1);
    }
  }

  /** Consecutive rows of a resolved group share a name exactly when no gap separates them. */
  lemma NameChangesExactlyAtGaps(g: seq<Fix>, b: string, p: int)
    requires 0 <= p < |g| - 1
    ensures ResolveGroup(g, b)[p + 1].id == ResolveGroup(g, b)[p].id <==> !IsGap(g, p)
  {
    var r := ResolveGroup(g, b);
    assert SplitsBefore(g, p + 1) == SplitsBefore(g, p) + (if IsGap(g, p) then 1 else 0);
    if r[p + 1].id == r[p].id {
      SegmentNameInjective(b, SplitsBefore(g, p + 1), SplitsBefore(g, p));
    }
  }

  /** After `n` gaps a row is in segment `{b}_{n}`; rows before the first gap keep `b`. */
  lemma ResolvedName(g: seq<Fix>, b: string, p: int)
    requires 0 <= p < |g|
    ensures ResolveGroup(g, b)[p].id == SegmentName(b, SplitsBefore(g, p))
    ensures ResolveGroup(g, b)[p].(id := g[p].id) == g[p]
    ensures ResolveGroup(g, b)[p].unix == g[p].unix
    ensures SplitsBefore(g, p) == 0 ==> ResolveGroup(g, b)[p].id == b
  {
  }

  /** Each segment is a run of consecutive rows with no gap inside it. */
  ghost predicate SegmentsCompact(s: seq<Fix>)
  {
    forall i, j, k :: 0 <= i <= k < j < |s| ==> CompactAt(s, i, j, k)
  }

  /** Rows `i` and `j` share a name only if row `k` between them does too, with no gap after it. */
  ghost predicate CompactAt(s: seq<Fix>, i: int, j: int, k: int)
    requires 0 <= i <= k < j < |s|
  {
    s[i].id == s[j].id ==> s[k].id == s[i].id && !IsGap(s, k)
  }

  /** A group with no gap inside it. */
  ghost predicate NoGap(g: seq<Fix>)
  {
    forall q :: 0 <= q < |g| - 1 ==> !IsGap(g, q)
  }

  /** Rows with the same split count enclose no gap. */
  lemma SplitsConstantBetween(g: seq<Fix>, i: int, j: int, k: int)
    requires 0 <= i <= k < j < |g| && SplitsBefore(g, i) == SplitsBefore(g, j)
    ensures SplitsBefore(g, k) == SplitsBefore(g, i) && !IsGap(g, k)
  {
    SplitsMonotone(g, i, k);
    SplitsMonotone(g, k + 1, j);
    assert SplitsBefore(g, k + 1) == SplitsBefore(g, k) + (if IsGap(g, k) then 1 else 0);
  }

  /** What compactness needs to know of a renamed group: row `p` carries the name after the splits
      before it, and keeps its timestamp. */
  ghost predicate RenamedBySplits(g: seq<Fix>, b: string, r: seq<Fix>)
  {
    |r| == |g| && forall p :: 0 <= p < |r| ==> r[p].id == SegmentName(b, SplitsBefore(g, p)) && r[p].unix == g[p].unix
  }

  lemma ResolvedTriple(g: seq<Fix>, b: string, r: seq<Fix>, i: int, j: int, k: int)
    requires RenamedBySplits(g, b, r)
    requires 0 <= i <= k < j < |r|
    ensures CompactAt(r, i, j, k)
  {
    if r[i].id == r[j].id {
      ResolvedTripleSameName(g, b, r, i, j, k);
    }
  }

  lemma ResolvedTripleSameName(g: seq<Fix>, b: string, r: seq<Fix>, i: int, j: int, k: int)
    requires RenamedBySplits(g, b, r)
    requires 0 <= i <= k < j < |r| && r[i].id == r[j].id
    ensures r[k].id == r[i].id && !IsGap(r, k)
  {
    var si, sj := SplitsBefore(g, i), SplitsBefore(g, j);
    assert r[i].id == SegmentName(b, si);
    assert r[j].id == SegmentName(b, sj);
    SegmentNameInjective(b, si, sj);
    SplitsConstantBetween(g, i, j, k);
    assert r[k].id == SegmentName(b, SplitsBefore(g, k));
    assert r[k].unix == g[k].unix && r[k + 1].unix == g[k + 1].unix;
  }

  lemma CompactWhenRenamedBySplits(g: seq<Fix>, b: string, r: seq<Fix>)
    requires RenamedBySplits(g, b, r)
    ensures SegmentsCompact(r)
  {
    forall i, j, k | 0 <= i <= k < j < |r| ensures CompactAt(r, i, j, k) {
      ResolvedTriple(g, b, r, i, j, k);
    }
  }

  lemma ResolveGroupCompact(g: seq<Fix>, b: string)
    ensures SegmentsCompact(ResolveGroup(g, b))
  {
    var r := ResolveGroup(g, b);
    forall p | 0 <= p < |r| ensures r[p].id == SegmentName(b, SplitsBefore(g, p)) && r[p].unix == g[p].unix {
      ResolvedName(g, b, p);
    }
    CompactWhenRenamedBySplits(g, b, r);
  }

  /** A group of one identifier without a gap is left as it is. */
  lemma ResolveGroupWithoutGap(g: seq<Fix>, b: string)
    requires forall p :: 0 <= p < |g| ==> g[p].id == b
    requires NoGap(g)
    ensures ResolveGroup(g, b) == g
  {
    forall p | 0 <= p < |g| ensures ResolveGroup(g, b)[p] == g[p] {
      SplitsNone(g, p);
    }
  }

  lemma {:induction false} SplitsNone(g: seq<Fix>, p: int)
    requires NoGap(g) && 0 <= p <= |g|
    ensures SplitsBefore(g, p) == 0
  {
    if p > 0 {
      SplitsNone(g, p - 1);
    }
  }

  /** Three gaps give four segments named in order `b`, `b_1`, `b_2`, `b_3`. */
  lemma SuffixOrderExample(g: seq<Fix>, b: string)
    requires |g| == 4 && IsGap(g, 0) && IsGap(g, 1) && IsGap(g, 2)
    ensures ResolveGroup(g, b)[0].id == b
    ensures ResolveGroup(g, b)[1].id == b + "_1"
    ensures ResolveGroup(g, b)[2].id == b + "_2"
    ensures ResolveGroup(g, b)[3].id == b + "_3"
  {
    assert NatToString(1) == "1" && NatToString(2) == "2" && NatToString(3) == "3";
  }

  // ---- the whole table ----

  /** The groups of keys `ks`, concatenated in the order of `ks`, before any renaming. */
  function GroupedBy(df: seq<Fix>, ks: seq<string>): seq<Fix>
  {
    if ks == [] then [] else GroupedBy(df, ks[..|ks| - 1]) + Group(df, ks[|ks| - 1])
  }

  ghost predicate Distinct(ks: seq<string>)
  {
    forall s, t :: 0 <= s < t < |ks| ==> ks[s] != ks[t]
  }

  lemma KeysDistinct(df: seq<Fix>)
    ensures Distinct(GroupKeys(df))
  {
    var ks := GroupKeys(df);
    forall s, t | 0 <= s < t < |ks| ensures ks[s] != ks[t] {
      StrictlySortedDistinct(ks, s, t);
    }
  }

  lemma IdOfRow(df: seq<Fix>, x: Fix)
    requires x in df
    ensures x.id in GroupKeys(df)
  {
    var i :| 0 <= i < |df| && df[i] == x;
    assert Ids(df)[i] == x.id;
  }

  /** The groups of distinct keys hold every row whose identifier is a key, as often as the table does. */
  lemma {:induction false} GroupedByMultiset(df: seq<Fix>, ks: seq<string>)
    requires Distinct(ks)
    ensures forall x: Fix :: multiset(GroupedBy(df, ks))[x] == if x.id in ks then multiset(df)[x] else 0
  {
    if ks != [] {
      var ks', k := ks[..|ks| - 1], ks[|ks| - 1];
      GroupedByMultiset(df, ks');
      FilterMultiset(df, HasId(k));
      assert k !in ks';
      forall x: Fix ensures multiset(GroupedBy(df, ks))[x] == if x.id in ks then multiset(df)[x] else 0 {
        assert x.id in ks <==> x.id in ks' || x.id == k;
      }
    }
  }

  /** Grouping by every identifier partitions the table: the same rows, each as often. */
  lemma GroupedPartition(df: seq<Fix>)
    ensures multiset(GroupedBy(df, GroupKeys(df))) == multiset(df)
  {
    var ks := GroupKeys(df);
    KeysDistinct(df);
    GroupedByMultiset(df, ks);
    forall x: Fix ensures multiset(GroupedBy(df, ks))[x] == multiset(df)[x] {
      if x in df {
        IdOfRow(df, x);
      }
    }
  }

  lemma {:induction false} SegmentedByLength(df: seq<Fix>, ks: seq<string>)
    ensures |SegmentedBy(df, ks)| == |GroupedBy(df, ks)|
  {
    if ks != [] {
      SegmentedByLength(df, ks[..|ks| - 1]);
    }
  }

  /** Segmenting neither adds nor removes rows. */
  lemma SegmentedLength(df: seq<Fix>)
    ensures |Segmented(df)| == |df|
  {
    SegmentedByLength(df, GroupKeys(df));
    GroupedPartition(df);
    assert |multiset(GroupedBy(df, GroupKeys(df)))| == |multiset(df)|;
  }

  /** Row `r` is some row of `df` with its identifier replaced by one of that identifier's segment names. */
  ghost predicate RenamedFrom(r: Fix, df: seq<Fix>)
  {
    exists j, n: nat :: 0 <= j < |df| && r == df[j].(id := SegmentName(df[j].id, n))
  }

  lemma {:induction false} SegmentedByRows(df: seq<Fix>, ks: seq<string>)
    ensures forall i :: 0 <= i < |SegmentedBy(df, ks)| ==> RenamedFrom(SegmentedBy(df, ks)[i], df)
  {
    if ks != [] {
      var ks', k := ks[..|ks| - 1], ks[|ks| - 1];
      SegmentedByRows(df, ks');
      var a, g := SegmentedBy(df, ks'), Group(df, k);
      var b := ResolveGroup(g, k);
      forall p | 0 <= p < |b| ensures RenamedFrom(b[p], df) {
        assert g[p] in df && g[p].id == k;
        var j :| 0 <= j < |df| && df[j] == g[p];
        assert b[p] == df[j].(id := SegmentName(df[j].id, SplitsBefore(g, p)));
      }
      forall i | 0 <= i < |a + b| ensures RenamedFrom((a + b)[i], df) {
        if i >= |a| {
          assert (a + b)[i] == b[i - |a|];
        }
      }
    }
  }

  /** Every output row is an input row whose identifier became one of its segment names; nothing else
      about it changes. */
  lemma SegmentedRows(df: seq<Fix>)
    ensures forall i :: 0 <= i < |Segmented(df)| ==> RenamedFrom(Segmented(df)[i], df)
  {
    SegmentedByRows(df, GroupKeys(df));
  }

  /** Every identifier's rows, in table order, are free of gaps of more than 15 minutes. */
  ghost predicate NoGapPerId(s: seq<Fix>)
  {
    forall x :: NoGap(Group(s, x))
  }

  lemma CompactTail(s: seq<Fix>)
    requires s != [] && SegmentsCompact(s)
    ensures SegmentsCompact(s[1..])
  {
    var t := s[1..];
    forall i, j, k | 0 <= i <= k < j < |t| ensures CompactAt(t, i, j, k) {
      assert CompactAt(s, i + 1, j + 1, k + 1);
      assert s[i + 1] == t[i] && s[j + 1] == t[j] && s[k + 1] == t[k];
      assert IsGap(t, k) == IsGap(s, k + 1);
    }
  }

  /** The row after the first row of a run is the next row of the same identifier, and no gap lies between. */
  lemma CompactHead(s: seq<Fix>, x: string)
    requires SegmentsCompact(s) && s != [] && s[0].id == x && Group(s[1..], x) != []
    ensures Group(s[1..], x)[0] == s[1] && !IsGap(s, 0)
  {
    var t := s[1..];
    var m := FilterHead(t, HasId(x));
    assert s[m + 1] == t[m];
    assert CompactAt(s, 0, m + 1, 0);
    if m > 0 {
      CompactSecondRow(s, m + 1);
    }
  }

  /** A run that reaches row `j` from row 0 contains row 1. */
  lemma CompactSecondRow(s: seq<Fix>, j: int)
    requires SegmentsCompact(s) && 1 < j < |s| && s[0].id == s[j].id
    ensures s[1].id == s[0].id
  {
    assert CompactAt(s, 0, j, 1);
  }

  lemma NoGapCons(a: Fix, g: seq<Fix>)
    requires NoGap(g)
    requires g != [] ==> !IsGap([a] + g, 0)
    ensures NoGap([a] + g)
  {
    var h := [a] + g;
    forall q | 0 <= q < |h| - 1 ensures !IsGap(h, q) {
      if q > 0 {
        assert h[q] == g[q - 1] && h[q + 1] == g[q];
        assert IsGap(h, q) == IsGap(g, q - 1);
      }
    }
  }

  /** In a table whose segments are runs without gaps, no identifier has a gap. */
  lemma {:induction false} CompactGroupNoGap(s: seq<Fix>, x: string)
    requires SegmentsCompact(s)
    ensures NoGap(Group(s, x))
  {
    if s != [] {
      var t := s[1..];
      CompactTail(s);
      CompactGroupNoGap(t, x);
      if s[0].id == x {
        var gt := Group(t, x);
        assert Group(s, x) == [s[0]] + gt;
        if gt != [] {
          CompactHead(s, x);
          assert ([s[0]] + gt)[1] == s[1];
        }
        NoGapCons(s[0], gt);
      }
    }
  }

  lemma CompactNoGapPerId(s: seq<Fix>)
    requires SegmentsCompact(s)
    ensures NoGapPerId(s)
  {
    forall x ensures NoGap(Group(s, x)) {
      CompactGroupNoGap(s, x);
    }
  }

  /** Two tables without identifiers in common, each free of gaps per identifier, stay so together. */
  lemma ConcatNoGap(a: seq<Fix>, b: seq<Fix>)
    requires NoGapPerId(a) && NoGapPerId(b)
    requires forall x :: Group(a, x) == [] || Group(b, x) == []
    ensures NoGapPerId(a + b)
  {
    forall x ensures NoGap(Group(a + b, x)) {
      FilterConcat(a, b, HasId(x));
      if Group(a, x) == [] {
        assert Group(a + b, x) == Group(b, x);
      } else {
        assert Group(a + b, x) == Group(a, x);
      }
    }
  }

  /** No identifier of `ids` is a suffixed segment name of one of `ids` (itself included). */
  ghost predicate SuffixFree(ids: seq<string>)
  {
    forall i, j, n: nat :: 0 <= i < |ids| && 0 <= j < |ids| && n >= 1 ==> ids[i] != SegmentName(ids[j], n)
  }

  /** No identifier of the table is a suffixed segment name of another (or of itself). */
  ghost predicate NoSuffixCollision(df: seq<Fix>)
  {
    SuffixFree(Ids(df))
  }

  lemma NoSuffixCollisionAt(df: seq<Fix>, i: nat, j: nat, n: nat)
    requires NoSuffixCollision(df) && i < |df| && j < |df| && n >= 1
    ensures df[i].id != SegmentName(df[j].id, n)
  {
    assert Ids(df)[i] == df[i].id && Ids(df)[j] == df[j].id;
  }

  /** Every identifier of `s` is a segment name of one of `ks`. */
  ghost predicate NamedAfter(s: seq<Fix>, ks: seq<string>)
  {
    forall i :: 0 <= i < |s| ==> IsSegmentOf(s[i].id, ks)
  }

  ghost predicate IsSegmentOf(id: string, ks: seq<string>)
  {
    exists k, n: nat :: k in ks && id == SegmentName(k, n)
  }

  lemma KeyIsId(df: seq<Fix>, k: string) returns (i: nat)
    requires k in GroupKeys(df)
    ensures i < |df| && df[i].id == k
  {
    assert k in Ids(df);
    i :| 0 <= i < |df| && Ids(df)[i] == k;
  }

  /** Segments of different identifiers get different names when no identifier is a suffixed name. */
  lemma SegmentsDisjoint(df: seq<Fix>, a: seq<Fix>, ks: seq<string>, k: string, x: string)
    requires NoSuffixCollision(df) && NamedAfter(a, ks) && k !in ks
    requires forall y :: y in ks ==> y in GroupKeys(df)
    requires k in GroupKeys(df)
    ensures Group(a, x) == [] || Group(ResolveGroup(Group(df, k), k), x) == []
  {
    var b := ResolveGroup(Group(df, k), k);
    if Group(a, x) != [] && Group(b, x) != [] {
      var p := FilterHead(b, HasId(x));
      var q := FilterHead(a, HasId(x));
      var n1 := SplitsBefore(Group(df, k), p);
      assert x == SegmentName(k, n1);
      assert IsSegmentOf(a[q].id, ks);
      var k2, n2: nat :| k2 in ks && a[q].id == SegmentName(k2, n2);
      NameCollision(k, n1, k2, n2);
      var i1 := KeyIsId(df, k);
      var i2 := KeyIsId(df, k2);
      if n1 == 0 {
        NoSuffixCollisionAt(df, i1, i2, n2);
      } else {
        NoSuffixCollisionAt(df, i2, i1, n1);
      }
    }
  }

  lemma {:induction false} SegmentedByNamed(df: seq<Fix>, ks: seq<string>)
    ensures NamedAfter(SegmentedBy(df, ks), ks)
  {
    if ks != [] {
      var ks', k := ks[..|ks| - 1], ks[|ks| - 1];
      SegmentedByNamed(df, ks');
      var a: seq<Fix> := SegmentedBy(df, ks');
      var g: seq<Fix> := Group(df, k);
      var b: seq<Fix> := ResolveGroup(g, k);
      var s: seq<Fix> := a + b;
      assert SegmentedBy(df, ks) == a + b;
      forall i | 0 <= i < |s| ensures IsSegmentOf(s[i].id, ks) {
        if i < |a| {
          var k0, n: nat :| k0 in ks' && a[i].id == SegmentName(k0, n);
          assert k0 in ks && s[i] == a[i];
        } else {
          var n := SplitsBefore(g, i - |a|);
          assert s[i] == b[i - |a|];
          assert k in ks && s[i].id == SegmentName(k, n);
        }
      }
    }
  }

  lemma {:induction false} SegmentedByNoGap(df: seq<Fix>, ks: seq<string>)
    requires NoSuffixCollision(df) && Distinct(ks)
    requires forall y :: y in ks ==> y in GroupKeys(df)
    ensures NoGapPerId(SegmentedBy(df, ks))
  {
    if ks != [] {
      var ks', k := ks[..|ks| - 1], ks[|ks| - 1];
      assert k in ks && k !in ks';
      SegmentedByNoGap(df, ks');
      SegmentedByNamed(df, ks');
      var a, g := SegmentedBy(df, ks'), Group(df, k);
      var b := ResolveGroup(g, k);
      ResolveGroupCompact(g, k);
      CompactNoGapPerId(b);
      forall x ensures Group(a, x) == [] || Group(b, x) == [] {
        SegmentsDisjoint(df, a, ks', k, x);
      }
      ConcatNoGap(a, b);
    }
  }

  /** The segmenter's promise for the whole table: afterwards no identifier has a gap of more than
      15 minutes between consecutive rows, provided no input identifier is already a suffixed name. */
  lemma SegmentedHasNoGap(df: seq<Fix>)
    requires NoSuffixCollision(df)
    ensures NoGapPerId(Segmented(df))
  {
    KeysDistinct(df);
    SegmentedByNoGap(df, GroupKeys(df));
  }

  lemma {:induction false} SegmentedByWithoutGap(df: seq<Fix>, ks: seq<string>)
    requires NoGapPerId(df)
    ensures SegmentedBy(df, ks) == GroupedBy(df, ks)
  {
    if ks != [] {
      var k := ks[|ks| - 1];
      SegmentedByWithoutGap(df, ks[..|ks| - 1]);
      ResolveGroupWithoutGap(Group(df, k), k);
    }
  }

  /** A table in which no identifier has a gap comes out with the same rows, regrouped by identifier. */
  lemma SegmentedWithoutGap(df: seq<Fix>)
    requires NoGapPerId(df)
    ensures Segmented(df) == GroupedBy(df, GroupKeys(df))
    ensures multiset(Segmented(df)) == multiset(df)
  {
    SegmentedByWithoutGap(df, GroupKeys(df));
    GroupedPartition(df);
  }

  /** Segmenting twice renames nothing the first pass left, when no identifier is a suffixed name. */
  lemma SegmentIdempotent(df: seq<Fix>)
    requires NoSuffixCollision(df)
    ensures multiset(Segmented(Segmented(df))) == multiset(Segmented(df))
  {
    SegmentedHasNoGap(df);
    SegmentedWithoutGap(Segmented(df));
  }

  lemma CollisionKeys(f0: Fix, f1: Fix, f2: Fix)
    requires f0.id == "ABC" && f1.id == "ABC" && f2.id == "ABC_1"
    ensures GroupKeys([f0, f1, f2]) == ["ABC", "ABC_1"]
  {
    var df := [f0, f1, f2];
    var ids := Ids(df);
    assert ids == ["ABC", "ABC", "ABC_1"];
    assert ids[..2] == ["ABC", "ABC"] && ids[..2][..1] == ["ABC"] && ids[..2][..1][..0] == [];
    assert SortedDistinct(ids[..2][..1]) == ["ABC"];
    assert SortedDistinct(ids[..2]) == ["ABC"];
    assert !Less("ABC_1", "ABC");
    assert InsertSorted(["ABC"], "ABC_1") == ["ABC"] + InsertSorted([], "ABC_1");
  }

  lemma CollisionSegmented(f0: Fix, f1: Fix, f2: Fix)
    requires f0.id == "ABC" && f1.id == "ABC" && f2.id == "ABC_1"
    requires f0.unix == 0 && f1.unix == 1000
    ensures Segmented([f0, f1, f2]) == [f0, f1.(id := "ABC_1"), f2]
  {
    var df := [f0, f1, f2];
    CollisionKeys(f0, f1, f2);
    var ks := GroupKeys(df);
    CollisionGroups(f0, f1, f2);
    var g1, g2 := Group(df, "ABC"), Group(df, "ABC_1");
    assert IsGap(g1, 0);
    assert NatToString(1) == "1";
    var r1, r2 := ResolveGroup(g1, "ABC"), ResolveGroup(g2, "ABC_1");
    assert SplitsBefore(g1, 0) == 0 && SplitsBefore(g1, 1) == 1;
    assert SegmentName("ABC", 1) == "ABC_1";
    assert r1[0] == f0 && r1[1] == f1.(id := "ABC_1");
    assert r1 == [f0, f1.(id := "ABC_1")];
    assert r2 == [f2];
    assert ks[..1] == ["ABC"] && ks[..1][..0] == [];
    assert SegmentedBy(df, ks[..1]) == r1;
  }

  lemma CollisionGroups(f0: Fix, f1: Fix, f2: Fix)
    requires f0.id == "ABC" && f1.id == "ABC" && f2.id == "ABC_1"
    ensures Group([f0, f1, f2], "ABC") == [f0, f1]
    ensures Group([f0, f1, f2], "ABC_1") == [f2]
  {
    Filter3(f0, f1, f2, HasId("ABC"));
    Filter3(f0, f1, f2, HasId("ABC_1"));
    assert f2.id != "ABC" && f0.id != "ABC_1";
  }

  /** Without the hypothesis the rule fails: track "ABC" with a gap after its first fix is split, and its
      second segment takes the name "ABC_1" of another aircraft, whose fix an hour later is then inside
      the same segment. */
  lemma CollisionBreaksGapRule(dt: Calendar.DateTime, pt: Point)
    ensures var df := [Fix("ABC", dt, 0, pt), Fix("ABC", dt, 1000, pt), Fix("ABC_1", dt, 5000, pt)];
            !NoSuffixCollision(df) && !NoGapPerId(Segmented(df))
  {
    var f0, f1, f2 := Fix("ABC", dt, 0, pt), Fix("ABC", dt, 1000, pt), Fix("ABC_1", dt, 5000, pt);
    var df := [f0, f1, f2];
    assert NatToString(1) == "1";
    assert df[2].id == SegmentName(df[0].id, 1);
    assert Ids(df)[2] == df[2].id && Ids(df)[0] == df[0].id;
    CollisionSegmented(f0, f1, f2);
    var f1' := f1.(id := "ABC_1");
    CollisionRenamedGroup(f0, f1', f2);
    var g := Group([f0, f1', f2], "ABC_1");
    assert IsGap(g, 0);
  }

  lemma CollisionRenamedGroup(f0: Fix, f1: Fix, f2: Fix)
    requires f0.id == "ABC" && f1.id == "ABC_1" && f2.id == "ABC_1"
    ensures Group([f0, f1, f2], "ABC_1") == [f1, f2]
  {
    Filter3(f0, f1, f2, HasId("ABC_1"));
    assert f0.id != "ABC_1";
  }
}
