/** The last two stages of preprocessing: optional whole-table downsampling, then dropping every
    resolved identifier with two rows or fewer. */
module Thinning {
  import opened Seqs
  import opened Records
  import opened Segment

  /** `df.iloc[::n]` for `n >= 1`: the rows at positions 0, n, 2n, ... */
  function Stride<T>(s: seq<T>, n: nat): seq<T>
    requires n >= 1
    decreases |s|
  {
    if s == [] then []
    else if |s| <= n then [s[0]]
    else [s[0]] + Stride(s[n..], n)
  }

  /** The `i`-th kept row is row `i * n` of the table. */
  lemma {:induction false} StrideIndex<T>(s: seq<T>, n: nat, i: nat)
    requires n >= 1 && i < |Stride(s, n)|
    ensures i * n < |s| && Stride(s, n)[i] == s[i * n]
    decreases |s|
  {
    if i > 0 {
      assert |s| > n;
      StrideIndex(s[n..], n, i - 1);
      assert n + (i - 1) * n == i * n;
    }
  }

  /** Position `k * n` is kept exactly when it lies inside the table: nothing is skipped, nothing added. */
  lemma {:induction false} StrideLength<T>(s: seq<T>, n: nat, k: nat)
    requires n >= 1
    ensures k < |Stride(s, n)| <==> k * n < |s|
    decreases |s|
  {
    if k >= 1 {
      assert (k - 1) * n >= 0;
      assert k * n == (k - 1) * n + n;
      if |s| > n {
        StrideLength(s[n..], n, k - 1);
      }
    }
  }

  /** The downsampling step: `if downsample:` treats `None` and `0` (here 0) as "keep every row". */
  function Downsample(df: seq<Fix>, n: nat): seq<Fix>
  {
    if n > 0 then Stride(df, n) else df
  }

  /** `df2.id.value_counts()` for one identifier. */
  function IdCount(df: seq<Fix>, x: string): nat
  {
    |Group(df, x)|
  }

  /** Keeps the rows whose identifier occurs more than twice (`value_counts() <= 2` is dropped). */
  function KeepId(df: seq<Fix>): Fix -> bool
  {
    (r: Fix) => IdCount(df, r.id) > 2
  }

  /** The pruning step, selecting rows in table order. */
  function Prune(df: seq<Fix>): seq<Fix>
  {
    Filter(df, KeepId(df))
  }

  /** Pruning keeps all rows of an identifier that occurs at least three times and none of any other. */
  lemma PruneCounts(df: seq<Fix>, x: string)
    ensures Group(Prune(df), x) == (if IdCount(df, x) >= 3 then Group(df, x) else [])
    ensures IdCount(Prune(df), x) == (if IdCount(df, x) >= 3 then IdCount(df, x) else 0)
  {
    FilterCommute(df, KeepId(df), HasId(x));
    var g := Group(df, x);
    assert forall i :: 0 <= i < |g| ==> g[i].id == x;
    if IdCount(df, x) >= 3 {
      FilterKeepsAll(g, KeepId(df));
    } else {
      FilterNone(g, KeepId(df));
    }
  }

  /** Every identifier left after pruning has at least three rows. */
  lemma PruneAtLeastThree(df: seq<Fix>, i: nat)
    requires i < |Prune(df)|
    ensures IdCount(Prune(df), Prune(df)[i].id) >= 3
  {
    PruneCounts(df, Prune(df)[i].id);
  }

  /** A row survives exactly when its identifier occurs at least three times, and survivors keep their order. */
  lemma PruneMembership(df: seq<Fix>)
    ensures forall i :: 0 <= i < |df| ==> (df[i] in Prune(df) <==> IdCount(df, df[i].id) >= 3)
    ensures IsSubsequence(Prune(df), df)
  {
    FilterIsSubsequence(df, KeepId(df));
  }

  /** Pruning a pruned table changes nothing. */
  lemma PruneIdempotent(df: seq<Fix>)
    ensures Prune(Prune(df)) == Prune(df)
  {
    var p := Prune(df);
    forall i | 0 <= i < |p| ensures KeepId(p)(p[i]) {
      PruneAtLeastThree(df, i);
    }
    FilterKeepsAll(p, KeepId(p));
  }

  /** The two stages together: the rows kept are stride positions of the segmented table, and each
      identifier left has at least three of them. */
  function Thinned(df: seq<Fix>, n: nat): seq<Fix>
  {
    Prune(Downsample(df, n))
  }

  /** Every pruned row is a row of the table before pruning. */
  lemma PruneRowOrigin(df: seq<Fix>, i: nat) returns (q: nat)
    requires i < |Prune(df)|
    ensures q < |df| && Prune(df)[i] == df[q]
  {
    q := FilterIndex(df, KeepId(df), i);
  }

  /** Every kept row of the stride is a row of the table: row `q` of the result is row `q * n` of `df`. */
  lemma DownsampleRowOrigin(df: seq<Fix>, n: nat, q: nat) returns (k: nat)
    requires q < |Downsample(df, n)|
    ensures k < |df| && Downsample(df, n)[q] == df[k]
    ensures n > 0 ==> k == q * n
  {
    if n > 0 {
      StrideIndex(df, n, q);
      k := q * n;
    } else {
      k := q;
    }
  }

  lemma ThinnedAtLeastThree(df: seq<Fix>, n: nat, i: nat)
    requires i < |Thinned(df, n)|
    ensures IdCount(Thinned(df, n), Thinned(df, n)[i].id) >= 3
    ensures Thinned(df, n)[i] in Downsample(df, n)
  {
    PruneAtLeastThree(Downsample(df, n), i);
  }

  /** Stride 2 on five rows keeps rows 0, 2 and 4. */
  lemma StrideExample(a: Fix, b: Fix, c: Fix, d: Fix, e: Fix)
    ensures Stride([a, b, c, d, e], 2) == [a, c, e]
  {
    assert [a, b, c, d, e][2..] == [c, d, e];
    assert [c, d, e][2..] == [e];
    assert Stride([e], 2) == [e];
    assert Stride([c, d, e], 2) == [c] + Stride([e], 2);
  }
}
