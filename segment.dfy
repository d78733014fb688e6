/** The track segmenter: rows are grouped by identifier (groups in ascending key order), and within a
    group every row after a time gap of more than 15 minutes, either way, gets the next suffix. */
module Segment {
  import opened Seqs
  import opened Text
  import opened Records

  /** 15 minutes, in seconds. */
  const MaxGap: int := 900

  function HasId(k: string): Fix -> bool
  {
    (r: Fix) => r.id == k
  }

  /** `by_id.get_group(k)`: the rows with identifier `k`, in table order. */
  function Group(df: seq<Fix>, k: string): seq<Fix>
  {
    Filter(df, HasId(k))
  }

  function Ids(df: seq<Fix>): (r: seq<string>)
    ensures |r| == |df|
  {
    seq(|df|, i requires 0 <= i < |df| => df[i].id)
  }

  /** `by_id.groups.keys()`: the distinct identifiers in ascending order. */
  function GroupKeys(df: seq<Fix>): (ks: seq<string>)
    ensures StrictlySorted(ks)
    ensures forall y :: y in ks <==> y in Ids(df)
  {
    SortedDistinct(Ids(df))
  }

  /** Consecutive rows `q` and `q + 1` of a group are more than 15 minutes apart, in either direction
      (`timediff > 15 min or timediff < -15 min`, with `timediff = next - current`). */
  predicate IsGap(g: seq<Fix>, q: int)
    requires 0 <= q < |g| - 1
  {
    var d := g[q + 1].unix - g[q].unix;
    d > MaxGap || d < -MaxGap
  }

  /** The number of gaps between rows before row `p` of a group. */
  function SplitsBefore(g: seq<Fix>, p: int): nat
    requires 0 <= p <= |g|
  {
    if p == 0 then 0
    else SplitsBefore(g, p - 1) + (if p < |g| && IsGap(g, p - 1) then 1 else 0)
  }

  /** The resolved identifier of the segment after `n` splits: `{base}` for the first, `{base}_{n}` after. */
  function SegmentName(base: string, n: nat): string
  {
    if n == 0 then base else base + "_" + NatToString(n)
  }

  /** A group with every row renamed after the number of gaps seen before it. */
  function ResolveGroup(g: seq<Fix>, base: string): (r: seq<Fix>)
    ensures |r| == |g|
  {
    seq(|g|, p requires 0 <= p < |g| => g[p].(id := SegmentName(base, SplitsBefore(g, p))))
  }

  /** The resolved groups of keys `ks`, concatenated in the order of `ks`. */
  function SegmentedBy(df: seq<Fix>, ks: seq<string>): seq<Fix>
  {
    if ks == [] then []
    else SegmentedBy(df, ks[..|ks| - 1]) + ResolveGroup(Group(df, ks[|ks| - 1]), ks[|ks| - 1])
  }

  /** The segmenter's output: `df2` after the loop over `by_id.groups.keys()`. */
  function Segmented(df: seq<Fix>): seq<Fix>
  {
    SegmentedBy(df, GroupKeys(df))
  }

  // ---- the rows the loop of the source visits ----

  /** `indices`: the positions `q < n` of a group after which a gap follows, in ascending order. */
  function GapIndicesBelow(g: seq<Fix>, n: nat): (xs: seq<nat>)
    requires n == 0 || n < |g|
    ensures forall t :: 0 <= t < |xs| ==> xs[t] < n
    ensures forall s, t :: 0 <= s < t < |xs| ==> xs[s] < xs[t]
  {
    if n == 0 then []
    else GapIndicesBelow(g, n - 1) + (if IsGap(g, n - 1) then [n - 1] else [])
  }

  function GapIndices(g: seq<Fix>): (xs: seq<nat>)
    ensures forall t :: 0 <= t < |xs| ==> xs[t] + 1 < |g|
    ensures forall s, t :: 0 <= s < t < |xs| ==> xs[s] < xs[t]
  {
    GapIndicesBelow(g, if |g| == 0 then 0 else |g| - 1)
  }

  /** How many of `xs` lie below `p`. */
  function CountBelow(xs: seq<nat>, p: int): nat
  {
    if xs == [] then 0
    else CountBelow(xs[..|xs| - 1], p) + (if xs[|xs| - 1] < p then 1 else 0)
  }

  lemma {:induction false} CountBelowAll(xs: seq<nat>, p: int)
    requires forall t :: 0 <= t < |xs| ==> xs[t] < p
    ensures CountBelow(xs, p) == |xs|
  {
    if xs != [] {
      CountBelowAll(xs[..|xs| - 1], p);
    }
  }

  lemma {:induction false} CountGapIndices(g: seq<Fix>, n: nat, p: nat)
    requires n == 0 || n < |g|
    requires p <= |g|
    ensures CountBelow(GapIndicesBelow(g, n), p) == SplitsBefore(g, if p < n then p else n)
  {
    if n > 0 {
      CountGapIndices(g, n - 1, p);
      var xs := GapIndicesBelow(g, n - 1);
      if IsGap(g, n - 1) {
        assert (xs + [n - 1])[..|xs|] == xs;
      } else {
        assert xs + [] == xs;
      }
    }
  }

  /** Counting the gap indices below `p` is counting the gaps before row `p`. */
  lemma GapIndicesCountSplits(g: seq<Fix>, p: nat)
    requires p <= |g|
    ensures CountBelow(GapIndices(g), p) == SplitsBefore(g, p)
  {
    var n := if |g| == 0 then 0 else |g| - 1;
    CountGapIndices(g, n, p);
  }

  /** `tmp.loc[idx+1:, 'id'] = name` applied to the tail of the group. */
  function Relabel(s: seq<Fix>, name: string): (r: seq<Fix>)
    ensures |r| == |s|
  {
    seq(|s|, i requires 0 <= i < |s| => s[i].(id := name))
  }

  /** `tmp.loc[idx+1:, 'id'] = name`: every row after `idx` takes the name. */
  function RenameAfter(tmp: seq<Fix>, idx: nat, name: string): (r: seq<Fix>)
    requires idx < |tmp|
    ensures |r| == |tmp|
  {
    tmp[..idx + 1] + Relabel(tmp[idx + 1..], name)
  }

  /** The state of `tmp` after the first `j` renamings of the inner loop. */
  ghost predicate RenamedUpTo(tmp: seq<Fix>, group: seq<Fix>, key: string, indices: seq<nat>, j: nat)
    requires j <= |indices|
  {
    |tmp| == |group|
    && forall p :: 0 <= p < |group| ==> tmp[p] == group[p].(id := SegmentName(key, CountBelow(indices[..j], p)))
  }

  lemma CountBelowSnoc(xs: seq<nat>, j: nat, p: int)
    requires j < |xs|
    ensures CountBelow(xs[..j + 1], p) == CountBelow(xs[..j], p) + (if xs[j] < p then 1 else 0)
  {
    assert xs[..j + 1][..j] == xs[..j];
  }

  /** One row after one renaming: rows up to `idx` keep their name, later rows take the next suffix. */
  lemma RenameRow(tmp: seq<Fix>, group: seq<Fix>, key: string, indices: seq<nat>, j: nat, p: nat)
    requires j < |indices| && |tmp| == |group| && p < |group| && indices[j] + 1 < |group|
    requires forall s :: 0 <= s < j ==> indices[s] < indices[j]
    requires tmp[p] == group[p].(id := SegmentName(key, CountBelow(indices[..j], p)))
    ensures RenameAfter(tmp, indices[j], key + "_" + NatToString(j + 1))[p]
         == group[p].(id := SegmentName(key, CountBelow(indices[..j + 1], p)))
  {
    var idx := indices[j];
    var name := key + "_" + NatToString(j + 1);
    var front, back := tmp[..idx + 1], Relabel(tmp[idx + 1..], name);
    CountBelowSnoc(indices, j, p);
    if p > idx {
      assert (front + back)[p] == back[p - (idx + 1)];
      var prefix := indices[..j + 1];
      assert forall t :: 0 <= t < |prefix| ==> prefix[t] <= idx;
      CountBelowAll(prefix, p);
      assert SegmentName(key, j + 1) == name;
    } else {
      assert (front + back)[p] == front[p];
    }
  }

  lemma RenameStep(tmp: seq<Fix>, group: seq<Fix>, key: string, indices: seq<nat>, j: nat)
    requires j < |indices| && RenamedUpTo(tmp, group, key, indices, j)
    requires forall t :: 0 <= t < |indices| ==> indices[t] + 1 < |group|
    requires forall s, t :: 0 <= s < t < |indices| ==> indices[s] < indices[t]
    ensures RenamedUpTo(RenameAfter(tmp, indices[j], key + "_" + NatToString(j + 1)), group, key, indices, j + 1)
  {
    var tmp' := RenameAfter(tmp, indices[j], key + "_" + NatToString(j + 1));
    forall p | 0 <= p < |group|
      ensures tmp'[p] == group[p].(id := SegmentName(key, CountBelow(indices[..j + 1], p)))
    {
      RenameRow(tmp, group, key, indices, j, p);
    }
  }

  lemma RenamedAllIsResolved(tmp: seq<Fix>, group: seq<Fix>, key: string)
    requires RenamedUpTo(tmp, group, key, GapIndices(group), |GapIndices(group)|)
    ensures tmp == ResolveGroup(group, key)
  {
    var indices := GapIndices(group);
    assert indices[..|indices|] == indices;
    forall p | 0 <= p < |group| ensures tmp[p] == ResolveGroup(group, key)[p] {
      GapIndicesCountSplits(group, p);
    }
  }

  lemma SegmentedByStep(df: seq<Fix>, ks: seq<string>, i: nat)
    requires i < |ks|
    ensures SegmentedBy(df, ks[..i + 1]) == SegmentedBy(df, ks[..i]) + ResolveGroup(Group(df, ks[i]), ks[i])
  {
    assert ks[..i + 1][..i] == ks[..i];
  }

  /** The inner loop of the segmenter on one group `tmp` of identifier `key`: for each gap position
      `idx`, every row after it is renamed `key_suffix`, and the suffix is incremented. */
  method RenameGroup(group: seq<Fix>, key: string) returns (tmp: seq<Fix>)
    requires forall p :: 0 <= p < |group| ==> group[p].id == key
    ensures tmp == ResolveGroup(group, key)
  {
    tmp := group;
    var indices := GapIndices(tmp);
    var suffix := 1;
    for j := 0 to |indices|
      invariant suffix == j + 1
      invariant RenamedUpTo(tmp, group, key, indices, j)
    {
      RenameStep(tmp, group, key, indices, j);
      var idx := indices[j];
      tmp := RenameAfter(tmp, idx, key + "_" + NatToString(suffix));
      suffix := suffix + 1;
    }
    RenamedAllIsResolved(tmp, group, key);
  }

  /** The segmenter as the source runs it: a loop over the group keys that renames each group and
      appends it to the result. */
  method SegmentIds(df: seq<Fix>) returns (df2: seq<Fix>)
    ensures df2 == Segmented(df)
  {
    var keys := GroupKeys(df);
    df2 := [];
    for i := 0 to |keys|
      invariant df2 == SegmentedBy(df, keys[..i])
    {
      var key := keys[i];
      var tmp := Group(df, key);
      tmp := RenameGroup(tmp, key);
      SegmentedByStep(df, keys, i);
      df2 := df2 + tmp;
    }
    assert keys[..|keys|] == keys;
  }
}
