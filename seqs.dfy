/** Order-preserving selection over sequences: the shape of every `df.loc[mask]` in the pipeline. */
module Seqs {

  /** The elements of `s` that satisfy `p`, in their original order. */
  function Filter<T>(s: seq<T>, p: T -> bool): (r: seq<T>)
    ensures |r| <= |s|
    ensures forall i :: 0 <= i < |r| ==> p(r[i])
    ensures forall i :: 0 <= i < |r| ==> r[i] in s
    ensures forall i :: 0 <= i < |s| && p(s[i]) ==> s[i] in r
  {
    if s == [] then []
    else if p(s[0]) then [s[0]] + Filter(s[1..], p)
    else Filter(s[1..], p)
  }

  /** `a` can be obtained from `b` by deleting elements (relative order is kept). */
  ghost predicate IsSubsequence<T>(a: seq<T>, b: seq<T>)
  {
    if a == [] then true
    else if b == [] then false
    else (a[0] == b[0] && IsSubsequence(a[1..], b[1..])) || IsSubsequence(a, b[1..])
  }

  /** The one-element selection of `x`. */
  function Keep<T>(x: T, p: T -> bool): seq<T>
  {
    if p(x) then [x] else []
  }

  lemma FilterSingle<T>(x: T, p: T -> bool)
    ensures Filter([x], p) == Keep(x, p)
  {
    assert [x][1..] == [];
  }

  lemma FilterCons<T>(x: T, s: seq<T>, p: T -> bool)
    ensures Filter([x] + s, p) == Keep(x, p) + Filter(s, p)
  {
    assert ([x] + s)[1..] == s;
  }

  lemma Filter3<T>(a: T, b: T, c: T, p: T -> bool)
    ensures Filter([a, b, c], p) == Keep(a, p) + Keep(b, p) + Keep(c, p)
  {
    assert [a, b, c][1..] == [b, c];
    assert [b, c][1..] == [c];
    FilterSingle(c, p);
  }

  /** Every selected element sits at some position of `s`. */
  lemma {:induction false} FilterIndex<T>(s: seq<T>, p: T -> bool, i: nat) returns (q: nat)
    requires i < |Filter(s, p)|
    ensures q < |s| && Filter(s, p)[i] == s[q]
  {
    if p(s[0]) && i == 0 {
      q := 0;
    } else {
      var q' := FilterIndex(s[1..], p, if p(s[0]) then i - 1 else i);
      q := q' + 1;
    }
  }

  lemma {:induction false} FilterIsSubsequence<T>(s: seq<T>, p: T -> bool)
    ensures IsSubsequence(Filter(s, p), s)
  {
    if s != [] {
      FilterIsSubsequence(s[1..], p);
    }
  }

  lemma {:induction false} FilterConcat<T>(a: seq<T>, b: seq<T>, p: T -> bool)
    ensures Filter(a + b, p) == Filter(a, p) + Filter(b, p)
  {
    if a == [] {
      assert a + b == b;
    } else {
      assert (a + b)[0] == a[0];
      assert (a + b)[1..] == a[1..] + b;
      FilterConcat(a[1..], b, p);
    }
  }

  /** Each element keeps its multiplicity when it satisfies `p` and disappears otherwise. */
  lemma {:induction false} FilterMultiset<T>(s: seq<T>, p: T -> bool)
    ensures forall x :: multiset(Filter(s, p))[x] == if p(x) then multiset(s)[x] else 0
  {
    if s != [] {
      FilterMultiset(s[1..], p);
      assert s == [s[0]] + s[1..];
      assert multiset(s) == multiset{s[0]} + multiset(s[1..]);
    }
  }

  lemma {:induction false} FilterKeepsAll<T>(s: seq<T>, p: T -> bool)
    requires forall i :: 0 <= i < |s| ==> p(s[i])
    ensures Filter(s, p) == s
  {
    if s != [] {
      FilterKeepsAll(s[1..], p);
    }
  }

  /** The first element of a non-empty selection is the first element of `s` that satisfies `p`. */
  lemma {:induction false} FilterHead<T>(s: seq<T>, p: T -> bool) returns (m: nat)
    requires Filter(s, p) != []
    ensures m < |s| && Filter(s, p)[0] == s[m] && p(s[m])
    ensures forall k :: 0 <= k < m ==> !p(s[k])
  {
    if p(s[0]) {
      m := 0;
    } else {
      var m' := FilterHead(s[1..], p);
      m := m' + 1;
    }
  }

  /** Dropping the leading elements that fail `p` does not change the selection. */
  lemma {:induction false} FilterTail<T>(s: seq<T>, p: T -> bool, m: nat)
    requires m < |s| && p(s[m])
    requires forall k :: 0 <= k < m ==> !p(s[k])
    ensures Filter(s, p) == [s[m]] + Filter(s[m + 1..], p)
  {
    if m > 0 {
      FilterTail(s[1..], p, m - 1);
      assert s[1..][m - 1 + 1..] == s[m + 1..];
    }
  }

  lemma {:induction false} FilterNone<T>(s: seq<T>, p: T -> bool)
    requires forall i :: 0 <= i < |s| ==> !p(s[i])
    ensures Filter(s, p) == []
  {
    if s != [] {
      FilterNone(s[1..], p);
    }
  }

  /** Two selections can be made in either order. */
  lemma {:induction false} FilterCommute<T>(s: seq<T>, p: T -> bool, q: T -> bool)
    ensures Filter(Filter(s, p), q) == Filter(Filter(s, q), p)
  {
    if s != [] {
      FilterCommute(s[1..], p, q);
    }
  }
}
