/** relay/quickselect.py: the k-th smallest by partitioning in place. */
module Quickselect {
  import opened Common
  import opened Sorting

  predicate Between(x: int, m: int, y: int) {
    x <= m <= y || y <= m <= x
  }

  // `m` is one of the three, with the other two on either side of it.
  predicate IsMedian(m: int, a: int, b: int, c: int) {
    (m == a && Between(b, m, c)) || (m == b && Between(a, m, c)) || (m == c && Between(a, m, b))
  }

  // The middle of three values.
  function MedianOfThree(a: int, b: int, c: int): (m: int)
    ensures IsMedian(m, a, b, c)
  {
    if a <= b then (if b <= c then b else if a <= c then c else a)
    else (if a <= c then a else if b <= c then c else b)
  }

  // Everything before `lo` is at most everything from `lo` on, and everything
  // up to `hi` is at most everything after it.
  ghost predicate Bracketed(s: seq<int>, lo: int, hi: int) {
    && (forall i, j :: 0 <= i < lo <= j < |s| ==> s[i] <= s[j])
    && (forall i, j :: 0 <= i <= hi < j < |s| ==> s[i] <= s[j])
  }

  // `t` is `s` with the elements outside [lo, hi] untouched and those inside
  // rearranged.
  ghost predicate RearrangedWithin(s: seq<int>, t: seq<int>, lo: int, hi: int) {
    && |t| == |s|
    && multiset(t) == multiset(s)
    && forall i :: 0 <= i < |s| && !(lo <= i <= hi) ==> t[i] == s[i]
  }

  lemma SameMiddle(before: seq<int>, inner: seq<int>, inner': seq<int>, after: seq<int>)
    requires multiset(before + inner + after) == multiset(before + inner' + after)
    ensures multiset(inner) == multiset(inner')
  {
    var m := multiset(before) + multiset(after);
    assert multiset(before + inner + after) == multiset(inner) + m;
    assert multiset(before + inner' + after) == multiset(inner') + m;
    assert multiset(inner) == (multiset(inner) + m) - m;
    assert multiset(inner') == (multiset(inner') + m) - m;
  }

  lemma RearrangedElementComesFromInside(s: seq<int>, t: seq<int>, lo: int, hi: int, j: int)
    requires 0 <= lo <= j <= hi < |s|
    requires RearrangedWithin(s, t, lo, hi)
    ensures exists j' :: lo <= j' <= hi && t[j] == s[j']
  {
    var before, inner, inner', after := s[..lo], s[lo..hi+1], t[lo..hi+1], s[hi+1..];
    assert s == before + inner + after;
    assert t == before + inner' + after;
    SameMiddle(before, inner, inner', after);
    assert inner'[j - lo] == t[j] && t[j] in multiset(inner');
    assert t[j] in inner;
    var d :| 0 <= d < |inner| && inner[d] == t[j];
    assert s[lo + d] == t[j];
  }

  lemma RearrangingKeepsBracket(s: seq<int>, t: seq<int>, lo: int, hi: int)
    requires 0 <= lo <= hi < |s|
    requires RearrangedWithin(s, t, lo, hi)
    requires Bracketed(s, lo, hi)
    ensures Bracketed(t, lo, hi)
  {
    forall j | lo <= j <= hi
      ensures exists j' :: lo <= j' <= hi && t[j] == s[j']
    {
      RearrangedElementComesFromInside(s, t, lo, hi, j);
    }
  }

  method Swap(data: array<int>, i: nat, j: nat)
    requires i < data.Length && j < data.Length
    modifies data
    ensures data[i] == old(data[j]) && data[j] == old(data[i])
    ensures forall m :: 0 <= m < data.Length && m != i && m != j ==> data[m] == old(data[m])
    ensures multiset(data[..]) == old(multiset(data[..]))
  {
    data[i], data[j] := data[j], data[i];
  }

  /** The unguarded scan to the right: `stop` is the sentinel that ends it. */
  method ScanUp(data: array<int>, start: nat, pivot: int, ghost stop: nat) returns (left: nat)
    requires start <= stop < data.Length && pivot <= data[stop]
    ensures start <= left <= stop && pivot <= data[left]
    ensures forall i :: start <= i < left ==> data[i] < pivot
  {
    left := start;
    while data[left] < pivot
      invariant start <= left <= stop
      invariant forall i :: start <= i < left ==> data[i] < pivot
      decreases stop - left
    {
      left := left + 1;
    }
  }

  /** The unguarded scan to the left. */
  method ScanDown(data: array<int>, start: nat, pivot: int, ghost stop: nat) returns (right: nat)
    requires stop <= start < data.Length && data[stop] <= pivot
    ensures stop <= right <= start && data[right] <= pivot
    ensures forall j :: right < j <= start ==> pivot < data[j]
  {
    right := start;
    while data[right] > pivot
      invariant stop <= right <= start
      invariant forall j :: right < j <= start ==> pivot < data[j]
      decreases right
    {
      right := right - 1;
    }
  }

  /** One pass of the source's partition loop. The pivot, and after the first
      swap the swapped elements themselves, are the sentinels of the scans. */
  method Partition(data: array<int>, lo: nat, hi: nat, pivot: int) returns (left: int, right: int)
    requires lo < hi < data.Length
    requires exists p :: lo <= p <= hi && data[p] == pivot
    modifies data
    ensures RearrangedWithin(old(data[..]), data[..], lo, hi)
    ensures lo < left <= hi + 1 && lo - 1 <= right < hi && right < left
    ensures forall i :: lo <= i < left ==> data[i] <= pivot
    ensures forall j :: right < j <= hi ==> pivot <= data[j]
  {
    ghost var p :| lo <= p <= hi && data[p] == pivot;
    left, right := lo, hi;
    while left <= right
      invariant lo <= left <= hi + 1 && lo - 1 <= right <= hi
      invariant multiset(data[..]) == old(multiset(data[..]))
      invariant forall i :: 0 <= i < data.Length && !(lo <= i <= hi) ==> data[i] == old(data[i])
      invariant (left == lo && right == hi && data[p] == pivot) || (lo < left && right < hi)
      invariant forall i :: lo <= i < left ==> data[i] <= pivot
      invariant forall j :: right < j <= hi ==> pivot <= data[j]
      decreases right - left
    {
      ghost var stopUp := if right == hi then p else right + 1;
      ghost var stopDown := if left == lo then p else left - 1;
      left := ScanUp(data, left, pivot, stopUp);
      right := ScanDown(data, right, pivot, stopDown);
      if left <= right {
        Swap(data, left, right);
        left := left + 1;
        right := right - 1;
      }
    }
  }

  /** What one partition pass establishes for the next bracket. */
  lemma PartitionNarrows(s: seq<int>, t: seq<int>, lo: int, hi: int, left: int, right: int, pivot: int)
    requires 0 <= lo < hi < |s|
    requires Bracketed(s, lo, hi) && RearrangedWithin(s, t, lo, hi)
    requires lo < left <= hi + 1 && lo - 1 <= right < hi && right < left
    requires forall i :: lo <= i < left ==> t[i] <= pivot
    requires forall j :: right < j <= hi ==> pivot <= t[j]
    ensures Bracketed(t, lo, right)
    ensures Bracketed(t, left, hi)
    ensures forall k :: right < k < left ==> Bracketed(t, k, k)
  {
    RearrangingKeepsBracket(s, t, lo, hi);
  }

  /** The source's `_median_of_three`: the pivot occurs in the bracket, which is
      what makes the unguarded scans safe. */
  method PickPivot(data: array<int>, lo: nat, hi: nat) returns (pivot: int)
    requires lo <= hi < data.Length
    ensures exists p :: lo <= p <= hi && data[p] == pivot
    ensures IsMedian(pivot, data[lo], data[(lo + hi) / 2], data[hi])
  {
    pivot := MedianOfThree(data[lo], data[(lo + hi) / 2], data[hi]);
  }

  /** The narrowing loop: leaves the array rearranged so that rank k is settled. */
  method Narrow(data: array<int>, k: int) returns (v: int)
    requires 0 <= k < data.Length
    modifies data
    ensures multiset(data[..]) == old(multiset(data[..]))
    ensures Bracketed(data[..], k, k)
    ensures v == data[k]
  {
    var lo, hi := 0, data.Length - 1;
    while lo < hi
      invariant 0 <= lo <= k <= hi < data.Length
      invariant multiset(data[..]) == old(multiset(data[..]))
      invariant Bracketed(data[..], lo, hi)
      decreases hi - lo
    {
      ghost var before := data[..];
      var pivot := PickPivot(data, lo, hi);
      var left, right := Partition(data, lo, hi, pivot);
      PartitionNarrows(before, data[..], lo, hi, left, right, pivot);
      if k <= right {
        hi := right;
      } else if k >= left {
        lo := left;
      } else {
        return data[k];
      }
    }
    return data[lo];
  }

  /** The source's `kth_smallest`: refuses an empty batch or a rank outside it,
      and otherwise returns the element a full sort would put at rank k. */
  method KthSmallest(values: seq<int>, k: int) returns (r: Result<int>)
    ensures !(0 <= k < |values|) ==> r == Err(Invalid)
    ensures 0 <= k < |values| ==> r == Ok(Sort(values)[k])
  {
    if |values| == 0 {
      return Err(Invalid);
    }
    if !(0 <= k < |values|) {
      return Err(Invalid);
    }
    var data := new int[|values|](i requires 0 <= i < |values| => values[i]);
    assert data[..] == values;
    var v := Narrow(data, k);
    RankReached(values, data[..], k);
    return Ok(v);
  }

  lemma RankReached(values: seq<int>, s: seq<int>, k: nat)
    requires k < |s|
    requires multiset(s) == multiset(values)
    requires Bracketed(s, k, k)
    ensures |s| == |values|
    ensures s[k] == Sort(values)[k]
  {
    assert |s| == |multiset(s)| == |multiset(values)|;
    PartitionedElementIsAtItsRank(s, k);
    SortedIsUnique(Sort(s), Sort(values));
  }

  // The rank of the p-th percentile of n values: p / 100 * n truncated, and
  // clamped to the last rank.
  function PercentileRank(p: real, n: nat): (rank: int)
    requires 0.0 <= p <= 100.0
    requires n > 0
    ensures 0 <= rank < n
  {
    PercentileWithinCount(p, n);
    var x := (p / 100.0 * n as real).Floor;
    if n - 1 <= x then n - 1 else x
  }

  lemma FractionOf(f: real, m: real)
    requires 0.0 <= f <= 1.0 && 0.0 <= m
    ensures 0.0 <= f * m <= m
  {
    var g := 1.0 - f;
    assert f * m >= 0.0;
    assert g * m >= 0.0;
    assert m == f * m + g * m;
  }

  lemma PercentileWithinCount(p: real, n: nat)
    requires 0.0 <= p <= 100.0
    ensures 0.0 <= p / 100.0 * n as real <= n as real
  {
    FractionOf(p / 100.0, n as real);
  }

  // The k-th of n values, counted from 0, stands where p percent of them are behind:
  // k is the largest such rank, or the last one.
  ghost predicate IsPercentileRank(p: real, n: nat, k: int) {
    && 0 <= k < n
    && 100.0 * k as real <= p * n as real
    && (k == n - 1 || p * n as real < 100.0 * (k + 1) as real)
  }

  lemma HundredthsOf(p: real, m: real)
    ensures 100.0 * (p / 100.0 * m) == p * m
  {
    var f := p / 100.0;
    assert p == 100.0 * f;
  }

  /** What the rank means, apart from the formula that computes it. */
  lemma PercentileRankIsRight(p: real, n: nat)
    requires 0.0 <= p <= 100.0 && n > 0
    ensures IsPercentileRank(p, n, PercentileRank(p, n))
  {
    HundredthsOf(p, n as real);
  }

  /** There is only one such rank. */
  lemma PercentileRankIsUnique(p: real, n: nat, j: int, k: int)
    requires IsPercentileRank(p, n, j) && IsPercentileRank(p, n, k)
    ensures j == k
  {
  }

  /** The source's `percentile`: the value at the only rank of the sorted values
      that p percent of them stand behind. */
  method Percentile(values: seq<int>, p: real) returns (r: Result<int>)
    ensures !(0.0 <= p <= 100.0) || values == [] ==> r == Err(Invalid)
    ensures 0.0 <= p <= 100.0 && values != [] ==>
      r == Ok(Sort(values)[PercentileRank(p, |values|)])
    ensures 0.0 <= p <= 100.0 ==>
      forall k :: IsPercentileRank(p, |values|, k) ==> r == Ok(Sort(values)[k])
  {
    if !(0.0 <= p <= 100.0) {
      return Err(Invalid);
    }
    if |values| == 0 {
      return Err(Invalid);
    }
    r := KthSmallest(values, PercentileRank(p, |values|));
    PercentileRankIsRight(p, |values|);
    forall k | IsPercentileRank(p, |values|, k) ensures r == Ok(Sort(values)[k]) {
      PercentileRankIsUnique(p, |values|, PercentileRank(p, |values|), k);
    }
  }

  lemma RankMonotone(p: real, q: real, n: nat)
    requires 0.0 <= p <= q <= 100.0
    requires n > 0
    ensures PercentileRank(p, n) <= PercentileRank(q, n)
  {
    ScaledOrder(p / 100.0, q / 100.0, n as real);
    FloorMonotone(p / 100.0 * n as real, q / 100.0 * n as real);
  }

  lemma FloorMonotone(x: real, y: real)
    requires x <= y
    ensures x.Floor <= y.Floor
  {
  }

  lemma ScaledOrder(f: real, g: real, m: real)
    requires f <= g && 0.0 <= m
    ensures f * m <= g * m
  {
    var d := g - f;
    assert d * m >= 0.0;
    assert g * m == f * m + d * m;
  }

  lemma RanksAreOrdered(values: seq<int>, a: nat, b: nat)
    requires a <= b < |values|
    ensures Sort(values)[a] <= Sort(values)[b]
  {
  }

  /** A higher percentile is never a smaller value. */
  lemma PercentileMonotone(values: seq<int>, p: real, q: real)
    requires values != []
    requires 0.0 <= p <= q <= 100.0
    ensures Sort(values)[PercentileRank(p, |values|)] <= Sort(values)[PercentileRank(q, |values|)]
  {
    RankMonotone(p, q, |values|);
    RanksAreOrdered(values, PercentileRank(p, |values|), PercentileRank(q, |values|));
  }
}
