/** relay/mergeiterator.py: k-way merge of sorted streams, with or without
    collapsing equal elements. */
module MergeIterator {
  import opened Common
  import opened Sorting

  // The elements of all streams, with their multiplicities.
  function Pooled(streams: seq<seq<int>>): multiset<int> {
    if streams == [] then multiset{} else Pooled(streams[..|streams|-1]) + multiset(streams[|streams|-1])
  }

  // One stream after the other.
  function Flat(streams: seq<seq<int>>): seq<int> {
    if streams == [] then [] else Flat(streams[..|streams|-1]) + streams[|streams|-1]
  }

  lemma {:induction false} FlatIsPooled(streams: seq<seq<int>>)
    ensures multiset(Flat(streams)) == Pooled(streams)
  {
    if streams != [] { FlatIsPooled(streams[..|streams|-1]); }
  }

  // The reference: sort everything, and drop repeats when asked to.
  function MergeOf(streams: seq<seq<int>>, dedupe: bool): seq<int> {
    Emitted(Sort(Flat(streams)), dedupe)
  }

  ghost predicate AllSorted(streams: seq<seq<int>>) {
    forall i :: 0 <= i < |streams| ==> Sorted(streams[i])
  }

  // What is left of each stream.
  function Rest(streams: seq<seq<int>>, cursors: seq<nat>): (r: seq<seq<int>>)
    requires |cursors| == |streams|
    requires forall i :: 0 <= i < |streams| ==> cursors[i] <= |streams[i]|
    ensures |r| == |streams|
    ensures forall i :: 0 <= i < |r| ==> r[i] == streams[i][cursors[i]..]
  {
    seq(|streams|, i requires 0 <= i < |streams| => streams[i][cursors[i]..])
  }

  /** The source's `_check_sorted`. */
  method CheckSorted(stream: seq<int>) returns (ok: bool)
    ensures ok <==> Sorted(stream)
  {
    var i := 1;
    while i < |stream|
      invariant 1 <= i
      invariant forall j, k :: 0 <= j < k < i && k < |stream| ==> stream[j] <= stream[k]
    {
      if stream[i] < stream[i-1] {
        return false;
      }
      i := i + 1;
    }
    return true;
  }

  lemma {:induction false} PooledMember(streams: seq<seq<int>>, x: int)
    ensures x in Pooled(streams) <==> exists i :: 0 <= i < |streams| && x in streams[i]
  {
    if streams != [] {
      var init := streams[..|streams|-1];
      PooledMember(init, x);
      if x in Pooled(init) {
        var i :| 0 <= i < |init| && x in init[i];
        assert x in streams[i];
      }
      if i :| 0 <= i < |streams| && x in streams[i] {
        assert i < |init| ==> x in init[i];
      }
    }
  }

  lemma {:induction false} PooledAfterTake(streams: seq<seq<int>>, c: nat)
    requires c < |streams| && streams[c] != []
    ensures Pooled(streams) == Pooled(streams[c := streams[c][1..]]) + multiset{streams[c][0]}
  {
    var n := |streams| - 1;
    var after := streams[c := streams[c][1..]];
    assert streams[c] == [streams[c][0]] + streams[c][1..];
    if c == n {
      assert after[..n] == streams[..n];
    } else {
      PooledAfterTake(streams[..n], c);
      assert after[..n] == streams[..n][c := streams[c][1..]];
    }
  }

  lemma {:induction false} PooledOfEmpty(streams: seq<seq<int>>)
    requires forall i :: 0 <= i < |streams| ==> streams[i] == []
    ensures Pooled(streams) == multiset{}
  {
    if streams != [] { PooledOfEmpty(streams[..|streams|-1]); }
  }

  // Each value once, in the same order.
  function Collapsed(s: seq<int>): seq<int> {
    if |s| <= 1 then s
    else
      var init := s[..|s|-1];
      if s[|s|-1] == s[|s|-2] then Collapsed(init) else Collapsed(init) + [s[|s|-1]]
  }

  lemma {:induction false} CollapsedIsStrict(s: seq<int>)
    requires Sorted(s)
    ensures StrictlyIncreasing(Collapsed(s))
    ensures forall x :: x in Collapsed(s) <==> x in s
    ensures s != [] ==> Collapsed(s) != [] && Collapsed(s)[|Collapsed(s)|-1] == s[|s|-1]
  {
    if |s| > 1 {
      var init, last := s[..|s|-1], s[|s|-1];
      CollapsedIsStrict(init);
      assert s == init + [last];
      assert init[|init|-1] == s[|s|-2] <= last;
      if s[|s|-2] != last { AppendLarger(Collapsed(init), last); }
    }
  }

  lemma AppendLarger(t: seq<int>, x: int)
    requires StrictlyIncreasing(t)
    requires t != [] && t[|t|-1] < x
    ensures StrictlyIncreasing(t + [x])
  {
  }

  ghost predicate LeastHead(streams: seq<seq<int>>, cursors: seq<nat>, chosen: nat) {
    && |cursors| == |streams| && chosen < |streams| && cursors[chosen] < |streams[chosen]|
    && forall i :: 0 <= i < |streams| && cursors[i] < |streams[i]| ==>
         streams[chosen][cursors[chosen]] <= streams[i][cursors[i]]
  }

  // The source's inner loop: the first stream with the smallest head.
  method PickSmallest(streams: seq<seq<int>>, cursors: seq<nat>) returns (chosen: int)
    requires |cursors| == |streams|
    requires forall i :: 0 <= i < |streams| ==> cursors[i] <= |streams[i]|
    ensures chosen < 0 ==> Exhausted(streams, cursors)
    ensures chosen >= 0 ==> LeastHead(streams, cursors, chosen)
  {
    var smallest := 0;
    chosen := -1;
    for i := 0 to |streams|
      invariant -1 <= chosen < i
      invariant chosen < 0 ==> forall j :: 0 <= j < i ==> cursors[j] == |streams[j]|
      invariant chosen >= 0 ==> cursors[chosen] < |streams[chosen]| && smallest == streams[chosen][cursors[chosen]]
      invariant chosen >= 0 ==>
        forall j :: 0 <= j < i && cursors[j] < |streams[j]| ==> smallest <= streams[j][cursors[j]]
    {
      if cursors[i] < |streams[i]| {
        var head := streams[i][cursors[i]];
        if chosen < 0 || head < smallest {
          smallest := head;
          chosen := i;
        }
      }
    }
  }

  lemma HeadIsLeastOfRest(streams: seq<seq<int>>, cursors: seq<nat>, chosen: nat)
    requires AllSorted(streams) && |cursors| == |streams| && chosen < |streams|
    requires forall i :: 0 <= i < |streams| ==> cursors[i] <= |streams[i]|
    requires LeastHead(streams, cursors, chosen)
    ensures forall x :: x in Pooled(Rest(streams, cursors)) ==> streams[chosen][cursors[chosen]] <= x
  {
    var rest := Rest(streams, cursors);
    forall x | x in Pooled(rest) ensures streams[chosen][cursors[chosen]] <= x {
      PooledMember(rest, x);
      var i :| 0 <= i < |rest| && x in rest[i];
      var k :| 0 <= k < |rest[i]| && rest[i][k] == x;
      assert streams[i][cursors[i] + k] == x;
      assert Sorted(streams[i]);
    }
  }

  // `all` is everything taken so far; what is still to come is no smaller.
  ghost predicate Merging(streams: seq<seq<int>>, cursors: seq<nat>, all: seq<int>) {
    && |cursors| == |streams|
    && (forall i :: 0 <= i < |streams| ==> cursors[i] <= |streams[i]|)
    && Continues(all, Pooled(Rest(streams, cursors)))
    && multiset(all) + Pooled(Rest(streams, cursors)) == Pooled(streams)
  }

  // `all` is sorted and ends no later than anything still to come.
  ghost predicate Continues(all: seq<int>, rest: multiset<int>) {
    Sorted(all) && (all != [] ==> forall x :: x in rest ==> all[|all|-1] <= x)
  }

  lemma TakeLeast(all: seq<int>, head: int, before: multiset<int>, after: multiset<int>)
    requires Continues(all, before)
    requires before == after + multiset{head}
    requires forall x :: x in before ==> head <= x
    ensures Continues(all + [head], after)
    ensures multiset(all + [head]) + after == multiset(all) + before
  {
    assert head in before;
    assert forall x :: x in after ==> x in before;
  }

  lemma TakeStep(streams: seq<seq<int>>, cursors: seq<nat>, all: seq<int>, chosen: nat)
    requires AllSorted(streams) && Merging(streams, cursors, all)
    requires LeastHead(streams, cursors, chosen)
    ensures Merging(streams, cursors[chosen := cursors[chosen] + 1], all + [streams[chosen][cursors[chosen]]])
  {
    var head := streams[chosen][cursors[chosen]];
    var rest, cursors' := Rest(streams, cursors), cursors[chosen := cursors[chosen] + 1];
    HeadIsLeastOfRest(streams, cursors, chosen);
    PooledAfterTake(rest, chosen);
    var rest' := Rest(streams, cursors');
    assert rest' == rest[chosen := rest[chosen][1..]];
    TakeLeast(all, head, Pooled(rest), Pooled(rest'));
  }

  // The elements left: the termination measure of the merge.
  function Left(streams: seq<seq<int>>, cursors: seq<nat>): nat
    requires |cursors| == |streams|
    requires forall i :: 0 <= i < |streams| ==> cursors[i] <= |streams[i]|
  {
    |Pooled(Rest(streams, cursors))|
  }

  // What the source has emitted after taking `all`.
  function Emitted(all: seq<int>, dedupe: bool): seq<int> {
    if dedupe then Collapsed(all) else all
  }

  ghost predicate Exhausted(streams: seq<seq<int>>, cursors: seq<nat>) {
    |cursors| == |streams| && forall i :: 0 <= i < |streams| ==> cursors[i] == |streams[i]|
  }

  ghost predicate SortedPool(streams: seq<seq<int>>, all: seq<int>) {
    Sorted(all) && multiset(all) == Pooled(streams)
  }

  /** The merging loop of the source, over streams already found sorted. `all` is
      what it would emit without collapsing. */
  method MergeSorted(streams: seq<seq<int>>, dedupe: bool) returns (out: seq<int>)
    requires AllSorted(streams)
    ensures exists all :: SortedPool(streams, all) && out == Emitted(all, dedupe)
  {
    var cursors: seq<nat> := seq(|streams|, _ => 0);
    out := [];
    ghost var all: seq<int> := [];
    StartMerging(streams);
    while true
      invariant Merging(streams, cursors, all)
      invariant out == Emitted(all, dedupe)
      decreases Left(streams, cursors)
    {
      var chosen := PickSmallest(streams, cursors);
      if chosen < 0 {
        break;
      }
      var smallest := streams[chosen][cursors[chosen]];
      MergeStep(streams, cursors, all, chosen, dedupe);
      cursors := cursors[chosen := cursors[chosen] + 1];
      all := all + [smallest];
      if dedupe && out != [] && out[|out|-1] == smallest {
        continue;
      }
      out := out + [smallest];
    }
    Finished(streams, cursors, all);
    assert SortedPool(streams, all);
  }

  // All that one turn of the loop needs.
  lemma MergeStep(streams: seq<seq<int>>, cursors: seq<nat>, all: seq<int>, chosen: nat, dedupe: bool)
    requires AllSorted(streams) && Merging(streams, cursors, all)
    requires LeastHead(streams, cursors, chosen)
    ensures var x, next := streams[chosen][cursors[chosen]], cursors[chosen := cursors[chosen] + 1];
      && Merging(streams, next, all + [x])
      && Left(streams, next) < Left(streams, cursors)
      && Emitted(all + [x], dedupe) == Emit(Emitted(all, dedupe), x, dedupe)
  {
    TakeStep(streams, cursors, all, chosen);
    TakeShrinks(streams, cursors, chosen);
    CollapsedStep(all, streams[chosen][cursors[chosen]]);
  }

  // One element taken: the source appends it unless it repeats the last one.
  function Emit(out: seq<int>, x: int, dedupe: bool): seq<int> {
    if dedupe && out != [] && out[|out|-1] == x then out else out + [x]
  }

  lemma CollapsedStep(all: seq<int>, x: int)
    requires Sorted(all)
    ensures var t := Collapsed(all);
      Collapsed(all + [x]) == if t != [] && t[|t|-1] == x then t else t + [x]
  {
    CollapsedIsStrict(all);
    assert (all + [x])[..|all|] == all;
    if all == [] { assert all + [x] == [x]; }
  }

  /** The source's `merge`: refuses an unsorted stream; otherwise the sorted pool
      of all elements, or with `dedupe` its distinct values in ascending order. */
  method Merge(streams: seq<seq<int>>, dedupe: bool) returns (r: Result<seq<int>>)
    ensures r == if AllSorted(streams) then Ok(MergeOf(streams, dedupe)) else Err(Invalid)
  {
    for i := 0 to |streams|
      invariant forall j :: 0 <= j < i ==> Sorted(streams[j])
    {
      var ok := CheckSorted(streams[i]);
      if !ok {
        return Err(Invalid);
      }
    }
    var out := MergeSorted(streams, dedupe);
    ghost var all :| SortedPool(streams, all) && out == Emitted(all, dedupe);
    FlatIsPooled(streams);
    MergeIsSortOfAll(streams, all, Flat(streams));
    return Ok(out);
  }

  lemma PooledElements(streams: seq<seq<int>>, all: seq<int>)
    requires multiset(all) == Pooled(streams)
    ensures forall x :: x in all <==> exists i :: 0 <= i < |streams| && x in streams[i]
  {
    forall x ensures x in all <==> exists i :: 0 <= i < |streams| && x in streams[i] {
      PooledMember(streams, x);
      assert x in all <==> x in multiset(all);
    }
  }

  lemma StartMerging(streams: seq<seq<int>>)
    ensures Merging(streams, seq(|streams|, _ => 0), [])
  {
    assert Rest(streams, seq(|streams|, _ => 0)) == streams;
  }

  lemma TakeShrinks(streams: seq<seq<int>>, cursors: seq<nat>, chosen: nat)
    requires |cursors| == |streams| && chosen < |streams|
    requires forall i :: 0 <= i < |streams| ==> cursors[i] <= |streams[i]|
    requires cursors[chosen] < |streams[chosen]|
    ensures Left(streams, cursors[chosen := cursors[chosen] + 1]) < Left(streams, cursors)
  {
    var rest := Rest(streams, cursors);
    PooledAfterTake(rest, chosen);
    assert Rest(streams, cursors[chosen := cursors[chosen] + 1]) == rest[chosen := rest[chosen][1..]];
  }

  lemma Finished(streams: seq<seq<int>>, cursors: seq<nat>, all: seq<int>)
    requires Merging(streams, cursors, all)
    requires Exhausted(streams, cursors)
    ensures multiset(all) == Pooled(streams)
  {
    PooledOfEmpty(Rest(streams, cursors));
  }

  /** Any sorted arrangement of the pooled elements is the sort of all streams. */
  lemma MergeIsSortOfAll(streams: seq<seq<int>>, out: seq<int>, concatenation: seq<int>)
    requires Sorted(out) && multiset(out) == Pooled(streams)
    requires multiset(concatenation) == Pooled(streams)
    ensures out == Sort(concatenation)
  {
    SortedIsUnique(out, Sort(concatenation));
  }

  /** Without `dedupe` no element is lost, added or out of order. */
  lemma MergeKeepsElements(streams: seq<seq<int>>)
    ensures Sorted(MergeOf(streams, false)) && multiset(MergeOf(streams, false)) == Pooled(streams)
  {
    FlatIsPooled(streams);
  }

  /** With it, each value of any stream comes once, in ascending order. */
  lemma DedupeKeepsValues(streams: seq<seq<int>>)
    ensures StrictlyIncreasing(MergeOf(streams, true))
    ensures forall x :: x in MergeOf(streams, true) <==> exists i :: 0 <= i < |streams| && x in streams[i]
  {
    FlatIsPooled(streams);
    CollapsedIsStrict(Sort(Flat(streams)));
    PooledElements(streams, Sort(Flat(streams)));
  }

  function Without(streams: seq<seq<int>>, i: nat): seq<seq<int>>
    requires i < |streams|
  {
    streams[..i] + streams[i+1..]
  }

  lemma WithoutKeepsLast(streams: seq<seq<int>>, i: nat)
    requires i < |streams| - 1
    ensures var t, n := Without(streams, i), |streams| - 1;
      |t| == n && t[n-1] == streams[n] && t[..n-1] == Without(streams[..n], i)
  {
  }

  lemma {:induction false} PooledWithout(streams: seq<seq<int>>, i: nat)
    requires i < |streams|
    ensures Pooled(streams) == Pooled(Without(streams, i)) + multiset(streams[i])
  {
    var n := |streams| - 1;
    if i < n {
      PooledWithout(streams[..n], i);
      WithoutKeepsLast(streams, i);
    } else {
      assert Without(streams, i) == streams[..n];
    }
  }

  lemma WithoutTakesOne(streams: seq<seq<int>>, i: nat)
    requires i < |streams|
    ensures multiset(Without(streams, i)) == multiset(streams) - multiset{streams[i]}
  {
    assert streams == streams[..i] + [streams[i]] + streams[i+1..];
  }

  /** The order in which the streams are passed does not matter. */
  lemma StreamOrderIsIrrelevant(a: seq<seq<int>>, b: seq<seq<int>>, dedupe: bool)
    requires multiset(a) == multiset(b)
    ensures MergeOf(a, dedupe) == MergeOf(b, dedupe)
  {
    SamePool(a, b);
    FlatIsPooled(a);
    FlatIsPooled(b);
    SortedIsUnique(Sort(Flat(a)), Sort(Flat(b)));
  }

  lemma {:induction false} SamePool(a: seq<seq<int>>, b: seq<seq<int>>)
    requires multiset(a) == multiset(b)
    ensures Pooled(a) == Pooled(b)
    decreases |a|
  {
    if a == [] {
      assert |b| == |multiset(b)| == 0;
    } else {
      var i := MatchLast(a, b);
      SamePool(a[..|a|-1], Without(b, i));
      PooledWithout(b, i);
    }
  }

  lemma MatchLast(a: seq<seq<int>>, b: seq<seq<int>>) returns (i: nat)
    requires multiset(a) == multiset(b) && a != []
    ensures i < |b| && b[i] == a[|a|-1]
    ensures multiset(a[..|a|-1]) == multiset(Without(b, i))
  {
    var n := |a| - 1;
    assert a[n] in multiset(b);
    i :| 0 <= i < |b| && b[i] == a[n];
    WithoutTakesOne(a, n);
    WithoutTakesOne(b, i);
    assert Without(a, n) == a[..n];
  }
}
