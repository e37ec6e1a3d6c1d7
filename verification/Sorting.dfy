/** Sorted integer sequences: the reference that selection and merging are
    compared against. A sorted rearrangement is unique, so "sorted and the same
    multiset" determines the value at every rank. */
module Sorting {
  import opened Common

  ghost predicate Sorted(s: seq<int>) {
    forall i, j :: 0 <= i < j < |s| ==> s[i] <= s[j]
  }

  ghost predicate StrictlyIncreasing(s: seq<int>) {
    forall i, j :: 0 <= i < j < |s| ==> s[i] < s[j]
  }

  function Insert(x: int, s: seq<int>): (r: seq<int>)
    requires Sorted(s)
    ensures Sorted(r)
    ensures multiset(r) == multiset(s) + multiset{x}
    ensures |r| == |s| + 1
    ensures r[0] == if s == [] || x <= s[0] then x else s[0]
  {
    if s == [] || x <= s[0] then
      [x] + s
    else
      assert s == [s[0]] + s[1..];
      [s[0]] + Insert(x, s[1..])
  }

  function Sort(s: seq<int>): (r: seq<int>)
    ensures Sorted(r)
    ensures multiset(r) == multiset(s)
    ensures |r| == |s|
  {
    if s == [] then []
    else
      assert s == [s[0]] + s[1..];
      var r := Insert(s[0], Sort(s[1..]));
      assert |multiset(r)| == |multiset(s)|;
      r
  }

  lemma HeadAndTail(s: seq<int>)
    requires s != []
    ensures multiset(s) == multiset{s[0]} + multiset(s[1..])
  {
    assert s == [s[0]] + s[1..];
  }

  lemma SameHead(a: seq<int>, b: seq<int>)
    requires Sorted(a) && Sorted(b) && a != [] && b != []
    requires multiset(a) == multiset(b)
    ensures a[0] == b[0]
  {
    assert a[0] in multiset(b) && b[0] in multiset(a);
    assert a[0] in b && b[0] in a;
  }

  lemma SameTail(x: multiset<int>, a: multiset<int>, b: multiset<int>)
    requires x + a == x + b
    ensures a == b
  {
    assert a == (x + a) - x && b == (x + b) - x;
  }

  /** Two sorted sequences with the same elements are the same sequence. */
  lemma {:induction false} SortedIsUnique(a: seq<int>, b: seq<int>)
    requires Sorted(a) && Sorted(b)
    requires multiset(a) == multiset(b)
    ensures a == b
  {
    assert |a| == |multiset(a)| == |multiset(b)| == |b|;
    if a != [] {
      SameHead(a, b);
      HeadAndTail(a);
      HeadAndTail(b);
      SameTail(multiset{a[0]}, multiset(a[1..]), multiset(b[1..]));
      SortedIsUnique(a[1..], b[1..]);
      assert a == [a[0]] + a[1..] && b == [b[0]] + b[1..];
    }
  }

  /** Every element of the sorted sequence is an element of the input. */
  lemma SortKeepsElements(s: seq<int>, x: int)
    requires x in Sort(s)
    ensures x in s
  {
    assert x in multiset(Sort(s));
  }

  lemma SortedPieces(lo: seq<int>, m: int, hi: seq<int>)
    requires Sorted(lo) && Sorted(hi)
    requires forall x :: x in lo ==> x <= m
    requires forall x :: x in hi ==> m <= x
    ensures Sorted(lo + [m] + hi)
  {
    var t := lo + [m] + hi;
    forall i, j | 0 <= i < j < |t| ensures t[i] <= t[j] {
      assert i < |lo| ==> t[i] in lo;
      assert j > |lo| ==> t[j] == hi[j - |lo| - 1] && t[j] in hi;
      assert i > |lo| ==> t[i] == hi[i - |lo| - 1];
    }
  }

  /** Sorting around a pivot is sorting the two sides. */
  lemma SortSplits(lo: seq<int>, m: int, hi: seq<int>)
    requires forall x :: x in lo ==> x <= m
    requires forall x :: x in hi ==> m <= x
    ensures Sort(lo + [m] + hi) == Sort(lo) + [m] + Sort(hi)
  {
    forall x | x in Sort(lo) ensures x <= m { SortKeepsElements(lo, x); }
    forall x | x in Sort(hi) ensures m <= x { SortKeepsElements(hi, x); }
    SortedPieces(Sort(lo), m, Sort(hi));
    SortedIsUnique(Sort(lo) + [m] + Sort(hi), Sort(lo + [m] + hi));
  }

  lemma PivotRank(lo: seq<int>, m: int, hi: seq<int>)
    requires forall x :: x in lo ==> x <= m
    requires forall x :: x in hi ==> m <= x
    ensures Sort(lo + [m] + hi)[|lo|] == m
  {
    SortSplits(lo, m, hi);
    var t := Sort(lo) + [m] + Sort(hi);
    assert |Sort(lo)| == |lo| && t[|lo|] == m;
  }

  lemma BoundedBefore(s: seq<int>, k: nat, m: int)
    requires k <= |s| && forall i :: 0 <= i < k ==> s[i] <= m
    ensures forall x :: x in s[..k] ==> x <= m
  {
  }

  lemma BoundedAfter(s: seq<int>, k: nat, m: int)
    requires k <= |s| && forall j :: k <= j < |s| ==> m <= s[j]
    ensures forall x :: x in s[k..] ==> m <= x
  {
  }

  lemma CutAt(s: seq<int>, k: nat) returns (lo: seq<int>, hi: seq<int>)
    requires k < |s|
    ensures lo == s[..k] && hi == s[k+1..] && |lo| == k && s == lo + [s[k]] + hi
  {
    lo, hi := s[..k], s[k+1..];
  }

  /** An element with nothing larger before it and nothing smaller after it
      already stands at its rank. */
  lemma PartitionedElementIsAtItsRank(s: seq<int>, k: nat)
    requires k < |s|
    requires forall i :: 0 <= i < k ==> s[i] <= s[k]
    requires forall j :: k < j < |s| ==> s[k] <= s[j]
    ensures Sort(s)[k] == s[k]
  {
    BoundedBefore(s, k, s[k]);
    BoundedAfter(s, k + 1, s[k]);
    var lo, hi := CutAt(s, k);
    PivotRank(lo, s[k], hi);
  }

  // ---- the ascending order of a set of integers

  ghost predicate IsSortedKeys(keys: seq<int>, s: set<int>) {
    && (forall i, j :: 0 <= i < j < |keys| ==> keys[i] < keys[j])
    && (forall k :: k in s <==> k in keys)
  }

  method SortedKeys(s: set<int>) returns (keys: seq<int>)
    ensures IsSortedKeys(keys, s)
  {
    keys := [];
    var rest := s;
    while rest != {}
      invariant rest <= s
      invariant forall i, j :: 0 <= i < j < |keys| ==> keys[i] < keys[j]
      invariant forall k :: k in s <==> k in keys || k in rest
      invariant forall k, i :: k in rest && 0 <= i < |keys| ==> keys[i] < k
      decreases rest
    {
      LeastExists(rest);
      var k :| IsLeast(k, rest);
      keys := keys + [k];
      rest := rest - {k};
    }
  }

  predicate IsLeast(k: int, s: set<int>) {
    k in s && forall x :: x in s ==> k <= x
  }

  lemma {:induction false} LeastExists(s: set<int>)
    requires s != {}
    ensures exists k :: IsLeast(k, s)
    decreases s
  {
    var y := Member(s);
    var r := s - {y};
    assert forall x :: x in s ==> x == y || x in r;
    if r == {} {
      assert IsLeast(y, s);
    } else {
      LeastExists(r);
      var k :| IsLeast(k, r);
      assert IsLeast(if k < y then k else y, s);
    }
  }
}
