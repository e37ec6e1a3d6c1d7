/** relay/priorityqueue.py: a binary heap of (priority, item) pairs kept in a list. */
module PriorityQueue {
  import opened Common

  type Item = (int, string)

  // Python's order on strings: by code point, a prefix first.
  predicate TextBefore(a: string, b: string) {
    if b == [] then false
    else if a == [] then true
    else if a[0] != b[0] then a[0] < b[0]
    else TextBefore(a[1..], b[1..])
  }

  // Python's order on pairs: by priority, then by item.
  predicate Before(a: Item, b: Item) {
    a.0 < b.0 || (a.0 == b.0 && TextBefore(a.1, b.1))
  }

  predicate AtMost(a: Item, b: Item) {
    !Before(b, a)
  }

  lemma {:induction false} TextOrder(a: string, b: string)
    ensures !(TextBefore(a, b) && TextBefore(b, a))
    ensures a == b || TextBefore(a, b) || TextBefore(b, a)
    ensures !TextBefore(a, a)
  {
    if a != [] && b != [] && a[0] == b[0] {
      TextOrder(a[1..], b[1..]);
      assert a == [a[0]] + a[1..] && b == [b[0]] + b[1..];
    }
    if a != [] { TextOrder(a[1..], a[1..]); }
  }

  lemma {:induction false} TextTransitive(a: string, b: string, c: string)
    requires !TextBefore(b, a) && !TextBefore(c, b)
    ensures !TextBefore(c, a)
  {
    if a != [] && b != [] && c != [] && a[0] == b[0] && b[0] == c[0] {
      TextTransitive(a[1..], b[1..], c[1..]);
    }
  }

  // The strings agree up to `i`, where the first has ended or has the smaller
  // character.
  ghost predicate SmallerFrom(a: string, b: string, i: nat) {
    i <= |a| && i < |b| && a[..i] == b[..i] && (i == |a| || a[i] < b[i])
  }

  /** The order on items is the dictionary's. */
  lemma {:induction false} TextBeforeIff(a: string, b: string)
    ensures TextBefore(a, b) <==> exists i: nat :: SmallerFrom(a, b, i)
  {
    if a != [] && b != [] && a[0] == b[0] {
      TextBeforeIff(a[1..], b[1..]);
      if i: nat :| SmallerFrom(a[1..], b[1..], i) {
        assert a[..i+1] == [a[0]] + a[1..][..i] && b[..i+1] == [b[0]] + b[1..][..i];
        assert SmallerFrom(a, b, i + 1);
      }
      if i: nat :| SmallerFrom(a, b, i) {
        assert i > 0;
        assert a[1..][..i-1] == a[..i][1..] && b[1..][..i-1] == b[..i][1..];
        assert SmallerFrom(a[1..], b[1..], i - 1);
      }
    } else {
      if TextBefore(a, b) { assert SmallerFrom(a, b, 0); }
      if i: nat :| SmallerFrom(a, b, i) {
        assert i > 0 ==> a[..i][0] == b[..i][0];
      }
    }
  }

  lemma AtMostTransitive(a: Item, b: Item, c: Item)
    requires AtMost(a, b) && AtMost(b, c)
    ensures AtMost(a, c)
  {
    if a.0 == b.0 && b.0 == c.0 { TextTransitive(a.1, b.1, c.1); }
  }

  lemma AtMostTotal(a: Item, b: Item)
    ensures AtMost(a, b) || AtMost(b, a)
    ensures AtMost(a, b) && AtMost(b, a) ==> a == b
    ensures AtMost(a, a)
  {
    TextOrder(a.1, b.1);
    TextOrder(a.1, a.1);
  }

  // ---- the heap order

  function Parent(i: nat): nat
    requires i > 0
  {
    (i - 1) / 2
  }

  ghost predicate UnderParent(h: seq<Item>, i: nat)
    requires 0 < i < |h|
  {
    AtMost(h[Parent(i)], h[i])
  }

  ghost predicate Heap(h: seq<Item>) {
    forall i {:trigger UnderParent(h, i)} :: 0 < i < |h| ==> UnderParent(h, i)
  }

  /** The root is a minimum of the whole heap. */
  lemma {:induction false} RootIsLeast(h: seq<Item>, i: nat)
    requires Heap(h) && i < |h|
    ensures AtMost(h[0], h[i])
    decreases i
  {
    AtMostTotal(h[i], h[i]);
    if i > 0 {
      assert UnderParent(h, i);
      RootIsLeast(h, Parent(i));
      AtMostTransitive(h[0], h[Parent(i)], h[i]);
    }
  }

  function Swapped(h: seq<Item>, i: nat, j: nat): (r: seq<Item>)
    requires i < |h| && j < |h|
    ensures |r| == |h|
  {
    h[i := h[j]][j := h[i]]
  }

  lemma SwapKeepsItems(h: seq<Item>, i: nat, j: nat)
    requires i < |h| && j < |h|
    ensures multiset(Swapped(h, i, j)) == multiset(h)
  {
  }

  // A heap but for the link above `i`; what is below `i` still fits under what
  // is above it.
  ghost predicate HeapButUp(h: seq<Item>, i: nat) {
    && (forall k {:trigger UnderParent(h, k)} :: 0 < k < |h| && k != i ==> UnderParent(h, k))
    && (forall k {:trigger Parent(k)} :: 0 < k < |h| && i > 0 && i < |h| && Parent(k) == i ==>
          AtMost(h[Parent(i)], h[k]))
  }

  // A heap but for the links below `i`.
  ghost predicate HeapButDown(h: seq<Item>, i: nat) {
    && (forall k {:trigger UnderParent(h, k)} :: 0 < k < |h| && Parent(k) != i ==> UnderParent(h, k))
    && (forall k {:trigger Parent(k)} :: 0 < k < |h| && i > 0 && i < |h| && Parent(k) == i ==>
          AtMost(h[Parent(i)], h[k]))
  }

  lemma SiftUpStep(h: seq<Item>, i: nat)
    requires 0 < i < |h| && HeapButUp(h, i)
    requires Before(h[i], h[Parent(i)])
    ensures HeapButUp(Swapped(h, i, Parent(i)), Parent(i))
  {
    var p, g := Parent(i), Swapped(h, i, Parent(i));
    AtMostTotal(h[i], h[p]);
    forall k {:trigger UnderParent(g, k)} | 0 < k < |g| && k != p ensures UnderParent(g, k) {
      if k != i {
        assert UnderParent(h, k);
        if Parent(k) == p { AtMostTransitive(h[i], h[p], h[k]); }
      }
    }
    forall k {:trigger Parent(k)} | 0 < k < |g| && p > 0 && Parent(k) == p ensures AtMost(g[Parent(p)], g[k]) {
      assert UnderParent(h, p);
      if k != i {
        assert UnderParent(h, k);
        AtMostTransitive(h[Parent(p)], h[p], h[k]);
      }
    }
  }

  // The child to swap with: the smallest of a node and its children.
  function Smallest(h: seq<Item>, i: nat): (s: nat)
    requires i < |h|
    ensures s < |h| && (s == i || (s > 0 && Parent(s) == i))
  {
    var left, right := 2 * i + 1, 2 * i + 2;
    var s := if left < |h| && Before(h[left], h[i]) then left else i;
    if right < |h| && Before(h[right], h[s]) then right else s
  }

  lemma SmallestIsLeast(h: seq<Item>, i: nat)
    requires i < |h|
    ensures var s := Smallest(h, i);
      AtMost(h[s], h[i]) && forall k :: 0 < k < |h| && Parent(k) == i ==> AtMost(h[s], h[k])
  {
    var left, right, s := 2 * i + 1, 2 * i + 2, Smallest(h, i);
    AtMostTotal(h[i], h[i]);
    if left < |h| {
      AtMostTotal(h[left], h[i]);
      AtMostTotal(h[left], h[left]);
      if right < |h| {
        AtMostTotal(h[right], h[left]);
        AtMostTotal(h[right], h[i]);
        AtMostTotal(h[right], h[right]);
        if Before(h[left], h[i]) && Before(h[right], h[left]) { AtMostTransitive(h[right], h[left], h[i]); }
        if !Before(h[left], h[i]) && Before(h[right], h[i]) { AtMostTransitive(h[right], h[i], h[left]); }
      }
    }
    forall k | 0 < k < |h| && Parent(k) == i ensures AtMost(h[s], h[k]) {
      assert k == left || k == right;
    }
  }

  lemma SiftDownStep(h: seq<Item>, i: nat)
    requires i < |h| && HeapButDown(h, i)
    ensures Smallest(h, i) == i ==> Heap(h)
    ensures Smallest(h, i) != i ==> HeapButDown(Swapped(h, i, Smallest(h, i)), Smallest(h, i))
  {
    var s := Smallest(h, i);
    SmallestIsLeast(h, i);
    if s == i {
      forall k {:trigger UnderParent(h, k)} | 0 < k < |h| ensures UnderParent(h, k) { }
    } else {
      var g := Swapped(h, i, s);
      forall k {:trigger UnderParent(g, k)} | 0 < k < |g| && Parent(k) != s ensures UnderParent(g, k) {
        if Parent(k) != i {
          assert UnderParent(h, k);
        }
        if k == i { assert AtMost(h[Parent(i)], h[s]); }
      }
      forall k {:trigger Parent(k)} | 0 < k < |g| && Parent(k) == s ensures AtMost(g[Parent(s)], g[k]) {
        assert UnderParent(h, k);
      }
    }
  }

  class PriorityQueue {
    var heap: seq<Item>

    ghost predicate Valid()
      reads this
    {
      Heap(heap)
    }

    constructor ()
      ensures Valid() && heap == []
    {
      heap := [];
    }

    /** The source's `push`: append and sift up. */
    method Push(priority: int, item: string)
      requires Valid()
      modifies this
      ensures Valid()
      ensures multiset(heap) == multiset(old(heap)) + multiset{(priority, item)}
    {
      heap := heap + [(priority, item)];
      var i := |heap| - 1;
      AppendedIsButUp(old(heap), (priority, item));
      while i > 0
        invariant 0 <= i < |heap|
        invariant HeapButUp(heap, i)
        invariant multiset(heap) == multiset(old(heap)) + multiset{(priority, item)}
        decreases i
      {
        var parent := (i - 1) / 2;
        if Before(heap[i], heap[parent]) {
          SiftUpStep(heap, i);
          SwapKeepsItems(heap, i, parent);
          heap := heap[i := heap[parent]][parent := heap[i]];
          i := parent;
        } else {
          break;
        }
      }
      ButUpIsHeap(heap, i);
    }

    /** The source's `peek`. */
    method Peek() returns (r: Result<Item>)
      requires Valid()
      ensures heap == [] ==> r == Err(Invalid)
      ensures heap != [] ==> r.Ok? && IsLeast(r.value, multiset(heap))
      ensures heap != [] ==> forall x :: x in heap ==> ServedFirst(r.value, x)
    {
      if |heap| == 0 {
        return Err(Invalid);
      }
      RootIsLeastOfAll(heap);
      RootIsServedFirst(heap);
      return Ok(heap[0]);
    }

    /** The source's `pop`: take the root, move the last item there, sift down. */
    method Pop() returns (r: Result<Item>)
      requires Valid()
      modifies this
      ensures Valid()
      ensures old(heap) == [] ==> r == Err(Invalid) && heap == []
      ensures old(heap) != [] ==> r.Ok? && IsLeast(r.value, multiset(old(heap)))
      ensures old(heap) != [] ==> forall x :: x in old(heap) ==> ServedFirst(r.value, x)
      ensures old(heap) != [] ==> multiset(heap) == multiset(old(heap)) - multiset{r.value}
    {
      if |heap| == 0 {
        return Err(Invalid);
      }
      RootIsLeastOfAll(heap);
      RootIsServedFirst(heap);
      var top := heap[0];
      var last := heap[|heap|-1];
      RemoveRoot(heap);
      heap := heap[..|heap|-1];
      if |heap| > 0 {
        heap := heap[0 := last];
        SiftDown(0);
      }
      return Ok(top);
    }

    /** A consumer that pops until the queue is empty: what the pops return is a
        draining of what was pending. */
    method Drain() returns (out: seq<Item>)
      requires Valid()
      modifies this
      ensures Valid() && heap == []
      ensures Drains(multiset(old(heap)), out)
      ensures Sorted(out) && multiset(out) == multiset(old(heap))
    {
      out := [];
      while |heap| > 0
        invariant Valid()
        invariant DrainedTo(multiset(old(heap)), out, multiset(heap))
        decreases |heap|
      {
        ghost var before := multiset(heap);
        assert |before| == |heap|;
        var top := Pop();
        assert |multiset(heap)| == |heap|;
        DrainOneMore(multiset(old(heap)), out, before, top.value);
        out := out + [top.value];
      }
      assert multiset(heap) == multiset{};
      DrainSorts(multiset(old(heap)), out);
    }

    /** The source's `_sift_down`. */
    method SiftDown(start: nat)
      requires start < |heap| && HeapButDown(heap, start)
      modifies this
      ensures Valid() && multiset(heap) == multiset(old(heap))
    {
      var i := start;
      while true
        invariant 0 <= i < |heap| && HeapButDown(heap, i)
        invariant multiset(heap) == multiset(old(heap))
        decreases |heap| - i
      {
        var smallest := i;
        var left, right := 2 * i + 1, 2 * i + 2;
        if left < |heap| && Before(heap[left], heap[smallest]) {
          smallest := left;
        }
        if right < |heap| && Before(heap[right], heap[smallest]) {
          smallest := right;
        }
        assert smallest == Smallest(heap, i);
        SiftDownStep(heap, i);
        if smallest == i {
          break;
        }
        assert Parent(smallest) == i && i < smallest;
        SwapKeepsItems(heap, i, smallest);
        heap := heap[i := heap[smallest]][smallest := heap[i]];
        i := smallest;
      }
    }
  }

  lemma AppendedIsButUp(h: seq<Item>, x: Item)
    requires Heap(h)
    ensures HeapButUp(h + [x], |h|)
  {
    var g := h + [x];
    forall k {:trigger UnderParent(g, k)} | 0 < k < |g| && k != |h| ensures UnderParent(g, k) {
      assert UnderParent(h, k);
    }
  }

  lemma ButUpIsHeap(h: seq<Item>, i: nat)
    requires i < |h| && HeapButUp(h, i)
    requires i == 0 || !Before(h[i], h[Parent(i)])
    ensures Heap(h)
  {
  }

  // ---- what a pop promises

  ghost predicate IsLeast(x: Item, pending: multiset<Item>) {
    x in pending && forall y :: y in pending ==> AtMost(x, y)
  }

  // `x` has the smaller priority number, or the same one and an item that the
  // dictionary does not put after that of `y`.
  ghost predicate ServedFirst(x: Item, y: Item) {
    x.0 <= y.0 && (x.0 == y.0 ==> forall i: nat :: !SmallerFrom(y.1, x.1, i))
  }

  lemma RootIsServedFirst(h: seq<Item>)
    requires Heap(h) && h != []
    ensures forall x :: x in h ==> ServedFirst(h[0], x)
  {
    forall x | x in h ensures ServedFirst(h[0], x) {
      var i :| 0 <= i < |h| && h[i] == x;
      RootIsLeast(h, i);
      TextBeforeIff(x.1, h[0].1);
    }
  }

  lemma RootIsLeastOfAll(h: seq<Item>)
    requires Heap(h) && h != []
    ensures IsLeast(h[0], multiset(h))
  {
    forall y | y in multiset(h) ensures AtMost(h[0], y) {
      assert y in h;
      var i :| 0 <= i < |h| && h[i] == y;
      RootIsLeast(h, i);
    }
  }

  lemma RemoveRoot(h: seq<Item>)
    requires Heap(h) && h != []
    ensures var rest := h[..|h|-1];
      && (rest != [] ==> HeapButDown(rest[0 := h[|h|-1]], 0))
      && multiset(if rest == [] then rest else rest[0 := h[|h|-1]]) == multiset(h) - multiset{h[0]}
  {
    var rest, last := h[..|h|-1], h[|h|-1];
    assert h == rest + [last];
    if rest != [] {
      var g := rest[0 := last];
      forall k {:trigger UnderParent(g, k)} | 0 < k < |g| && Parent(k) != 0 ensures UnderParent(g, k) {
        assert UnderParent(h, k);
      }
      assert multiset(g) == multiset(rest) - multiset{rest[0]} + multiset{last};
    }
  }

  // ---- draining

  ghost predicate Sorted(s: seq<Item>) {
    forall i, j :: 0 <= i < j < |s| ==> AtMost(s[i], s[j])
  }

  // Popping `out` leaves `rest` of what was pending.
  ghost predicate DrainedTo(pending: multiset<Item>, out: seq<Item>, rest: multiset<Item>)
    decreases |out|
  {
    if out == [] then pending == rest
    else IsLeast(out[0], pending) && DrainedTo(pending - multiset{out[0]}, out[1..], rest)
  }

  lemma {:induction false} DrainOneMore(pending: multiset<Item>, out: seq<Item>, rest: multiset<Item>, x: Item)
    requires DrainedTo(pending, out, rest) && IsLeast(x, rest)
    ensures DrainedTo(pending, out + [x], rest - multiset{x})
    decreases |out|
  {
    if out == [] {
      assert [x][1..] == [];
    } else {
      DrainOneMore(pending - multiset{out[0]}, out[1..], rest, x);
      assert (out + [x])[1..] == out[1..] + [x];
    }
  }

  // `out` is what repeated pops of `pending` may return.
  ghost predicate Drains(pending: multiset<Item>, out: seq<Item>) {
    DrainedTo(pending, out, multiset{})
  }

  /** Draining the queue yields a sorted rearrangement of what was pending. */
  lemma {:induction false} DrainSorts(pending: multiset<Item>, out: seq<Item>)
    requires Drains(pending, out)
    ensures Sorted(out) && multiset(out) == pending
    decreases |out|
  {
    if out != [] {
      var rest := pending - multiset{out[0]};
      DrainSorts(rest, out[1..]);
      assert out == [out[0]] + out[1..];
      assert pending == multiset{out[0]} + rest;
      forall i, j | 0 <= i < j < |out| ensures AtMost(out[i], out[j]) {
        if i == 0 {
          assert out[j] in multiset(out[1..]);
          assert out[j] in pending;
        } else {
          assert out[i] == out[1..][i-1] && out[j] == out[1..][j-1];
        }
      }
    }
  }

  /** The order of the pops is forced: equal items are interchangeable. */
  lemma {:induction false} DrainIsDetermined(pending: multiset<Item>, a: seq<Item>, b: seq<Item>)
    requires Drains(pending, a) && Drains(pending, b)
    ensures a == b
    decreases |a|
  {
    if a != [] && b != [] {
      AtMostTotal(a[0], b[0]);
      assert a[0] == b[0];
      DrainIsDetermined(pending - multiset{a[0]}, a[1..], b[1..]);
    }
  }
}
