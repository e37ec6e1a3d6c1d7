/** relay/fenwicktree.py: prefix sums kept under point updates by two walks over
    the lowest set bit of the index. */
module FenwickTree {
  import opened Common

  // Bit n of the two's complement form of an unbounded integer. Division and
  // remainder by 2 round towards minus infinity, so this is Python's view of
  // negative operands too.
  function Bit(x: int, n: nat): bool
    decreases n
  {
    if n == 0 then x % 2 == 1 else Bit(x / 2, n - 1)
  }

  // The lowest set bit of a positive index: the source's `i & (-i)`.
  function LowBit(i: int): (b: int)
    requires i > 0
    ensures 1 <= b <= i
    decreases i
  {
    if i % 2 == 1 then 1 else 2 * LowBit(i / 2)
  }

  lemma {:induction false} ComplementBits(x: int, n: nat)
    ensures Bit(-x - 1, n) != Bit(x, n)
    decreases n
  {
    if n > 0 {
      assert (-x - 1) / 2 == -(x / 2) - 1;
      ComplementBits(x / 2, n - 1);
    }
  }

  lemma {:induction false} ZeroHasNoBits(n: nat)
    ensures !Bit(0, n)
  {
    if n > 0 { ZeroHasNoBits(n - 1); }
  }

  /** LowBit is the bitwise conjunction of the index and its negation. */
  lemma {:induction false} LowBitIsAndWithNegation(i: int, n: nat)
    requires i > 0
    ensures Bit(LowBit(i), n) <==> Bit(i, n) && Bit(-i, n)
    decreases n
  {
    if n > 0 {
      if i % 2 == 1 {
        assert LowBit(i) / 2 == 0;
        ZeroHasNoBits(n - 1);
        assert (-i) / 2 == -(i / 2) - 1;
        ComplementBits(i / 2, n - 1);
      } else {
        assert (-i) / 2 == -(i / 2);
        assert LowBit(i) / 2 == LowBit(i / 2);
        LowBitIsAndWithNegation(i / 2, n - 1);
      }
    }
  }

  // Cell j is responsible for the indexes in (j - LowBit(j), j].
  ghost predicate Covers(j: int, i: int)
    requires j > 0
  {
    j - LowBit(j) < i <= j
  }

  /** No cell strictly between an index and its successor on the update walk
      covers the index. */
  lemma {:induction false} WalkSkipsNoCover(i: int, j: int)
    requires 0 < i < j < i + LowBit(i)
    ensures !Covers(j, i)
    decreases i
  {
    if j % 2 == 0 {
      WalkSkipsNoCover(i / 2, j / 2);
    }
  }

  lemma CoversDoubles(j: int, i: int)
    requires j > 0
    ensures Covers(2 * j, 2 * i) <==> Covers(j, i)
  {
    assert LowBit(2 * j) == 2 * LowBit(j);
  }

  lemma LowBitParity(i: int)
    requires i > 0
    ensures LowBit(i) % 2 == i % 2
    ensures i % 2 == 1 ==> LowBit(i) == 1
  {
  }

  // The walk from an odd index, and the range of an odd cell.
  lemma OddKeepsCovers(i: int, j: int)
    requires 0 < i && i + LowBit(i) <= j && (i % 2 == 1 || j % 2 == 1)
    ensures Covers(j, i) <==> Covers(j, i + LowBit(i))
  {
    LowBitParity(i);
    LowBitParity(j);
    assert i % 2 == 0 ==> (i + LowBit(i)) % 2 == 0;
    assert (j - LowBit(j)) % 2 == 0;
  }

  /** From the successor on, the cells that cover the index are those that cover
      the successor. */
  lemma {:induction false} WalkKeepsCovers(i: int, j: int)
    requires 0 < i
    requires i + LowBit(i) <= j
    ensures Covers(j, i) <==> Covers(j, i + LowBit(i))
    decreases i
  {
    if i % 2 == 1 || j % 2 == 1 {
      OddKeepsCovers(i, j);
    } else {
      var a, b := i / 2, j / 2;
      assert i == 2 * a && j == 2 * b && i + LowBit(i) == 2 * (a + LowBit(a));
      WalkKeepsCovers(a, b);
      CoversDoubles(b, a);
      CoversDoubles(b, a + LowBit(a));
    }
  }

  /** Each step of the update walk at least doubles the lowest set bit. */
  lemma {:induction false} StepDoublesLowBit(i: int)
    requires i > 0
    ensures LowBit(i + LowBit(i)) >= 2 * LowBit(i)
    decreases i
  {
    if i % 2 == 0 {
      StepDoublesLowBit(i / 2);
      assert (i + LowBit(i)) / 2 == i / 2 + LowBit(i / 2);
    }
  }

  lemma WalkStep(i: int, size: int)
    requires 0 < i
    ensures forall j {:trigger Covers(j, i)} :: i < j <= size && j < i + LowBit(i) ==> !Covers(j, i)
    ensures forall j {:trigger Covers(j, i)} :: i + LowBit(i) <= j <= size ==>
      (Covers(j, i) <==> Covers(j, i + LowBit(i)))
  {
    forall j {:trigger Covers(j, i)} | i < j <= size && j < i + LowBit(i) ensures !Covers(j, i) {
      WalkSkipsNoCover(i, j);
    }
    forall j {:trigger Covers(j, i)} | i + LowBit(i) <= j <= size
      ensures Covers(j, i) <==> Covers(j, i + LowBit(i))
    {
      WalkKeepsCovers(i, j);
    }
  }

  // Sum of the abstract values at indexes lo+1 .. hi (index 0 is unused).
  function Sum(a: seq<int>, lo: int, hi: int): int
    requires 0 <= lo <= hi < |a|
    decreases hi - lo
  {
    if lo == hi then 0 else Sum(a, lo, hi - 1) + a[hi]
  }

  lemma {:induction false} SumSplits(a: seq<int>, lo: int, mid: int, hi: int)
    requires 0 <= lo <= mid <= hi < |a|
    ensures Sum(a, lo, hi) == Sum(a, lo, mid) + Sum(a, mid, hi)
    decreases hi - mid
  {
    if mid < hi { SumSplits(a, lo, mid, hi - 1); }
  }

  /** A point update moves exactly the sums whose range holds the index. */
  lemma {:induction false} SumAfterUpdate(a: seq<int>, i: int, delta: int, lo: int, hi: int)
    requires 0 <= lo <= hi < |a|
    requires 0 < i < |a|
    ensures Sum(a[i := a[i] + delta], lo, hi) == Sum(a, lo, hi) + if lo < i <= hi then delta else 0
    decreases hi - lo
  {
    if lo < hi { SumAfterUpdate(a, i, delta, lo, hi - 1); }
  }

  lemma {:induction false} SumOfZeros(a: seq<int>, lo: int, hi: int)
    requires 0 <= lo <= hi < |a|
    requires forall i :: 0 <= i < |a| ==> a[i] == 0
    ensures Sum(a, lo, hi) == 0
    decreases hi - lo
  {
    if lo < hi { SumOfZeros(a, lo, hi - 1); }
  }

  // The number of set bits: the length of the query walk.
  function BitCount(i: int): nat
    requires i >= 0
    decreases i
  {
    if i == 0 then 0 else i % 2 + BitCount(i / 2)
  }

  lemma {:induction false} ClearingLowBit(i: int)
    requires i > 0
    ensures BitCount(i - LowBit(i)) == BitCount(i) - 1
    decreases i
  {
    if i % 2 == 1 {
      assert (i - 1) / 2 == i / 2;
    } else {
      ClearingLowBit(i / 2);
      assert (i - LowBit(i)) / 2 == i / 2 - LowBit(i / 2);
    }
  }

  /** Both walks are logarithmic: an index has at most log2 of i + 1 set bits. */
  lemma {:induction false} QueryWalkIsLogarithmic(i: int)
    requires i >= 0
    ensures Pow2(BitCount(i)) <= i + 1
    decreases i
  {
    if i > 0 { QueryWalkIsLogarithmic(i / 2); }
  }

  lemma CellsHoldUpdated(before: seq<int>, after: seq<int>, values: seq<int>, next: seq<int>, index: int, delta: int)
    requires |before| == |after| == |values| && 1 <= index < |values|
    requires next == values[index := values[index] + delta]
    requires forall j :: 1 <= j < |values| ==> CellHolds(before, values, j)
    requires forall j :: 1 <= j < |values| ==> after[j] == before[j] + if Covers(j, index) then delta else 0
    ensures forall j :: 1 <= j < |values| ==> CellHolds(after, next, j)
  {
    forall j | 1 <= j < |values| ensures CellHolds(after, next, j) {
      assert CellHolds(before, values, j);
      SumAfterUpdate(values, index, delta, j - LowBit(j), j);
    }
  }

  ghost predicate CellHolds(tree: seq<int>, values: seq<int>, j: int)
    requires 0 < j < |tree| == |values|
  {
    tree[j] == Sum(values, j - LowBit(j), j)
  }

  class Tree {
    const size: int
    const cells: array<int>
    ghost var values: seq<int>

    // Every cell holds the sum of the range it is responsible for.
    ghost predicate Valid()
      reads this, cells
    {
      && size >= 1
      && cells.Length == size + 1 == |values|
      && forall j :: 1 <= j <= size ==> CellHolds(cells[..], values, j)
    }

    constructor (size: int)
      requires size >= 1
      ensures Valid() && fresh(cells)
      ensures this.size == size
      ensures values == seq(size + 1, _ => 0)
    {
      this.size := size;
      cells := new int[size + 1](_ => 0);
      values := seq(size + 1, _ => 0);
      new;
      forall j | 1 <= j <= size ensures CellHolds(cells[..], values, j) {
        SumOfZeros(values, j - LowBit(j), j);
      }
    }

    /** The source's `update`: the upward walk adds delta to exactly the cells
        whose range covers the index, in at most 1 + log2(size) steps. */
    method Update(index: int, delta: int) returns (r: Result<()>, ghost steps: nat)
      requires Valid()
      modifies this`values, cells
      ensures Valid()
      ensures r.Ok? <==> 1 <= index <= size
      ensures r.Err? ==> r.error == Invalid && values == old(values) && cells[..] == old(cells[..])
      ensures r.Ok? ==> values == old(values)[index := old(values)[index] + delta]
      ensures r.Ok? ==> forall j :: 1 <= j <= size ==>
        cells[j] == old(cells[j]) + if Covers(j, index) then delta else 0
      ensures r.Ok? ==> Pow2(steps) <= 2 * size
    {
      steps := 0;
      if !(1 <= index <= size) {
        return Err(Invalid), 0;
      }
      var i := index;
      while i <= size
        invariant 1 <= index <= i
        invariant values == old(values)
        invariant Pow2(steps) <= LowBit(i) && Pow2(steps) <= 2 * size
        invariant forall j :: 1 <= j <= size ==>
          cells[j] == old(cells[j]) + if j < i && Covers(j, index) then delta else 0
        invariant forall j {:trigger Covers(j, index)} :: i <= j <= size ==> (Covers(j, index) <==> Covers(j, i))
        decreases size - i
      {
        cells[i] := cells[i] + delta;
        WalkStep(i, size);
        StepDoublesLowBit(i);
        i := i + LowBit(i);
        steps := steps + 1;
      }
      values := values[index := values[index] + delta];
      CellsHoldUpdated(old(cells[..]), cells[..], old(values), values, index, delta);
      return Ok(()), steps;
    }

    /** The source's `prefix_sum`: the downward walk visits one cell per set bit. */
    method PrefixSum(index: int) returns (r: Result<int>, ghost steps: nat)
      requires Valid()
      ensures r.Ok? <==> 0 <= index <= size
      ensures r.Err? ==> r.error == Invalid
      ensures r.Ok? ==> r.value == Sum(values, 0, index)
      ensures r.Ok? ==> steps == BitCount(index)
    {
      steps := 0;
      if !(0 <= index <= size) {
        return Err(Invalid), 0;
      }
      var total := 0;
      var i := index;
      while i > 0
        invariant 0 <= i <= index
        invariant total == Sum(values, i, index)
        invariant steps + BitCount(i) == BitCount(index)
        decreases i
      {
        total := total + cells[i];
        assert CellHolds(cells[..], values, i);
        SumSplits(values, i - LowBit(i), i, index);
        ClearingLowBit(i);
        i := i - LowBit(i);
        steps := steps + 1;
      }
      return Ok(total), steps;
    }

    /** The source's `range_sum`: both ends inclusive. */
    method RangeSum(low: int, high: int) returns (r: Result<int>)
      requires Valid()
      ensures r.Ok? <==> 1 <= low <= high <= size
      ensures r.Err? ==> r.error == Invalid
      ensures r.Ok? ==> r.value == Sum(values, low - 1, high)
    {
      if low > high {
        return Err(Invalid);
      }
      var upper, _ := PrefixSum(high);
      if upper.Err? {
        return upper;
      }
      var lower, _ := PrefixSum(low - 1);
      if lower.Err? {
        return lower;
      }
      SumSplits(values, 0, low - 1, high);
      return Ok(upper.value - lower.value);
    }
  }
}
