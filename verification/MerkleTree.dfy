/** relay/merkletree.py: compare replicas by a root hash. The hash is any function
    with a fixed output length; a missed difference is turned into two distinct
    strings that the two trees hashed to the same value. */
module MerkleTree {
  import opened Common

  type Hash = string -> string

  // The truncated digest: every hash has the same length.
  ghost predicate FixedWidth(h: Hash) {
    forall x :: |h(x)| == 16
  }

  function LeafHashes(h: Hash, leaves: seq<string>): (r: seq<string>)
    ensures |r| == |leaves|
  {
    seq(|leaves|, i requires 0 <= i < |leaves| => h(leaves[i]))
  }

  // The string hashed for the i-th node above `level`: an odd last node is
  // paired with itself.
  function Pair(level: seq<string>, i: nat): string
    requires 2 * i < |level|
  {
    level[2*i] + if 2*i + 1 < |level| then level[2*i+1] else level[2*i]
  }

  function Fold(h: Hash, level: seq<string>): (r: seq<string>)
    ensures |r| == (|level| + 1) / 2
  {
    seq((|level| + 1) / 2, i requires 0 <= i < (|level| + 1) / 2 => h(Pair(level, i)))
  }

  function RootOf(h: Hash, level: seq<string>): string
    requires level != []
    decreases |level|
  {
    if |level| == 1 then level[0] else RootOf(h, Fold(h, level))
  }

  function MerkleRoot(h: Hash, leaves: seq<string>): string {
    if leaves == [] then h("") else RootOf(h, LeafHashes(h, leaves))
  }

  // The strings hashed on the way from `level` to the root.
  ghost function Hashed(h: Hash, level: seq<string>): set<string>
    decreases |level|
  {
    if |level| <= 1 then {}
    else (set i | 0 <= i < (|level| + 1) / 2 :: Pair(level, i)) + Hashed(h, Fold(h, level))
  }

  // Two distinct strings, one hashed by each tree, with the same hash.
  ghost predicate Collides(h: Hash, x: string, y: string) {
    x != y && h(x) == h(y)
  }

  ghost predicate CollisionBetween(h: Hash, a: set<string>, b: set<string>) {
    exists x, y :: x in a && y in b && Collides(h, x, y)
  }

  ghost predicate Digests(level: seq<string>) {
    forall i :: 0 <= i < |level| ==> |level[i]| == 16
  }

  lemma PairDetermines(a: seq<string>, b: seq<string>, i: nat)
    requires Digests(a) && Digests(b) && |a| == |b| && 2 * i < |a|
    requires Pair(a, i) == Pair(b, i)
    ensures a[2*i] == b[2*i]
    ensures 2*i + 1 < |a| ==> a[2*i+1] == b[2*i+1]
  {
    assert Pair(a, i)[..16] == a[2*i] && Pair(b, i)[..16] == b[2*i];
    assert 2*i + 1 < |a| ==> Pair(a, i)[16..] == a[2*i+1] && Pair(b, i)[16..] == b[2*i+1];
  }

  lemma FoldDetermines(h: Hash, a: seq<string>, b: seq<string>)
    requires Digests(a) && Digests(b) && |a| == |b|
    requires forall i :: 0 <= i < (|a| + 1) / 2 ==> Pair(a, i) == Pair(b, i)
    ensures a == b
  {
    forall k | 0 <= k < |a| ensures a[k] == b[k] {
      assert Pair(a, k / 2) == Pair(b, k / 2);
      PairDetermines(a, b, k / 2);
      assert k == 2 * (k / 2) || k == 2 * (k / 2) + 1;
    }
  }

  /** Equal roots over equally long levels: the levels are equal, or the two
      trees hashed two distinct strings to the same value. */
  lemma {:induction false} EqualRootsOrCollision(h: Hash, a: seq<string>, b: seq<string>)
    requires FixedWidth(h) && Digests(a) && Digests(b)
    requires |a| == |b| > 0
    requires RootOf(h, a) == RootOf(h, b)
    ensures a == b || CollisionBetween(h, Hashed(h, a), Hashed(h, b))
    decreases |a|
  {
    if |a| > 1 {
      var fa, fb := Fold(h, a), Fold(h, b);
      forall i | 0 <= i < |fa| ensures |fa[i]| == 16 && |fb[i]| == 16 {
        assert fa[i] == h(Pair(a, i)) && fb[i] == h(Pair(b, i));
      }
      EqualRootsOrCollision(h, fa, fb);
      if CollisionBetween(h, Hashed(h, fa), Hashed(h, fb)) {
        var x, y :| x in Hashed(h, fa) && y in Hashed(h, fb) && Collides(h, x, y);
        assert x in Hashed(h, a) && y in Hashed(h, b);
      } else if a != b {
        if forall i :: 0 <= i < (|a| + 1) / 2 ==> Pair(a, i) == Pair(b, i) {
          FoldDetermines(h, a, b);
        }
        var i :| 0 <= i < (|a| + 1) / 2 && Pair(a, i) != Pair(b, i);
        assert fa[i] == h(Pair(a, i)) && fb[i] == h(Pair(b, i));
        assert Collides(h, Pair(a, i), Pair(b, i));
      }
    }
  }

  // The strings a tree hashes, leaves included.
  ghost function AllHashed(h: Hash, leaves: seq<string>): set<string> {
    (set i | 0 <= i < |leaves| :: leaves[i]) + Hashed(h, LeafHashes(h, leaves))
  }

  lemma InnerCollisionCounts(h: Hash, a: seq<string>, b: seq<string>)
    ensures CollisionBetween(h, Hashed(h, LeafHashes(h, a)), Hashed(h, LeafHashes(h, b))) ==>
      CollisionBetween(h, AllHashed(h, a), AllHashed(h, b))
  {
  }

  // The source's `diff` on trees of one size.
  function MerkleDiff(h: Hash, a: seq<string>, b: seq<string>): seq<int>
    requires |a| == |b|
  {
    if MerkleRoot(h, a) == MerkleRoot(h, b) then [] else DifferingFrom(LeafHashes(h, a), LeafHashes(h, b), 0)
  }

  function DifferingFrom(a: seq<string>, b: seq<string>, i: nat): seq<int>
    requires |a| == |b| && i <= |a|
    decreases |a| - i
  {
    if i == |a| then [] else (if a[i] != b[i] then [i as int] else []) + DifferingFrom(a, b, i + 1)
  }

  // `r` lists exactly the indexes at which the records differ, in order.
  ghost predicate ListsDifferences(r: seq<int>, a: seq<string>, b: seq<string>)
    requires |a| == |b|
  {
    && Ascending(r)
    && (forall i :: i in r <==> 0 <= i < |a| && a[i] != b[i])
  }

  ghost predicate Ascending(r: seq<int>) {
    forall j, k :: 0 <= j < k < |r| ==> r[j] < r[k]
  }

  lemma AscendingCons(x: int, r: seq<int>)
    requires Ascending(r) && forall y :: y in r ==> x < y
    ensures Ascending([x] + r)
  {
    var t := [x] + r;
    forall j, k | 0 <= j < k < |t| ensures t[j] < t[k] {
      assert t[k] == r[k-1] && r[k-1] in r;
      assert j > 0 ==> t[j] == r[j-1];
    }
  }

  lemma {:induction false} DifferingMembers(a: seq<string>, b: seq<string>, i: nat, k: int)
    requires |a| == |b| && i <= |a|
    ensures k in DifferingFrom(a, b, i) <==> i <= k < |a| && a[k] != b[k]
    decreases |a| - i
  {
    if i < |a| { DifferingMembers(a, b, i + 1, k); }
  }

  lemma {:induction false} DifferingFromIsExact(a: seq<string>, b: seq<string>, i: nat)
    requires |a| == |b| && i <= |a|
    ensures Ascending(DifferingFrom(a, b, i))
    ensures forall k :: k in DifferingFrom(a, b, i) <==> i <= k < |a| && a[k] != b[k]
    decreases |a| - i
  {
    forall k ensures k in DifferingFrom(a, b, i) <==> i <= k < |a| && a[k] != b[k] {
      DifferingMembers(a, b, i, k);
    }
    if i < |a| {
      var rest := DifferingFrom(a, b, i + 1);
      DifferingFromIsExact(a, b, i + 1);
      AscendingCons(i, rest);
      assert [] + rest == rest;
    }
  }

  /** `diff` lists exactly the records that differ, or the two trees hashed two
      distinct strings to the same value. */
  lemma DiffIsExactOrCollision(h: Hash, a: seq<string>, b: seq<string>)
    requires FixedWidth(h) && |a| == |b|
    ensures ListsDifferences(MerkleDiff(h, a, b), a, b)
         || CollisionBetween(h, AllHashed(h, a), AllHashed(h, b))
  {
    if !CollisionBetween(h, AllHashed(h, a), AllHashed(h, b)) {
      var la, lb := LeafHashes(h, a), LeafHashes(h, b);
      forall i | 0 <= i < |a| ensures la[i] == lb[i] <==> a[i] == b[i] {
        if la[i] == lb[i] && a[i] != b[i] {
          assert a[i] in AllHashed(h, a) && b[i] in AllHashed(h, b) && Collides(h, a[i], b[i]);
        }
      }
      DifferingFromIsExact(la, lb, 0);
      if a != [] && MerkleRoot(h, a) == MerkleRoot(h, b) {
        EqualRootsOrCollision(h, la, lb);
        InnerCollisionCounts(h, a, b);
      }
    }
  }

  /** The shortcut itself: `diff` drops a differing leaf hash exactly when the
      roots are equal over different leaf hashes, and then a collision is at hand. */
  lemma ShortcutHidesOnlyCollisions(h: Hash, a: seq<string>, b: seq<string>)
    requires FixedWidth(h) && |a| == |b|
    requires MerkleDiff(h, a, b) == []
    ensures LeafHashes(h, a) == LeafHashes(h, b)
         || CollisionBetween(h, Hashed(h, LeafHashes(h, a)), Hashed(h, LeafHashes(h, b)))
  {
    var la, lb := LeafHashes(h, a), LeafHashes(h, b);
    if a != [] {
      if MerkleRoot(h, a) == MerkleRoot(h, b) {
        EqualRootsOrCollision(h, la, lb);
      } else {
        DifferingFromIsExact(la, lb, 0);
        assert forall i :: 0 <= i < |la| ==> la[i] == lb[i];
      }
    }
  }

  /** Why trees of different leaf counts must be refused: over an odd count, the
      last leaf repeated gives the same root. */
  lemma RootHidesRepeatedLastLeaf(h: Hash, leaves: seq<string>)
    requires |leaves| > 1 && |leaves| % 2 == 1
    ensures MerkleRoot(h, leaves + [leaves[|leaves|-1]]) == MerkleRoot(h, leaves)
  {
    var a := LeafHashes(h, leaves);
    var b := LeafHashes(h, leaves + [leaves[|leaves|-1]]);
    assert |Fold(h, a)| == |Fold(h, b)|;
    forall i | 0 <= i < |Fold(h, a)| ensures Pair(a, i) == Pair(b, i) { }
    assert Fold(h, a) == Fold(h, b);
  }

  // ---- the shape of the tree

  // The node n levels above `level`, when nothing else is beside it.
  function Raised(h: Hash, level: seq<string>, n: nat): string
    requires 1 <= |level| <= Pow2(n)
    decreases n
  {
    if n == 0 then level[0] else Raised(h, Fold(h, level), n - 1)
  }

  lemma FoldOfSplit(h: Hash, a: seq<string>, b: seq<string>)
    requires |a| % 2 == 0
    ensures Fold(h, a + b) == Fold(h, a) + Fold(h, b)
  {
    var m, l := |a| / 2, a + b;
    var joined := Fold(h, a) + Fold(h, b);
    assert |Fold(h, l)| == |joined|;
    forall i | 0 <= i < |joined| ensures Fold(h, l)[i] == joined[i] {
      if i < m { PairOfLeft(a, b, i); } else { PairOfRight(a, b, i - m); }
    }
  }

  lemma PairOfLeft(a: seq<string>, b: seq<string>, i: nat)
    requires |a| % 2 == 0 && i < |a| / 2
    ensures Pair(a + b, i) == Pair(a, i)
  {
  }

  lemma PairOfRight(a: seq<string>, b: seq<string>, i: nat)
    requires |a| % 2 == 0 && 2 * i < |b|
    ensures Pair(a + b, |a| / 2 + i) == Pair(b, i)
  {
    var k := |a| / 2 + i;
    assert 2 * k == |a| + 2 * i;
    assert (a + b)[2*k] == b[2*i];
    assert 2 * k + 1 < |a + b| ==> (a + b)[2*k+1] == b[2*i+1];
  }

  lemma {:induction false} RootOfSplit(h: Hash, a: seq<string>, b: seq<string>, n: nat)
    requires |a| == Pow2(n) && 1 <= |b| <= Pow2(n)
    ensures RootOf(h, a + b) == h(RootOf(h, a) + Raised(h, b, n))
    decreases n
  {
    if n == 0 {
      assert Pair(a + b, 0) == a[0] + b[0];
      assert Fold(h, a + b) == [h(a[0] + b[0])];
    } else {
      FoldOfSplit(h, a, b);
      RootOfSplit(h, Fold(h, a), Fold(h, b), n - 1);
    }
  }

  lemma {:induction false} RaisedIsRoot(h: Hash, b: seq<string>, n: nat)
    requires |b| == Pow2(n)
    ensures Raised(h, b, n) == RootOf(h, b)
    decreases n
  {
    if n > 0 { RaisedIsRoot(h, Fold(h, b), n - 1); }
  }

  /** A lone node is paired with itself on every level it is raised. */
  lemma RaisedAlone(h: Hash, x: string, n: nat)
    ensures Raised(h, [x], n + 1) == Raised(h, [h(x + x)], n)
  {
    assert Pair([x], 0) == x + x;
    assert Fold(h, [x]) == [h(x + x)];
  }

  /** The whole shape of the tree. Without records the root is the hash of the empty
      string, and over one record its hash. Over more, the records up to the largest
      power of two fill the left half, whose root is hashed before the node to which
      the others are raised; if they fill the right half, that is their root. */
  lemma RootJoinsHalves(h: Hash, a: seq<string>, b: seq<string>, n: nat)
    requires |a| == Pow2(n) && 1 <= |b| <= Pow2(n)
    ensures MerkleRoot(h, []) == h("") && forall x :: MerkleRoot(h, [x]) == h(x)
    ensures MerkleRoot(h, a + b) == h(MerkleRoot(h, a) + Raised(h, LeafHashes(h, b), n))
    ensures |b| == Pow2(n) ==> Raised(h, LeafHashes(h, b), n) == MerkleRoot(h, b)
  {
    assert LeafHashes(h, a + b) == LeafHashes(h, a) + LeafHashes(h, b);
    RootOfSplit(h, LeafHashes(h, a), LeafHashes(h, b), n);
    if |b| == Pow2(n) { RaisedIsRoot(h, LeafHashes(h, b), n); }
  }

  class MerkleTree {
    const hash: Hash
    var leaves: seq<string>

    constructor (hash: Hash, leaves: seq<string>)
      ensures this.hash == hash && this.leaves == leaves
    {
      this.hash := hash;
      this.leaves := leaves;
    }

    /** The source's `root`: fold the leaf hashes pairwise, level by level. */
    method Root() returns (r: string)
      ensures r == MerkleRoot(hash, leaves)
    {
      var level := LeafHashes(hash, leaves);
      if |level| == 0 {
        return hash("");
      }
      while |level| > 1
        invariant level != [] && RootOf(hash, level) == MerkleRoot(hash, leaves)
        decreases |level|
      {
        var next: seq<string> := [];
        var i := 0;
        while i < |level|
          invariant 0 <= i <= |level| + 1 && i % 2 == 0
          invariant |next| == i / 2
          invariant forall k :: 0 <= k < |next| ==> 2 * k < |level| && next[k] == hash(Pair(level, k))
        {
          assert Pair(level, i / 2) == level[i] + if i + 1 < |level| then level[i+1] else level[i];
          var pair := level[i] + if i + 1 < |level| then level[i+1] else level[i];
          next := next + [hash(pair)];
          i := i + 2;
        }
        assert next == Fold(hash, level);
        level := next;
      }
      return level[0];
    }

    /** The source's `diff`. */
    method Diff(other: MerkleTree) returns (r: Result<seq<int>>)
      requires other.hash == hash
      ensures |leaves| != |other.leaves| ==> r == Err(Invalid)
      ensures |leaves| == |other.leaves| ==> r == Ok(MerkleDiff(hash, leaves, other.leaves))
    {
      if |leaves| != |other.leaves| {
        return Err(Invalid);
      }
      var mine := Root();
      var theirs := other.Root();
      if mine == theirs {
        return Ok([]);
      }
      return Ok(DifferingFrom(LeafHashes(hash, leaves), LeafHashes(hash, other.leaves), 0));
    }
  }
}
