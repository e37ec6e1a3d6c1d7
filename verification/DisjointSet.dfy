/** relay/disjointset.py: union-find with path compression and union by rank.
    The forest is first studied as a value, then kept by the class. */
module DisjointSet {
  import opened Common

  datatype Forest = Forest(parent: map<string, string>, rank: map<string, nat>)

  // A parent link stays inside the structure and climbs to a higher rank.
  ghost predicate LinkOk(f: Forest, x: string)
    requires x in f.parent && f.parent.Keys == f.rank.Keys
  {
    f.parent[x] in f.parent && (f.parent[x] != x ==> f.rank[x] < f.rank[f.parent[x]])
  }

  ghost predicate Wf(f: Forest) {
    && f.parent.Keys == f.rank.Keys
    && forall x {:trigger LinkOk(f, x)} :: x in f.parent ==> LinkOk(f, x)
  }

  // The elements of higher rank: what is left to climb through.
  ghost function Above(f: Forest, x: string): set<string>
    requires Wf(f) && x in f.parent
  {
    set y | y in f.parent && f.rank[x] < f.rank[y]
  }

  lemma ClimbingShrinksAbove(f: Forest, x: string)
    requires Wf(f) && x in f.parent
    ensures LinkOk(f, x)
    ensures f.parent[x] != x ==> Above(f, f.parent[x]) < Above(f, x)
  {
    assert LinkOk(f, x);
    if f.parent[x] == x { return; }
    assert f.parent[x] in Above(f, x) && f.parent[x] !in Above(f, f.parent[x]);
  }

  ghost function Root(f: Forest, x: string): (r: string)
    requires Wf(f) && x in f.parent
    ensures r in f.parent && f.parent[r] == r
    ensures x != r ==> f.rank[x] < f.rank[r]
    decreases Above(f, x)
  {
    ClimbingShrinksAbove(f, x);
    if f.parent[x] == x then x else Root(f, f.parent[x])
  }

  // `y` is `x` or one of its ancestors.
  ghost predicate OnPath(f: Forest, x: string, y: string)
    requires Wf(f) && x in f.parent
    decreases Above(f, x)
  {
    ClimbingShrinksAbove(f, x);
    x == y || (f.parent[x] != x && OnPath(f, f.parent[x], y))
  }

  lemma {:induction false} PathClimbs(f: Forest, x: string, y: string)
    requires Wf(f) && x in f.parent
    requires OnPath(f, x, y)
    ensures y in f.parent && f.rank[x] <= f.rank[y] && Root(f, y) == Root(f, x)
    ensures x != y ==> f.rank[x] < f.rank[y]
    decreases Above(f, x)
  {
    if x != y {
      ClimbingShrinksAbove(f, x);
      PathClimbs(f, f.parent[x], y);
    }
  }

  // The number of links from an element to its root.
  ghost function Depth(f: Forest, x: string): nat
    requires Wf(f) && x in f.parent
    decreases Above(f, x)
  {
    ClimbingShrinksAbove(f, x);
    if f.parent[x] == x then 0 else 1 + Depth(f, f.parent[x])
  }

  lemma {:induction false} DepthWithinRank(f: Forest, x: string)
    requires Wf(f) && x in f.parent
    ensures f.rank[x] + Depth(f, x) <= f.rank[Root(f, x)]
    decreases Above(f, x)
  {
    if f.parent[x] != x {
      ClimbingShrinksAbove(f, x);
      DepthWithinRank(f, f.parent[x]);
    }
  }

  lemma {:induction false} Pow2Monotone(m: nat, n: nat)
    requires m <= n
    ensures Pow2(m) <= Pow2(n)
  {
    if m < n { Pow2Monotone(m, n - 1); }
  }

  ghost function Members(f: Forest, r: string): set<string>
    requires Wf(f)
  {
    set x | x in f.parent && Root(f, x) == r
  }

  // Union by rank keeps every root's tree large for its rank.
  ghost predicate HeavyAt(f: Forest, r: string)
    requires Wf(f) && r in f.parent
  {
    f.parent[r] == r ==> Pow2(f.rank[r]) <= |Members(f, r)|
  }

  ghost predicate Heavy(f: Forest)
    requires Wf(f)
  {
    forall r {:trigger HeavyAt(f, r)} :: r in f.parent ==> HeavyAt(f, r)
  }

  /** A find climbs at most log2 of the number of elements: 2^depth <= n. */
  lemma DepthIsLogarithmic(f: Forest, x: string)
    requires Wf(f) && Heavy(f) && x in f.parent
    ensures Pow2(Depth(f, x)) <= |f.parent|
  {
    var r := Root(f, x);
    assert HeavyAt(f, r);
    DepthWithinRank(f, x);
    Pow2Monotone(Depth(f, x), f.rank[r]);
    assert Members(f, r) <= f.parent.Keys;
    SubsetSize(Members(f, r), f.parent.Keys);
  }

  // ---- path compression

  ghost function Compressed(f: Forest, x: string): Forest
    requires Wf(f) && x in f.parent
  {
    f.(parent := map y | y in f.parent :: if OnPath(f, x, y) then Root(f, x) else f.parent[y])
  }

  lemma CompressedWf(f: Forest, x: string)
    requires Wf(f) && x in f.parent
    ensures Wf(Compressed(f, x))
  {
    var g := Compressed(f, x);
    forall y {:trigger LinkOk(g, y)} | y in g.parent ensures LinkOk(g, y) {
      assert LinkOk(f, y);
      if OnPath(f, x, y) { PathClimbs(f, x, y); }
    }
  }

  lemma {:induction false} CompressedRoot(f: Forest, x: string, y: string)
    requires Wf(f) && x in f.parent && y in f.parent
    requires Wf(Compressed(f, x))
    ensures Root(Compressed(f, x), y) == Root(f, y)
    decreases Above(f, y)
  {
    var g := Compressed(f, x);
    if OnPath(f, x, y) {
      PathClimbs(f, x, y);
      PathReachesRoot(f, x);
      assert g.parent[Root(f, x)] == Root(f, x);
    } else if f.parent[y] != y {
      ClimbingShrinksAbove(f, y);
      CompressedRoot(f, x, f.parent[y]);
    }
  }

  lemma {:induction false} PathReachesRoot(f: Forest, x: string)
    requires Wf(f) && x in f.parent
    ensures OnPath(f, x, Root(f, x))
    decreases Above(f, x)
  {
    if f.parent[x] != x {
      ClimbingShrinksAbove(f, x);
      PathReachesRoot(f, f.parent[x]);
    }
  }

  /** Path compression changes no element's root, and so no group and no size. */
  lemma CompressionKeepsRoots(f: Forest, x: string)
    requires Wf(f) && x in f.parent
    ensures var g := Compressed(f, x);
      && Wf(g) && g.parent.Keys == f.parent.Keys && g.rank == f.rank
      && (forall y {:trigger Root(g, y)} :: y in f.parent ==> Root(g, y) == Root(f, y))
      && (forall r :: Members(g, r) == Members(f, r))
      && (Heavy(f) ==> Heavy(g))
  {
    var g := Compressed(f, x);
    CompressedWf(f, x);
    forall y {:trigger Root(g, y)} | y in f.parent ensures Root(g, y) == Root(f, y) { CompressedRoot(f, x, y); }
    forall r ensures Members(g, r) == Members(f, r) { }
    forall r {:trigger HeavyAt(g, r)} | Heavy(f) && r in g.parent ensures HeavyAt(g, r) {
      assert HeavyAt(f, r);
      assert Root(g, r) == Root(f, r);
    }
  }

  // ---- union by rank

  // Attach root `low` under root `high`; equal ranks raise the winner's.
  ghost function Linked(f: Forest, low: string, high: string): Forest
    requires Wf(f) && low in f.parent && high in f.parent
  {
    Forest(f.parent[low := high],
           if f.rank[low] == f.rank[high] then f.rank[high := f.rank[high] + 1] else f.rank)
  }

  ghost predicate Linkable(f: Forest, low: string, high: string) {
    && Wf(f)
    && low in f.parent && high in f.parent && low != high
    && f.parent[low] == low && f.parent[high] == high
    && f.rank[low] <= f.rank[high]
  }

  lemma LinkedWf(f: Forest, low: string, high: string)
    requires Linkable(f, low, high)
    ensures Wf(Linked(f, low, high))
  {
    var g := Linked(f, low, high);
    forall x {:trigger LinkOk(g, x)} | x in g.parent ensures LinkOk(g, x) {
      assert LinkOk(f, x);
    }
  }

  lemma {:induction false} LinkedRoot(f: Forest, low: string, high: string, x: string)
    requires Linkable(f, low, high) && x in f.parent
    requires Wf(Linked(f, low, high))
    ensures Root(Linked(f, low, high), x) == if Root(f, x) == low then high else Root(f, x)
    decreases Above(f, x)
  {
    if f.parent[x] != x {
      ClimbingShrinksAbove(f, x);
      LinkedRoot(f, low, high, f.parent[x]);
    } else if x == low {
      assert Root(Linked(f, low, high), high) == high;
    }
  }

  lemma LinkedMembers(f: Forest, g: Forest, low: string, high: string)
    requires Merged(f, g, low, high) && low != high
    ensures Members(g, high) == Members(f, high) + Members(f, low)
    ensures |Members(g, high)| == |Members(f, high)| + |Members(f, low)|
  {
  }

  lemma WinnerStaysHeavy(f: Forest, g: Forest, low: string, high: string)
    requires Linkable(f, low, high) && HeavyAt(f, low) && HeavyAt(f, high)
    requires g == Linked(f, low, high) && Merged(f, g, low, high)
    ensures HeavyAt(g, high)
  {
    LinkedMembers(f, g, low, high);
  }

  lemma LinkedHeavyAt(f: Forest, g: Forest, low: string, high: string, r: string)
    requires Linkable(f, low, high) && Heavy(f)
    requires g == Linked(f, low, high) && Merged(f, g, low, high)
    requires r in f.parent
    ensures HeavyAt(g, r)
  {
    assert HeavyAt(f, low) && HeavyAt(f, high) && HeavyAt(f, r);
    if r == high {
      WinnerStaysHeavy(f, g, low, high);
    } else if r != low {
      assert Members(g, r) == Members(f, r);
    }
  }

  /** Linking merges exactly the two groups and keeps trees heavy. */
  lemma LinkMergesGroups(f: Forest, low: string, high: string)
    requires Linkable(f, low, high) && Heavy(f)
    ensures Merged(f, Linked(f, low, high), low, high)
    ensures Heavy(Linked(f, low, high))
  {
    var g := Linked(f, low, high);
    LinkedWf(f, low, high);
    forall x {:trigger Root(g, x)} | x in f.parent
      ensures Root(g, x) == if Root(f, x) == low then high else Root(f, x)
    {
      LinkedRoot(f, low, high, x);
    }
    forall r {:trigger HeavyAt(g, r)} | r in g.parent ensures HeavyAt(g, r) {
      LinkedHeavyAt(f, g, low, high, r);
    }
  }

  // ---- add

  ghost function Added(f: Forest, e: string): Forest {
    Forest(f.parent[e := e], f.rank[e := 0])
  }

  lemma AddedWf(f: Forest, e: string)
    requires Wf(f) && e !in f.parent
    ensures Wf(Added(f, e))
  {
    var g := Added(f, e);
    forall x {:trigger LinkOk(g, x)} | x in g.parent ensures LinkOk(g, x) {
      if x != e { assert LinkOk(f, x); }
    }
  }

  /** A new element is a group of its own; no other group changes. */
  lemma AddingKeepsRoots(f: Forest, e: string)
    requires Wf(f) && Heavy(f) && e !in f.parent
    ensures var g := Added(f, e);
      && Wf(g) && Heavy(g) && Root(g, e) == e
      && forall x {:trigger Root(g, x)} :: x in f.parent ==> Root(g, x) == Root(f, x)
  {
    var g := Added(f, e);
    AddedWf(f, e);
    forall x {:trigger Root(g, x)} | x in f.parent ensures Root(g, x) == Root(f, x) { AddedRoot(f, e, x); }
    forall r {:trigger HeavyAt(g, r)} | r in g.parent ensures HeavyAt(g, r) {
      if r == e {
        assert Members(g, e) == {e};
      } else {
        assert HeavyAt(f, r);
        assert Members(g, r) == Members(f, r);
      }
    }
  }

  lemma {:induction false} AddedRoot(f: Forest, e: string, x: string)
    requires Wf(f) && e !in f.parent && x in f.parent
    requires Wf(Added(f, e))
    ensures Root(Added(f, e), x) == Root(f, x)
    decreases Above(f, x)
  {
    if f.parent[x] != x {
      ClimbingShrinksAbove(f, x);
      AddedRoot(f, e, f.parent[x]);
    }
  }

  // ---- the specification: equivalence closure of the unions performed

  type Unions = set<(string, string)>

  ghost predicate Joined(u: Unions, a: string, b: string) {
    (a, b) in u || (b, a) in u
  }

  ghost predicate Chain(u: Unions, p: seq<string>) {
    p != [] && forall i :: 0 <= i < |p| - 1 ==> Joined(u, p[i], p[i+1])
  }

  // `a` and `b` are related by the reflexive, symmetric and transitive closure.
  ghost predicate Equivalent(u: Unions, a: string, b: string) {
    exists p :: Chain(u, p) && p[0] == a && p[|p|-1] == b
  }

  lemma EquivalentSelf(u: Unions, a: string)
    ensures Equivalent(u, a, a)
  {
    assert Chain(u, [a]);
  }

  lemma EquivalentSym(u: Unions, a: string, b: string)
    requires Equivalent(u, a, b)
    ensures Equivalent(u, b, a)
  {
    var p :| Chain(u, p) && p[0] == a && p[|p|-1] == b;
    var q := seq(|p|, i requires 0 <= i < |p| => p[|p| - 1 - i]);
    forall i | 0 <= i < |q| - 1 ensures Joined(u, q[i], q[i+1]) {
      assert Joined(u, p[|p| - 2 - i], p[|p| - 2 - i + 1]);
    }
    assert Chain(u, q);
  }

  lemma EquivalentTrans(u: Unions, a: string, b: string, c: string)
    requires Equivalent(u, a, b) && Equivalent(u, b, c)
    ensures Equivalent(u, a, c)
  {
    var p :| Chain(u, p) && p[0] == a && p[|p|-1] == b;
    var q :| Chain(u, q) && q[0] == b && q[|q|-1] == c;
    var r := p + q[1..];
    forall i | 0 <= i < |r| - 1 ensures Joined(u, r[i], r[i+1]) {
      if i < |p| - 1 {
        assert Joined(u, p[i], p[i+1]);
      } else {
        assert Joined(u, q[i - |p| + 1], q[i - |p| + 2]);
      }
    }
    assert Chain(u, r);
  }

  lemma EquivalentGrows(u: Unions, v: Unions, a: string, b: string)
    requires u <= v && Equivalent(u, a, b)
    ensures Equivalent(v, a, b)
  {
  }

  // The forest represents the unions: joined elements share a root, and every
  // element is equivalent to its root.
  ghost predicate Represents(f: Forest, u: Unions)
    requires Wf(f)
  {
    && (forall a, b :: (a, b) in u ==> a in f.parent && b in f.parent && Root(f, a) == Root(f, b))
    && (forall x {:trigger Root(f, x)} :: x in f.parent ==> Equivalent(u, x, Root(f, x)))
  }

  lemma {:induction false} ChainSharesRoot(f: Forest, u: Unions, p: seq<string>)
    requires Wf(f) && Represents(f, u)
    requires Chain(u, p) && p[0] in f.parent
    ensures p[|p|-1] in f.parent && Root(f, p[0]) == Root(f, p[|p|-1])
  {
    if |p| > 1 {
      assert Joined(u, p[0], p[1]);
      assert forall i :: 0 <= i < |p[1..]| - 1 ==> Joined(u, p[1..][i], p[1..][i+1]) by {
        forall i | 0 <= i < |p[1..]| - 1 ensures Joined(u, p[1..][i], p[1..][i+1]) {
          assert Joined(u, p[i+1], p[i+1+1]);
        }
      }
      ChainSharesRoot(f, u, p[1..]);
    }
  }

  /** Sharing a root is exactly the equivalence closure of the unions. */
  lemma SameRootIsEquivalence(f: Forest, u: Unions, a: string, b: string)
    requires Wf(f) && Represents(f, u)
    requires a in f.parent && b in f.parent
    ensures Root(f, a) == Root(f, b) <==> Equivalent(u, a, b)
  {
    if Root(f, a) == Root(f, b) {
      EquivalentSym(u, b, Root(f, b));
      EquivalentTrans(u, a, Root(f, a), b);
    }
    if Equivalent(u, a, b) {
      var p :| Chain(u, p) && p[0] == a && p[|p|-1] == b;
      ChainSharesRoot(f, u, p);
    }
  }

  lemma LinkedRootsAreEquivalent(f: Forest, u: Unions, a: string, b: string)
    requires Wf(f) && Represents(f, u)
    requires a in f.parent && b in f.parent
    ensures Equivalent(u + {(a, b)}, Root(f, a), Root(f, b))
    ensures Equivalent(u + {(a, b)}, Root(f, b), Root(f, a))
  {
    var v := u + {(a, b)};
    var ra, rb := Root(f, a), Root(f, b);
    assert Chain(v, [a, b]);
    assert Equivalent(v, a, b);
    EquivalentGrows(u, v, a, ra);
    EquivalentGrows(u, v, b, rb);
    EquivalentSym(v, a, ra);
    EquivalentTrans(v, ra, a, b);
    EquivalentTrans(v, ra, b, rb);
    EquivalentSym(v, ra, rb);
  }

  lemma LinkedElementReachesRoot(f: Forest, u: Unions, x: string, a: string, b: string, low: string, high: string)
    requires Wf(f) && x in f.parent && Equivalent(u, x, Root(f, x))
    requires Equivalent(u + {(a, b)}, low, high)
    ensures Equivalent(u + {(a, b)}, x, if Root(f, x) == low then high else Root(f, x))
  {
    EquivalentGrows(u, u + {(a, b)}, x, Root(f, x));
    if Root(f, x) == low { EquivalentTrans(u + {(a, b)}, x, low, high); }
  }

  // `g` is `f` with the group of root `low` moved to root `high`.
  ghost predicate Merged(f: Forest, g: Forest, low: string, high: string) {
    && Wf(f) && Wf(g) && g.parent.Keys == f.parent.Keys
    && forall x {:trigger Root(g, x)} :: x in f.parent ==>
         Root(g, x) == if Root(f, x) == low then high else Root(f, x)
  }

  /** Recording a union whose groups have been merged keeps the representation. */
  lemma MergeRepresents(f: Forest, g: Forest, u: Unions, a: string, b: string, low: string, high: string)
    requires Merged(f, g, low, high) && Represents(f, u)
    requires a in f.parent && b in f.parent
    requires (Root(f, a) == low && Root(f, b) == high) || (Root(f, b) == low && Root(f, a) == high)
    ensures Represents(g, u + {(a, b)})
  {
    var v := u + {(a, b)};
    LinkedRootsAreEquivalent(f, u, a, b);
    forall x {:trigger Root(g, x)} | x in g.parent ensures Equivalent(v, x, Root(g, x)) {
      assert Equivalent(u, x, Root(f, x));
      LinkedElementReachesRoot(f, u, x, a, b, low, high);
    }
    forall c, d | (c, d) in v ensures c in g.parent && d in g.parent && Root(g, c) == Root(g, d) {
      assert (c, d) in u || (c, d) == (a, b);
    }
  }

  lemma AddRepresents(f: Forest, g: Forest, u: Unions, e: string)
    requires Wf(f) && Wf(g) && Represents(f, u)
    requires g.parent.Keys == f.parent.Keys + {e} && Root(g, e) == e
    requires e !in f.parent
    requires forall x {:trigger Root(g, x)} :: x in f.parent ==> Root(g, x) == Root(f, x)
    ensures Represents(g, u)
  {
    EquivalentSelf(u, e);
  }

  // Whoever had one of the two roots now has the one of higher rank, and the first
  // of them if the ranks are equal; nobody else's root changes.
  ghost predicate JoinedUnder(f: Forest, g: Forest, ra: string, rb: string)
    requires Wf(f) && Wf(g) && f.parent.Keys == g.parent.Keys && ra in f.parent && rb in f.parent
  {
    forall x {:trigger Root(g, x)} :: x in f.parent ==>
      Root(g, x) == if Root(f, x) != ra && Root(f, x) != rb then Root(f, x)
                    else if f.rank[ra] < f.rank[rb] then rb else ra
  }

  lemma LinkJoins(f: Forest, ra: string, rb: string, low: string, high: string)
    requires Wf(f) && ra in f.parent && rb in f.parent && low in f.parent && high in f.parent
    requires if f.rank[ra] < f.rank[rb] then low == ra && high == rb else low == rb && high == ra
    requires Merged(f, Linked(f, low, high), low, high)
    ensures JoinedUnder(f, Linked(f, low, high), ra, rb)
  {
  }

  class DisjointSet {
    var parent: map<string, string>
    var rank: map<string, nat>
    ghost var unions: Unions

    ghost function Model(): Forest
      reads this
    {
      Forest(parent, rank)
    }

    ghost predicate Valid()
      reads this
    {
      Wf(Model()) && Heavy(Model()) && Represents(Model(), unions)
    }

    constructor ()
      ensures Valid() && parent == map[] && unions == {}
    {
      parent, rank, unions := map[], map[], {};
    }

    /** The source's `add`. */
    method Add(element: string)
      requires Valid()
      modifies this
      ensures Valid() && unions == old(unions)
      ensures element in old(parent) ==> parent == old(parent) && rank == old(rank)
      ensures element !in old(parent) ==>
        parent == old(parent)[element := element] && rank == old(rank)[element := 0]
    {
      if element !in parent {
        ghost var f := Model();
        AddingKeepsRoots(f, element);
        parent := parent[element := element];
        rank := rank[element := 0];
        AddRepresents(f, Model(), unions, element);
      }
    }

    // The first loop of `find`.
    method Climb(element: string) returns (root: string)
      requires Wf(Model()) && element in parent
      ensures root == Root(Model(), element)
    {
      root := element;
      while parent[root] != root
        invariant root in parent && Root(Model(), root) == Root(Model(), element)
        decreases Above(Model(), root)
      {
        ClimbingShrinksAbove(Model(), root);
        root := parent[root];
      }
    }

    // The second loop of `find`: path compression.
    method Compress(element: string, root: string)
      requires Wf(Model()) && element in parent && root == Root(Model(), element)
      modifies this`parent
      ensures Model() == Compressed(old(Model()), element)
    {
      ghost var f := Model();
      var e := element;
      while parent[e] != root
        invariant e in f.parent && Root(f, e) == root
        invariant OnPath(f, element, e)
        invariant parent == CompressedUpTo(f, element, e)
        decreases Above(f, e)
      {
        ClimbingShrinksAbove(f, e);
        CompressOneMore(f, element, e);
        var next := parent[e];
        parent := parent[e := root];
        e := next;
      }
      CompressionEnds(f, element, e);
    }

    /** The source's `find`: climb to the root, then point the path at it. */
    method Find(element: string) returns (r: Result<string>)
      requires Valid()
      modifies this`parent
      ensures Valid()
      ensures element !in old(parent) ==> r == Err(Invalid) && parent == old(parent)
      ensures element in old(parent) ==>
        && r == Ok(Root(old(Model()), element))
        && Model() == Compressed(old(Model()), element)
      ensures parent.Keys == old(parent).Keys
      ensures forall x {:trigger Root(Model(), x)} :: x in parent ==> Root(Model(), x) == Root(old(Model()), x)
    {
      if element !in parent {
        return Err(Invalid);
      }
      ghost var f := Model();
      var root := Climb(element);
      Compress(element, root);
      CompressionKeepsRoots(f, element);
      return Ok(root);
    }

    /** The source's `union`. A refused element changes no group. */
    method Union(a: string, b: string) returns (r: Result<()>)
      requires Valid()
      modifies this
      ensures Valid()
      ensures parent.Keys == old(parent).Keys
      ensures r.Ok? <==> a in old(parent) && b in old(parent)
      ensures r.Err? ==> r.error == Invalid && rank == old(rank) && unions == old(unions)
      ensures r.Err? ==> forall x {:trigger Root(Model(), x)} :: x in parent ==>
        Root(Model(), x) == Root(old(Model()), x)
      ensures r.Ok? ==> unions == old(unions) + {(a, b)}
      ensures r.Ok? ==> JoinedUnder(old(Model()), Model(), Root(old(Model()), a), Root(old(Model()), b))
    {
      var fa := Find(a);
      if fa.Err? {
        return Err(Invalid);
      }
      var fb := Find(b);
      if fb.Err? {
        return Err(Invalid);
      }
      if fa.value == fb.value {
        MergeRepresents(Model(), Model(), unions, a, b, fa.value, fa.value);
        unions := unions + {(a, b)};
        return Ok(());
      }
      LinkRoots(fa.value, fb.value, a, b);
      return Ok(());
    }

    // Attach the root of lower rank under the other one, the second if equal.
    method LinkRoots(first: string, second: string, ghost a: string, ghost b: string)
      requires Valid() && a in parent && b in parent
      requires first == Root(Model(), a) && second == Root(Model(), b) && first != second
      modifies this
      ensures Valid() && parent.Keys == old(parent).Keys
      ensures unions == old(unions) + {(a, b)}
      ensures JoinedUnder(old(Model()), Model(), first, second)
    {
      var ra, rb := first, second;
      ghost var f := Model();
      if rank[ra] < rank[rb] {
        ra, rb := rb, ra;
      }
      LinkMergesGroups(f, rb, ra);
      LinkJoins(f, first, second, rb, ra);
      parent := parent[rb := ra];
      if rank[ra] == rank[rb] {
        rank := rank[ra := rank[ra] + 1];
      }
      assert Model() == Linked(f, rb, ra);
      MergeRepresents(f, Model(), unions, a, b, rb, ra);
      unions := unions + {(a, b)};
    }

    /** The source's `same_group`: true exactly on the equivalence closure of
        the unions performed. */
    method SameGroup(a: string, b: string) returns (r: Result<bool>)
      requires Valid()
      modifies this`parent
      ensures Valid()
      ensures parent.Keys == old(parent).Keys
      ensures a !in parent || b !in parent ==> r == Err(Invalid)
      ensures a in parent && b in parent ==> r == Ok(Equivalent(unions, a, b))
      ensures forall x {:trigger Root(Model(), x)} :: x in parent ==> Root(Model(), x) == Root(old(Model()), x)
    {
      var fa := Find(a);
      if fa.Err? {
        return Err(Invalid);
      }
      var fb := Find(b);
      if fb.Err? {
        return Err(Invalid);
      }
      SameRootIsEquivalence(Model(), unions, a, b);
      return Ok(fa.value == fb.value);
    }
  }

  // The parent links once the path from `x` is rewritten as far as `e`.
  ghost function CompressedUpTo(f: Forest, x: string, e: string): map<string, string>
    requires Wf(f) && x in f.parent && e in f.parent
  {
    map y | y in f.parent :: if OnPath(f, x, y) && !OnPath(f, e, y) then Root(f, x) else f.parent[y]
  }

  lemma CompressOneMore(f: Forest, x: string, e: string)
    requires Wf(f) && x in f.parent && e in f.parent
    requires OnPath(f, x, e) && Root(f, e) == Root(f, x)
    requires f.parent[e] != Root(f, x)
    ensures f.parent[e] in f.parent && OnPath(f, x, f.parent[e]) && Root(f, f.parent[e]) == Root(f, x)
    ensures CompressedUpTo(f, x, e)[e] == f.parent[e]
    ensures CompressedUpTo(f, x, f.parent[e]) == CompressedUpTo(f, x, e)[e := Root(f, x)]
  {
    PathStep(f, x, e);
  }

  lemma CompressionEnds(f: Forest, x: string, e: string)
    requires Wf(f) && x in f.parent && e in f.parent
    requires OnPath(f, x, e) && f.parent[e] == Root(f, e)
    ensures CompressedUpTo(f, x, e) == Compressed(f, x).parent
  {
    PathEnd(f, x, e);
  }

  lemma PathStep(f: Forest, x: string, e: string)
    requires Wf(f) && x in f.parent && e in f.parent
    requires OnPath(f, x, e) && f.parent[e] != e
    ensures f.parent[e] in f.parent && OnPath(f, x, f.parent[e])
    ensures Root(f, f.parent[e]) == Root(f, e)
    ensures forall y :: y in f.parent ==> (OnPath(f, e, y) <==> y == e || OnPath(f, f.parent[e], y))
    ensures !OnPath(f, f.parent[e], e)
  {
    ClimbingShrinksAbove(f, e);
    PathExtends(f, x, e);
    if OnPath(f, f.parent[e], e) { PathClimbs(f, f.parent[e], e); }
  }

  lemma {:induction false} PathExtends(f: Forest, x: string, e: string)
    requires Wf(f) && x in f.parent && e in f.parent
    requires OnPath(f, x, e)
    ensures f.parent[e] in f.parent && OnPath(f, x, f.parent[e])
    decreases Above(f, x)
  {
    ClimbingShrinksAbove(f, x);
    if x != e { PathExtends(f, f.parent[x], e); }
  }

  lemma PathEnd(f: Forest, x: string, e: string)
    requires Wf(f) && x in f.parent && e in f.parent
    requires OnPath(f, x, e) && f.parent[e] == Root(f, e)
    ensures Root(f, e) == Root(f, x)
    ensures forall y :: y in f.parent && OnPath(f, e, y) ==> OnPath(f, x, y) && f.parent[y] == Root(f, x)
  {
    PathClimbs(f, x, e);
    PathExtends(f, x, e);
    ClimbingShrinksAbove(f, e);
    assert f.parent[Root(f, e)] == Root(f, e);
    forall y | y in f.parent && OnPath(f, e, y)
      ensures OnPath(f, x, y) && f.parent[y] == Root(f, x)
    {
      assert y == e || OnPath(f, f.parent[e], y);
      assert y == e || y == f.parent[e];
    }
  }
}
