/** relay/lrucache.py: a bounded cache that evicts the least recently used key. */
module LruCache {
  import opened Common

  // The keys from least to most recently used, with their values.
  datatype State = State(order: seq<string>, vals: map<string, int>, hits: nat, misses: nat)

  const EMPTY := State([], map[], 0, 0)

  // The keys of `s` that lie in `keep`, in order.
  function Keep(s: seq<string>, keep: set<string>): (r: seq<string>)
    ensures |r| <= |s|
  {
    if s == [] then []
    else Keep(s[..|s|-1], keep) + if s[|s|-1] in keep then [s[|s|-1]] else []
  }

  function Without(s: seq<string>, k: string): seq<string> {
    Keep(s, Elems(s) - {k})
  }

  function Touched(s: seq<string>, k: string): seq<string> {
    Without(s, k) + [k]
  }

  // The source's `get`: a hit makes the key the most recent, a miss changes
  // nothing but the count.
  function GetNext(s: State, k: string): State {
    if k !in s.vals then s.(misses := s.misses + 1)
    else s.(order := Touched(s.order, k), hits := s.hits + 1)
  }

  // The source's `put`: an update touches the key; an insertion over capacity
  // evicts the least recently used one.
  function PutNext(capacity: int, s: State, k: string, v: int): State {
    if k in s.vals then s.(order := Touched(s.order, k), vals := s.vals[k := v])
    else
      var order, vals := s.order + [k], s.vals[k := v];
      if |order| > capacity then s.(order := order[1..], vals := vals - {order[0]})
      else s.(order := order, vals := vals)
  }

  ghost predicate Valid(capacity: int, s: State) {
    capacity >= 1 && NoRepeats(s.order) && Elems(s.order) == s.vals.Keys && |s.order| <= capacity
  }

  // ---- the algebra of keeping

  lemma {:induction false} KeepMembers(s: seq<string>, keep: set<string>)
    ensures forall x :: x in Keep(s, keep) <==> x in s && x in keep
  {
    if s != [] {
      KeepMembers(s[..|s|-1], keep);
      assert s == s[..|s|-1] + [s[|s|-1]];
    }
  }

  lemma {:induction false} KeepNoRepeats(s: seq<string>, keep: set<string>)
    requires NoRepeats(s)
    ensures NoRepeats(Keep(s, keep))
  {
    if s != [] {
      var init := s[..|s|-1];
      KeepNoRepeats(init, keep);
      KeepMembers(init, keep);
      var t := Keep(init, keep);
      forall i | 0 <= i < |t| ensures t[i] != s[|s|-1] {
        assert t[i] in t;
      }
    }
  }

  lemma {:induction false} KeepConcat(s: seq<string>, t: seq<string>, keep: set<string>)
    ensures Keep(s + t, keep) == Keep(s, keep) + Keep(t, keep)
  {
    if t == [] {
      assert s + t == s;
    } else {
      assert (s + t)[..|s + t|-1] == s + t[..|t|-1];
      KeepConcat(s, t[..|t|-1], keep);
    }
  }

  lemma {:induction false} KeepTwice(s: seq<string>, a: set<string>, b: set<string>)
    ensures Keep(Keep(s, a), b) == Keep(s, a * b)
  {
    if s != [] {
      var init, last := s[..|s|-1], s[|s|-1];
      KeepTwice(init, a, b);
      KeepConcat(Keep(init, a), if last in a then [last] else [], b);
      assert Keep([last], b) == if last in b then [last] else [];
      assert Keep(init, a) + [] == Keep(init, a);
    }
  }

  // Only the members of `s` matter.
  lemma {:induction false} KeepSame(s: seq<string>, a: set<string>, b: set<string>)
    requires forall x :: x in s ==> (x in a <==> x in b)
    ensures Keep(s, a) == Keep(s, b)
  {
    if s != [] {
      assert s == s[..|s|-1] + [s[|s|-1]];
      KeepSame(s[..|s|-1], a, b);
    }
  }

  lemma {:induction false} KeepAll(s: seq<string>, keep: set<string>)
    requires Elems(s) <= keep
    ensures Keep(s, keep) == s
  {
    if s != [] {
      assert s == s[..|s|-1] + [s[|s|-1]];
      assert Elems(s[..|s|-1]) <= Elems(s);
      assert s[|s|-1] in Elems(s);
      KeepAll(s[..|s|-1], keep);
    }
  }

  lemma DropFirst(s: seq<string>, keep: set<string>)
    requires s != []
    ensures Keep(s, keep) == (if s[0] in keep then [s[0]] else []) + Keep(s[1..], keep)
  {
    assert s == s[..1] + s[1..];
    KeepConcat(s[..1], s[1..], keep);
    assert Keep(s[..1], keep) == if s[0] in keep then [s[0]] else [];
  }

  lemma WithoutFirst(s: seq<string>)
    requires s != [] && NoRepeats(s)
    ensures Without(s, s[0]) == s[1..]
  {
    DropFirst(s, Elems(s) - {s[0]});
    KeepAll(s[1..], Elems(s) - {s[0]});
  }

  // ---- one step keeps the cache well formed

  lemma TouchKeepsElems(s: seq<string>, k: string)
    requires NoRepeats(s) && k in s
    ensures NoRepeats(Touched(s, k)) && Elems(Touched(s, k)) == Elems(s) && |Touched(s, k)| == |s|
  {
    KeepMembers(s, Elems(s) - {k});
    KeepNoRepeats(s, Elems(s) - {k});
    assert k !in Without(s, k);
    assert Elems(Touched(s, k)) == Elems(Without(s, k)) + {k} == Elems(s);
    DistinctSize(s);
    DistinctSize(Touched(s, k));
  }

  lemma {:induction false} DistinctSize(s: seq<string>)
    requires NoRepeats(s)
    ensures |Elems(s)| == |s|
  {
    if s != [] {
      var init := s[..|s|-1];
      DistinctSize(init);
      assert s == init + [s[|s|-1]];
      assert Elems(s) == Elems(init) + {s[|s|-1]};
    }
  }

  lemma GetKeepsValid(capacity: int, s: State, k: string)
    requires Valid(capacity, s)
    ensures Valid(capacity, GetNext(s, k))
  {
    if k in s.vals {
      assert k in Elems(s.order);
      TouchKeepsElems(s.order, k);
    }
  }

  lemma PutKeepsValid(capacity: int, s: State, k: string, v: int)
    requires Valid(capacity, s)
    ensures Valid(capacity, PutNext(capacity, s, k, v))
  {
    if k in s.vals {
      assert k in Elems(s.order);
      TouchKeepsElems(s.order, k);
    } else {
      assert k !in Elems(s.order);
      var order := s.order + [k];
      assert Elems(order) == Elems(s.order) + {k};
      assert order == [order[0]] + order[1..];
      assert Elems(order[1..]) == Elems(order) - {order[0]};
    }
  }

  class LruCache {
    const capacity: int
    var order: seq<string>
    var vals: map<string, int>
    var hits: nat
    var misses: nat

    function Now(): State
      reads this
    {
      State(order, vals, hits, misses)
    }

    constructor (capacity: int)
      requires capacity >= 1
      ensures this.capacity == capacity && Now() == EMPTY && Valid(capacity, Now())
    {
      this.capacity := capacity;
      order, vals, hits, misses := [], map[], 0, 0;
    }

    // OrderedDict.move_to_end.
    method MoveToEnd(key: string)
      modifies this`order
      ensures order == Touched(old(order), key)
    {
      order := Without(order, key) + [key];
    }

    /** The source's `get`. */
    method Get(key: string) returns (r: Option<int>)
      requires Valid(capacity, Now())
      modifies this
      ensures Now() == GetNext(old(Now()), key) && Valid(capacity, Now())
      ensures r == if key in old(vals) then Some(old(vals)[key]) else None
      ensures vals == old(vals)
      ensures hits == old(hits) + (if r.Some? then 1 else 0) && misses == old(misses) + if r.Some? then 0 else 1
    {
      GetKeepsValid(capacity, Now(), key);
      if key !in vals {
        misses := misses + 1;
        return None;
      }
      hits := hits + 1;
      MoveToEnd(key);
      return Some(vals[key]);
    }

    /** The source's `put`; `evicted` is the key it gave up, if any. */
    method Put(key: string, value: int) returns (evicted: Option<string>)
      requires Valid(capacity, Now())
      modifies this
      ensures Now() == PutNext(capacity, old(Now()), key, value) && Valid(capacity, Now())
      ensures vals == old(vals)[key := value] - if evicted.Some? then {evicted.value} else {}
      ensures hits == old(hits) && misses == old(misses)
      ensures key in vals && vals[key] == value
      ensures forall k :: k in vals && k != key ==> k in old(vals) && vals[k] == old(vals)[k]
      ensures evicted == if key !in old(vals) && |old(order)| == capacity then Some(old(order)[0]) else None
    {
      PutKeepsValid(capacity, Now(), key, value);
      if key in vals {
        MoveToEnd(key);
        vals := vals[key := value];
        return None;
      }
      order := order + [key];
      vals := vals[key := value];
      if |order| > capacity {
        assert order[0] in Elems(old(order)) && order[0] != key;
        evicted := Some(order[0]);
        vals := vals - {order[0]};
        order := order[1..];
        return;
      }
      return None;
    }

    /** The source's `keys_mru_first`. */
    method KeysMruFirst() returns (keys: seq<string>)
      ensures |keys| == |order| && forall i :: 0 <= i < |keys| ==> keys[i] == order[|order| - 1 - i]
    {
      var o := order;
      keys := seq(|o|, i requires 0 <= i < |o| => o[|o| - 1 - i]);
    }
  }

  // ---- inclusion: one trace through a small cache and a large one

  datatype Access = Get(key: string) | Put(key: string, value: int)

  function Next(capacity: int, s: State, a: Access): State {
    match a
    case Get(k) => GetNext(s, k)
    case Put(k, v) => PutNext(capacity, s, k, v)
  }

  function After(capacity: int, trace: seq<Access>): State {
    if trace == [] then EMPTY else Next(capacity, After(capacity, trace[..|trace|-1]), trace[|trace|-1])
  }

  // The small cache's recency order is the large one's, cut down to its keys.
  ghost predicate OrderIncluded(small: int, s: seq<string>, large: int, l: seq<string>) {
    && 1 <= small <= large && |s| <= small && |l| <= large
    && NoRepeats(s) && NoRepeats(l)
    && s == Keep(l, Elems(s))
    && (|s| < small ==> s == l)
  }

  ghost predicate SameValues(s: map<string, int>, l: map<string, int>) {
    forall k {:trigger s[k]} :: k in s && k in l ==> l[k] == s[k]
  }

  // The large cache holds what the small one holds, in the same order and with
  // the same values.
  ghost predicate Included(small: int, s: State, large: int, l: State) {
    && Valid(small, s) && Valid(large, l)
    && OrderIncluded(small, s.order, large, l.order)
    && SameValues(s.vals, l.vals)
    && s.hits <= l.hits
  }

  lemma TouchBoth(s: seq<string>, l: seq<string>, k: string)
    requires NoRepeats(l) && s == Keep(l, Elems(s)) && k in s
    ensures Touched(s, k) == Keep(Touched(l, k), Elems(s))
  {
    KeepMembers(l, Elems(s));
    KeepConcat(Without(l, k), [k], Elems(s));
    assert Keep([k], Elems(s)) == [k];
    KeepTwice(l, Elems(l) - {k}, Elems(s));
    KeepTwice(l, Elems(s), Elems(s) - {k});
    assert Elems(s) * (Elems(s) - {k}) == (Elems(l) - {k}) * Elems(s);
  }

  lemma TouchLargeOnly(s: seq<string>, l: seq<string>, k: string)
    requires s == Keep(l, Elems(s)) && k !in s
    ensures s == Keep(Touched(l, k), Elems(s))
  {
    KeepConcat(Without(l, k), [k], Elems(s));
    assert Keep([k], Elems(s)) == [];
    KeepTwice(l, Elems(l) - {k}, Elems(s));
    KeepSame(l, (Elems(l) - {k}) * Elems(s), Elems(s));
  }

  lemma KeepNew(rest: seq<string>, keep: set<string>, k: string)
    requires k !in rest
    ensures Keep(rest + [k], keep + {k}) == Keep(rest, keep) + [k]
  {
    KeepSame(rest, keep + {k}, keep);
    KeepConcat(rest, [k], keep + {k});
    assert Keep([k], keep + {k}) == [k];
  }

  lemma ElemsOfTail(s: seq<string>)
    requires s != [] && NoRepeats(s)
    ensures Elems(s[1..]) == Elems(s) - {s[0]}
  {
  }

  lemma KeepAllButOldest(s: seq<string>, l: seq<string>)
    requires s != [] && NoRepeats(s) && s == Keep(l, Elems(s))
    ensures Keep(l, Elems(s) - {s[0]}) == s[1..]
  {
    var all, keep := Elems(s), Elems(s) - {s[0]};
    WithoutFirst(s);
    KeepTwice(l, all, keep);
    assert all * keep == keep;
  }

  // Evicting the small cache's oldest key and adding `k` at the recent end.
  lemma ReplaceOldest(s: seq<string>, rest: seq<string>, l: seq<string>, k: string)
    requires s != [] && NoRepeats(s)
    requires s == Keep(l, Elems(s))
    requires Keep(rest, Elems(s) - {s[0]}) == Keep(l, Elems(s) - {s[0]}) && k !in rest
    ensures s[1..] + [k] == Keep(rest + [k], Elems(s[1..] + [k]))
  {
    KeepAllButOldest(s, l);
    ElemsOfTail(s);
    KeepNew(rest, Elems(s[1..]), k);
    assert Elems(s[1..] + [k]) == Elems(s[1..]) + {k};
  }

  lemma TouchIncluded(small: int, s: seq<string>, large: int, l: seq<string>, k: string)
    requires OrderIncluded(small, s, large, l) && k in l
    ensures k in s ==> OrderIncluded(small, Touched(s, k), large, Touched(l, k))
    ensures k !in s ==> OrderIncluded(small, s, large, Touched(l, k))
  {
    TouchKeepsElems(l, k);
    if k in s {
      TouchKeepsElems(s, k);
      TouchBoth(s, l, k);
    } else {
      TouchLargeOnly(s, l, k);
    }
  }

  // What `put` does to the order.
  function PutOrder(capacity: int, order: seq<string>, k: string): seq<string> {
    if k in order then Touched(order, k)
    else if |order| + 1 > capacity then (order + [k])[1..]
    else order + [k]
  }

  lemma PutIsPutOrder(capacity: int, s: State, k: string, v: int)
    requires Valid(capacity, s)
    ensures PutNext(capacity, s, k, v).order == PutOrder(capacity, s.order, k)
  {
  }

  lemma PutOrderKeepsDistinct(capacity: int, order: seq<string>, k: string)
    requires capacity >= 1 && NoRepeats(order) && |order| <= capacity
    ensures NoRepeats(PutOrder(capacity, order, k)) && |order| <= |PutOrder(capacity, order, k)| <= capacity
  {
    if k in order { TouchKeepsElems(order, k); }
  }

  lemma OldestOfBoth(s: seq<string>, l: seq<string>)
    requires l != [] && NoRepeats(l) && s != [] && s == Keep(l, Elems(s))
    ensures Keep(l[1..], Elems(s) - {s[0]}) == Keep(l, Elems(s) - {s[0]})
  {
    DropFirst(l, Elems(s));
    DropFirst(l, Elems(s) - {s[0]});
  }

  // `k` is new to the small cache, which is full.
  lemma PutIntoFull(small: int, s: seq<string>, large: int, l: seq<string>, k: string)
    requires OrderIncluded(small, s, large, l) && k !in s && |s| == small
    ensures var s', l' := PutOrder(small, s, k), PutOrder(large, l, k);
      s' == Keep(l', Elems(s'))
  {
    var keep := Elems(s) - {s[0]};
    assert (s + [k])[1..] == s[1..] + [k];
    if k in l {
      KeepTwice(l, Elems(l) - {k}, keep);
      KeepSame(l, (Elems(l) - {k}) * keep, keep);
      KeepMembers(l, Elems(l) - {k});
      ReplaceOldest(s, Without(l, k), l, k);
    } else if |l| < large {
      ReplaceOldest(s, l, l, k);
    } else {
      assert (l + [k])[1..] == l[1..] + [k];
      OldestOfBoth(s, l);
      ReplaceOldest(s, l[1..], l, k);
    }
  }

  lemma PutOrderIncluded(small: int, s: seq<string>, large: int, l: seq<string>, k: string)
    requires OrderIncluded(small, s, large, l)
    ensures OrderIncluded(small, PutOrder(small, s, k), large, PutOrder(large, l, k))
  {
    PutOrderKeepsDistinct(small, s, k);
    PutOrderKeepsDistinct(large, l, k);
    if k in s {
      KeepMembers(l, Elems(s));
      TouchIncluded(small, s, large, l, k);
    } else if |s| < small {
      KeepAll(PutOrder(large, l, k), Elems(PutOrder(large, l, k)));
    } else {
      PutIntoFull(small, s, large, l, k);
    }
  }

  lemma PutValues(small: int, s: State, large: int, l: State, k: string, v: int)
    requires SameValues(s.vals, l.vals)
    requires PutNext(small, s, k, v).vals.Keys - {k} <= l.vals.Keys
    ensures SameValues(PutNext(small, s, k, v).vals, PutNext(large, l, k, v).vals)
  {
  }

  lemma GetIncluded(small: int, s: State, large: int, l: State, k: string)
    requires Included(small, s, large, l)
    ensures Included(small, GetNext(s, k), large, GetNext(l, k))
  {
    GetKeepsValid(small, s, k);
    GetKeepsValid(large, l, k);
    KeepMembers(l.order, Elems(s.order));
    assert k in s.vals <==> k in Elems(s.order);
    assert k in l.vals <==> k in Elems(l.order);
    if k in l.vals { TouchIncluded(small, s.order, large, l.order, k); }
  }

  lemma HeldByLarger(small: int, s: State, large: int, l: State)
    requires Included(small, s, large, l)
    ensures s.vals.Keys <= l.vals.Keys
  {
    KeepMembers(l.order, Elems(s.order));
    forall k | k in s.vals ensures k in l.vals {
      assert k in Elems(s.order);
      assert k in Elems(l.order);
    }
  }

  lemma PutIncluded(small: int, s: State, large: int, l: State, k: string, v: int)
    requires Included(small, s, large, l)
    ensures Included(small, PutNext(small, s, k, v), large, PutNext(large, l, k, v))
  {
    PutKeepsValid(small, s, k, v);
    PutKeepsValid(large, l, k, v);
    PutOrdersIncluded(small, s, large, l, k, v);
    PutNewValues(small, s, large, l, k, v);
  }

  lemma PutOrdersIncluded(small: int, s: State, large: int, l: State, k: string, v: int)
    requires Included(small, s, large, l)
    ensures OrderIncluded(small, PutNext(small, s, k, v).order, large, PutNext(large, l, k, v).order)
  {
    PutIsPutOrder(small, s, k, v);
    PutIsPutOrder(large, l, k, v);
    PutOrderIncluded(small, s.order, large, l.order, k);
  }

  lemma PutNewValues(small: int, s: State, large: int, l: State, k: string, v: int)
    requires Included(small, s, large, l)
    ensures SameValues(PutNext(small, s, k, v).vals, PutNext(large, l, k, v).vals)
    ensures PutNext(small, s, k, v).hits <= PutNext(large, l, k, v).hits
  {
    HeldByLarger(small, s, large, l);
    PutValues(small, s, large, l, k, v);
  }

  /** Inclusion, over every trace: at each point a cache holds every key, with the
      same value and in the same recency order, that a smaller cache run on the
      same accesses holds, and it has hit at least as often. */
  lemma {:induction false} LargerCacheIncludesSmaller(small: int, large: int, trace: seq<Access>)
    requires 1 <= small <= large
    ensures Included(small, After(small, trace), large, After(large, trace))
    ensures After(small, trace).vals.Keys <= After(large, trace).vals.Keys
  {
    if trace != [] {
      var init := trace[..|trace|-1];
      LargerCacheIncludesSmaller(small, large, init);
      var s, l := After(small, init), After(large, init);
      match trace[|trace|-1]
      case Get(k) => GetIncluded(small, s, large, l, k);
      case Put(k, v) => PutIncluded(small, s, large, l, k, v);
    }
    HeldByLarger(small, After(small, trace), large, After(large, trace));
  }

  // ---- what the values mean

  // The value of the last put of the key in the trace.
  function LastPut(trace: seq<Access>, k: string): Option<int> {
    if trace == [] then None
    else
      match trace[|trace|-1]
      case Put(key, value) => if key == k then Some(value) else LastPut(trace[..|trace|-1], k)
      case Get(_) => LastPut(trace[..|trace|-1], k)
  }

  /** Over every trace a cache of any capacity holds for a key nothing but the value
      last put for it, so a read that hits returns that value. */
  lemma {:induction false} HoldsLastValues(capacity: int, trace: seq<Access>)
    requires capacity >= 1
    ensures forall k :: k in After(capacity, trace).vals ==> LastPut(trace, k) == Some(After(capacity, trace).vals[k])
  {
    if trace != [] {
      HoldsLastValues(capacity, trace[..|trace|-1]);
    }
  }

  // The access at step `i` reads a key, and finds it held or not.
  ghost predicate ReadAt(capacity: int, trace: seq<Access>, i: nat, found: bool)
    requires i < |trace|
  {
    trace[i].Get? && (trace[i].key in After(capacity, trace[..i]).vals <==> found)
  }

  ghost function Reads(capacity: int, trace: seq<Access>, found: bool): set<nat> {
    set i: nat | i < |trace| && ReadAt(capacity, trace, i, found)
  }

  lemma ReadsGrow(capacity: int, trace: seq<Access>, found: bool)
    requires trace != []
    ensures var n := |trace| - 1;
      Reads(capacity, trace, found) ==
      Reads(capacity, trace[..n], found) + if ReadAt(capacity, trace, n, found) then {n} else {}
  {
    var n := |trace| - 1;
    forall i: nat | i < n ensures ReadAt(capacity, trace[..n], i, found) <==> ReadAt(capacity, trace, i, found) {
      assert trace[..n][..i] == trace[..i];
    }
  }

  lemma ReadsCounted(capacity: int, trace: seq<Access>, found: bool)
    requires trace != []
    ensures var n := |trace| - 1;
      |Reads(capacity, trace, found)| ==
      |Reads(capacity, trace[..n], found)| + if ReadAt(capacity, trace, n, found) then 1 else 0
  {
    var n := |trace| - 1;
    ReadsGrow(capacity, trace, found);
    assert n !in Reads(capacity, trace[..n], found);
  }

  /** The counters count the reads that found their key and those that did not. */
  lemma {:induction false} CountersAreExact(capacity: int, trace: seq<Access>)
    ensures After(capacity, trace).hits == |Reads(capacity, trace, true)|
    ensures After(capacity, trace).misses == |Reads(capacity, trace, false)|
  {
    if trace != [] {
      var n := |trace| - 1;
      CountersAreExact(capacity, trace[..n]);
      ReadsCounted(capacity, trace, true);
      ReadsCounted(capacity, trace, false);
    }
  }

  // ---- what the order means

  // The access touches `k` in state `s`: a write, or a read that hits.
  predicate Touches(s: State, a: Access, k: string) {
    a.key == k && (a.Put? || k in s.vals)
  }

  // The step at which `k` was last touched, or -1.
  function LastTouch(capacity: int, trace: seq<Access>, k: string): (t: int)
    ensures -1 <= t < |trace|
  {
    if trace == [] then -1
    else if Touches(After(capacity, trace[..|trace|-1]), trace[|trace|-1], k) then |trace| - 1
    else LastTouch(capacity, trace[..|trace|-1], k)
  }

  type Rank = string -> int

  function Recency(capacity: int, trace: seq<Access>): Rank {
    k => LastTouch(capacity, trace, k)
  }

  ghost predicate RankSorted(s: seq<string>, rank: Rank) {
    forall i, j :: 0 <= i < j < |s| ==> rank(s[i]) < rank(s[j])
  }

  // The keys of `order` are the most recently touched, oldest first; a touched
  // key is missing only from a full cache, and only if all those held are newer.
  ghost predicate MostRecent(capacity: int, order: seq<string>, rank: Rank) {
    && RankSorted(order, rank)
    && (forall x :: x in order ==> rank(x) >= 0)
    && (forall k, x :: rank(k) >= 0 && k !in order && x in order ==> rank(k) < rank(x))
    && (forall k :: rank(k) >= 0 && k !in order ==> |order| == capacity)
  }

  lemma {:induction false} KeepRankSorted(s: seq<string>, keep: set<string>, rank: Rank)
    requires RankSorted(s, rank)
    ensures RankSorted(Keep(s, keep), rank)
  {
    if s != [] {
      var init := s[..|s|-1];
      KeepRankSorted(init, keep, rank);
      KeepMembers(init, keep);
      var t := Keep(init, keep);
      forall i | 0 <= i < |t| ensures rank(t[i]) < rank(s[|s|-1]) {
        assert t[i] in t && t[i] in init;
      }
    }
  }

  // Touching `k` makes it the newest and leaves the others' ranks.
  ghost predicate NewlyTouched(before: Rank, after: Rank, k: string) {
    forall x :: if x == k then before(x) < after(k) else after(x) == before(x) < after(k)
  }

  lemma AppendNewest(s: seq<string>, before: Rank, after: Rank, k: string)
    requires RankSorted(s, before) && k !in s && NewlyTouched(before, after, k)
    ensures RankSorted(s + [k], after)
  {
  }

  lemma TouchKeepsMostRecent(capacity: int, order: seq<string>, before: Rank, after: Rank, k: string)
    requires MostRecent(capacity, order, before) && NoRepeats(order)
    requires NewlyTouched(before, after, k) && after(k) >= 0
    requires k in order
    ensures MostRecent(capacity, Touched(order, k), after)
  {
    var rest := Without(order, k);
    KeepRankSorted(order, Elems(order) - {k}, before);
    KeepMembers(order, Elems(order) - {k});
    TouchKeepsElems(order, k);
    assert forall x :: x in Touched(order, k) <==> x in Elems(order);
    AppendNewest(rest, before, after, k);
  }

  lemma InsertKeepsMostRecent(capacity: int, order: seq<string>, before: Rank, after: Rank, k: string)
    requires MostRecent(capacity, order, before) && NoRepeats(order)
    requires capacity >= 1 && |order| <= capacity
    requires NewlyTouched(before, after, k) && after(k) >= 0
    requires k !in order
    ensures MostRecent(capacity, PutOrder(capacity, order, k), after)
  {
    var grown := order + [k];
    AppendNewest(order, before, after, k);
    assert forall x :: x in grown <==> x in order || x == k;
    if |grown| > capacity {
      EvictOldest(capacity, grown, after);
    }
  }

  // The first of several ranked keys is the oldest.
  lemma FirstIsOldest(grown: seq<string>, rank: Rank)
    requires RankSorted(grown, rank) && grown != []
    ensures RankSorted(grown[1..], rank)
    ensures forall x :: x in grown <==> x == grown[0] || x in grown[1..]
    ensures forall x :: x in grown[1..] ==> rank(grown[0]) < rank(x)
  {
    var kept := grown[1..];
    forall i, j | 0 <= i < j < |kept| ensures rank(kept[i]) < rank(kept[j]) {
      assert kept[i] == grown[i+1] && kept[j] == grown[j+1];
    }
    assert grown == [grown[0]] + kept;
    forall x | x in kept ensures rank(grown[0]) < rank(x) {
      var i :| 0 <= i < |kept| && kept[i] == x;
      assert grown[i+1] == x;
    }
  }

  lemma EvictOldest(capacity: int, grown: seq<string>, rank: Rank)
    requires capacity >= 1
    requires RankSorted(grown, rank) && |grown| == capacity + 1
    requires forall x :: x in grown ==> rank(x) >= 0
    requires forall k, x :: rank(k) >= 0 && k !in grown && x in grown ==> rank(k) < rank(x)
    ensures MostRecent(capacity, grown[1..], rank)
  {
    FirstIsOldest(grown, rank);
    var kept := grown[1..];
    forall k, x | rank(k) >= 0 && k !in kept && x in kept ensures rank(k) < rank(x) {
      if k != grown[0] { assert k !in grown; }
      assert x in grown;
    }
  }

  /** Over every trace the cache holds exactly the most recently used keys, in
      order of their last use, where a read counts as a use only if it hits. */
  lemma {:induction false} HoldsMostRecentlyUsed(capacity: int, trace: seq<Access>)
    requires capacity >= 1
    ensures Valid(capacity, After(capacity, trace))
    ensures MostRecent(capacity, After(capacity, trace).order, Recency(capacity, trace))
  {
    if trace != [] {
      var init, a := trace[..|trace|-1], trace[|trace|-1];
      HoldsMostRecentlyUsed(capacity, init);
      var s, before, after := After(capacity, init), Recency(capacity, init), Recency(capacity, trace);
      assert a.key in s.vals <==> a.key in Elems(s.order);
      if Touches(s, a, a.key) {
        forall x ensures if x == a.key then before(x) < after(a.key) else after(x) == before(x) < after(a.key) {
          assert after(x) == LastTouch(capacity, trace, x) && before(x) == LastTouch(capacity, init, x);
        }
        if a.key in s.order {
          TouchKeepsMostRecent(capacity, s.order, before, after, a.key);
        } else {
          InsertKeepsMostRecent(capacity, s.order, before, after, a.key);
        }
      } else {
        forall x ensures after(x) == before(x) {
          assert after(x) == LastTouch(capacity, trace, x) && before(x) == LastTouch(capacity, init, x);
        }
      }
      match a
      case Get(k) => GetKeepsValid(capacity, s, k);
      case Put(k, v) => PutKeepsValid(capacity, s, k, v); PutIsPutOrder(capacity, s, k, v);
    }
  }
}
