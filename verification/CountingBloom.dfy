/** relay/countingbloom.py: a bloom filter of saturating counters. The hash is any
    function; a key may hit one position several times. */
module CountingBloom {
  import opened Common

  type Hash = (nat, string) -> int

  function Positions(h: Hash, count: nat, size: nat, key: string): (ps: seq<nat>)
    requires size >= 1
    ensures |ps| == count && forall i :: 0 <= i < |ps| ==> ps[i] < size
  {
    seq(count, i requires 0 <= i < count => h(i, key) % 0x8000_0000 % size)
  }

  function Count(ps: seq<nat>, p: nat): nat {
    if ps == [] then 0 else Count(ps[..|ps|-1], p) + if ps[|ps|-1] == p then 1 else 0
  }

  lemma {:induction false} CountIsHit(ps: seq<nat>, p: nat)
    ensures Count(ps, p) > 0 <==> p in ps
  {
    if ps != [] {
      CountIsHit(ps[..|ps|-1], p);
      assert ps == ps[..|ps|-1] + [ps[|ps|-1]];
    }
  }

  // A counter incremented n times: it sticks at the maximum.
  function Bump(c: int, n: nat, max: int): int {
    if n == 0 then c
    else
      var d := Bump(c, n - 1, max);
      if d < max then d + 1 else d
  }

  // A counter decremented n times: zero and a pinned counter stay.
  function Drop(c: int, n: nat, max: int): int {
    if n == 0 then c
    else
      var d := Drop(c, n - 1, max);
      if 0 < d < max then d - 1 else d
  }

  lemma {:induction false} BumpSaturates(c: int, n: nat, max: int)
    ensures Bump(c, n, max) == if c >= max then c else if c + n < max then c + n else max
  {
    if n > 0 { BumpSaturates(c, n - 1, max); }
  }

  lemma {:induction false} DropPins(c: int, n: nat, max: int)
    ensures Drop(c, n, max) == if c <= 0 || c >= max then c else if n < c then c - n else 0
  {
    if n > 0 { DropPins(c, n - 1, max); }
  }

  /** Removing what was just added restores a counter exactly when the counter was
      not saturated by it, or was pinned already. */
  lemma RestoredIffNotSaturated(c: int, n: nat, max: int)
    requires 0 <= c <= max
    ensures Drop(Bump(c, n, max), n, max) == c <==> n == 0 || c + n < max || c == max
  {
    BumpSaturates(c, n, max);
    DropPins(Bump(c, n, max), n, max);
  }

  // ---- what the counters know of the keys present, each counted as often as it
  // was added and not removed

  function Load(h: Hash, count: nat, size: nat, keys: seq<string>, p: nat): nat
    requires size >= 1
  {
    if keys == [] then 0
    else Load(h, count, size, keys[..|keys|-1], p) + Count(Positions(h, count, size, keys[|keys|-1]), p)
  }

  // The keys less one occurrence of `key`, if there is one.
  function Forget(keys: seq<string>, key: string): seq<string> {
    if keys == [] then []
    else if keys[|keys|-1] == key then keys[..|keys|-1]
    else Forget(keys[..|keys|-1], key) + [keys[|keys|-1]]
  }

  lemma {:induction false} ForgetTakesOne(keys: seq<string>, key: string)
    ensures multiset(Forget(keys, key)) == multiset(keys) - multiset{key}
  {
    if keys != [] {
      var init, last := keys[..|keys|-1], keys[|keys|-1];
      assert keys == init + [last];
      if last != key {
        ForgetTakesOne(init, key);
        assert multiset(Forget(init, key) + [last]) == multiset(Forget(init, key)) + multiset{last};
      }
    }
  }

  lemma {:induction false} LoadAfterForget(h: Hash, count: nat, size: nat, keys: seq<string>, key: string, p: nat)
    requires size >= 1 && key in keys
    ensures Load(h, count, size, keys, p) ==
      Load(h, count, size, Forget(keys, key), p) + Count(Positions(h, count, size, key), p)
  {
    var init, last := keys[..|keys|-1], keys[|keys|-1];
    assert keys == init + [last];
    if last != key {
      LoadAfterForget(h, count, size, init, key, p);
      assert (Forget(init, key) + [last])[..|Forget(init, key)|] == Forget(init, key);
    }
  }

  // A counter is exact or pinned at the maximum; without room for one it is zero.
  ghost predicate Tracks(c: int, load: nat, max: int) {
    if max >= 1 then 0 <= c <= max && (c == max || c == load) else c == 0
  }

  lemma AddKeepsTracking(c: int, load: nat, n: nat, max: int)
    requires Tracks(c, load, max)
    ensures Tracks(Bump(c, n, max), load + n, max)
  {
  }

  lemma RemoveKeepsTracking(c: int, load: nat, n: nat, max: int)
    requires Tracks(c, load, max) && n <= load
    ensures Tracks(Drop(c, n, max), load - n, max)
  {
  }

  // ---- the filter as a value

  datatype Filter = Filter(hash: Hash, count: nat, size: nat, max: int)

  datatype Op = AddOp(key: string) | RemoveOp(key: string)

  datatype State = State(counters: seq<int>, keys: seq<string>)

  ghost predicate Fits(f: Filter, counters: seq<int>) {
    f.size >= 1 && f.count >= 1 && |counters| == f.size
  }

  // How often the key's hashes hit a position.
  function Share(f: Filter, key: string, p: nat): nat
    requires f.size >= 1
  {
    Count(Positions(f.hash, f.count, f.size, key), p)
  }

  // The test of `might_contain`.
  predicate Tests(f: Filter, counters: seq<int>, key: string)
    requires Fits(f, counters)
  {
    forall i :: 0 <= i < f.count ==> counters[Positions(f.hash, f.count, f.size, key)[i]] > 0
  }

  function Bumped(f: Filter, counters: seq<int>, key: string): seq<int>
    requires Fits(f, counters)
  {
    seq(f.size, p requires 0 <= p < f.size => Bump(counters[p], Share(f, key, p), f.max))
  }

  function Dropped(f: Filter, counters: seq<int>, key: string): seq<int>
    requires Fits(f, counters)
  {
    seq(f.size, p requires 0 <= p < f.size => Drop(counters[p], Share(f, key, p), f.max))
  }

  function Next(f: Filter, s: State, op: Op): (s': State)
    requires Fits(f, s.counters)
    ensures Fits(f, s'.counters)
  {
    match op
    case AddOp(k) => State(Bumped(f, s.counters, k), s.keys + [k])
    case RemoveOp(k) =>
      if Tests(f, s.counters, k) then State(Dropped(f, s.counters, k), Forget(s.keys, k)) else s
  }

  ghost predicate TracksAll(f: Filter, s: State)
    requires Fits(f, s.counters)
  {
    forall p :: 0 <= p < f.size ==> Tracks(s.counters[p], Load(f.hash, f.count, f.size, s.keys, p), f.max)
  }

  lemma NextKeepsTracking(f: Filter, s: State, op: Op)
    requires Fits(f, s.counters) && TracksAll(f, s)
    requires op.RemoveOp? && Tests(f, s.counters, op.key) ==> op.key in s.keys
    ensures TracksAll(f, Next(f, s, op))
  {
    var s' := Next(f, s, op);
    if s' == s { return; }
    forall p | 0 <= p < f.size
      ensures Tracks(s'.counters[p], Load(f.hash, f.count, f.size, s'.keys, p), f.max)
    {
      var load, n := Load(f.hash, f.count, f.size, s.keys, p), Share(f, op.key, p);
      match op
      case AddOp(k) =>
        assert (s.keys + [k])[..|s.keys|] == s.keys;
        AddKeepsTracking(s.counters[p], load, n, f.max);
      case RemoveOp(k) =>
        LoadAfterForget(f.hash, f.count, f.size, s.keys, k, p);
        RemoveKeepsTracking(s.counters[p], load, n, f.max);
    }
  }

  class CountingBloom {
    const size: int
    const hashCount: int
    const maxCount: int
    const hash: Hash
    const counters: array<int>
    ghost var keys: seq<string>

    ghost predicate Shaped()
    {
      size >= 1 && hashCount >= 1 && counters.Length == size
    }

    ghost function Params(): Filter
      requires Shaped()
    {
      Filter(hash, hashCount, size, maxCount)
    }

    ghost function Now(): State
      reads this, counters
    {
      State(counters[..], keys)
    }

    // Every counter is exact or pinned for the keys present.
    ghost predicate Valid()
      reads this, counters
    {
      Shaped() && TracksAll(Params(), Now())
    }

    function PositionsOf(key: string): (ps: seq<nat>)
      requires Shaped()
      ensures |ps| == hashCount && forall i :: 0 <= i < |ps| ==> ps[i] < size
    {
      Positions(hash, hashCount, size, key)
    }

    constructor (size: int, hashCount: int, maxCount: int, hash: Hash)
      requires size >= 1 && hashCount >= 1
      ensures Valid() && fresh(counters)
      ensures Params() == Filter(hash, hashCount, size, maxCount)
      ensures Now() == After(Params(), [])
    {
      this.size, this.hashCount, this.maxCount, this.hash := size, hashCount, maxCount, hash;
      counters := new int[size](_ => 0);
      keys := [];
    }

    /** The source's `add`. */
    method Add(key: string)
      requires Shaped()
      modifies this`keys, counters
      ensures Now() == Next(Params(), old(Now()), AddOp(key))
      ensures old(Valid()) ==> Valid()
    {
      IncrementAll(key);
      keys := keys + [key];
      if old(Valid()) { NextKeepsTracking(Params(), old(Now()), AddOp(key)); }
    }

    // The loop of `add`.
    method IncrementAll(key: string)
      requires Shaped()
      modifies counters
      ensures counters[..] == Bumped(Params(), old(counters[..]), key)
    {
      var ps := PositionsOf(key);
      for i := 0 to |ps|
        invariant forall p :: 0 <= p < size ==>
          counters[p] == Bump(old(counters[p]), Count(ps[..i], p), maxCount)
      {
        assert ps[..i+1][..i] == ps[..i];
        if counters[ps[i]] < maxCount {
          counters[ps[i]] := counters[ps[i]] + 1;
        }
      }
      assert ps[..|ps|] == ps;
    }

    // The loop of `remove`.
    method DecrementAll(key: string)
      requires Shaped()
      modifies counters
      ensures counters[..] == Dropped(Params(), old(counters[..]), key)
    {
      var ps := PositionsOf(key);
      for i := 0 to |ps|
        invariant forall p :: 0 <= p < size ==>
          counters[p] == Drop(old(counters[p]), Count(ps[..i], p), maxCount)
      {
        assert ps[..i+1][..i] == ps[..i];
        if 0 < counters[ps[i]] < maxCount {
          counters[ps[i]] := counters[ps[i]] - 1;
        }
      }
      assert ps[..|ps|] == ps;
    }

    /** The source's `might_contain`: no false negative while the counters track
        the keys. */
    method MightContain(key: string) returns (r: bool)
      requires Shaped()
      ensures r <==> Tests(Params(), counters[..], key)
      ensures Valid() && key in keys && maxCount >= 1 ==> r
    {
      var ps := PositionsOf(key);
      r := true;
      for i := 0 to |ps|
        invariant forall j :: 0 <= j < i ==> counters[..][ps[j]] > 0
      {
        if counters[ps[i]] <= 0 {
          assert counters[..][ps[i]] <= 0;
          if Valid() && key in keys && maxCount >= 1 {
            PresentKeyHasLoad(hash, hashCount, size, keys, key, i);
          }
          return false;
        }
      }
    }

    /** The source's `remove`: refused when the key is surely absent. Removing a
        key that is present keeps every counter exact or pinned. */
    method Remove(key: string) returns (r: Result<()>)
      requires Shaped()
      modifies this`keys, counters
      ensures r.Ok? <==> Tests(Params(), old(counters[..]), key)
      ensures r.Err? ==> r.error == Invalid && Now() == old(Now())
      ensures Now() == Next(Params(), old(Now()), RemoveOp(key))
      ensures r.Ok? ==> multiset(keys) == multiset(old(keys)) - multiset{key}
      ensures old(Valid()) && (r.Err? || key in old(keys)) ==> Valid()
    {
      var might := MightContain(key);
      if !might {
        return Err(Invalid);
      }
      DecrementAll(key);
      ForgetTakesOne(keys, key);
      keys := Forget(keys, key);
      if old(Valid()) && key in old(keys) { NextKeepsTracking(Params(), old(Now()), RemoveOp(key)); }
      return Ok(());
    }
  }

  lemma PresentKeyHasLoad(h: Hash, count: nat, size: nat, keys: seq<string>, key: string, i: nat)
    requires size >= 1 && i < count && key in keys
    ensures Load(h, count, size, keys, Positions(h, count, size, key)[i]) > 0
  {
    var ps := Positions(h, count, size, key);
    LoadAfterForget(h, count, size, keys, key, ps[i]);
    CountIsHit(ps, ps[i]);
  }

  /** No false negatives, exactly when a counter can count at all: over any keys
      added and validly removed, with every counter exact or pinned, each present
      key tests positive if and only if the maximum is at least one. */
  lemma NoFalseNegativesIff(h: Hash, count: nat, size: nat, max: int, counters: seq<int>,
                            keys: seq<string>, key: string)
    requires size >= 1 && count >= 1 && |counters| == size
    requires forall p :: 0 <= p < size ==> Tracks(counters[p], Load(h, count, size, keys, p), max)
    requires key in keys
    ensures (forall i :: 0 <= i < count ==> counters[Positions(h, count, size, key)[i]] > 0) <==> max >= 1
  {
    var ps := Positions(h, count, size, key);
    if max >= 1 {
      forall i | 0 <= i < count ensures counters[ps[i]] > 0 {
        PresentKeyHasLoad(h, count, size, keys, key, i);
      }
    } else {
      assert counters[ps[0]] == 0;
    }
  }

  // ---- whole runs

  function After(f: Filter, run: seq<Op>): (s: State)
    requires f.size >= 1 && f.count >= 1
    ensures Fits(f, s.counters)
  {
    if run == [] then State(seq(f.size, _ => 0), [])
    else Next(f, After(f, run[..|run|-1]), run[|run|-1])
  }

  // A remove at step i that is let through names a key that is present.
  ghost predicate HonestAt(f: Filter, run: seq<Op>, i: nat)
    requires f.size >= 1 && f.count >= 1 && i < |run|
  {
    var s := After(f, run[..i]);
    run[i].RemoveOp? && Tests(f, s.counters, run[i].key) ==> run[i].key in s.keys
  }

  ghost predicate Honest(f: Filter, run: seq<Op>)
    requires f.size >= 1 && f.count >= 1
  {
    forall i :: 0 <= i < |run| ==> HonestAt(f, run, i)
  }

  lemma HonestPrefix(f: Filter, run: seq<Op>)
    requires f.size >= 1 && f.count >= 1 && run != []
    requires Honest(f, run)
    ensures Honest(f, run[..|run|-1])
    ensures HonestAt(f, run, |run|-1)
  {
    var init := run[..|run|-1];
    forall i | 0 <= i < |init| ensures HonestAt(f, init, i) {
      assert init[..i] == run[..i];
      assert HonestAt(f, run, i);
    }
  }

  lemma {:induction false} RunKeepsTracking(f: Filter, run: seq<Op>)
    requires f.size >= 1 && f.count >= 1 && Honest(f, run)
    ensures TracksAll(f, After(f, run))
  {
    if run != [] {
      HonestPrefix(f, run);
      RunKeepsTracking(f, run[..|run|-1]);
      NextKeepsTracking(f, After(f, run[..|run|-1]), run[|run|-1]);
    }
  }

  /** Over every run whose removes name present keys, saturated or not: every key
      still present tests positive, so its own remove is never refused. */
  lemma NoFalseNegativesInAnyRun(f: Filter, run: seq<Op>, key: string)
    requires f.size >= 1 && f.count >= 1 && f.max >= 1 && Honest(f, run)
    requires key in After(f, run).keys
    ensures Tests(f, After(f, run).counters, key)
  {
    RunKeepsTracking(f, run);
    var s := After(f, run);
    NoFalseNegativesIff(f.hash, f.count, f.size, f.max, s.counters, s.keys, key);
  }

  // Taking n from the counter leaves it positive.
  predicate Spares(c: int, n: nat, max: int) {
    n == 0 || n < c || c >= max
  }

  /** The refusal cannot see a false positive. Whatever key `b` is let through, a
      key `a` that tested positive still does exactly when each of its counters
      is not hit by `b`, exceeds b's share, or is pinned at the maximum. */
  lemma RemoveSparesKeyIff(f: Filter, counters: seq<int>, a: string, b: string)
    requires Fits(f, counters)
    requires Tests(f, counters, a) && Tests(f, counters, b)
    ensures var ps := Positions(f.hash, f.count, f.size, a);
      Tests(f, Dropped(f, counters, b), a) <==>
      forall i :: 0 <= i < f.count ==> Spares(counters[ps[i]], Share(f, b, ps[i]), f.max)
  {
    var ps := Positions(f.hash, f.count, f.size, a);
    forall i | 0 <= i < f.count
      ensures Dropped(f, counters, b)[ps[i]] > 0 <==> Spares(counters[ps[i]], Share(f, b, ps[i]), f.max)
    {
      DropPins(counters[ps[i]], Share(f, b, ps[i]), f.max);
    }
  }

  /** So removing a key that was never added, but shares the positions of the one
      key present, hides that key unless its counters saturated. */
  lemma RemovingFalsePositiveHidesKey(f: Filter, a: string, b: string, i: nat)
    requires f.size >= 1 && i < f.count && a != b
    requires Positions(f.hash, f.count, f.size, a) == Positions(f.hash, f.count, f.size, b)
    requires Share(f, a, Positions(f.hash, f.count, f.size, a)[i]) < f.max
    ensures var s := After(f, [AddOp(a), RemoveOp(b)]);
      s.keys == [a] && !Tests(f, s.counters, a)
  {
    var one := After(f, [AddOp(a)]);
    var ps := Positions(f.hash, f.count, f.size, a);
    AddedOnce(f, a);
    forall j | 0 <= j < f.count ensures one.counters[ps[j]] > 0 {
      BumpSaturates(0, Share(f, a, ps[j]), f.max);
      CountIsHit(ps, ps[j]);
    }
    RemoveSparesKeyIff(f, one.counters, a, b);
    BumpSaturates(0, Share(f, a, ps[i]), f.max);
    CountIsHit(ps, ps[i]);
    assert !Spares(one.counters[ps[i]], Share(f, b, ps[i]), f.max);
    assert [AddOp(a), RemoveOp(b)][..1] == [AddOp(a)];
  }

  lemma AddedOnce(f: Filter, a: string)
    requires f.size >= 1 && f.count >= 1
    ensures After(f, [AddOp(a)]) == State(Bumped(f, seq(f.size, _ => 0), a), [a])
    ensures Forget([a], a) == []
    ensures forall b :: b != a ==> Forget([a], b) == [a]
  {
  }

  // The i-th hash of the one key and the j-th of the other pick the same counter:
  // their low 31 bits agree modulo the size.
  predicate Meets(f: Filter, a: string, i: nat, b: string, j: nat)
    requires f.size >= 1
  {
    f.hash(i, a) % 0x8000_0000 % f.size == f.hash(j, b) % 0x8000_0000 % f.size
  }

  ghost predicate MeetsAny(f: Filter, b: string, i: nat, a: string)
    requires f.size >= 1
  {
    exists j: nat :: j < f.count && Meets(f, b, i, a, j)
  }

  /** The positions are those of all the hashes, and of nothing else: with one key
      in the filter, another tests positive exactly when each of its hashes meets
      one of the key's. */
  lemma TestsAfterOneAddIff(f: Filter, a: string, b: string)
    requires f.size >= 1 && f.count >= 1 && f.max >= 1
    ensures Tests(f, After(f, [AddOp(a)]).counters, b) <==> forall i: nat :: i < f.count ==> MeetsAny(f, b, i, a)
  {
    AddedOnce(f, a);
    var one, pb := After(f, [AddOp(a)]).counters, Positions(f.hash, f.count, f.size, b);
    forall i: nat | i < f.count ensures one[pb[i]] > 0 <==> MeetsAny(f, b, i, a) {
      BumpSaturates(0, Share(f, a, pb[i]), f.max);
      CountIsHit(Positions(f.hash, f.count, f.size, a), pb[i]);
      HitIffMeets(f, a, b, i);
    }
  }

  lemma HitIffMeets(f: Filter, a: string, b: string, i: nat)
    requires f.size >= 1 && i < f.count
    ensures Positions(f.hash, f.count, f.size, b)[i] in Positions(f.hash, f.count, f.size, a) <==> MeetsAny(f, b, i, a)
  {
    var pa, pb := Positions(f.hash, f.count, f.size, a), Positions(f.hash, f.count, f.size, b);
    if pb[i] in pa {
      var j: nat :| j < |pa| && pa[j] == pb[i];
      assert Meets(f, b, i, a, j);
    }
    if MeetsAny(f, b, i, a) {
      var j: nat :| j < f.count && Meets(f, b, i, a, j);
      assert pa[j] == pb[i];
    }
  }
}
