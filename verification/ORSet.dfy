/** relay/orset.py: the observed-remove set. The class is one replica; the runs
    below it are any number of replicas exchanging snapshots of any age. */
module ORSet {
  import opened Common

  type Tag = (string, int)

  datatype State = State(adds: map<string, set<Tag>>, removes: set<Tag>, next: int)

  const EMPTY := State(map[], {}, 0)

  function Tags(s: State, e: string): set<Tag> {
    if e in s.adds then s.adds[e] else {}
  }

  predicate Contains(s: State, e: string) {
    Tags(s, e) - s.removes != {}
  }

  function Elements(s: State): set<string> {
    set e | e in s.adds && Contains(s, e)
  }

  function Added(s: State, node: string, e: string): State {
    State(s.adds[e := Tags(s, e) + {(node, s.next)}], s.removes, s.next + 1)
  }

  function Removed(s: State, e: string): State {
    s.(removes := s.removes + Tags(s, e))
  }

  function Merged(s: State, t: State): State {
    State(map e | e in s.adds.Keys + t.adds.Keys :: Tags(s, e) + Tags(t, e),
          s.removes + t.removes,
          if s.next < t.next then t.next else s.next)
  }

  // ---- merge is a join

  lemma MergeTags(a: State, b: State, e: string)
    ensures Tags(Merged(a, b), e) == Tags(a, e) + Tags(b, e)
  {
  }

  lemma SameState(a: State, b: State)
    requires forall e :: (e in a.adds <==> e in b.adds) && Tags(a, e) == Tags(b, e)
    requires forall t :: t in a.removes <==> t in b.removes
    requires a.next == b.next
    ensures a == b
  {
  }

  lemma MergeCommutative(a: State, b: State)
    ensures Merged(a, b) == Merged(b, a)
  {
    forall e ensures Tags(Merged(a, b), e) == Tags(Merged(b, a), e) {
      MergeTags(a, b, e);
      MergeTags(b, a, e);
    }
    SameState(Merged(a, b), Merged(b, a));
  }

  lemma MergeAssociative(a: State, b: State, c: State)
    ensures Merged(Merged(a, b), c) == Merged(a, Merged(b, c))
  {
    var x, y := Merged(Merged(a, b), c), Merged(a, Merged(b, c));
    forall e ensures Tags(x, e) == Tags(y, e) && (e in x.adds <==> e in y.adds) { MergeTagsAssociative(a, b, c, e); }
    SameState(x, y);
  }

  lemma MergeTagsAssociative(a: State, b: State, c: State, e: string)
    ensures Tags(Merged(Merged(a, b), c), e) == Tags(Merged(a, Merged(b, c)), e)
    ensures e in Merged(Merged(a, b), c).adds <==> e in Merged(a, Merged(b, c)).adds
  {
    MergeTags(a, b, e);
    MergeTags(b, c, e);
    MergeTags(Merged(a, b), c, e);
    MergeTags(a, Merged(b, c), e);
  }

  lemma MergeIdempotent(a: State)
    ensures Merged(a, a) == a
  {
    forall e ensures Tags(Merged(a, a), e) == Tags(a, e) {
      MergeTags(a, a, e);
    }
    SameState(Merged(a, a), a);
  }

  predicate Held(adds: map<string, set<Tag>>, e: string, t: Tag) {
    e in adds && t in adds[e]
  }

  class ORSet {
    const nodeId: string
    var adds: map<string, set<Tag>>
    var removes: set<Tag>
    var nextTag: int

    function Now(): State
      reads this
    {
      State(adds, removes, nextTag)
    }

    constructor (nodeId: string)
      ensures this.nodeId == nodeId && Now() == EMPTY
    {
      this.nodeId := nodeId;
      adds, removes, nextTag := map[], {}, 0;
    }

    /** The source's `add`. */
    method Add(e: string) returns (tag: Tag)
      modifies this
      ensures tag == (nodeId, old(nextTag))
      ensures Now() == Added(old(Now()), nodeId, e)
      ensures nextTag == old(nextTag) + 1 && removes == old(removes)
      ensures adds == old(adds)[e := (if e in old(adds) then old(adds)[e] else {}) + {tag}]
    {
      tag := (nodeId, nextTag);
      nextTag := nextTag + 1;
      adds := adds[e := (if e in adds then adds[e] else {}) + {tag}];
    }

    /** The source's `remove`: refused, and without effect, on an absent element. */
    method Remove(e: string) returns (r: Result<()>)
      modifies this
      ensures r.Ok? <==> Contains(old(Now()), e)
      ensures r.Err? ==> r.error == Invalid && unchanged(this)
      ensures r.Ok? ==> Now() == Removed(old(Now()), e)
      ensures r.Ok? ==> e in adds && removes == old(removes) + adds[e] && adds == old(adds) && nextTag == old(nextTag)
    {
      if !Contains(Now(), e) {
        return Err(Invalid);
      }
      removes := removes + Tags(Now(), e);
      return Ok(());
    }

    /** The source's `merge`; merging a replica into itself is allowed. */
    method Merge(other: ORSet)
      modifies this
      ensures Now() == Merged(old(Now()), old(other.Now()))
      ensures removes == old(removes) + old(other.removes)
      ensures nextTag >= old(nextTag) && nextTag >= old(other.nextTag)
      ensures nextTag == old(nextTag) || nextTag == old(other.nextTag)
      ensures forall e, t :: Held(adds, e, t) <==> Held(old(adds), e, t) || Held(old(other.adds), e, t)
      ensures other != this ==> unchanged(other)
    {
      var theirs := other.Now();
      var todo := theirs.adds.Keys;
      NothingMergedYet(Now(), theirs);
      while todo != {}
        invariant todo <= theirs.adds.Keys
        invariant adds == MergedBut(old(Now()), theirs, todo)
        invariant removes == old(removes) && nextTag == old(nextTag)
        decreases todo
      {
        var e :| e in todo;
        MergeOneMore(old(Now()), theirs, todo, e);
        todo := todo - {e};
        adds := adds[e := (if e in adds then adds[e] else {}) + theirs.adds[e]];
      }
      removes := removes + theirs.removes;
      nextTag := if nextTag < theirs.next then theirs.next else nextTag;
      EverythingMerged(old(Now()), theirs);
    }
  }

  // The tags of an element in a merge that has yet to take in the elements `todo`.
  function MergedTags(s: State, t: State, todo: set<string>, e: string): set<Tag> {
    if e in todo then Tags(s, e) else Tags(s, e) + Tags(t, e)
  }

  function MergedBut(s: State, t: State, todo: set<string>): map<string, set<Tag>> {
    map e | e in s.adds.Keys + (t.adds.Keys - todo) :: MergedTags(s, t, todo, e)
  }

  lemma NothingMergedYet(s: State, t: State)
    ensures MergedBut(s, t, t.adds.Keys) == s.adds
  {
    var m := MergedBut(s, t, t.adds.Keys);
    assert m.Keys == s.adds.Keys;
    forall e {:trigger m[e]} | e in m ensures m[e] == s.adds[e] { assert Tags(s, e) + {} == Tags(s, e); }
  }

  lemma EverythingMerged(s: State, t: State)
    ensures MergedBut(s, t, {}) == Merged(s, t).adds
  {
  }

  lemma MergeOneMore(s: State, t: State, todo: set<string>, e: string)
    requires e in todo && e in t.adds
    ensures var m := MergedBut(s, t, todo);
      MergedBut(s, t, todo - {e}) == m[e := (if e in m then m[e] else {}) + t.adds[e]]
  {
    var m, next := MergedBut(s, t, todo), MergedBut(s, t, todo - {e});
    var joined := (if e in m then m[e] else {}) + t.adds[e];
    assert next.Keys == m.Keys + {e};
    assert next[e] == joined;
    assert forall x {:trigger next[x]} :: x in next && x != e ==> next[x] == m[x];
  }

  // ---- runs

  datatype Event =
    | Add(at: string, e: string)
    | Remove(at: string, e: string)
    | Merge(at: string, from: string, version: nat)  // a snapshot of `from` taken at step `version`

  type Replicas = map<string, State>

  // The node id each replica stamps its tags with.
  type Ids = map<string, string>

  ghost predicate DistinctIds(ids: Ids) {
    forall m, n :: m in ids && n in ids && m != n ==> ids[m] != ids[n]
  }

  datatype Run = Run(ids: Ids, events: seq<Event>, states: seq<Replicas>)

  // Replicas start empty and change only through the three operations. Two of them
  // may have been given the same node id.
  ghost predicate IsRun(r: Run) {
    && |r.states| == |r.events| + 1 && r.states[0].Keys == r.ids.Keys
    && (forall n :: n in r.states[0] ==> r.states[0][n] == EMPTY)
    && (forall k {:trigger Step(r, k)} :: 0 <= k < |r.events| ==> Step(r, k))
  }

  ghost predicate Step(r: Run, k: nat)
    requires k < |r.events| && |r.states| == |r.events| + 1
  {
    var now := r.states[k];
    r.events[k].at in now && r.events[k].at in r.ids &&
    match r.events[k]
    case Add(n, e) => r.states[k+1] == now[n := Added(now[n], r.ids[n], e)]
    case Remove(n, e) => r.states[k+1] == now[n := Removed(now[n], e)]
    case Merge(n, m, v) => v <= k && m in r.states[v] && r.states[k+1] == now[n := Merged(now[n], r.states[v][m])]
  }

  /** A refused remove would have changed nothing, so runs need not tell it apart. */
  lemma RefusedRemoveIsVacuous(s: State, e: string)
    requires !Contains(s, e)
    ensures Removed(s, e) == s
  {
    assert Tags(s, e) <= s.removes by {
      forall t | t in Tags(s, e) ensures t in s.removes {
        assert t !in Tags(s, e) - s.removes;
      }
    }
  }

  // The updates replica `n` has absorbed by step `k`: its own, and those of the
  // snapshots merged into it.
  ghost function Seen(r: Run, k: nat, n: string): set<nat>
    requires IsRun(r) && k <= |r.events|
    decreases k
  {
    if k == 0 then {}
    else
      assert Step(r, k - 1);
      var before := Seen(r, k - 1, n);
      if r.events[k-1].at != n then before
      else match r.events[k-1]
        case Merge(_, m, v) => before + Seen(r, v, m)
        case _ => before + {k - 1}
  }

  ghost predicate IsAdd(r: Run, j: nat, e: string) {
    j < |r.events| && r.events[j].Add? && r.events[j].e == e
  }

  ghost predicate IsRemove(r: Run, j: nat, e: string) {
    j < |r.events| && r.events[j].Remove? && r.events[j].e == e
  }

  // The tag the add at step `j` issued.
  ghost function Issued(r: Run, j: nat): Tag
    requires IsRun(r) && j < |r.events| && r.events[j].Add?
  {
    assert Step(r, j);
    (r.ids[r.events[j].at], r.states[j][r.events[j].at].next)
  }

  // The tags the remove at step `j` observed.
  ghost function Observed(r: Run, j: nat): set<Tag>
    requires IsRun(r) && j < |r.events| && r.events[j].Remove?
  {
    assert Step(r, j);
    Tags(r.states[j][r.events[j].at], r.events[j].e)
  }

  lemma {:induction false} CounterNeverFalls(r: Run, j: nat, k: nat, n: string)
    requires IsRun(r) && j <= k <= |r.events| && n in r.states[j]
    ensures n in r.states[k] && r.states[j][n].next <= r.states[k][n].next
    decreases k
  {
    if j < k {
      assert Step(r, k - 1);
      CounterNeverFalls(r, j, k - 1, n);
    }
  }

  /** With distinct node ids no tag is ever issued twice in any run. */
  lemma TagsAreUnique(r: Run, i: nat, j: nat)
    requires IsRun(r) && DistinctIds(r.ids)
    requires i < j < |r.events| && r.events[i].Add? && r.events[j].Add?
    ensures Issued(r, i) != Issued(r, j)
  {
    assert Step(r, i);
    assert Step(r, j);
    CounterNeverFalls(r, i + 1, j, r.events[i].at);
  }

  ghost predicate AddedBy(r: Run, seen: set<nat>, e: string, t: Tag)
    requires IsRun(r)
  {
    exists j :: j in seen && IsAdd(r, j, e) && Issued(r, j) == t
  }

  ghost predicate RemovedBy(r: Run, seen: set<nat>, t: Tag)
    requires IsRun(r)
  {
    exists j, e :: j in seen && IsRemove(r, j, e) && t in Observed(r, j)
  }

  // The replica's state is a function of the updates it has absorbed.
  ghost predicate Reflects(r: Run, seen: set<nat>, s: State)
    requires IsRun(r)
  {
    && (forall e, t :: t in Tags(s, e) <==> AddedBy(r, seen, e, t))
    && (forall t :: t in s.removes <==> RemovedBy(r, seen, t))
    && (forall e :: e in s.adds ==> s.adds[e] != {})
  }

  lemma UnionAdds(r: Run, a: set<nat>, b: set<nat>, e: string, t: Tag)
    requires IsRun(r)
    ensures AddedBy(r, a + b, e, t) <==> AddedBy(r, a, e, t) || AddedBy(r, b, e, t)
  {
  }

  lemma UnionRemoves(r: Run, a: set<nat>, b: set<nat>, t: Tag)
    requires IsRun(r)
    ensures RemovedBy(r, a + b, t) <==> RemovedBy(r, a, t) || RemovedBy(r, b, t)
  {
  }

  lemma MergeReflects(r: Run, a: set<nat>, b: set<nat>, s: State, t: State)
    requires IsRun(r) && Reflects(r, a, s) && Reflects(r, b, t)
    ensures Reflects(r, a + b, Merged(s, t))
  {
    var m := Merged(s, t);
    forall e, x ensures x in Tags(m, e) <==> AddedBy(r, a + b, e, x) {
      UnionAdds(r, a, b, e, x);
      MergeTags(s, t, e);
    }
    forall x ensures x in m.removes <==> RemovedBy(r, a + b, x) {
      UnionRemoves(r, a, b, x);
    }
  }

  lemma AddReflects(r: Run, k: nat, seen: set<nat>)
    requires IsRun(r) && k < |r.events| && r.events[k].Add?
    requires var n := r.events[k].at; n in r.states[k] && Reflects(r, seen, r.states[k][n])
    ensures var n := r.events[k].at; n in r.states[k+1] && Reflects(r, seen + {k}, r.states[k+1][n])
  {
    assert Step(r, k);
    var n, e := r.events[k].at, r.events[k].e;
    var s, s' := r.states[k][n], r.states[k+1][n];
    forall f, x ensures x in Tags(s', f) <==> AddedBy(r, seen + {k}, f, x) {
      UnionAdds(r, seen, {k}, f, x);
      assert AddedBy(r, {k}, f, x) <==> f == e && x == Issued(r, k) by {
        if f == e && x == Issued(r, k) { assert k in {k} && IsAdd(r, k, f); }
      }
    }
    forall x ensures x in s'.removes <==> RemovedBy(r, seen + {k}, x) {
      UnionRemoves(r, seen, {k}, x);
    }
  }

  lemma RemoveReflects(r: Run, k: nat, seen: set<nat>)
    requires IsRun(r) && k < |r.events| && r.events[k].Remove?
    requires var n := r.events[k].at; n in r.states[k] && Reflects(r, seen, r.states[k][n])
    ensures var n := r.events[k].at; n in r.states[k+1] && Reflects(r, seen + {k}, r.states[k+1][n])
  {
    assert Step(r, k);
    var n, e := r.events[k].at, r.events[k].e;
    var s, s' := r.states[k][n], r.states[k+1][n];
    forall f, x ensures x in Tags(s', f) <==> AddedBy(r, seen + {k}, f, x) {
      UnionAdds(r, seen, {k}, f, x);
      assert Tags(s', f) == Tags(s, f);
    }
    forall x ensures x in s'.removes <==> RemovedBy(r, seen + {k}, x) {
      UnionRemoves(r, seen, {k}, x);
      assert RemovedBy(r, {k}, x) <==> x in Observed(r, k) by {
        if x in Observed(r, k) { assert k in {k} && IsRemove(r, k, e); }
      }
    }
  }

  lemma {:induction false} StateReflectsSeen(r: Run, k: nat, n: string)
    requires IsRun(r) && k <= |r.events| && n in r.states[k]
    ensures Reflects(r, Seen(r, k, n), r.states[k][n])
    decreases k
  {
    if k > 0 {
      assert Step(r, k - 1);
      assert n in r.states[k-1];
      StateReflectsSeen(r, k - 1, n);
      if r.events[k-1].at == n {
        match r.events[k-1]
        case Add(_, _) => AddReflects(r, k - 1, Seen(r, k - 1, n));
        case Remove(_, _) => RemoveReflects(r, k - 1, Seen(r, k - 1, n));
        case Merge(_, m, v) =>
          StateReflectsSeen(r, v, m);
          MergeReflects(r, Seen(r, k - 1, n), Seen(r, v, m), r.states[k-1][n], r.states[v][m]);
      }
    }
  }

  lemma ReflectionIsUnique(r: Run, seen: set<nat>, s: State, t: State)
    requires IsRun(r) && Reflects(r, seen, s) && Reflects(r, seen, t)
    ensures s.adds == t.adds && s.removes == t.removes && Elements(s) == Elements(t)
  {
    forall e ensures Tags(s, e) == Tags(t, e) && (e in s.adds <==> e in t.adds) {
      forall x ensures x in Tags(s, e) <==> x in Tags(t, e) {
        assert x in Tags(s, e) <==> AddedBy(r, seen, e, x);
        assert x in Tags(t, e) <==> AddedBy(r, seen, e, x);
      }
      assert Tags(s, e) == Tags(t, e);
    }
    forall x ensures x in s.removes <==> x in t.removes {
      assert x in s.removes <==> RemovedBy(r, seen, x);
      assert x in t.removes <==> RemovedBy(r, seen, x);
    }
    assert s.removes == t.removes;
    forall e | e in s.adds ensures s.adds[e] == t.adds[e] {
      assert Tags(s, e) == Tags(t, e);
    }
    assert s.adds == t.adds;
  }

  /** Strong convergence: replicas that have absorbed the same updates hold the
      same set, whatever the order, grouping, delay or repetition of merges. */
  lemma StrongConvergence(r: Run, j: nat, m: string, k: nat, n: string)
    requires IsRun(r) && j <= |r.events| && k <= |r.events|
    requires m in r.states[j] && n in r.states[k]
    requires Seen(r, j, m) == Seen(r, k, n)
    ensures Elements(r.states[j][m]) == Elements(r.states[k][n])
    ensures r.states[j][m].adds == r.states[k][n].adds && r.states[j][m].removes == r.states[k][n].removes
  {
    StateReflectsSeen(r, j, m);
    StateReflectsSeen(r, k, n);
    ReflectionIsUnique(r, Seen(r, j, m), r.states[j][m], r.states[k][n]);
  }

  // The remove at step `i` had absorbed the add at step `j`.
  ghost predicate HadSeen(r: Run, i: nat, j: nat)
    requires IsRun(r) && i < |r.events|
  {
    j in Seen(r, i, r.events[i].at)
  }

  // An absorbed add of `e` that no absorbed remove of `e` had seen.
  ghost predicate SurvivingAdd(r: Run, seen: set<nat>, e: string, j: nat)
    requires IsRun(r)
  {
    && j in seen && IsAdd(r, j, e)
    && forall i :: i in seen && IsRemove(r, i, e) ==> !HadSeen(r, i, j)
  }

  ghost predicate HasSurvivingAdd(r: Run, seen: set<nat>, e: string)
    requires IsRun(r)
  {
    exists j :: SurvivingAdd(r, seen, e, j)
  }

  lemma ObservedMeansSeen(r: Run, i: nat, e: string, j: nat, f: string)
    requires IsRun(r) && DistinctIds(r.ids) && IsRemove(r, i, e) && IsAdd(r, j, f)
    ensures Issued(r, j) in Observed(r, i) <==> e == f && HadSeen(r, i, j)
  {
    assert Step(r, i);
    var n := r.events[i].at;
    StateReflectsSeen(r, i, n);
    var t := Issued(r, j);
    assert t in Tags(r.states[i][n], e) <==> AddedBy(r, Seen(r, i, n), e, t);
    if AddedBy(r, Seen(r, i, n), e, t) {
      var j' :| j' in Seen(r, i, n) && IsAdd(r, j', e) && Issued(r, j') == t;
      if j' < j { TagsAreUnique(r, j', j); }
      if j < j' { TagsAreUnique(r, j, j'); }
    }
  }

  lemma PresentHasSurvivor(r: Run, seen: set<nat>, s: State, e: string) returns (j: nat)
    requires IsRun(r) && DistinctIds(r.ids) && Reflects(r, seen, s)
    requires Contains(s, e)
    ensures SurvivingAdd(r, seen, e, j)
  {
    var t :| t in Tags(s, e) - s.removes;
    assert AddedBy(r, seen, e, t) && !RemovedBy(r, seen, t);
    j :| j in seen && IsAdd(r, j, e) && Issued(r, j) == t;
    forall i | i in seen && IsRemove(r, i, e) ensures !HadSeen(r, i, j) {
      ObservedMeansSeen(r, i, e, j, e);
    }
  }

  lemma SurvivorIsPresent(r: Run, seen: set<nat>, s: State, e: string, j: nat)
    requires IsRun(r) && DistinctIds(r.ids) && Reflects(r, seen, s)
    requires SurvivingAdd(r, seen, e, j)
    ensures e in Elements(s)
  {
    var t := Issued(r, j);
    assert AddedBy(r, seen, e, t);
    if RemovedBy(r, seen, t) {
      var i, f :| i in seen && IsRemove(r, i, f) && t in Observed(r, i);
      ObservedMeansSeen(r, i, f, j, e);
    }
    assert t in Tags(s, e) - s.removes;
  }

  /** Membership is exactly observed-remove: an element is present at a replica if
      and only if it has absorbed an add of it that none of the absorbed removes
      of it had seen. So an add concurrent with every remove wins, in every merge
      order. */
  lemma MembershipIsObservedRemove(r: Run, k: nat, n: string, e: string)
    requires IsRun(r) && DistinctIds(r.ids) && k <= |r.events| && n in r.states[k]
    ensures e in Elements(r.states[k][n]) <==> HasSurvivingAdd(r, Seen(r, k, n), e)
  {
    StateReflectsSeen(r, k, n);
    if e in Elements(r.states[k][n]) {
      var j := PresentHasSurvivor(r, Seen(r, k, n), r.states[k][n], e);
    } else if HasSurvivingAdd(r, Seen(r, k, n), e) {
      var j: nat :| SurvivingAdd(r, Seen(r, k, n), e, j);
      SurvivorIsPresent(r, Seen(r, k, n), r.states[k][n], e, j);
    }
  }

  // ---- what a shared node id costs

  ghost predicate UniqueTags(r: Run)
    requires IsRun(r)
  {
    forall i: nat, j: nat :: i < j < |r.events| && r.events[i].Add? && r.events[j].Add? ==> Issued(r, i) != Issued(r, j)
  }

  ghost predicate ObservedRemove(r: Run)
    requires IsRun(r)
  {
    forall k: nat, n, e :: k <= |r.events| && n in r.states[k] ==>
      (e in Elements(r.states[k][n]) <==> HasSurvivingAdd(r, Seen(r, k, n), e))
  }

  // Replicas m and n both add `e`; m removes what it saw, its own add, and n merges.
  ghost function ClashStates(ids: Ids, m: string, n: string, e: string): seq<Replicas>
    requires m in ids && n in ids
  {
    var s0: Replicas := map x | x in ids :: EMPTY;
    var s1 := s0[m := Added(EMPTY, ids[m], e)];
    var s2 := s1[n := Added(s1[n], ids[n], e)];
    var s3 := s2[m := Removed(s2[m], e)];
    [s0, s1, s2, s3, s3[n := Merged(s3[n], s3[m])]]
  }

  ghost function Clash(ids: Ids, m: string, n: string, e: string): Run
    requires m in ids && n in ids
  {
    Run(ids, [Event.Add(m, e), Event.Add(n, e), Event.Remove(m, e), Event.Merge(n, m, 3)], ClashStates(ids, m, n, e))
  }

  lemma ClashIsRun(ids: Ids, m: string, n: string, e: string)
    requires m in ids && n in ids && m != n
    ensures IsRun(Clash(ids, m, n, e))
  {
    var r := Clash(ids, m, n, e);
    assert Step(r, 0) && Step(r, 1) && Step(r, 2) && Step(r, 3);
  }

  lemma ClashRepeatsTag(ids: Ids, m: string, n: string, e: string)
    requires m in ids && n in ids && m != n && ids[m] == ids[n]
    ensures IsRun(Clash(ids, m, n, e)) && !UniqueTags(Clash(ids, m, n, e))
  {
    ClashIsRun(ids, m, n, e);
    var r := Clash(ids, m, n, e);
    assert Issued(r, 0) == (ids[m], 0) && Issued(r, 1) == (ids[n], 0);
  }

  lemma ClashSeen(ids: Ids, m: string, n: string, e: string)
    requires m in ids && n in ids && m != n && IsRun(Clash(ids, m, n, e))
    ensures var r := Clash(ids, m, n, e);
      Seen(r, 2, m) == {0} && Seen(r, 3, m) == {0, 2} && Seen(r, 3, n) == {1} && Seen(r, 4, n) == {0, 1, 2}
  {
    var r := Clash(ids, m, n, e);
    assert Seen(r, 1, m) == {0} && Seen(r, 1, n) == {};
    assert Seen(r, 2, n) == {1};
  }

  lemma ClashLosesAdd(ids: Ids, m: string, n: string, e: string)
    requires m in ids && n in ids && m != n && ids[m] == ids[n]
    ensures IsRun(Clash(ids, m, n, e)) && !ObservedRemove(Clash(ids, m, n, e))
  {
    ClashIsRun(ids, m, n, e);
    ClashSeen(ids, m, n, e);
    var r := Clash(ids, m, n, e);
    assert SurvivingAdd(r, Seen(r, 4, n), e, 1);
    var mine, theirs := r.states[3][n], r.states[3][m];
    assert Tags(mine, e) == {(ids[n], 0)} && Tags(theirs, e) == {(ids[m], 0)};
    assert theirs.removes == {(ids[m], 0)};
    assert n in r.states[4] && r.states[4][n] == Merged(mine, theirs);
    assert Tags(Merged(mine, theirs), e) - Merged(mine, theirs).removes == {};
    assert e !in Elements(r.states[4][n]) && HasSurvivingAdd(r, Seen(r, 4, n), e);
  }

  /** No run issues a tag twice exactly when the node ids are distinct. */
  lemma UniqueTagsIffDistinctIds(ids: Ids)
    ensures (forall r :: IsRun(r) && r.ids == ids ==> UniqueTags(r)) <==> DistinctIds(ids)
  {
    if !DistinctIds(ids) {
      var m, n :| m in ids && n in ids && m != n && ids[m] == ids[n];
      ClashRepeatsTag(ids, m, n, "");
    } else {
      forall r | IsRun(r) && r.ids == ids ensures UniqueTags(r) {
        forall i: nat, j: nat | i < j < |r.events| && r.events[i].Add? && r.events[j].Add?
          ensures Issued(r, i) != Issued(r, j)
        {
          TagsAreUnique(r, i, j);
        }
      }
    }
  }

  /** Membership is observed-remove in every run exactly when the node ids are
      distinct: two replicas left at one id issue the same tag, and a remove at one
      erases the other's concurrent add. */
  lemma ObservedRemoveIffDistinctIds(ids: Ids)
    ensures (forall r :: IsRun(r) && r.ids == ids ==> ObservedRemove(r)) <==> DistinctIds(ids)
  {
    if !DistinctIds(ids) {
      var m, n :| m in ids && n in ids && m != n && ids[m] == ids[n];
      ClashLosesAdd(ids, m, n, "");
    } else {
      forall r | IsRun(r) && r.ids == ids ensures ObservedRemove(r) {
        forall k: nat, n, e | k <= |r.events| && n in r.states[k]
          ensures e in Elements(r.states[k][n]) <==> HasSurvivingAdd(r, Seen(r, k, n), e)
        {
          MembershipIsObservedRemove(r, k, n, e);
        }
      }
    }
  }
}
