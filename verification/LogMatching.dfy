/** relay/logmatching.py: the check made before a follower takes in a batch.
    The class is the source's FollowerLog; the run below it is the protocol the
    check exists for, and Log Matching is its invariant. */
module LogMatching {
  import opened Common
  import opened Sorting

  // A log: index to the term of the entry there. Indexes start at 1.
  type Log = map<int, int>

  // The entries 1 .. |terms| of a gap-free log.
  function ToLog(terms: seq<int>): (m: Log)
    ensures forall i :: i in m <==> 1 <= i <= |terms|
  {
    map i | 1 <= i <= |terms| :: EntryAt(terms, i)
  }

  function EntryAt(terms: seq<int>, i: int): int
    requires 1 <= i <= |terms|
  {
    terms[i-1]
  }

  // The batch holding the entries after `prev` up to `end`.
  function Slice(terms: seq<int>, prev: nat, end: nat): (m: Log)
    requires prev <= end <= |terms|
  {
    map i | prev < i <= end :: EntryAt(terms, i)
  }

  function Truncated(entries: Log, prev: int): Log {
    map i | i in entries && i <= prev :: entries[i]
  }

  predicate Agrees(entries: Log, prev: int, prevTerm: int) {
    prev > 0 ==> prev in entries && entries[prev] == prevTerm
  }

  // The source's `append`: None is the refusal, which leaves the log alone.
  function Appended(entries: Log, prev: int, prevTerm: int, batch: Log): Option<Log> {
    if Agrees(entries, prev, prevTerm) then Some(Truncated(entries, prev) + batch) else None
  }

  predicate Matches(entries: Log, leader: Log, i: int) {
    i in leader && i in entries && entries[i] == leader[i]
  }

  // Every entry of the leader up to `i` is held with the same term.
  ghost predicate AgreedThrough(entries: Log, leader: Log, i: int) {
    i in leader && forall k :: k in leader && k <= i ==> Matches(entries, leader, k)
  }

  // `point` is the last index agreed through, or 0 if there is none.
  ghost predicate IsAgreementPoint(entries: Log, leader: Log, point: int) {
    && (AgreedThrough(entries, leader, point) || point == 0)
    && forall i :: AgreedThrough(entries, leader, i) ==> AgreedThrough(entries, leader, point) && i <= point
  }

  // What an accepted append leaves at an index.
  function EntryAfter(entries: Log, prev: int, batch: Log, i: int): Option<int> {
    if i in batch then Some(batch[i]) else if i <= prev then Lookup(entries, i) else None
  }

  class FollowerLog {
    var entries: Log

    constructor (entries: Log)
      ensures this.entries == entries
    {
      this.entries := entries;
    }

    /** The source's `append`. */
    method Append(prevIndex: int, prevTerm: int, batch: Log) returns (r: Result<()>)
      modifies this
      ensures r.Ok? <==> Agrees(old(entries), prevIndex, prevTerm)
      ensures r.Err? ==> r.error == Invalid && entries == old(entries)
      ensures r.Ok? ==> Appended(old(entries), prevIndex, prevTerm, batch) == Some(entries)
      ensures r.Ok? <==> prevIndex <= 0 || (prevIndex in old(entries) && old(entries)[prevIndex] == prevTerm)
      ensures r.Ok? ==> forall i :: Lookup(entries, i) == EntryAfter(old(entries), prevIndex, batch, i)
    {
      if prevIndex > 0 {
        if !(prevIndex in entries) || entries[prevIndex] != prevTerm {
          return Err(Invalid);
        }
      }
      entries := map i | i in entries && i <= prevIndex :: entries[i];
      entries := entries + batch;
      return Ok(());
    }

    /** The source's `agreement_point`. */
    method AgreementPoint(leader: Log) returns (point: int)
      ensures IsAgreementPoint(entries, leader, point)
    {
      point := 0;
      var keys := SortedKeys(leader.Keys);
      assert forall k :: k in leader <==> k in keys;
      for n := 0 to |keys|
        invariant point == if n == 0 then 0 else keys[n-1]
        invariant forall m :: 0 <= m < n ==> Matches(entries, leader, keys[m])
      {
        var index := keys[n];
        assert index in leader;
        if index in entries && entries[index] == leader[index] {
          point := index;
        } else {
          StopsAt(entries, leader, keys, n);
          return;
        }
      }
      StopsAt(entries, leader, keys, |keys|);
    }
  }

  // The walk stops after n of the leader's indexes in ascending order.
  lemma StopsAt(entries: Log, leader: Log, keys: seq<int>, n: nat)
    requires IsSortedKeys(keys, leader.Keys) && n <= |keys|
    requires forall m :: 0 <= m < n ==> Matches(entries, leader, keys[m])
    requires n < |keys| ==> !Matches(entries, leader, keys[n])
    ensures IsAgreementPoint(entries, leader, if n == 0 then 0 else keys[n-1])
  {
    if n > 0 { MatchedIsAgreed(entries, leader, keys, n); }
    forall i | AgreedThrough(entries, leader, i) ensures n > 0 && i <= keys[n-1] {
      var m :| 0 <= m < |keys| && keys[m] == i;
      if n < |keys| {
        var stop := keys[n];
        assert stop in keys && stop in leader.Keys;
        assert stop <= i ==> Matches(entries, leader, stop);
      }
    }
  }

  lemma MatchedIsAgreed(entries: Log, leader: Log, keys: seq<int>, n: nat)
    requires IsSortedKeys(keys, leader.Keys) && 0 < n <= |keys|
    requires forall m :: 0 <= m < n ==> Matches(entries, leader, keys[m])
    ensures AgreedThrough(entries, leader, keys[n-1])
  {
    assert keys[n-1] in keys && keys[n-1] in leader.Keys;
    forall k | k in leader && k <= keys[n-1] ensures Matches(entries, leader, k) {
      assert k in leader.Keys;
      var m :| 0 <= m < |keys| && keys[m] == k;
    }
  }

  lemma MatchesOnSequences(f: seq<int>, l: seq<int>, i: int)
    ensures Matches(ToLog(f), ToLog(l), i) <==> 1 <= i <= |f| && i <= |l| && f[i-1] == l[i-1]
  {
  }

  lemma AgreedOnSequences(f: seq<int>, l: seq<int>, i: int)
    ensures AgreedThrough(ToLog(f), ToLog(l), i) <==> 1 <= i <= |f| && i <= |l| && f[..i] == l[..i]
  {
    if AgreedThrough(ToLog(f), ToLog(l), i) {
      MatchesOnSequences(f, l, i);
      forall k | 0 <= k < i ensures f[..i][k] == l[..i][k] { MatchesOnSequences(f, l, k + 1); }
    }
    if 1 <= i <= |f| && i <= |l| && f[..i] == l[..i] {
      forall k | k in ToLog(l) && k <= i ensures Matches(ToLog(f), ToLog(l), k) {
        assert f[k-1] == f[..i][k-1] == l[..i][k-1] == l[k-1];
        MatchesOnSequences(f, l, k);
      }
    }
  }

  /** On gap-free logs the agreement point is the longest common prefix. */
  lemma AgreementPointIsCommonPrefix(f: seq<int>, l: seq<int>, point: int)
    requires IsAgreementPoint(ToLog(f), ToLog(l), point)
    ensures 0 <= point <= |f| && point <= |l| && f[..point] == l[..point]
    ensures point < |f| && point < |l| ==> f[point] != l[point]
  {
    AgreedOnSequences(f, l, point);
    if point < |f| && point < |l| && f[point] == l[point] {
      assert f[..point+1] == f[..point] + [f[point]] && l[..point+1] == l[..point] + [l[point]];
      AgreedOnSequences(f, l, point + 1);
      assert false;
    }
  }

  /** A batch cut from the leader's log and accepted at an index up to which the
      two logs are equal leaves the leader's prefix. */
  lemma AppendInstallsPrefix(f: seq<int>, l: seq<int>, prev: nat, end: nat)
    requires prev <= end <= |l| && prev <= |f| && f[..prev] == l[..prev]
    ensures Appended(ToLog(f), prev, if prev > 0 then l[prev-1] else 0, Slice(l, prev, end)) == Some(ToLog(l[..end]))
  {
    var t := if prev > 0 then l[prev-1] else 0;
    if prev > 0 { assert f[prev-1] == f[..prev][prev-1] == l[..prev][prev-1] == l[prev-1]; }
    assert Agrees(ToLog(f), prev, t);
    var m := Truncated(ToLog(f), prev) + Slice(l, prev, end);
    forall i | 1 <= i <= end ensures i in m && m[i] == l[i-1] {
      if i <= prev { assert f[i-1] == f[..prev][i-1] == l[..prev][i-1]; }
    }
    assert m == ToLog(l[..end]);
  }

  // ---- the protocol

  ghost predicate HasLength(m: Log, k: int) {
    k >= 0 && forall i :: i in m <==> 1 <= i <= k
  }

  // Gap-free: the entries are exactly 1 .. k.
  ghost predicate Contiguous(m: Log) {
    exists k :: HasLength(m, k)
  }

  // The terms of a gap-free log, in order.
  ghost function Terms(m: Log): (l: seq<int>)
    requires Contiguous(m)
    ensures ToLog(l) == m
  {
    var k :| HasLength(m, k);
    var l := seq(k, i requires 0 <= i < k => m[i+1]);
    assert ToLog(l) == m;
    l
  }

  lemma ToLogIsContiguous(l: seq<int>)
    ensures Contiguous(ToLog(l))
    ensures Terms(ToLog(l)) == l
  {
    assert HasLength(ToLog(l), |l|);
    var t := Terms(ToLog(l));
    assert |t| == 0 || |t| in ToLog(t);
    assert |l| == 0 || |l| in ToLog(l);
    forall i | 0 <= i < |l| ensures t[i] == l[i] {
      assert EntryAt(t, i + 1) == ToLog(t)[i+1] == ToLog(l)[i+1] == EntryAt(l, i + 1);
    }
  }

  // Every node's log, and for each term that has had a leader, that leader's
  // append-only log.
  datatype System = System(nodes: map<string, Log>, leaders: map<int, seq<int>>)

  datatype Event =
    | Elect(node: string, term: int)   // a fresh term starts from a node's own log
    | Propose(term: int)               // the term's leader appends an entry of its term
    | Send(node: string, term: int, prev: nat, end: nat)  // a slice of that leader's log arrives

  ghost predicate Enabled(s: System, e: Event) {
    match e
    case Elect(n, t) => n in s.nodes && Contiguous(s.nodes[n]) && t !in s.leaders
    case Propose(t) => t in s.leaders
    case Send(n, t, prev, end) => n in s.nodes && t in s.leaders && prev <= end <= |s.leaders[t]|
  }

  // Messages may be lost, delayed, repeated or reordered: any slice of a
  // leader's log may arrive at any node at any time.
  ghost function Next(s: System, e: Event): System
    requires Enabled(s, e)
  {
    match e
    case Elect(n, t) => s.(leaders := s.leaders[t := Terms(s.nodes[n])])
    case Propose(t) => s.(leaders := s.leaders[t := s.leaders[t] + [t]])
    case Send(n, t, prev, end) =>
      var l := s.leaders[t];
      match Appended(s.nodes[n], prev, if prev > 0 then l[prev-1] else 0, Slice(l, prev, end))
      case Some(m) => s.(nodes := s.nodes[n := m])
      case None => s
  }

  ghost predicate ValidRun(s: System, run: seq<Event>)
    decreases |run|
  {
    run == [] || (Enabled(s, run[0]) && ValidRun(Next(s, run[0]), run[1..]))
  }

  ghost function After(s: System, run: seq<Event>): System
    requires ValidRun(s, run)
    decreases |run|
  {
    if run == [] then s else After(Next(s, run[0]), run[1..])
  }

  function Start(names: set<string>): System {
    System(map n | n in names :: map[], map[])
  }

  // Up to any entry, the log is the log of the leader of that entry's term.
  ghost predicate FollowsLeaders(leaders: map<int, seq<int>>, l: seq<int>) {
    forall i {:trigger FollowsAt(leaders, l, i)} :: 0 <= i < |l| ==> FollowsAt(leaders, l, i)
  }

  ghost predicate FollowsAt(leaders: map<int, seq<int>>, l: seq<int>, i: int)
    requires 0 <= i < |l|
  {
    l[i] in leaders && i < |leaders[l[i]]| && l[..i+1] == leaders[l[i]][..i+1]
  }

  ghost predicate LeaderOk(s: System, t: int)
    requires t in s.leaders
  {
    FollowsLeaders(s.leaders, s.leaders[t])
  }

  ghost predicate NodeOk(s: System, n: string)
    requires n in s.nodes
  {
    Contiguous(s.nodes[n]) && FollowsLeaders(s.leaders, Terms(s.nodes[n]))
  }

  ghost predicate Inv(s: System) {
    && (forall t {:trigger LeaderOk(s, t)} :: t in s.leaders ==> LeaderOk(s, t))
    && (forall n {:trigger NodeOk(s, n)} :: n in s.nodes ==> NodeOk(s, n))
  }

  ghost predicate Grows(a: map<int, seq<int>>, b: map<int, seq<int>>) {
    forall t :: t in a ==> t in b && a[t] <= b[t]
  }

  lemma FollowingSurvivesGrowth(a: map<int, seq<int>>, b: map<int, seq<int>>, l: seq<int>)
    requires Grows(a, b) && FollowsLeaders(a, l)
    ensures FollowsLeaders(b, l)
  {
    forall i {:trigger FollowsAt(b, l, i)} | 0 <= i < |l| ensures FollowsAt(b, l, i) {
      assert FollowsAt(a, l, i);
      var t := l[i];
      assert t in a && a[t] <= b[t];
    }
  }

  /** Two logs that follow the same leaders and share a term at an index share
      every entry up to it. */
  lemma SharedTermSharesPrefix(leaders: map<int, seq<int>>, x: seq<int>, y: seq<int>, i: nat)
    requires FollowsLeaders(leaders, x) && FollowsLeaders(leaders, y)
    requires i < |x| && i < |y| && x[i] == y[i]
    ensures x[..i+1] == y[..i+1]
  {
    assert FollowsAt(leaders, x, i) && FollowsAt(leaders, y, i);
  }

  lemma ProposeFollows(leaders: map<int, seq<int>>, t: int)
    requires t in leaders && FollowsLeaders(leaders, leaders[t])
    ensures FollowsLeaders(leaders[t := leaders[t] + [t]], leaders[t] + [t])
  {
    var l, after := leaders[t] + [t], leaders[t := leaders[t] + [t]];
    FollowingSurvivesGrowth(leaders, after, leaders[t]);
    forall i {:trigger FollowsAt(after, l, i)} | 0 <= i < |l| ensures FollowsAt(after, l, i) {
      if i < |leaders[t]| {
        assert FollowsAt(after, leaders[t], i);
        assert l[..i+1] == leaders[t][..i+1];
      }
    }
  }

  lemma PrefixFollows(leaders: map<int, seq<int>>, l: seq<int>, end: nat)
    requires FollowsLeaders(leaders, l) && end <= |l|
    ensures FollowsLeaders(leaders, l[..end])
  {
    var p := l[..end];
    forall i {:trigger FollowsAt(leaders, p, i)} | 0 <= i < end ensures FollowsAt(leaders, p, i) {
      assert FollowsAt(leaders, l, i);
      assert p[..i+1] == l[..i+1];
    }
  }

  /** An accepted send leaves the node with exactly the leader's entries up to
      the end of the batch; a refused one leaves it as it was. */
  lemma SendConverges(s: System, n: string, t: int, prev: nat, end: nat)
    requires Inv(s) && Enabled(s, Send(n, t, prev, end))
    ensures var s' := Next(s, Send(n, t, prev, end));
      s' == s || s' == s.(nodes := s.nodes[n := ToLog(s.leaders[t][..end])])
    ensures prev == 0 || (prev in s.nodes[n] && s.nodes[n][prev] == s.leaders[t][prev-1]) <==>
      Appended(s.nodes[n], prev, if prev > 0 then s.leaders[t][prev-1] else 0, Slice(s.leaders[t], prev, end)).Some?
  {
    assert NodeOk(s, n) && LeaderOk(s, t);
    var l, f := s.leaders[t], Terms(s.nodes[n]);
    var u := if prev > 0 then l[prev-1] else 0;
    if Agrees(s.nodes[n], prev, u) {
      if prev > 0 {
        assert prev in ToLog(f);
        SharedTermSharesPrefix(s.leaders, f, l, prev - 1);
      }
      AppendInstallsPrefix(f, l, prev, end);
    }
  }

  lemma LeadersGrow(s: System, e: Event)
    requires Enabled(s, e)
    ensures Grows(s.leaders, Next(s, e).leaders)
  {
  }

  /** Every event keeps the invariant. */
  lemma NextKeepsInv(s: System, e: Event)
    requires Inv(s) && Enabled(s, e)
    ensures Inv(Next(s, e))
  {
    var s' := Next(s, e);
    LeadersGrow(s, e);
    forall t {:trigger LeaderOk(s', t)} | t in s'.leaders ensures LeaderOk(s', t) {
      NextKeepsLeader(s, e, t);
    }
    forall n {:trigger NodeOk(s', n)} | n in s'.nodes ensures NodeOk(s', n) {
      NextKeepsNode(s, e, n);
    }
  }

  lemma NextKeepsLeader(s: System, e: Event, t: int)
    requires Inv(s) && Enabled(s, e) && t in Next(s, e).leaders
    ensures LeaderOk(Next(s, e), t)
  {
    var s' := Next(s, e);
    LeadersGrow(s, e);
    match e
    case Elect(n, t') =>
      if t == t' {
        assert NodeOk(s, n);
        FollowingSurvivesGrowth(s.leaders, s'.leaders, Terms(s.nodes[n]));
      } else {
        assert LeaderOk(s, t);
        FollowingSurvivesGrowth(s.leaders, s'.leaders, s.leaders[t]);
      }
    case Propose(t') =>
      assert LeaderOk(s, t);
      if t == t' {
        ProposeFollows(s.leaders, t);
      } else {
        FollowingSurvivesGrowth(s.leaders, s'.leaders, s.leaders[t]);
      }
    case Send(_, _, _, _) =>
      assert LeaderOk(s, t);
  }

  lemma NextKeepsNode(s: System, e: Event, n: string)
    requires Inv(s) && Enabled(s, e) && n in Next(s, e).nodes
    ensures NodeOk(Next(s, e), n)
  {
    var s' := Next(s, e);
    LeadersGrow(s, e);
    match e
    case Send(n', t, prev, end) =>
      SendConverges(s, n', t, prev, end);
      assert n in s.nodes && NodeOk(s, n);
      if s' != s && n == n' {
        assert LeaderOk(s, t);
        ToLogIsContiguous(s.leaders[t][..end]);
        PrefixFollows(s.leaders, s.leaders[t], end);
      }
    case _ =>
      assert NodeOk(s, n);
      FollowingSurvivesGrowth(s.leaders, s'.leaders, Terms(s.nodes[n]));
  }

  lemma {:induction false} RunKeepsInv(s: System, run: seq<Event>)
    requires Inv(s) && ValidRun(s, run)
    ensures Inv(After(s, run))
    decreases |run|
  {
    if run != [] {
      NextKeepsInv(s, run[0]);
      RunKeepsInv(Next(s, run[0]), run[1..]);
    }
  }

  lemma StartInv(names: set<string>)
    ensures Inv(Start(names))
  {
    var s := Start(names);
    forall n {:trigger NodeOk(s, n)} | n in s.nodes ensures NodeOk(s, n) {
      assert s.nodes[n] == ToLog([]);
      ToLogIsContiguous([]);
    }
  }

  /** Log Matching, over every run: two logs with the same term at an index hold
      the same entries at every index up to it. */
  lemma LogMatching(names: set<string>, run: seq<Event>, a: string, b: string, i: int)
    requires ValidRun(Start(names), run)
    requires var s := After(Start(names), run);
      a in s.nodes && b in s.nodes && i in s.nodes[a] && i in s.nodes[b] && s.nodes[a][i] == s.nodes[b][i]
    ensures var s := After(Start(names), run);
      forall j :: j <= i ==> (j in s.nodes[a] <==> j in s.nodes[b]) &&
                             (j in s.nodes[a] ==> s.nodes[a][j] == s.nodes[b][j])
  {
    var s := After(Start(names), run);
    StartInv(names);
    RunKeepsInv(Start(names), run);
    assert NodeOk(s, a) && NodeOk(s, b);
    var x, y := Terms(s.nodes[a]), Terms(s.nodes[b]);
    assert i in ToLog(x) && i in ToLog(y);
    SharedTermSharesPrefix(s.leaders, x, y, i - 1);
    forall j | 1 <= j <= i ensures ToLog(x)[j] == ToLog(y)[j] {
      assert x[..i][j-1] == y[..i][j-1];
    }
  }

  /** In every reachable state the agreement point with a leader is the last
      index at which the two logs hold the same term, and a send is accepted
      exactly when it starts at or below that point: the leader's backward walk
      stops there and nowhere else. */
  lemma BackwardWalkFindsAgreementPoint(names: set<string>, run: seq<Event>, n: string, t: int, point: int, prev: nat)
    requires ValidRun(Start(names), run)
    requires var s := After(Start(names), run);
      n in s.nodes && t in s.leaders && prev <= |s.leaders[t]| &&
      IsAgreementPoint(s.nodes[n], ToLog(s.leaders[t]), point)
    ensures var s := After(Start(names), run);
      Agrees(s.nodes[n], prev, if prev > 0 then s.leaders[t][prev-1] else 0) <==> prev <= point
  {
    var s := After(Start(names), run);
    StartInv(names);
    RunKeepsInv(Start(names), run);
    assert NodeOk(s, n) && LeaderOk(s, t);
    var f, l := Terms(s.nodes[n]), s.leaders[t];
    AgreementPointIsCommonPrefix(f, l, point);
    AgreementBelowPoint(s.leaders, f, l, point, prev);
  }

  lemma AgreementBelowPoint(leaders: map<int, seq<int>>, f: seq<int>, l: seq<int>, point: nat, prev: nat)
    requires FollowsLeaders(leaders, f) && FollowsLeaders(leaders, l)
    requires point <= |f| && point <= |l| && f[..point] == l[..point]
    requires point < |f| && point < |l| ==> f[point] != l[point]
    requires prev <= |l|
    ensures Agrees(ToLog(f), prev, if prev > 0 then l[prev-1] else 0) <==> prev <= point
  {
    if 0 < prev <= |f| {
      assert EntryAt(f, prev) == f[prev-1];
      if f[prev-1] == l[prev-1] {
        SharedTermSharesPrefix(leaders, f, l, prev - 1);
        assert forall i :: 0 <= i < prev ==> f[i] == f[..prev][i] == l[..prev][i] == l[i];
      }
      if prev <= point {
        assert f[prev-1] == f[..point][prev-1] == l[..point][prev-1];
      }
    }
  }

  /** The check guards only the entry before the batch: a batch that does not
      start right after it is accepted all the same and leaves a gap, so
      contiguity of the batch is the caller's obligation. */
  lemma GapIsAccepted()
    ensures Appended(map[1 := 1], 1, 1, map[3 := 1]) == Some(map[1 := 1, 3 := 1])
    ensures !Contiguous(map[1 := 1, 3 := 1])
  {
    var m: Log := map[1 := 1, 3 := 1];
    assert Truncated(map[1 := 1], 1) + map[3 := 1] == m;
    assert 2 !in m && 3 in m;
  }

  // How much of a gap-free log of length n the truncation keeps.
  function Kept(n: nat, prev: int): nat {
    if prev < 0 then 0 else if prev < n then prev else n
  }

  // The index follows on from the kept prefix, or from the batch's own index
  // before it.
  predicate FollowsOn(batch: Log, kept: int, i: int) {
    1 <= i && (i <= kept + 1 || i - 1 in batch)
  }

  ghost predicate NoHole(batch: Log, kept: int) {
    forall i :: i in batch ==> FollowsOn(batch, kept, i)
  }

  lemma {:induction false} NoHoleDescends(batch: Log, kept: int, i: int, j: int)
    requires NoHole(batch, kept) && i in batch && kept < j <= i
    ensures j in batch
    decreases i - j
  {
    if j < i {
      assert FollowsOn(batch, kept, i);
      NoHoleDescends(batch, kept, i - 1, j);
    }
  }

  function IndexesAbove(batch: Log, k: int): set<int> {
    set i | i in batch && i > k
  }

  // Climb through the batch until the next index is missing.
  lemma {:induction false} ClimbBatch(batch: Log, k: int) returns (top: int)
    ensures top >= k && top + 1 !in batch
    ensures forall i :: k < i <= top ==> i in batch
    decreases IndexesAbove(batch, k)
  {
    if k + 1 in batch {
      assert k + 1 in IndexesAbove(batch, k) && k + 1 !in IndexesAbove(batch, k + 1);
      top := ClimbBatch(batch, k + 1);
    } else {
      top := k;
    }
  }

  lemma CoveredIsContiguous(m: Log, batch: Log, kept: nat)
    requires forall i :: i in m <==> (i in batch || 1 <= i <= kept)
    requires NoHole(batch, kept)
    ensures Contiguous(m)
  {
    var top := ClimbBatch(batch, kept);
    forall i ensures i in m <==> 1 <= i <= top {
      if i in batch {
        assert FollowsOn(batch, kept, i);
        if i > top { NoHoleDescends(batch, kept, i, top + 1); }
      }
    }
    assert HasLength(m, top);
  }

  lemma ContiguousHasNoHole(m: Log, batch: Log, kept: nat)
    requires forall i :: i in m <==> (i in batch || 1 <= i <= kept)
    requires Contiguous(m)
    ensures NoHole(batch, kept)
  {
    var k :| HasLength(m, k);
    forall i | i in batch ensures FollowsOn(batch, kept, i) {
      assert i in m;
      assert 1 <= i - 1 <= k <==> i - 1 in m;
    }
  }

  /** From a gap-free log, an accepted append is gap-free exactly when every index
      of the batch follows on from the kept prefix or from the batch's own index
      before it. */
  lemma AppendKeepsContiguityIff(f: seq<int>, prev: int, prevTerm: int, batch: Log)
    requires Agrees(ToLog(f), prev, prevTerm)
    ensures var kept := Kept(|f|, prev);
      Contiguous(Appended(ToLog(f), prev, prevTerm, batch).value) <==> NoHole(batch, kept)
  {
    var m := Appended(ToLog(f), prev, prevTerm, batch).value;
    var kept := Kept(|f|, prev);
    assert forall i :: i in m <==> (i in batch || 1 <= i <= kept);
    if NoHole(batch, kept) { CoveredIsContiguous(m, batch, kept); }
    if Contiguous(m) { ContiguousHasNoHole(m, batch, kept); }
  }
}
