/** relay/intervalscheduler.py: greedy selection by earliest finish, and the
    proof that no compatible subset of the input is larger. */
module IntervalScheduler {
  import opened Common

  datatype Interval = Interval(start: int, end: int)

  ghost predicate WellFormed(intervals: seq<Interval>) {
    forall i :: 0 <= i < |intervals| ==> intervals[i].start < intervals[i].end
  }

  ghost predicate SortedByEnd(s: seq<Interval>) {
    forall i, j :: 0 <= i < j < |s| ==> s[i].end <= s[j].end
  }

  predicate Overlap(a: Interval, b: Interval) {
    a.start < b.end && b.start < a.end
  }

  // A schedule: intervals drawn from the offer, no two of them overlapping.
  // Touching endpoints do not overlap.
  ghost predicate Schedule(s: seq<Interval>, offered: seq<Interval>) {
    && multiset(s) <= multiset(offered)
    && forall i, j :: 0 <= i < j < |s| ==> !Overlap(s[i], s[j])
  }

  // The stable sort by end time: an inserted interval goes before its equals.
  function InsertByEnd(x: Interval, s: seq<Interval>): (r: seq<Interval>)
    requires SortedByEnd(s)
    ensures SortedByEnd(r)
    ensures multiset(r) == multiset(s) + multiset{x}
    ensures |r| == |s| + 1
    ensures r[0] == if s == [] || x.end <= s[0].end then x else s[0]
  {
    if s == [] || x.end <= s[0].end then
      [x] + s
    else
      assert s == [s[0]] + s[1..];
      [s[0]] + InsertByEnd(x, s[1..])
  }

  function SortByEnd(s: seq<Interval>): (r: seq<Interval>)
    ensures SortedByEnd(r)
    ensures multiset(r) == multiset(s)
  {
    if s == [] then []
    else
      assert s == [s[0]] + s[1..];
      InsertByEnd(s[0], SortByEnd(s[1..]))
  }

  function EndingAt(s: seq<Interval>, end: int): seq<Interval> {
    if s == [] then []
    else (if s[0].end == end then [s[0]] else []) + EndingAt(s[1..], end)
  }

  lemma EndingAtOfCons(x: Interval, s: seq<Interval>, end: int)
    ensures EndingAt([x] + s, end) == (if x.end == end then [x] else []) + EndingAt(s, end)
  {
  }

  lemma {:induction false} InsertIsStable(x: Interval, s: seq<Interval>, end: int)
    requires SortedByEnd(s)
    ensures EndingAt(InsertByEnd(x, s), end) ==
            (if x.end == end then [x] else []) + EndingAt(s, end)
  {
    if s == [] || x.end <= s[0].end {
      EndingAtOfCons(x, s, end);
    } else {
      var h, t := s[0], s[1..];
      assert s == [h] + t && InsertByEnd(x, s) == [h] + InsertByEnd(x, t);
      InsertIsStable(x, t, end);
      StableUnderCons(x, h, t, InsertByEnd(x, t), end);
    }
  }

  // An earlier-ending interval in front does not disturb stability.
  lemma StableUnderCons(x: Interval, h: Interval, t: seq<Interval>, r: seq<Interval>, end: int)
    requires h.end < x.end
    requires EndingAt(r, end) == (if x.end == end then [x] else []) + EndingAt(t, end)
    ensures EndingAt([h] + r, end) == (if x.end == end then [x] else []) + EndingAt([h] + t, end)
  {
    EndingAtOfCons(h, r, end);
    EndingAtOfCons(h, t, end);
  }

  /** The sort is stable: intervals with equal ends keep their input order. */
  lemma {:induction false} SortIsStable(s: seq<Interval>, end: int)
    ensures EndingAt(SortByEnd(s), end) == EndingAt(s, end)
  {
    if s != [] {
      SortIsStable(s[1..], end);
      InsertIsStable(s[0], SortByEnd(s[1..]), end);
    }
  }

  // The greedy choice over an order: take what starts at or after the last end.
  function Greedy(s: seq<Interval>, last: Option<int>): seq<Interval> {
    if s == [] then []
    else if last == None || s[0].start >= last.value then [s[0]] + Greedy(s[1..], Some(s[0].end))
    else Greedy(s[1..], last)
  }

  // `x` covers the last instant before some chosen end, so every interval that
  // contains that instant competes with that chosen one.
  ghost predicate StabbedBy(x: Interval, c: Interval) {
    x.start < c.end <= x.end
  }

  ghost predicate StabbedWithin(x: Interval, chosen: seq<Interval>) {
    exists k :: 0 <= k < |chosen| && StabbedBy(x, chosen[k])
  }

  lemma {:induction false} GreedyExtends(done: seq<Interval>, x: Interval, last: Option<int>)
    ensures Greedy(done + [x], last) ==
      var g := Greedy(done, last);
      var l := if g == [] then last else Some(g[|g|-1].end);
      if l == None || x.start >= l.value then g + [x] else g
  {
    if done == [] {
      assert done + [x] == [x];
    } else {
      assert (done + [x])[1..] == done[1..] + [x];
      if last == None || done[0].start >= last.value {
        GreedyExtends(done[1..], x, Some(done[0].end));
      } else {
        GreedyExtends(done[1..], x, last);
      }
    }
  }

  // The selecting loop of the source, over the sorted intervals.
  method Choose(sorted: seq<Interval>) returns (chosen: seq<Interval>)
    ensures chosen == Greedy(sorted, None)
  {
    chosen := [];
    var lastEnd: Option<int> := None;
    for i := 0 to |sorted|
      invariant chosen == Greedy(sorted[..i], None)
      invariant lastEnd == if chosen == [] then None else Some(chosen[|chosen|-1].end)
    {
      assert sorted[..i+1] == sorted[..i] + [sorted[i]];
      GreedyExtends(sorted[..i], sorted[i], None);
      if lastEnd == None || sorted[i].start >= lastEnd.value {
        chosen := chosen + [sorted[i]];
        lastEnd := Some(sorted[i].end);
      }
    }
    assert sorted[..|sorted|] == sorted;
  }

  // `r` is a schedule of the offer, and no schedule of it is larger.
  ghost predicate IsLargestSchedule(r: seq<Interval>, offered: seq<Interval>) {
    Schedule(r, offered) && forall s :: Schedule(s, offered) ==> |s| <= |r|
  }

  /** The source's `select`. */
  method Select(intervals: seq<Interval>) returns (r: Result<seq<Interval>>)
    ensures r.Err? <==> !WellFormed(intervals)
    ensures r.Err? ==> r.error == Invalid
    ensures r.Ok? ==> r.value == Greedy(SortByEnd(intervals), None)
    ensures r.Ok? ==> IsLargestSchedule(r.value, intervals)
  {
    for i := 0 to |intervals|
      invariant forall j :: 0 <= j < i ==> intervals[j].start < intervals[j].end
    {
      if intervals[i].end <= intervals[i].start {
        return Err(Invalid);
      }
    }
    var chosen := Choose(SortByEnd(intervals));
    GreedyIsLargest(intervals);
    return Ok(chosen);
  }

  lemma GreedyIsLargest(offered: seq<Interval>)
    requires WellFormed(offered)
    ensures IsLargestSchedule(Greedy(SortByEnd(offered), None), offered)
  {
    SortKeepsWellFormed(offered);
    GreedyIsSchedule(SortByEnd(offered));
    forall s | Schedule(s, offered) ensures |s| <= |Greedy(SortByEnd(offered), None)| {
      GreedyIsOptimal(offered, s);
    }
  }

  lemma SortKeepsWellFormed(s: seq<Interval>)
    requires WellFormed(s)
    ensures WellFormed(SortByEnd(s))
  {
    var t := SortByEnd(s);
    forall i | 0 <= i < |t| ensures t[i].start < t[i].end {
      assert t[i] in multiset(t);
      assert t[i] in s;
    }
  }

  lemma {:induction false} GreedyChoosesFromOffer(s: seq<Interval>, last: Option<int>)
    ensures multiset(Greedy(s, last)) <= multiset(s)
  {
    if s != [] {
      assert s == [s[0]] + s[1..];
      GreedyChoosesFromOffer(s[1..], Some(s[0].end));
      GreedyChoosesFromOffer(s[1..], last);
    }
  }

  lemma {:induction false} GreedyAfter(s: seq<Interval>, last: Option<int>)
    requires WellFormed(s)
    ensures var g := Greedy(s, last);
      && (forall i :: 0 <= i < |g| && last.Some? ==> last.value <= g[i].start)
      && (forall i, j :: 0 <= i < j < |g| ==> g[i].end <= g[j].start)
      && WellFormed(g)
  {
    if s != [] {
      if last == None || s[0].start >= last.value {
        GreedyAfter(s[1..], Some(s[0].end));
      } else {
        GreedyAfter(s[1..], last);
      }
    }
  }

  /** What is chosen is a schedule of the offer, in time order. */
  lemma GreedyIsSchedule(s: seq<Interval>)
    requires WellFormed(s)
    ensures Schedule(Greedy(s, None), s)
  {
    GreedyChoosesFromOffer(s, None);
    GreedyAfter(s, None);
  }

  // The intervals of `s` that are marked, in order.
  function Marked(s: seq<Interval>, mark: seq<bool>): seq<Interval>
    requires |s| == |mark|
  {
    if s == [] then []
    else Marked(s[..|s|-1], mark[..|s|-1]) + if mark[|s|-1] then [s[|s|-1]] else []
  }

  // An interval is marked exactly when it starts at or after the end of every
  // interval marked before it.
  ghost predicate IsGreedyMark(s: seq<Interval>, mark: seq<bool>) {
    |s| == |mark| &&
    forall j :: 0 <= j < |s| ==> (mark[j] <==> Clear(s, mark, j))
  }

  ghost predicate Clear(s: seq<Interval>, mark: seq<bool>, j: nat)
    requires j < |s| == |mark|
  {
    forall i :: 0 <= i < j && mark[i] ==> s[i].end <= s[j].start
  }

  lemma {:induction false} MarkedMembers(s: seq<Interval>, mark: seq<bool>)
    requires |s| == |mark|
    ensures forall i :: 0 <= i < |s| && mark[i] ==> s[i] in Marked(s, mark)
    ensures forall x :: x in Marked(s, mark) ==> exists i :: 0 <= i < |s| && mark[i] && s[i] == x
  {
    if s != [] {
      var n := |s| - 1;
      MarkedMembers(s[..n], mark[..n]);
      forall x | x in Marked(s, mark) ensures exists i :: 0 <= i < |s| && mark[i] && s[i] == x {
        if x in Marked(s[..n], mark[..n]) {
          var i :| 0 <= i < n && mark[..n][i] && s[..n][i] == x;
          assert mark[i] && s[i] == x;
        } else {
          assert mark[n] && s[n] == x;
        }
      }
    }
  }

  // The last of the chosen ends is the largest.
  lemma ClearIffAfterLast(s: seq<Interval>, mark: seq<bool>, x: Interval)
    requires |s| == |mark| && WellFormed(s) && Marked(s, mark) == Greedy(s, None)
    ensures var g := Greedy(s, None);
      Clear(s + [x], mark + [true], |s|) <==> g == [] || g[|g|-1].end <= x.start
  {
    var g := Greedy(s, None);
    GreedyAfter(s, None);
    MarkedMembers(s, mark);
    if g != [] && g[|g|-1].end <= x.start {
      forall i | 0 <= i < |s| && (mark + [true])[i] ensures (s + [x])[i].end <= x.start {
        assert s[i] in g;
        var k :| 0 <= k < |g| && g[k] == s[i];
      }
    }
    if g != [] && Clear(s + [x], mark + [true], |s|) {
      assert g[|g|-1] in g;
      var i :| 0 <= i < |s| && mark[i] && s[i] == g[|g|-1];
      assert (mark + [true])[i] && (s + [x])[i] == s[i];
    }
  }

  /** The rule of the choice, told without the loop: an interval is chosen exactly
      when it starts at or after the end of every one chosen before it. */
  lemma {:induction false} GreedyRule(s: seq<Interval>) returns (mark: seq<bool>)
    requires WellFormed(s)
    ensures IsGreedyMark(s, mark) && Greedy(s, None) == Marked(s, mark)
  {
    if s == [] {
      mark := [];
    } else {
      var n := |s| - 1;
      var before := GreedyRule(s[..n]);
      var g := Greedy(s[..n], None);
      var next := g == [] || g[|g|-1].end <= s[n].start;
      assert s == s[..n] + [s[n]];
      GreedyExtends(s[..n], s[n], None);
      ClearIffAfterLast(s[..n], before, s[n]);
      mark := before + [next];
      MarkOneMore(s[..n], s[n], before, next);
      assert (before + [next])[..n] == before;
    }
  }

  // What an interval is clear of does not depend on what comes after it.
  lemma ClearInPrefix(s: seq<Interval>, t: seq<Interval>, x: seq<bool>, y: seq<bool>, j: nat)
    requires |s| == |x| && |t| == |y| && j < |s| && j < |t| && s[j] == t[j]
    requires forall i :: 0 <= i < j ==> s[i] == t[i] && x[i] == y[i]
    ensures Clear(s, x, j) <==> Clear(t, y, j)
  {
  }

  lemma MarkOneMore(s: seq<Interval>, x: Interval, mark: seq<bool>, next: bool)
    requires IsGreedyMark(s, mark) && (next <==> Clear(s + [x], mark + [true], |s|))
    ensures IsGreedyMark(s + [x], mark + [next])
  {
    var t, m := s + [x], mark + [next];
    forall j | 0 <= j < |t| ensures m[j] <==> Clear(t, m, j) {
      if j < |s| {
        ClearInPrefix(s, t, mark, m, j);
      } else {
        ClearInPrefix(t, t, mark + [true], m, j);
      }
    }
  }

  /** Only one marking follows that rule, so it determines the choice. */
  lemma {:induction false} GreedyMarkIsUnique(s: seq<Interval>, x: seq<bool>, y: seq<bool>, n: nat)
    requires IsGreedyMark(s, x) && IsGreedyMark(s, y) && n <= |s|
    ensures forall i :: 0 <= i < n ==> x[i] == y[i]
  {
    if n > 0 {
      GreedyMarkIsUnique(s, x, y, n - 1);
      ClearInPrefix(s, s, x, y, n - 1);
    }
  }

  /** Every offered interval contains the last instant of a chosen one, or
      conflicts with the interval chosen just before. */
  lemma {:induction false} GreedyStabs(s: seq<Interval>, last: Option<int>, x: Interval)
    requires WellFormed(s) && SortedByEnd(s)
    requires x in s
    requires last.Some? ==> last.value <= s[0].end
    ensures StabbedWithin(x, Greedy(s, last)) || (last.Some? && x.start < last.value <= x.end)
  {
    var g := Greedy(s, last);
    if last == None || s[0].start >= last.value {
      if x == s[0] {
        assert StabbedBy(x, g[0]);
      } else {
        var rest := Greedy(s[1..], Some(s[0].end));
        GreedyStabs(s[1..], Some(s[0].end), x);
        if StabbedWithin(x, rest) {
          var k :| 0 <= k < |rest| && StabbedBy(x, rest[k]);
          assert g[k+1] == rest[k];
        } else {
          assert StabbedBy(x, g[0]);
        }
      }
    } else if x != s[0] {
      GreedyStabs(s[1..], last, x);
    }
  }

  /** Two intervals stabbed by the same chosen one overlap, so a schedule holds
      at most one interval per chosen interval. */
  lemma {:induction false} StabbedOncePerChoice(s: seq<Interval>, chosen: seq<Interval>)
    requires forall i, j :: 0 <= i < j < |s| ==> !Overlap(s[i], s[j])
    requires forall i :: 0 <= i < |s| ==> StabbedWithin(s[i], chosen)
    ensures |s| <= |chosen|
  {
    if s != [] {
      var x, rest := s[|s|-1], s[..|s|-1];
      var k :| 0 <= k < |chosen| && StabbedBy(x, chosen[k]);
      var others := chosen[..k] + chosen[k+1..];
      forall i | 0 <= i < |rest| ensures StabbedWithin(rest[i], others) {
        var m :| 0 <= m < |chosen| && StabbedBy(s[i], chosen[m]);
        assert !Overlap(s[i], x);
        assert m != k;
        assert others[if m < k then m else m - 1] == chosen[m];
      }
      StabbedOncePerChoice(rest, others);
    }
  }

  /** Earliest finish first is optimal. */
  lemma GreedyIsOptimal(offered: seq<Interval>, s: seq<Interval>)
    requires WellFormed(offered)
    requires Schedule(s, offered)
    ensures |s| <= |Greedy(SortByEnd(offered), None)|
  {
    var sorted := SortByEnd(offered);
    SortKeepsWellFormed(offered);
    forall i | 0 <= i < |s| ensures StabbedWithin(s[i], Greedy(sorted, None)) {
      assert s[i] in multiset(s);
      assert s[i] in multiset(sorted);
      GreedyStabs(sorted, None, s[i]);
    }
    StabbedOncePerChoice(s, Greedy(sorted, None));
  }
}
