/** relay/compaction.py: keep the last record per key, and reap a tombstone only
    once every consumer has seen it and it has aged out. */
module Compaction {
  import opened Common

  type Bytes = seq<int>

  datatype Entry = KeyedEntry(offset: int, key: Bytes, value: Option<Bytes>)

  // The parameters of one compaction.
  datatype Policy = Policy(retention: int, now: int, ticks: map<int, int>, minConsumerOffset: int)

  predicate Reapable(p: Policy, e: Entry) {
    && e.value.None?
    && e.offset < p.minConsumerOffset
    && p.now - (if e.offset in p.ticks then p.ticks[e.offset] else p.now) > p.retention
  }

  // The source's first loop: the offset of the last record of each key.
  function LastOffsets(log: seq<Entry>): map<Bytes, int> {
    if log == [] then map[]
    else
      var e := log[|log|-1];
      LastOffsets(log[..|log|-1])[e.key := e.offset]
  }

  predicate IsLatest(last: map<Bytes, int>, e: Entry) {
    e.key in last && last[e.key] == e.offset
  }

  function Select(log: seq<Entry>, p: Entry -> bool): seq<Entry> {
    if log == [] then []
    else
      var e := log[|log|-1];
      Select(log[..|log|-1], p) + if p(e) then [e] else []
  }

  // What each record's fate is decided by.
  function Keeps(last: map<Bytes, int>, p: Policy): Entry -> bool {
    (e: Entry) => IsLatest(last, e) && !Reapable(p, e)
  }

  function Supersedes(last: map<Bytes, int>): Entry -> bool {
    (e: Entry) => !IsLatest(last, e)
  }

  function Reaps(last: map<Bytes, int>, p: Policy): Entry -> bool {
    (e: Entry) => IsLatest(last, e) && Reapable(p, e)
  }

  function IsBelow(c: int): Entry -> bool {
    (e: Entry) => e.offset < c
  }

  function IsFrom(c: int): Entry -> bool {
    (e: Entry) => e.offset >= c
  }

  function Compacted(log: seq<Entry>, p: Policy): seq<Entry> {
    var last := LastOffsets(log);
    Select(log, Keeps(last, p))
  }

  function Superseded(log: seq<Entry>): seq<Entry> {
    var last := LastOffsets(log);
    Select(log, Supersedes(last))
  }

  function Reaped(log: seq<Entry>, p: Policy): seq<Entry> {
    var last := LastOffsets(log);
    Select(log, Reaps(last, p))
  }

  // Records of one key never share an offset: what a log's offsets promise.
  ghost predicate DistinctOffsets(log: seq<Entry>) {
    forall i, j :: 0 <= i < j < |log| && log[i].key == log[j].key ==> log[i].offset != log[j].offset
  }

  ghost predicate IncreasingOffsets(log: seq<Entry>) {
    forall i, j :: 0 <= i < j < |log| ==> log[i].offset < log[j].offset
  }

  class Compactor {
    const tombstoneRetentionTicks: int
    var removedSuperseded: int
    var tombstonesReaped: int
    var kept: seq<Entry>

    constructor (retention: int)
      ensures tombstoneRetentionTicks == retention
      ensures removedSuperseded == 0 && tombstonesReaped == 0 && kept == []
    {
      tombstoneRetentionTicks := retention;
      removedSuperseded, tombstonesReaped, kept := 0, 0, [];
    }

    /** The source's `compact`. */
    method Compact(entries: seq<Entry>, now: int, ticks: map<int, int>, minConsumerOffset: int)
      returns (r: Result<seq<Entry>>)
      modifies this
      ensures entries == [] ==> r == Err(Invalid) && unchanged(this)
      ensures entries != [] ==>
        var p := Policy(tombstoneRetentionTicks, now, ticks, minConsumerOffset);
        && r == Ok(Compacted(entries, p)) && kept == Compacted(entries, p)
        && removedSuperseded == old(removedSuperseded) + |Superseded(entries)|
        && tombstonesReaped == old(tombstonesReaped) + |Reaped(entries, p)|
    {
      if |entries| == 0 {
        return Err(Invalid);
      }
      var last := FindLast(entries);
      ghost var p := Policy(tombstoneRetentionTicks, now, ticks, minConsumerOffset);
      var result := [];
      for i := 0 to |entries|
        invariant result == Select(entries[..i], Keeps(last, p))
        invariant removedSuperseded == old(removedSuperseded) + |Select(entries[..i], Supersedes(last))|
        invariant tombstonesReaped == old(tombstonesReaped) + |Select(entries[..i], Reaps(last, p))|
      {
        var entry := entries[i];
        SelectNext(entries, i, Keeps(last, p));
        SelectNext(entries, i, Supersedes(last));
        SelectNext(entries, i, Reaps(last, p));
        if last[entry.key] != entry.offset {
          removedSuperseded := removedSuperseded + 1;
          continue;
        }
        if entry.value.None? {
          var born := if entry.offset in ticks then ticks[entry.offset] else now;
          var observedByAll := entry.offset < minConsumerOffset;
          var agedOut := now - born > tombstoneRetentionTicks;
          if observedByAll && agedOut {
            tombstonesReaped := tombstonesReaped + 1;
            continue;
          }
        }
        result := result + [entry];
      }
      assert entries[..|entries|] == entries;
      kept := result;
      return Ok(result);
    }

    // The first loop of `compact`.
    method FindLast(entries: seq<Entry>) returns (last: map<Bytes, int>)
      ensures last == LastOffsets(entries)
      ensures forall j :: 0 <= j < |entries| ==> entries[j].key in last
    {
      last := map[];
      for i := 0 to |entries|
        invariant last == LastOffsets(entries[..i])
        invariant forall j :: 0 <= j < i ==> entries[j].key in last
      {
        assert entries[..i+1][..i] == entries[..i];
        last := last[entries[i].key := entries[i].offset];
      }
      assert entries[..|entries|] == entries;
    }
  }

  lemma SelectNext(entries: seq<Entry>, i: nat, p: Entry -> bool)
    requires i < |entries|
    ensures Select(entries[..i+1], p) == Select(entries[..i], p) + if p(entries[i]) then [entries[i]] else []
  {
    assert entries[..i+1][..i] == entries[..i];
  }

  /** Every record is kept, superseded or reaped, and counted once. */
  lemma {:induction false} Conservation(log: seq<Entry>, last: map<Bytes, int>, p: Policy)
    ensures |Select(log, Keeps(last, p))| + |Select(log, Supersedes(last))|
          + |Select(log, Reaps(last, p))| == |log|
  {
    if log != [] { Conservation(log[..|log|-1], last, p); }
  }

  lemma CompactionConserves(log: seq<Entry>, p: Policy)
    ensures |Compacted(log, p)| + |Superseded(log)| + |Reaped(log, p)| == |log|
  {
    Conservation(log, LastOffsets(log), p);
  }

  // ---- what a log means: the key map a consumer builds by reading it

  function Apply(m: map<Bytes, Bytes>, e: Entry): map<Bytes, Bytes> {
    match e.value
    case None => m - {e.key}
    case Some(v) => m[e.key := v]
  }

  // Reading `log` on top of the state `m`.
  function ReplayOn(m: map<Bytes, Bytes>, log: seq<Entry>): map<Bytes, Bytes> {
    if log == [] then m else Apply(ReplayOn(m, log[..|log|-1]), log[|log|-1])
  }

  function Replay(log: seq<Entry>): map<Bytes, Bytes> {
    ReplayOn(map[], log)
  }

  function LastFor(log: seq<Entry>, k: Bytes): Option<Entry> {
    if log == [] then None
    else if log[|log|-1].key == k then Some(log[|log|-1])
    else LastFor(log[..|log|-1], k)
  }

  lemma {:induction false} LastForIsMember(log: seq<Entry>, k: Bytes)
    ensures match LastFor(log, k)
      case Some(e) => e in log && e.key == k && IsLatest(LastOffsets(log), e)
      case None => forall e :: e in log ==> e.key != k
  {
    if log != [] {
      var init := log[..|log|-1];
      LastForIsMember(init, k);
      assert log == init + [log[|log|-1]];
    }
  }

  /** Replay looks up the last record of the key, or the starting state. */
  lemma {:induction false} ReplayIsLastWord(m: map<Bytes, Bytes>, log: seq<Entry>, k: Bytes)
    ensures Lookup(ReplayOn(m, log), k) == match LastFor(log, k) case Some(e) => e.value case None => Lookup(m, k)
  {
    if log != [] { ReplayIsLastWord(m, log[..|log|-1], k); }
  }

  lemma {:induction false} SelectKeepsLast(log: seq<Entry>, p: Entry -> bool, k: Bytes)
    requires LastFor(log, k).Some? && p(LastFor(log, k).value)
    ensures LastFor(Select(log, p), k) == LastFor(log, k)
  {
    var e, init := log[|log|-1], log[..|log|-1];
    var s := Select(init, p);
    if e.key == k {
      assert (s + [e])[..|s|] == s;
    } else {
      SelectKeepsLast(init, p, k);
      if p(e) { assert (s + [e])[..|s|] == s; } else { assert s + [] == s; }
    }
  }

  lemma {:induction false} SelectMembers(log: seq<Entry>, p: Entry -> bool)
    ensures forall e :: e in Select(log, p) <==> e in log && p(e)
  {
    if log != [] {
      SelectMembers(log[..|log|-1], p);
      assert log == log[..|log|-1] + [log[|log|-1]];
    }
  }

  lemma SelectsNone(log: seq<Entry>, p: Entry -> bool, k: Bytes)
    requires forall e :: e in log && e.key == k ==> !p(e)
    ensures LastFor(Select(log, p), k) == None
  {
    SelectMembers(log, p);
    LastForIsMember(Select(log, p), k);
  }

  lemma LatestIsUnique(log: seq<Entry>, k: Bytes, e: Entry)
    requires DistinctOffsets(log)
    requires e in log && e.key == k && IsLatest(LastOffsets(log), e)
    ensures LastFor(log, k) == Some(e)
  {
  }

  /** The compacted log holds a key's last record and no other, unless that
      record is a reaped tombstone. */
  lemma CompactedLast(log: seq<Entry>, p: Policy, k: Bytes)
    requires DistinctOffsets(log)
    ensures LastFor(Compacted(log, p), k) == match LastFor(log, k)
      case Some(e) => if Reapable(p, e) then None else Some(e)
      case None => None
  {
    var last := LastOffsets(log);
    var keep := Keeps(last, p);
    LastForIsMember(log, k);
    if LastFor(log, k).Some? && !Reapable(p, LastFor(log, k).value) {
      SelectKeepsLast(log, keep, k);
    } else {
      forall e | e in log && e.key == k ensures !keep(e) {
        if IsLatest(last, e) { LatestIsUnique(log, k, e); }
      }
      SelectsNone(log, keep, k);
    }
  }

  // When the source lets a tombstone go, written out: every consumer has passed it
  // and its age exceeds the retention. One without a recorded tick has age 0.
  predicate MayGo(retention: int, now: int, ticks: map<int, int>, minConsumerOffset: int, offset: int) {
    && offset < minConsumerOffset
    && if offset in ticks then now - ticks[offset] > retention else 0 > retention
  }

  /** The fate of every record: it is kept exactly when it is its key's last and not
      a tombstone that may go, reaped exactly when it is its key's last and such a
      tombstone, and superseded exactly when it is not its key's last. */
  lemma FateOfRecord(log: seq<Entry>, retention: int, now: int, ticks: map<int, int>, minConsumerOffset: int, e: Entry)
    requires DistinctOffsets(log) && e in log
    ensures var p := Policy(retention, now, ticks, minConsumerOffset);
      var last := LastFor(log, e.key) == Some(e);
      var gone := e.value.None? && MayGo(retention, now, ticks, minConsumerOffset, e.offset);
      && (e in Compacted(log, p) <==> last && !gone)
      && (e in Reaped(log, p) <==> last && gone)
      && (e in Superseded(log) <==> !last)
  {
    var p, last := Policy(retention, now, ticks, minConsumerOffset), LastOffsets(log);
    LastForIsMember(log, e.key);
    if IsLatest(last, e) { LatestIsUnique(log, e.key, e); }
    SelectMembers(log, Keeps(last, p));
    SelectMembers(log, Reaps(last, p));
    SelectMembers(log, Supersedes(last));
  }

  /** A tombstone whose birth was not recorded is never reaped, unless the
      retention is negative. */
  lemma UnrecordedTombstoneStays(log: seq<Entry>, p: Policy, e: Entry)
    requires DistinctOffsets(log) && LastFor(log, e.key) == Some(e)
    requires e.offset !in p.ticks && p.retention >= 0
    ensures e in Compacted(log, p)
  {
    LastForIsMember(log, e.key);
    FateOfRecord(log, p.retention, p.now, p.ticks, p.minConsumerOffset, e);
  }

  /** Compaction preserves meaning: both logs replay to the same key map. */
  lemma CompactionPreservesReplay(log: seq<Entry>, p: Policy)
    requires DistinctOffsets(log)
    ensures Replay(Compacted(log, p)) == Replay(log)
  {
    forall k ensures Lookup(Replay(Compacted(log, p)), k) == Lookup(Replay(log), k) {
      ReplayIsLastWord(map[], log, k);
      ReplayIsLastWord(map[], Compacted(log, p), k);
      CompactedLast(log, p, k);
    }
    SameMap(Replay(Compacted(log, p)), Replay(log));
  }

  // ---- a consumer that resumes part way

  function Below(log: seq<Entry>, c: int): seq<Entry> {
    Select(log, IsBelow(c))
  }

  function From(log: seq<Entry>, c: int): seq<Entry> {
    Select(log, IsFrom(c))
  }

  // The state reached by reading the original log below offset `c`, and then what
  // is left of it from `c` on.
  function ResumedFrom(log: seq<Entry>, left: seq<Entry>, c: int): map<Bytes, Bytes> {
    ReplayOn(Replay(Below(log, c)), From(left, c))
  }

  function Resumed(log: seq<Entry>, p: Policy, c: int): map<Bytes, Bytes> {
    ResumedFrom(log, Compacted(log, p), c)
  }

  // The key was live below `c`, and the tombstone that deletes it was reaped.
  ghost predicate Resurrected(log: seq<Entry>, p: Policy, c: int, k: Bytes) {
    && LastFor(log, k).Some? && Reapable(p, LastFor(log, k).value)
    && c <= LastFor(log, k).value.offset
    && k in Replay(Below(log, c))
  }

  lemma ResumedKey(log: seq<Entry>, p: Policy, c: int, k: Bytes)
    requires DistinctOffsets(log)
    ensures Lookup(Resumed(log, p, c), k) == Lookup(Replay(log), k) <==> !Resurrected(log, p, c, k)
  {
    var below, from, comp := Below(log, c), From(Compacted(log, p), c), Compacted(log, p);
    ReplayIsLastWord(map[], log, k);
    ReplayIsLastWord(Replay(below), from, k);
    ReplayIsLastWord(map[], below, k);
    CompactedLast(log, p, k);
    LastForIsMember(log, k);
    LastForIsMember(comp, k);
    SelectMembers(log, IsBelow(c));
    SelectMembers(comp, IsFrom(c));
    LastForIsMember(below, k);
    LastForIsMember(from, k);
    if LastFor(log, k).Some? {
      var l := LastFor(log, k).value;
      if l.offset < c {
        SelectKeepsLast(log, IsBelow(c), k);
        CompactedHoldsOnlyLast(log, p, k);
      } else if !Reapable(p, l) {
        SelectKeepsLast(comp, IsFrom(c), k);
      }
    }
  }

  lemma CompactedHoldsOnlyLast(log: seq<Entry>, p: Policy, k: Bytes)
    requires DistinctOffsets(log)
    ensures forall e :: e in Compacted(log, p) && e.key == k ==> LastFor(log, k) == Some(e)
  {
    var last := LastOffsets(log);
    SelectMembers(log, Keeps(last, p));
    forall e | e in Compacted(log, p) && e.key == k ensures LastFor(log, k) == Some(e) {
      LatestIsUnique(log, k, e);
    }
  }

  /** A consumer resuming at `c` ends in the right state exactly when no key live
      below `c` had its tombstone at or above `c` reaped. */
  lemma ResumeIsExactIff(log: seq<Entry>, p: Policy, c: int)
    requires DistinctOffsets(log)
    ensures Resumed(log, p, c) == Replay(log) <==> forall k :: !Resurrected(log, p, c, k)
  {
    forall k ensures Lookup(Resumed(log, p, c), k) == Lookup(Replay(log), k) <==> !Resurrected(log, p, c, k) {
      ResumedKey(log, p, c, k);
    }
    if forall k :: !Resurrected(log, p, c, k) {
      SameMap(Resumed(log, p, c), Replay(log));
    }
  }

  // ---- a log compacted again and again

  function CompactedAll(log: seq<Entry>, ps: seq<Policy>): seq<Entry> {
    if ps == [] then log else Compacted(CompactedAll(log, ps[..|ps|-1]), ps[|ps|-1])
  }

  // No policy reaps ahead of offset `c`.
  ghost predicate ObservedBy(ps: seq<Policy>, c: int) {
    forall i :: 0 <= i < |ps| ==> ps[i].minConsumerOffset <= c
  }

  lemma {:induction false} SelectKeepsDistinct(log: seq<Entry>, p: Entry -> bool)
    requires DistinctOffsets(log)
    ensures DistinctOffsets(Select(log, p))
  {
    if log != [] {
      var init, s := log[..|log|-1], Select(log[..|log|-1], p);
      SelectKeepsDistinct(init, p);
      SelectMembers(init, p);
      forall i | 0 <= i < |s| && s[i].key == log[|log|-1].key ensures s[i].offset != log[|log|-1].offset {
        assert s[i] in init;
      }
    }
  }

  lemma {:induction false} CompactedAllDistinct(log: seq<Entry>, ps: seq<Policy>)
    requires DistinctOffsets(log)
    ensures DistinctOffsets(CompactedAll(log, ps))
  {
    if ps != [] {
      var before := CompactedAll(log, ps[..|ps|-1]);
      CompactedAllDistinct(log, ps[..|ps|-1]);
      SelectKeepsDistinct(before, Keeps(LastOffsets(before), ps[|ps|-1]));
    }
  }

  // The last record of the key is still there, or was a tombstone below `c`.
  ghost predicate LastKeptOrBuried(log: seq<Entry>, log': seq<Entry>, c: int, k: Bytes) {
    LastFor(log', k) == LastFor(log, k) ||
    (LastFor(log', k) == None && LastFor(log, k).Some? &&
     LastFor(log, k).value.value.None? && LastFor(log, k).value.offset < c)
  }

  lemma {:induction false} CompactedAllLast(log: seq<Entry>, ps: seq<Policy>, c: int, k: Bytes)
    requires DistinctOffsets(log) && ObservedBy(ps, c)
    ensures LastKeptOrBuried(log, CompactedAll(log, ps), c, k)
  {
    if ps != [] {
      var init := ps[..|ps|-1];
      CompactedAllLast(log, init, c, k);
      CompactedAllDistinct(log, init);
      CompactedLast(CompactedAll(log, init), ps[|ps|-1], k);
    }
  }

  lemma {:induction false} LastIsLargest(log: seq<Entry>, k: Bytes)
    requires IncreasingOffsets(log)
    ensures forall e :: e in log && e.key == k ==> LastFor(log, k).Some? && e.offset <= LastFor(log, k).value.offset
  {
    LastForIsMember(log, k);
    if log != [] {
      var init, last := log[..|log|-1], log[|log|-1];
      LastIsLargest(init, k);
      forall e | e in log && e.key == k
        ensures LastFor(log, k).Some? && e.offset <= LastFor(log, k).value.offset
      {
        var i :| 0 <= i < |log| && log[i] == e;
        if i < |init| { assert e in init; }
      }
    }
  }

  // No record of the key beyond its last one is left.
  lemma OnlyLastIsLeft(log: seq<Entry>, ps: seq<Policy>, c: int, k: Bytes)
    requires DistinctOffsets(log) && ObservedBy(ps, c) && (ps != [] || IncreasingOffsets(log))
    ensures forall e :: e in CompactedAll(log, ps) && e.key == k ==>
      LastFor(log, k).Some? && e.offset <= LastFor(log, k).value.offset
  {
    if ps == [] {
      LastIsLargest(log, k);
    } else {
      var init := ps[..|ps|-1];
      CompactedAllDistinct(log, init);
      CompactedHoldsOnlyLast(CompactedAll(log, init), ps[|ps|-1], k);
      CompactedAllLast(log, init, c, k);
    }
  }

  lemma ResumedAllKey(log: seq<Entry>, ps: seq<Policy>, c: int, k: Bytes)
    requires DistinctOffsets(log) && ObservedBy(ps, c) && (ps != [] || IncreasingOffsets(log))
    ensures Lookup(ResumedFrom(log, CompactedAll(log, ps), c), k) == Lookup(Replay(log), k)
  {
    var comp := CompactedAll(log, ps);
    var below, from := Below(log, c), From(comp, c);
    ReplayIsLastWord(map[], log, k);
    ReplayIsLastWord(Replay(below), from, k);
    ReplayIsLastWord(map[], below, k);
    CompactedAllLast(log, ps, c, k);
    OnlyLastIsLeft(log, ps, c, k);
    LastForIsMember(log, k);
    LastForIsMember(below, k);
    LastForIsMember(from, k);
    SelectMembers(log, IsBelow(c));
    SelectMembers(comp, IsFrom(c));
    if LastFor(log, k).Some? {
      if LastFor(log, k).value.offset < c {
        SelectKeepsLast(log, IsBelow(c), k);
      } else {
        SelectKeepsLast(comp, IsFrom(c), k);
      }
    }
  }

  /** No reaped tombstone resurrects a key, however often the log is compacted: a
      consumer at or above every offset the compactions took as observed by all
      ends in the right state. */
  lemma ObservedTombstonesStayDead(log: seq<Entry>, ps: seq<Policy>, c: int)
    requires DistinctOffsets(log) && ObservedBy(ps, c) && (ps != [] || IncreasingOffsets(log))
    ensures ResumedFrom(log, CompactedAll(log, ps), c) == Replay(log)
  {
    forall k ensures Lookup(ResumedFrom(log, CompactedAll(log, ps), c), k) == Lookup(Replay(log), k) {
      ResumedAllKey(log, ps, c, k);
    }
    SameMap(ResumedFrom(log, CompactedAll(log, ps), c), Replay(log));
  }

  /** Read from the start, a log compacted any number of times means the same. */
  lemma {:induction false} RepeatedCompactionPreservesReplay(log: seq<Entry>, ps: seq<Policy>)
    requires DistinctOffsets(log)
    ensures Replay(CompactedAll(log, ps)) == Replay(log)
  {
    if ps != [] {
      RepeatedCompactionPreservesReplay(log, ps[..|ps|-1]);
      CompactedAllDistinct(log, ps[..|ps|-1]);
      CompactionPreservesReplay(CompactedAll(log, ps[..|ps|-1]), ps[|ps|-1]);
    }
  }

  /** Without that bound it can: the reap must wait for the slowest consumer. */
  lemma LaggingReaderCanResurrect()
    ensures var log := [KeyedEntry(0, [1], Some([7])), KeyedEntry(1, [1], None)];
      Resumed(log, Policy(0, 10, map[1 := 0], 2), 1) != Replay(log)
  {
    var log := [KeyedEntry(0, [1], Some([7])), KeyedEntry(1, [1], None)];
    var p := Policy(0, 10, map[1 := 0], 2);
    var first := [log[0]];
    assert log[..1] == first && first[..0] == [];
    assert LastFor(log, [1]) == Some(log[1]);
    assert Select(first, IsBelow(1)) == first;
    assert Below(log, 1) == first;
    assert Replay(first) == map[[1] := [7]];
    assert Resurrected(log, p, 1, [1]);
    ResumeIsExactIff(log, p, 1);
  }

  // ---- offsets

  // The source's `preserves_offsets`: sorted, and no offset twice.
  predicate PreservesOffsets(kept: seq<Entry>) {
    && (forall i, j :: 0 <= i < j < |kept| ==> kept[i].offset <= kept[j].offset)
    && (forall i, j :: 0 <= i < j < |kept| ==> kept[i].offset != kept[j].offset)
  }

  lemma {:induction false} SelectKeepsOrder(log: seq<Entry>, p: Entry -> bool)
    requires IncreasingOffsets(log)
    ensures IncreasingOffsets(Select(log, p))
  {
    if log != [] {
      var init := log[..|log|-1];
      SelectKeepsOrder(init, p);
      SelectMembers(init, p);
      var s := Select(init, p);
      forall i | 0 <= i < |s| ensures s[i].offset < log[|log|-1].offset {
        assert s[i] in init;
      }
    }
  }

  /** However often the log is compacted, kept records keep their offsets, in
      order and without repeats. */
  lemma {:induction false} CompactionKeepsOffsets(log: seq<Entry>, ps: seq<Policy>)
    requires IncreasingOffsets(log)
    ensures IncreasingOffsets(CompactedAll(log, ps)) && PreservesOffsets(CompactedAll(log, ps))
    ensures forall e :: e in CompactedAll(log, ps) ==> e in log
  {
    if ps != [] {
      var before, p := CompactedAll(log, ps[..|ps|-1]), ps[|ps|-1];
      CompactionKeepsOffsets(log, ps[..|ps|-1]);
      SelectKeepsOrder(before, Keeps(LastOffsets(before), p));
      SelectMembers(before, Keeps(LastOffsets(before), p));
    }
  }
}
