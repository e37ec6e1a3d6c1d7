/** relay/idempotent.py: the broker-side session that absorbs producer retries. */
module Idempotent {
  import opened Common

  // One producer's session; `accepted` maps a sequence number to its offset.
  datatype Session = Session(epoch: int, last: int, accepted: map<int, int>)

  type Sessions = map<string, Session>

  datatype Answer =
    | Accepted(sequence: int, offset: int)
    | Duplicate(sequence: int, offset: int)
    | Refused(error: Error)

  datatype Event =
    | Open(producer: string, epoch: int)
    | Admit(producer: string, epoch: int, sequence: int, offset: int)

  predicate Opens(s: Sessions, e: Event) {
    e.Open? && !(e.producer in s && e.epoch < s[e.producer].epoch)
  }

  // The source's `admit`, check by check. A later epoch than the session's is
  // not refused.
  function Decide(s: Sessions, producer: string, epoch: int, sequence: int, offset: int): Answer {
    if producer !in s then Refused(Invalid)
    else
      var held := s[producer];
      if epoch < held.epoch then Refused(Fenced)
      else if sequence <= held.last then
        if sequence in held.accepted then Duplicate(sequence, held.accepted[sequence])
        else Refused(Invalid)
      else if sequence != held.last + 1 then Refused(Invalid)
      else Accepted(sequence, offset)
  }

  // What one call leaves behind: only an opening or an acceptance changes it.
  function Next(s: Sessions, e: Event): Sessions {
    match e
    case Open(p, epoch) => if Opens(s, e) then s[p := Session(epoch, -1, map[])] else s
    case Admit(p, epoch, sequence, offset) =>
      if Decide(s, p, epoch, sequence, offset).Accepted? then
        s[p := s[p].(last := sequence, accepted := s[p].accepted[sequence := offset])]
      else s
  }

  class IdempotencyGate {
    var sessions: Sessions
    var duplicatesAbsorbed: nat

    constructor ()
      ensures sessions == map[] && duplicatesAbsorbed == 0
    {
      sessions, duplicatesAbsorbed := map[], 0;
    }

    /** The source's `open_session`: refused behind the held epoch, and otherwise
        a fresh session, even at the same epoch. */
    method OpenSession(producer: string, epoch: int) returns (r: Result<Session>)
      modifies this
      ensures r.Ok? <==> Opens(old(sessions), Open(producer, epoch))
      ensures r.Err? ==> r.error == Fenced && unchanged(this)
      ensures r.Ok? ==> r.value == Session(epoch, -1, map[])
      ensures sessions == Next(old(sessions), Open(producer, epoch))
      ensures r.Err? <==> producer in old(sessions) && epoch < old(sessions)[producer].epoch
      ensures r.Ok? ==> sessions == old(sessions)[producer := Session(epoch, -1, map[])]
      ensures duplicatesAbsorbed == old(duplicatesAbsorbed)
    {
      if producer in sessions && epoch < sessions[producer].epoch {
        return Err(Fenced);
      }
      var session := Session(epoch, -1, map[]);
      sessions := sessions[producer := session];
      return Ok(session);
    }

    /** The source's `admit`. */
    method AdmitRecord(producer: string, epoch: int, sequence: int, offset: int) returns (r: Answer)
      modifies this
      ensures r == Decide(old(sessions), producer, epoch, sequence, offset)
      ensures sessions == Next(old(sessions), Admit(producer, epoch, sequence, offset))
      ensures r.Accepted? ==> producer in old(sessions) && var held := old(sessions)[producer];
        sessions == old(sessions)[producer := Session(held.epoch, sequence, held.accepted[sequence := offset])]
      ensures !r.Accepted? ==> sessions == old(sessions)
      ensures r.Refused? ==> unchanged(this)
      ensures duplicatesAbsorbed == old(duplicatesAbsorbed) + if r.Duplicate? then 1 else 0
    {
      if !(producer in sessions) {
        return Refused(Invalid);
      }
      var held := sessions[producer];
      if epoch < held.epoch {
        return Refused(Fenced);
      }
      if sequence <= held.last {
        if sequence in held.accepted {
          duplicatesAbsorbed := duplicatesAbsorbed + 1;
          return Duplicate(sequence, held.accepted[sequence]);
        }
        return Refused(Invalid);
      }
      if sequence != held.last + 1 {
        return Refused(Invalid);
      }
      sessions := sessions[producer := held.(last := sequence, accepted := held.accepted[sequence := offset])];
      return Accepted(sequence, offset);
    }
  }

  // ---- every run: any openings and admissions, duplicated, lost or reordered

  function After(run: seq<Event>): Sessions {
    if run == [] then map[] else Next(After(run[..|run|-1]), run[|run|-1])
  }

  // The answer to the admission at step `k`.
  function AnswerAt(run: seq<Event>, k: nat): Answer
    requires k < |run| && run[k].Admit?
  {
    Decide(After(run[..k]), run[k].producer, run[k].epoch, run[k].sequence, run[k].offset)
  }

  ghost predicate AcceptsAt(run: seq<Event>, k: nat, p: string) {
    k < |run| && run[k].Admit? && run[k].producer == p && AnswerAt(run, k).Accepted?
  }

  ghost predicate OpensAt(run: seq<Event>, k: nat, p: string) {
    k < |run| && run[k].producer == p && Opens(After(run[..k]), run[k])
  }

  // A session holds exactly the sequences 0 .. last.
  ghost predicate Gapless(s: Session) {
    s.last >= -1 && forall i :: i in s.accepted <==> 0 <= i <= s.last
  }

  lemma {:induction false} SessionsAreGapless(run: seq<Event>, p: string)
    ensures p in After(run) ==> Gapless(After(run)[p])
  {
    if run != [] { SessionsAreGapless(run[..|run|-1], p); }
  }

  /** Accepted sequences are exactly 0 .. last in every reachable session. */
  lemma AcceptedSequencesHaveNoGaps(run: seq<Event>, p: string, i: int)
    requires p in After(run)
    ensures i in After(run)[p].accepted <==> 0 <= i <= After(run)[p].last
  {
    SessionsAreGapless(run, p);
  }

  /** The "never seen" refusal cannot happen to a non-negative sequence: at or
      below the last accepted one, every retry is answered. */
  lemma {:induction false} RetryIsAlwaysAnswered(run: seq<Event>, p: string, epoch: int, sequence: int, offset: int)
    requires p in After(run) && epoch >= After(run)[p].epoch
    requires 0 <= sequence <= After(run)[p].last
    ensures sequence in After(run)[p].accepted
    ensures Decide(After(run), p, epoch, sequence, offset) == Duplicate(sequence, After(run)[p].accepted[sequence])
  {
    SessionsAreGapless(run, p);
  }

  // Between steps j and k the producer was not opened anew.
  ghost predicate SameOpening(run: seq<Event>, j: nat, k: nat, p: string) {
    forall m {:trigger OpensAt(run, m, p)} :: j < m < k ==> !OpensAt(run, m, p)
  }

  lemma PrefixPrefix(run: seq<Event>, j: nat, k: nat)
    requires j <= k <= |run|
    ensures run[..k][..j] == run[..j]
  {
  }

  /** Within one opening the session only grows: what was recorded stays recorded
      at its offset. */
  lemma {:induction false} RecordsStay(run: seq<Event>, j: nat, k: nat, p: string)
    requires j <= k <= |run| && p in After(run[..j])
    requires forall m {:trigger OpensAt(run, m, p)} :: j <= m < k ==> !OpensAt(run, m, p)
    ensures p in After(run[..k])
    ensures var s, t := After(run[..j])[p], After(run[..k])[p];
      && s.epoch == t.epoch && s.last <= t.last
      && forall i :: i in s.accepted ==> i in t.accepted && t.accepted[i] == s.accepted[i]
    decreases k
  {
    if j < k {
      RecordsStay(run, j, k - 1, p);
      PrefixPrefix(run, k - 1, k);
      assert !OpensAt(run, k - 1, p);
      SessionsAreGapless(run[..k-1], p);
    }
  }

  lemma AcceptRecords(run: seq<Event>, k: nat, p: string)
    requires AcceptsAt(run, k, p)
    ensures p in After(run[..k]) && p in After(run[..k+1])
    ensures var s, t := After(run[..k])[p], After(run[..k+1])[p];
      && run[k].sequence == s.last + 1
      && t == Session(s.epoch, run[k].sequence, s.accepted[run[k].sequence := run[k].offset])
  {
    PrefixPrefix(run, k, k + 1);
  }

  /** Exactly once per opening: if one producer's sequence number is accepted at
      two steps, the producer was opened anew in between. */
  lemma AcceptedTwiceOnlyIfReopened(run: seq<Event>, j: nat, k: nat, p: string)
    requires j < k && AcceptsAt(run, j, p) && AcceptsAt(run, k, p)
    requires run[j].sequence == run[k].sequence
    ensures exists m {:trigger OpensAt(run, m, p)} :: j < m < k && OpensAt(run, m, p)
  {
    if SameOpening(run, j, k, p) {
      AcceptRecords(run, j, p);
      AcceptRecords(run, k, p);
      RecordsStay(run, j + 1, k, p);
    }
  }

  /** Within one opening acceptances come in order, each one above the last. */
  lemma AcceptedInOrder(run: seq<Event>, j: nat, k: nat, p: string)
    requires j < k && AcceptsAt(run, j, p) && AcceptsAt(run, k, p)
    requires SameOpening(run, j, k, p)
    ensures run[j].sequence < run[k].sequence
  {
    AcceptRecords(run, j, p);
    AcceptRecords(run, k, p);
    RecordsStay(run, j + 1, k, p);
  }

  /** A retry within the opening is answered with the offset it first landed at. */
  lemma RetryGetsOriginalOffset(run: seq<Event>, j: nat, k: nat, p: string)
    requires j < k < |run| && AcceptsAt(run, j, p)
    requires run[k].Admit? && run[k].producer == p && run[k].sequence == run[j].sequence
    requires SameOpening(run, j, k, p)
    requires p !in After(run[..k]) || run[k].epoch >= After(run[..k])[p].epoch
    ensures AnswerAt(run, k) == Duplicate(run[j].sequence, run[j].offset)
  {
    AcceptRecords(run, j, p);
    RecordsStay(run, j + 1, k, p);
    SessionsAreGapless(run[..k], p);
  }

  /** Whatever is answered as a duplicate was accepted before, at that offset, in
      the same opening. */
  lemma {:induction false} DuplicateWasAccepted(run: seq<Event>, n: nat, p: string, sequence: int) returns (j: nat)
    requires n <= |run| && p in After(run[..n]) && sequence in After(run[..n])[p].accepted
    ensures j < n && AcceptsAt(run, j, p) && run[j].sequence == sequence
    ensures run[j].offset == After(run[..n])[p].accepted[sequence]
    ensures SameOpening(run, j, n, p)
    decreases n
  {
    assert run[..0] == [];
    if AcceptsAt(run, n - 1, p) && run[n-1].sequence == sequence {
      AcceptRecords(run, n - 1, p);
      j := n - 1;
    } else {
      RecordWasHeld(run, n - 1, p, sequence);
      j := DuplicateWasAccepted(run, n - 1, p, sequence);
      OpeningLasts(run, j, n - 1, p);
    }
  }

  lemma OpeningLasts(run: seq<Event>, j: nat, k: nat, p: string)
    requires SameOpening(run, j, k, p) && !OpensAt(run, k, p)
    ensures SameOpening(run, j, k + 1, p)
  {
  }

  // A record that a step did not write was there before it.
  lemma RecordWasHeld(run: seq<Event>, k: nat, p: string, sequence: int)
    requires k < |run| && p in After(run[..k+1]) && sequence in After(run[..k+1])[p].accepted
    requires !(AcceptsAt(run, k, p) && run[k].sequence == sequence)
    ensures !OpensAt(run, k, p)
    ensures p in After(run[..k]) && sequence in After(run[..k])[p].accepted
    ensures After(run[..k])[p].accepted[sequence] == After(run[..k+1])[p].accepted[sequence]
  {
    PrefixPrefix(run, k, k + 1);
    assert After(run[..k+1]) == Next(After(run[..k]), run[k]);
  }

  /** Epochs never fall, so a fenced producer is fenced for good. */
  lemma {:induction false} EpochNeverFalls(run: seq<Event>, j: nat, k: nat, p: string)
    requires j <= k <= |run| && p in After(run[..j])
    ensures p in After(run[..k]) && After(run[..j])[p].epoch <= After(run[..k])[p].epoch
    decreases k
  {
    if j < k {
      EpochNeverFalls(run, j, k - 1, p);
      PrefixPrefix(run, k - 1, k);
    }
  }

  lemma ZombieStaysFenced(run: seq<Event>, j: nat, k: nat, p: string)
    requires j <= k < |run| && p in After(run[..j])
    requires run[k].Admit? && run[k].producer == p && run[k].epoch < After(run[..j])[p].epoch
    ensures AnswerAt(run, k) == Refused(Fenced)
  {
    EpochNeverFalls(run, j, k, p);
  }

  // ---- what each answer means, told by the trace alone

  // The producer has been opened, and the epoch is not behind the latest opening.
  ghost predicate Current(run: seq<Event>, n: nat, p: string, epoch: int)
    requires n <= |run|
  {
    EverOpened(run, n, p) && NewestEpoch(run, n, p, epoch)
  }

  ghost predicate EverOpened(run: seq<Event>, n: nat, p: string)
    requires n <= |run|
  {
    exists i: nat :: i < n && TriesToOpen(run, i, p)
  }

  predicate TriesToOpen(run: seq<Event>, i: nat, p: string)
    requires i < |run|
  {
    run[i].Open? && run[i].producer == p
  }

  // No opening tried so far had a later epoch.
  ghost predicate NewestEpoch(run: seq<Event>, n: nat, p: string, epoch: int)
    requires n <= |run|
  {
    forall i: nat :: i < n && TriesToOpen(run, i, p) ==> run[i].epoch <= epoch
  }

  lemma {:induction false} HeldEpochIsNewest(run: seq<Event>, n: nat, p: string, epoch: int)
    requires n <= |run|
    ensures p in After(run[..n]) <==> EverOpened(run, n, p)
    ensures p in After(run[..n]) ==> (NewestEpoch(run, n, p, epoch) <==> After(run[..n])[p].epoch <= epoch)
  {
    assert run[..0] == [];
    if n > 0 {
      HeldEpochIsNewest(run, n - 1, p, epoch);
      PrefixPrefix(run, n - 1, n);
      OneMoreTry(run, n - 1, p, epoch);
      assert After(run[..n]) == Next(After(run[..n-1]), run[n-1]);
    }
  }

  lemma OneMoreTry(run: seq<Event>, n: nat, p: string, epoch: int)
    requires n < |run|
    ensures EverOpened(run, n + 1, p) <==> EverOpened(run, n, p) || TriesToOpen(run, n, p)
    ensures NewestEpoch(run, n + 1, p, epoch) <==>
      NewestEpoch(run, n, p, epoch) && (TriesToOpen(run, n, p) ==> run[n].epoch <= epoch)
    ensures !EverOpened(run, n, p) ==> NewestEpoch(run, n, p, epoch)
  {
    if EverOpened(run, n, p) {
      var i: nat :| i < n && TriesToOpen(run, i, p);
      assert EverOpened(run, n + 1, p);
    }
    if TriesToOpen(run, n, p) { assert EverOpened(run, n + 1, p); }
  }

  /** An opening is refused exactly when one with a later epoch was tried before: a
      producer that comes back at the latest epoch, or at a later one, is let in. */
  lemma OpensIffNewest(run: seq<Event>, n: nat)
    requires n < |run| && run[n].Open?
    ensures Opens(After(run[..n]), run[n]) <==> NewestEpoch(run, n, run[n].producer, run[n].epoch)
  {
    HeldEpochIsNewest(run, n, run[n].producer, run[n].epoch);
    OneMoreTry(run, n, run[n].producer, run[n].epoch);
  }

  // The record with this sequence was accepted at this offset in the opening that
  // still holds at step n.
  ghost predicate AcceptedBefore(run: seq<Event>, n: nat, p: string, sequence: int, offset: int)
    requires n <= |run|
  {
    exists j: nat :: j < n && AcceptedAs(run, j, p, sequence, offset) && SameOpening(run, j, n, p)
  }

  ghost predicate AcceptedAs(run: seq<Event>, j: nat, p: string, sequence: int, offset: int) {
    AcceptsAt(run, j, p) && run[j].sequence == sequence && run[j].offset == offset
  }

  lemma AcceptedIsRecorded(run: seq<Event>, n: nat, p: string, sequence: int, offset: int)
    requires n <= |run|
    ensures AcceptedBefore(run, n, p, sequence, offset) <==>
      p in After(run[..n]) && sequence in After(run[..n])[p].accepted &&
      After(run[..n])[p].accepted[sequence] == offset
  {
    if AcceptedBefore(run, n, p, sequence, offset) {
      var j: nat :| j < n && AcceptedAs(run, j, p, sequence, offset) && SameOpening(run, j, n, p);
      AcceptRecords(run, j, p);
      RecordsStay(run, j + 1, n, p);
    }
    if p in After(run[..n]) && sequence in After(run[..n])[p].accepted {
      var j := DuplicateWasAccepted(run, n, p, sequence);
      assert AcceptedAs(run, j, p, sequence, After(run[..n])[p].accepted[sequence]);
    }
  }

  ghost predicate SequenceAccepted(run: seq<Event>, n: nat, p: string, sequence: int)
    requires n <= |run|
  {
    exists offset :: AcceptedBefore(run, n, p, sequence, offset)
  }

  // The first sequence, or the one after an accepted one, and not accepted itself.
  ghost predicate IsNextSequence(run: seq<Event>, n: nat, p: string, sequence: int)
    requires n <= |run|
  {
    && sequence >= 0 && !SequenceAccepted(run, n, p, sequence)
    && (sequence == 0 || SequenceAccepted(run, n, p, sequence - 1))
  }

  lemma AcceptedIsHeld(run: seq<Event>, n: nat, p: string, sequence: int)
    requires n <= |run|
    ensures SequenceAccepted(run, n, p, sequence) <==>
      p in After(run[..n]) && 0 <= sequence <= After(run[..n])[p].last
  {
    SessionsAreGapless(run[..n], p);
    if SequenceAccepted(run, n, p, sequence) {
      var offset :| AcceptedBefore(run, n, p, sequence, offset);
      AcceptedIsRecorded(run, n, p, sequence, offset);
    }
    if p in After(run[..n]) && sequence in After(run[..n])[p].accepted {
      AcceptedIsRecorded(run, n, p, sequence, After(run[..n])[p].accepted[sequence]);
    }
  }

  /** Over every run, what the answer to an admission says about the run: a
      duplicate is one that was accepted at that offset in the same opening, and
      nothing else is called one. */
  lemma DuplicateIffAccepted(run: seq<Event>, n: nat, sequence: int, offset: int)
    requires n < |run| && run[n].Admit?
    ensures AnswerAt(run, n) == Duplicate(sequence, offset) <==>
      && Current(run, n, run[n].producer, run[n].epoch)
      && sequence == run[n].sequence
      && AcceptedBefore(run, n, run[n].producer, sequence, offset)
  {
    var p := run[n].producer;
    HeldEpochIsNewest(run, n, p, run[n].epoch);
    AcceptedIsRecorded(run, n, p, sequence, offset);
    if p in After(run[..n]) { SessionsAreGapless(run[..n], p); }
  }

  /** A record is accepted, under the sequence and offset it came with, exactly when
      it is the next one of a producer that is current. */
  lemma AcceptedIffNext(run: seq<Event>, n: nat)
    requires n < |run| && run[n].Admit?
    ensures AnswerAt(run, n).Accepted? <==>
      && Current(run, n, run[n].producer, run[n].epoch)
      && IsNextSequence(run, n, run[n].producer, run[n].sequence)
    ensures AnswerAt(run, n).Accepted? ==> AnswerAt(run, n) == Accepted(run[n].sequence, run[n].offset)
  {
    var p, s := run[n].producer, run[n].sequence;
    HeldEpochIsNewest(run, n, p, run[n].epoch);
    AcceptedIsHeld(run, n, p, s);
    AcceptedIsHeld(run, n, p, s - 1);
    SessionsAreGapless(run[..n], p);
  }

  /** Every other admission is refused: with Fenced exactly when the producer was
      opened and the epoch is behind, and with Invalid when it was never opened, or
      its sequence leaves a gap or is below zero. */
  lemma RefusedOtherwise(run: seq<Event>, n: nat)
    requires n < |run| && run[n].Admit?
    ensures var p, sequence, a := run[n].producer, run[n].sequence, AnswerAt(run, n);
      && (a == Refused(Fenced) <==> EverOpened(run, n, p) && !NewestEpoch(run, n, p, run[n].epoch))
      && (a == Refused(Invalid) <==>
            !EverOpened(run, n, p) ||
            (NewestEpoch(run, n, p, run[n].epoch) && !IsNextSequence(run, n, p, sequence) &&
             !SequenceAccepted(run, n, p, sequence)))
      && a != Refused(Missing)
  {
    var p, s := run[n].producer, run[n].sequence;
    HeldEpochIsNewest(run, n, p, run[n].epoch);
    AcceptedIsHeld(run, n, p, s);
    AcceptedIsHeld(run, n, p, s - 1);
    SessionsAreGapless(run[..n], p);
  }

  // ---- where exactly-once ends: an opening after the acceptance

  lemma OneMore(run: seq<Event>, e: Event)
    ensures (run + [e])[..|run|] == run
    ensures After(run + [e]) == Next(After(run), e)
  {
    var longer := run + [e];
    assert longer[..|run|] == run && longer[|run|] == e;
  }

  ghost predicate OnlyAdmits(more: seq<Event>) {
    forall i :: 0 <= i < |more| ==> more[i].Admit?
  }

  /** A producer can always go on from where its session stands, one sequence after
      the other, up to any sequence not accepted yet. */
  lemma {:induction false} AdmitUpTo(run: seq<Event>, p: string, sequence: int, offset: int) returns (more: seq<Event>)
    requires p in After(run) && After(run)[p].last < sequence
    ensures OnlyAdmits(more) && more != []
    ensures AcceptsAt(run + more, |run + more| - 1, p) && (run + more)[|run + more|-1].sequence == sequence
    ensures p in After(run + more) && After(run + more)[p].last == sequence
    ensures After(run + more)[p].epoch == After(run)[p].epoch
    decreases sequence - After(run)[p].last
  {
    var e := Admit(p, After(run)[p].epoch, sequence, offset);
    if sequence == After(run)[p].last + 1 {
      more := [e];
      OneMore(run, e);
    } else {
      var init := AdmitUpTo(run, p, sequence - 1, offset);
      more := init + [e];
      assert run + more == run + init + [e];
      OneMore(run + init, e);
    }
  }

  // After some further admissions at most, the record accepted at step j has been
  // accepted at a later step too.
  ghost predicate CanRepeat(run: seq<Event>, j: nat, p: string)
    requires j < |run| && run[j].Admit?
  {
    exists more, k :: OnlyAdmits(more) && RepeatsAt(run + more, j, k, p)
  }

  ghost predicate RepeatsAt(run: seq<Event>, j: nat, k: nat, p: string)
    requires j < |run| && run[j].Admit?
  {
    j < k && AcceptsAt(run, k, p) && run[k].sequence == run[j].sequence
  }

  ghost predicate ReopenedAfter(run: seq<Event>, j: nat, p: string) {
    exists m {:trigger OpensAt(run, m, p)} :: j < m < |run| && OpensAt(run, m, p)
  }

  lemma ExtensionKeeps(run: seq<Event>, more: seq<Event>, k: nat, p: string)
    requires k < |run|
    ensures AcceptsAt(run + more, k, p) <==> AcceptsAt(run, k, p)
    ensures OpensAt(run + more, k, p) <==> OpensAt(run, k, p)
  {
    assert (run + more)[..k] == run[..k];
  }

  lemma RepeatMeansReopened(run: seq<Event>, j: nat, p: string, more: seq<Event>, k: nat)
    requires AcceptsAt(run, j, p) && OnlyAdmits(more) && RepeatsAt(run + more, j, k, p)
    ensures ReopenedAfter(run, j, p)
  {
    ExtensionKeeps(run, more, j, p);
    AcceptedTwiceOnlyIfReopened(run + more, j, k, p);
    var m :| j < m < k && OpensAt(run + more, m, p);
    forall i | |run| <= i < |run + more| ensures (run + more)[i].Admit? {
      assert (run + more)[i] == more[i - |run|];
    }
    ExtensionKeeps(run, more, m, p);
  }

  lemma ReopenedMeansRepeat(run: seq<Event>, j: nat, p: string)
    requires AcceptsAt(run, j, p) && ReopenedAfter(run, j, p)
    ensures CanRepeat(run, j, p)
  {
    AcceptRecords(run, j, p);
    EpochNeverFalls(run, j, |run|, p);
    assert run[..|run|] == run;
    SessionsAreGapless(run[..j], p);
    var s := run[j].sequence;
    if s <= After(run)[p].last {
      SessionsAreGapless(run, p);
      var k := DuplicateWasAccepted(run, |run|, p, s);
      assert run + [] == run;
      assert OnlyAdmits([]) && RepeatsAt(run + [], j, k, p);
    } else {
      var more := AdmitUpTo(run, p, s, run[j].offset);
      assert RepeatsAt(run + more, j, |run + more| - 1, p);
    }
  }

  /** The boundary of exactly-once, over every run: a record can come to be accepted
      again, without a further opening, exactly when its producer was opened anew
      after the acceptance. */
  lemma RepeatableIffReopened(run: seq<Event>, j: nat, p: string)
    requires AcceptsAt(run, j, p)
    ensures CanRepeat(run, j, p) <==> ReopenedAfter(run, j, p)
  {
    if CanRepeat(run, j, p) {
      var more, k :| OnlyAdmits(more) && RepeatsAt(run + more, j, k, p);
      RepeatMeansReopened(run, j, p, more, k);
    }
    if ReopenedAfter(run, j, p) { ReopenedMeansRepeat(run, j, p); }
  }

  /** And any opening that is let through, at the held epoch or a later one, makes
      every record accepted so far acceptable again. */
  lemma ReopeningAcceptsAgain(run: seq<Event>, j: nat, p: string, epoch: int)
    requires AcceptsAt(run, j, p) && Opens(After(run), Open(p, epoch))
    ensures CanRepeat(run + [Open(p, epoch)], j, p)
  {
    var longer := run + [Open(p, epoch)];
    OneMore(run, Open(p, epoch));
    ExtensionKeeps(run, [Open(p, epoch)], j, p);
    assert OpensAt(longer, |run|, p);
    ReopenedMeansRepeat(longer, j, p);
  }
}
