/** relay/causaldelivery.py: hold a message until its causes are delivered. The
    class runs the cascade; the trace below it is any arrival order whatever. */
module CausalDelivery {
  import opened Common

  datatype State = State(delivered: set<string>, buffer: map<string, set<string>>)

  // Every released message after the first was buffered, is released once, and
  // had its dependencies delivered by then.
  ghost predicate Cascade(st: State, released: seq<string>) {
    && released != []
    && (forall k :: 1 <= k < |released| ==>
          released[k] in st.buffer && st.buffer[released[k]] <= st.delivered + Elems(released[..k]))
    && (forall j, k :: 1 <= j < k < |released| ==> released[j] != released[k])
  }

  ghost predicate NothingDeliverable(st: State) {
    forall m :: m in st.buffer ==> !(st.buffer[m] <= st.delivered)
  }

  // What a call of `accept` may do, whatever order the buffer is visited in.
  ghost predicate Accepts(st: State, message: string, deps: set<string>, released: seq<string>, st': State) {
    if deps <= st.delivered then
      && Cascade(st, released) && released[0] == message
      && st' == State(st.delivered + Elems(released), st.buffer - Elems(released[1..]))
      && NothingDeliverable(st')
    else
      released == [] && st' == st.(buffer := st.buffer[message := deps])
  }

  class CausalDelivery {
    var delivered: set<string>
    var buffer: map<string, set<string>>

    ghost function Now(): State
      reads this
    {
      State(delivered, buffer)
    }

    constructor ()
      ensures Now() == State({}, map[])
    {
      delivered, buffer := {}, map[];
    }

    predicate Deliverable(deps: set<string>)
      reads this
    {
      deps <= delivered
    }

    /** The source's `accept`. */
    method Accept(message: string, deps: set<string>) returns (released: seq<string>)
      modifies this
      ensures Accepts(old(Now()), message, deps, released, Now())
      ensures released == [] <==> !(deps <= old(delivered))
      ensures released == [] ==> delivered == old(delivered) && buffer == old(buffer)[message := deps]
    {
      if Deliverable(deps) {
        released := Deliver(message);
        return;
      }
      buffer := buffer[message := deps];
      return [];
    }

    /** The source's `_deliver`: release the message and everything it unblocks. */
    method Deliver(message: string) returns (released: seq<string>)
      modifies this
      ensures Cascade(old(Now()), released) && released[0] == message
      ensures Now() == State(old(delivered) + Elems(released), old(buffer) - Elems(released[1..]))
      ensures NothingDeliverable(Now())
    {
      released := [message];
      delivered := delivered + {message};
      var changed := true;
      while changed
        invariant Progress(old(Now()), message, released, Now())
        invariant !changed ==> NothingDeliverable(Now())
        decreases |buffer|, changed
      {
        released, changed := Sweep(old(Now()), message, released);
      }
    }

    // Move one buffered message to the delivered ones.
    method Release(ghost start: State, ghost message: string, ghost released: seq<string>, msg: string)
      requires Progress(start, message, released, Now())
      requires msg in buffer && buffer[msg] <= delivered
      modifies this
      ensures Progress(start, message, released + [msg], Now())
      ensures buffer == old(buffer) - {msg} && |buffer| < |old(buffer)|
      ensures delivered == old(delivered) + {msg}
    {
      ProgressStep(start, message, released, Now(), msg);
      RemovingShrinks(buffer, msg);
      buffer := buffer - {msg};
      delivered := delivered + {msg};
    }

    // One pass over a snapshot of the buffer.
    method Sweep(ghost start: State, message: string, before: seq<string>)
      returns (released: seq<string>, changed: bool)
      requires Progress(start, message, before, Now())
      modifies this
      ensures Progress(start, message, released, Now())
      ensures changed ==> |buffer| < |old(buffer)|
      ensures !changed ==> Now() == old(Now()) && NothingDeliverable(Now())
    {
      released, changed := before, false;
      var snapshot := buffer;
      var todo := snapshot.Keys;
      while todo != {}
        invariant Progress(start, message, released, Now())
        invariant todo <= buffer.Keys <= snapshot.Keys
        invariant forall m :: m in buffer ==> buffer[m] == snapshot[m]
        invariant changed ==> |buffer| < |snapshot|
        invariant !changed ==> Now() == old(Now()) && AllBlocked(snapshot, todo, delivered)
        decreases todo
      {
        var msg :| msg in todo;
        todo := todo - {msg};
        if Deliverable(snapshot[msg]) {
          Release(start, message, released, msg);
          released := released + [msg];
          changed := true;
        }
      }
    }
  }

  // Every buffered message but `todo` lacks a dependency.
  ghost predicate AllBlocked(buffer: map<string, set<string>>, todo: set<string>, delivered: set<string>) {
    forall m :: m in buffer && m !in todo ==> !(buffer[m] <= delivered)
  }

  lemma RemovingShrinks(m: map<string, set<string>>, k: string)
    requires k in m
    ensures |m - {k}| < |m|
  {
  }

  ghost predicate Progress(start: State, message: string, released: seq<string>, now: State) {
    && Cascade(start, released) && released[0] == message
    && now == State(start.delivered + Elems(released), start.buffer - Elems(released[1..]))
  }

  lemma CascadeStep(start: State, released: seq<string>, msg: string)
    requires Cascade(start, released)
    requires msg in start.buffer && msg !in Elems(released[1..])
    requires start.buffer[msg] <= start.delivered + Elems(released)
    ensures Cascade(start, released + [msg])
  {
    var r := released + [msg];
    forall k | 1 <= k < |r|
      ensures r[k] in start.buffer && start.buffer[r[k]] <= start.delivered + Elems(r[..k])
    {
      if k < |released| { assert r[..k] == released[..k]; } else { assert r[..k] == released; }
    }
    forall j, k | 1 <= j < k < |r| ensures r[j] != r[k] {
      if k == |released| { assert r[j] == released[1..][j-1] && r[j] in Elems(released[1..]); }
    }
  }

  lemma ElemsOfAppend(s: seq<string>, x: string)
    ensures Elems(s + [x]) == Elems(s) + {x}
  {
  }

  lemma ProgressStep(start: State, message: string, released: seq<string>, now: State, msg: string)
    requires Progress(start, message, released, now)
    requires msg in now.buffer && now.buffer[msg] <= now.delivered
    ensures Progress(start, message, released + [msg],
                     State(now.delivered + {msg}, now.buffer - {msg}))
  {
    CascadeStep(start, released, msg);
    ElemsOfAppend(released, msg);
    ElemsOfAppend(released[1..], msg);
    assert (released + [msg])[1..] == released[1..] + [msg];
    assert (start.buffer - Elems(released[1..])) - {msg} == start.buffer - (Elems(released[1..]) + {msg});
  }

  // ---- traces: ids accepted in any order, any number of times, each id with
  // its fixed dependency set

  type Dependencies = string -> set<string>

  datatype Trace = Trace(ids: seq<string>, outs: seq<seq<string>>, states: seq<State>)

  ghost predicate IsTrace(d: Dependencies, t: Trace) {
    && |t.outs| == |t.ids| && |t.states| == |t.ids| + 1
    && t.states[0] == State({}, map[])
    && forall k :: 0 <= k < |t.ids| ==> Step(d, t, k)
  }

  ghost predicate Step(d: Dependencies, t: Trace, k: nat)
    requires k < |t.ids| && |t.outs| == |t.ids| && |t.states| == |t.ids| + 1
  {
    Accepts(t.states[k], t.ids[k], d(t.ids[k]), t.outs[k], t.states[k+1])
  }

  // Everything released by the first k calls, in order.
  function Released(outs: seq<seq<string>>, k: nat): seq<string>
    requires k <= |outs|
  {
    if k == 0 then [] else Released(outs, k - 1) + outs[k-1]
  }

  // `s` holds every accepted id whose dependencies it holds.
  ghost predicate Closed(d: Dependencies, accepted: set<string>, s: set<string>) {
    forall m :: m in accepted && d(m) <= s ==> m in s
  }

  // The least such set.
  ghost predicate IsLeastFixpoint(d: Dependencies, accepted: set<string>, s: set<string>) {
    Closed(d, accepted, s) && forall c :: Closed(d, accepted, c) ==> s <= c
  }

  ghost predicate CausalOrder(d: Dependencies, log: seq<string>) {
    forall k :: 0 <= k < |log| ==> d(log[k]) <= Elems(log[..k])
  }

  ghost predicate Consistent(d: Dependencies, accepted: set<string>, st: State) {
    && accepted == st.delivered + st.buffer.Keys
    && st.delivered !! st.buffer.Keys
    && (forall m :: m in st.buffer ==> st.buffer[m] == d(m))
    && (forall m :: m in st.delivered ==> d(m) <= st.delivered)
    && NothingDeliverable(st)
  }

  // The cascade delivers only what every closed set must hold.
  lemma {:induction false} CascadeIsForced(d: Dependencies, accepted: set<string>, st: State, released: seq<string>,
                                            c: set<string>, k: nat)
    requires Cascade(st, released) && k <= |released|
    requires st.buffer.Keys <= accepted && released[0] in accepted
    requires forall m :: m in st.buffer ==> st.buffer[m] == d(m)
    requires d(released[0]) <= st.delivered <= c
    requires Closed(d, accepted, c)
    ensures Elems(released[..k]) <= c
  {
    if k > 0 {
      CascadeIsForced(d, accepted, st, released, c, k - 1);
      assert released[..k] == released[..k-1] + [released[k-1]];
    }
  }

  lemma DeliveredOnceMore(d: Dependencies, accepted: set<string>, st: State, m: string,
                          released: seq<string>, st': State)
    requires Consistent(d, accepted, st) && m in st.delivered
    requires Accepts(st, m, d(m), released, st')
    ensures released == [m] && st' == st
  {
    assert released[..1] == [m];
    assert Elems(released[..1]) == {m};
    assert released[1..] == [];
    assert Elems(released) == {m};
  }

  lemma StepKeepsConsistent(d: Dependencies, accepted: set<string>, st: State, m: string,
                            released: seq<string>, st': State)
    requires Consistent(d, accepted, st)
    requires Accepts(st, m, d(m), released, st')
    ensures Consistent(d, accepted + {m}, st')
  {
  }

  lemma StepIsForced(d: Dependencies, accepted: set<string>, st: State, m: string,
                     released: seq<string>, st': State, c: set<string>)
    requires Consistent(d, accepted, st)
    requires Accepts(st, m, d(m), released, st')
    requires Closed(d, accepted + {m}, c) && st.delivered <= c
    ensures st'.delivered <= c
  {
    if d(m) <= st.delivered {
      CascadeIsForced(d, accepted + {m}, st, released, c, |released|);
      assert released[..|released|] == released;
    }
  }

  lemma StepExtendsOrder(d: Dependencies, accepted: set<string>, st: State, m: string,
                         released: seq<string>, st': State, log: seq<string>)
    requires Consistent(d, accepted, st)
    requires Accepts(st, m, d(m), released, st')
    requires CausalOrder(d, log) && Elems(log) == st.delivered
    ensures CausalOrder(d, log + released) && Elems(log + released) == st'.delivered
  {
    var all := log + released;
    forall k | 0 <= k < |all| ensures d(all[k]) <= Elems(all[..k]) {
      if k < |log| {
        assert all[..k] == log[..k];
      } else {
        var i := k - |log|;
        assert all[..k] == log + released[..i];
        assert Elems(all[..k]) == Elems(log) + Elems(released[..i]);
      }
    }
  }

  // Safe, complete and minimal: the log respects causes, nothing deliverable is
  // held, and nothing is delivered that the accepted ids do not force.
  ghost predicate Invariant(d: Dependencies, accepted: set<string>, st: State, log: seq<string>) {
    && Consistent(d, accepted, st)
    && CausalOrder(d, log) && Elems(log) == st.delivered
    && forall c :: Closed(d, accepted, c) ==> st.delivered <= c
  }

  lemma StepKeepsInvariant(d: Dependencies, accepted: set<string>, st: State, m: string,
                           out: seq<string>, st': State, log: seq<string>)
    requires Invariant(d, accepted, st, log)
    requires Accepts(st, m, d(m), out, st')
    ensures Invariant(d, accepted + {m}, st', log + out)
  {
    StepKeepsConsistent(d, accepted, st, m, out, st');
    StepExtendsOrder(d, accepted, st, m, out, st', log);
    forall c | Closed(d, accepted + {m}, c) ensures st'.delivered <= c {
      StepIsForced(d, accepted, st, m, out, st', c);
    }
  }

  lemma TraceStep(d: Dependencies, t: Trace, k: nat)
    requires IsTrace(d, t) && k < |t.ids|
    requires Invariant(d, Elems(t.ids[..k]), t.states[k], Released(t.outs, k))
    ensures Invariant(d, Elems(t.ids[..k+1]), t.states[k+1], Released(t.outs, k + 1))
  {
    assert Step(d, t, k);
    assert t.ids[..k+1] == t.ids[..k] + [t.ids[k]];
    ElemsOfAppend(t.ids[..k], t.ids[k]);
    StepKeepsInvariant(d, Elems(t.ids[..k]), t.states[k], t.ids[k], t.outs[k], t.states[k+1], Released(t.outs, k));
  }

  /** Safety, completeness and minimality hold after every call of every trace. */
  lemma {:induction false} TraceInvariant(d: Dependencies, t: Trace, k: nat)
    requires IsTrace(d, t) && k <= |t.ids|
    ensures Invariant(d, Elems(t.ids[..k]), t.states[k], Released(t.outs, k))
  {
    if k > 0 {
      TraceInvariant(d, t, k - 1);
      TraceStep(d, t, k - 1);
    }
  }

  /** No message is ever released before the messages it depends on. */
  lemma CausesComeFirst(d: Dependencies, t: Trace, k: nat, i: nat)
    requires IsTrace(d, t) && k <= |t.ids| && i < |Released(t.outs, k)|
    ensures d(Released(t.outs, k)[i]) <= Elems(Released(t.outs, k)[..i])
  {
    TraceInvariant(d, t, k);
  }

  /** After every call the delivered set is the least set closed under the
      dependencies of what has been accepted; the rest is buffered. */
  lemma DeliveredIsLeastFixpoint(d: Dependencies, t: Trace, k: nat)
    requires IsTrace(d, t) && k <= |t.ids|
    ensures IsLeastFixpoint(d, Elems(t.ids[..k]), t.states[k].delivered)
    ensures t.states[k].buffer.Keys == Elems(t.ids[..k]) - t.states[k].delivered
  {
    TraceInvariant(d, t, k);
  }

  /** Confluence: what has been delivered and what is still held depend only on
      the set of ids accepted, not on their order, repetition or the order the
      buffer was visited in. */
  lemma ArrivalOrderIsIrrelevant(d: Dependencies, t: Trace, u: Trace)
    requires IsTrace(d, t) && IsTrace(d, u)
    requires Elems(t.ids) == Elems(u.ids)
    ensures t.states[|t.ids|] == u.states[|u.ids|]
  {
    var m, n := |t.ids|, |u.ids|;
    assert t.ids[..m] == t.ids && u.ids[..n] == u.ids;
    DeliveredIsLeastFixpoint(d, t, m);
    DeliveredIsLeastFixpoint(d, u, n);
    TraceInvariant(d, t, m);
    TraceInvariant(d, u, n);
    assert t.states[m].delivered == u.states[n].delivered;
    assert t.states[m].buffer == u.states[n].buffer;
  }

  // No call accepts an id that has already been delivered.
  ghost predicate NeverAcceptedAfterDelivery(t: Trace, n: nat)
    requires n <= |t.ids| <= |t.states|
  {
    forall k :: 0 <= k < n ==> t.ids[k] !in t.states[k].delivered
  }

  /** Each message is released at most once exactly when no call accepts an id
      that is already delivered. */
  lemma {:induction false} ReleasedOnceIff(d: Dependencies, t: Trace, n: nat)
    requires IsTrace(d, t) && n <= |t.ids|
    ensures NoRepeats(Released(t.outs, n)) <==> NeverAcceptedAfterDelivery(t, n)
  {
    if n > 0 {
      ReleasedOnceIff(d, t, n - 1);
      TraceInvariant(d, t, n - 1);
      assert Step(d, t, n - 1);
      var accepted, log := Elems(t.ids[..n-1]), Released(t.outs, n - 1);
      StepRepeatsIff(d, accepted, t.states[n-1], t.ids[n-1], t.outs[n-1], t.states[n], log);
    }
  }

  // One call repeats a message exactly when it accepts a delivered one.
  lemma StepRepeatsIff(d: Dependencies, accepted: set<string>, st: State, m: string,
                       out: seq<string>, st': State, log: seq<string>)
    requires Consistent(d, accepted, st) && Elems(log) == st.delivered
    requires Accepts(st, m, d(m), out, st')
    ensures NoRepeats(log + out) <==> NoRepeats(log) && m !in st.delivered
  {
    if m in st.delivered {
      DeliveredOnceMore(d, accepted, st, m, out, st');
      RepeatShows(log, m);
    } else {
      FreshReleaseHasNoRepeats(d, accepted, st, m, out, st', log);
      NoRepeatsInPrefix(log, out);
    }
  }

  lemma RepeatShows(log: seq<string>, m: string)
    requires m in Elems(log)
    ensures !NoRepeats(log + [m])
  {
    var i :| 0 <= i < |log| && log[i] == m;
    assert (log + [m])[i] == (log + [m])[|log|];
  }

  lemma NoRepeatsInPrefix(log: seq<string>, out: seq<string>)
    ensures NoRepeats(log + out) ==> NoRepeats(log)
  {
    if !NoRepeats(log) {
      var i, j :| 0 <= i < j < |log| && log[i] == log[j];
      assert (log + out)[i] == (log + out)[j];
    }
  }

  lemma FreshReleaseHasNoRepeats(d: Dependencies, accepted: set<string>, st: State, m: string,
                                 out: seq<string>, st': State, log: seq<string>)
    requires Consistent(d, accepted, st) && m !in st.delivered
    requires Accepts(st, m, d(m), out, st')
    requires Elems(log) == st.delivered
    ensures NoRepeats(log) ==> NoRepeats(log + out)
  {
  }
}
