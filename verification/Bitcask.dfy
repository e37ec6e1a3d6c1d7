/** relay/bitcask.py: an append-only log with an index of each live key's latest
    entry. The index is always what replaying the log from scratch would build,
    and the store refines a plain map. */
module Bitcask {
  import opened Common

  datatype Cell = Value(text: string) | Tombstone

  datatype Entry = Entry(key: string, cell: Cell)

  // The index built by reading the log from the start.
  function Replay(log: seq<Entry>): (index: map<string, int>)
    ensures forall k {:trigger index[k]} :: k in index ==>
      0 <= index[k] < |log| && log[index[k]].key == k && log[index[k]].cell.Value?
  {
    if log == [] then map[]
    else
      var n := |log| - 1;
      var before := Replay(log[..n]);
      match log[n].cell
      case Value(_) => before[log[n].key := n]
      case Tombstone => before - {log[n].key}
  }

  // The plain map the log stands for.
  function Contents(log: seq<Entry>): map<string, string> {
    map k | k in Replay(log) :: log[Replay(log)[k]].cell.text
  }

  lemma AppendReplay(log: seq<Entry>, e: Entry)
    ensures Replay(log + [e]) == match e.cell
      case Value(_) => Replay(log)[e.key := |log|]
      case Tombstone => Replay(log) - {e.key}
  {
    assert (log + [e])[..|log|] == log;
  }

  lemma AppendContents(log: seq<Entry>, e: Entry)
    ensures Replay(log + [e]) == match e.cell
      case Value(_) => Replay(log)[e.key := |log|]
      case Tombstone => Replay(log) - {e.key}
    ensures Contents(log + [e]) == match e.cell
      case Value(v) => Contents(log)[e.key := v]
      case Tombstone => Contents(log) - {e.key}
  {
    AppendReplay(log, e);
    match e.cell
    case Value(v) => AppendValue(log, e.key, v);
    case Tombstone => AppendTombstone(log, e.key);
  }

  lemma AppendValue(log: seq<Entry>, key: string, v: string)
    ensures Contents(log + [Entry(key, Value(v))]) == Contents(log)[key := v]
  {
    var longer := log + [Entry(key, Value(v))];
    AppendReplay(log, Entry(key, Value(v)));
    forall k ensures Lookup(Contents(longer), k) == Lookup(Contents(log)[key := v], k) {
      if k in Replay(log) && k != key { assert longer[Replay(longer)[k]] == log[Replay(log)[k]]; }
    }
    SameMap(Contents(longer), Contents(log)[key := v]);
  }

  lemma AppendTombstone(log: seq<Entry>, key: string)
    ensures Contents(log + [Entry(key, Tombstone)]) == Contents(log) - {key}
  {
    var longer := log + [Entry(key, Tombstone)];
    AppendReplay(log, Entry(key, Tombstone));
    forall k ensures Lookup(Contents(longer), k) == Lookup(Contents(log) - {key}, k) {
      if k in Replay(log) && k != key { assert longer[Replay(longer)[k]] == log[Replay(log)[k]]; }
    }
    SameMap(Contents(longer), Contents(log) - {key});
  }

  // One live entry per key, and nothing else.
  ghost predicate Dense(log: seq<Entry>) {
    && (forall i :: 0 <= i < |log| ==> log[i].cell.Value?)
    && (forall i, j :: 0 <= i < j < |log| ==> log[i].key != log[j].key)
  }

  ghost predicate Indexed(log: seq<Entry>, i: nat)
    requires i < |log|
  {
    log[i].key in Replay(log) && Replay(log)[log[i].key] == i
  }

  /** In a dense log every entry is the one its key's index points at. */
  lemma {:induction false} DenseReplay(log: seq<Entry>)
    requires Dense(log)
    ensures forall i {:trigger Indexed(log, i)} :: 0 <= i < |log| ==> Indexed(log, i)
    ensures |Replay(log)| == |log|
  {
    if log != [] {
      var n := |log| - 1;
      var init := log[..n];
      DenseReplay(init);
      NewKeyIsFresh(log, n);
      IndexedOneMore(log);
    }
  }

  lemma IndexedOneMore(log: seq<Entry>)
    requires log != [] && Dense(log)
    requires forall i {:trigger Indexed(log[..|log|-1], i)} :: 0 <= i < |log| - 1 ==> Indexed(log[..|log|-1], i)
    ensures forall i {:trigger Indexed(log, i)} :: 0 <= i < |log| ==> Indexed(log, i)
  {
    var init := log[..|log|-1];
    forall i {:trigger Indexed(log, i)} | 0 <= i < |log| ensures Indexed(log, i) {
      if i < |init| { assert Indexed(init, i) && log[i].key != log[|init|].key; }
    }
  }

  lemma NewKeyIsFresh(log: seq<Entry>, n: nat)
    requires n < |log| && Dense(log)
    ensures log[n].key !in Replay(log[..n])
  {
  }

  // What `compact` may leave behind, whatever order the index is copied in: a
  // dense log holding each live key's latest entry.
  ghost predicate CompactsTo(log: seq<Entry>, log': seq<Entry>) {
    && Dense(log')
    && Replay(log').Keys == Replay(log).Keys
    && forall k :: k in Replay(log) ==> log'[Replay(log')[k]] == log[Replay(log)[k]]
  }

  lemma CompactionKeepsContents(log: seq<Entry>, log': seq<Entry>)
    requires CompactsTo(log, log')
    ensures Contents(log') == Contents(log)
    ensures |log'| == |Replay(log)|
  {
    DenseReplay(log');
    assert |Replay(log').Keys| == |Replay(log').Items| == |Replay(log')|;
    assert |Replay(log).Keys| == |Replay(log)|;
  }

  class Bitcask {
    var log: seq<Entry>
    var index: map<string, int>

    // The index is exactly a from-scratch replay of the log.
    ghost predicate Valid()
      reads this
    {
      index == Replay(log)
    }

    ghost function View(): map<string, string>
      reads this
    {
      Contents(log)
    }

    constructor ()
      ensures Valid() && log == [] && View() == map[]
    {
      log, index := [], map[];
    }

    /** The source's `put`. */
    method Put(key: string, value: string) returns (offset: int)
      requires Valid()
      modifies this
      ensures Valid()
      ensures offset == |old(log)| && log == old(log) + [Entry(key, Value(value))]
      ensures View() == old(View())[key := value]
    {
      AppendContents(log, Entry(key, Value(value)));
      offset := |log|;
      log := log + [Entry(key, Value(value))];
      index := index[key := offset];
    }

    /** The source's `get`. Its tombstone branch is unreachable. */
    method Get(key: string) returns (r: Result<string>)
      requires Valid()
      ensures r == if key in View() then Ok(View()[key]) else Err(Missing)
    {
      if !(key in index) {
        return Err(Missing);
      }
      r := Err(Missing);
      match log[index[key]].cell
      case Tombstone => assert false;
      case Value(v) => r := Ok(v);
    }

    /** The source's `delete`. */
    method Delete(key: string) returns (r: Result<()>)
      requires Valid()
      modifies this
      ensures Valid()
      ensures r.Ok? <==> key in old(View())
      ensures r.Err? ==> r.error == Missing && unchanged(this)
      ensures r.Ok? ==> log == old(log) + [Entry(key, Tombstone)]
      ensures View() == old(View()) - {key}
    {
      if !(key in index) {
        assert View() - {key} == View();
        return Err(Missing);
      }
      AppendContents(log, Entry(key, Tombstone));
      log := log + [Entry(key, Tombstone)];
      index := index - {key};
      return Ok(());
    }

    // The copying loop of `compact`, in any order of the index.
    method CopyLive() returns (newLog: seq<Entry>, newIndex: map<string, int>)
      requires Valid()
      ensures CompactsTo(log, newLog) && newIndex == Replay(newLog)
    {
      newLog, newIndex := [], map[];
      var todo := index.Keys;
      while todo != {}
        invariant todo <= index.Keys
        invariant Dense(newLog) && newIndex == Replay(newLog)
        invariant newIndex.Keys == index.Keys - todo
        invariant CopiedAll(log, index, newLog, newIndex)
        decreases todo
      {
        var key :| key in todo;
        todo := todo - {key};
        CopyOne(newLog, log[index[key]]);
        CopyKeepsCopied(log, index, newLog, newIndex, key);
        newIndex := newIndex[key := |newLog|];
        newLog := newLog + [log[index[key]]];
      }
    }

    /** The source's `compact`: exactly one entry per live key is left. */
    method Compact()
      requires Valid()
      modifies this
      ensures Valid()
      ensures CompactsTo(old(log), log)
      ensures |log| == |index| == |old(index)|
      ensures View() == old(View())
    {
      var newLog, newIndex := CopyLive();
      CompactionKeepsContents(log, newLog);
      log := newLog;
      index := newIndex;
      DenseReplay(log);
    }
  }

  // Every key of the new index points at a copy of the entry it had.
  ghost predicate CopiedAll(log: seq<Entry>, index: map<string, int>, newLog: seq<Entry>, newIndex: map<string, int>) {
    forall k {:trigger newIndex[k]} :: k in newIndex ==>
      && k in index && 0 <= index[k] < |log| && 0 <= newIndex[k] < |newLog|
      && newLog[newIndex[k]] == log[index[k]]
  }

  lemma CopyKeepsCopied(log: seq<Entry>, index: map<string, int>, newLog: seq<Entry>,
                        newIndex: map<string, int>, key: string)
    requires CopiedAll(log, index, newLog, newIndex)
    requires key in index && 0 <= index[key] < |log|
    ensures CopiedAll(log, index, newLog + [log[index[key]]], newIndex[key := |newLog|])
  {
  }

  lemma CopyOne(log: seq<Entry>, e: Entry)
    requires Dense(log) && e.cell.Value? && e.key !in Replay(log)
    ensures Dense(log + [e]) && Replay(log + [e]) == Replay(log)[e.key := |log|]
  {
    AppendReplay(log, e);
    DenseReplay(log);
    forall i | 0 <= i < |log| ensures log[i].key != e.key {
      assert Indexed(log, i);
    }
    DenseOneMore(log, e);
  }

  lemma DenseOneMore(log: seq<Entry>, e: Entry)
    requires Dense(log) && e.cell.Value?
    requires forall i :: 0 <= i < |log| ==> log[i].key != e.key
    ensures Dense(log + [e])
  {
  }

  // ---- every operation sequence

  datatype Op = PutOp(key: string, value: string) | DeleteOp(key: string) | CompactOp

  // One operation on the log; a refused delete leaves it alone.
  ghost predicate Step(log: seq<Entry>, op: Op, log': seq<Entry>) {
    match op
    case PutOp(k, v) => log' == log + [Entry(k, Value(v))]
    case DeleteOp(k) => log' == if k in Replay(log) then log + [Entry(k, Tombstone)] else log
    case CompactOp => CompactsTo(log, log')
  }

  ghost predicate IsRun(ops: seq<Op>, logs: seq<seq<Entry>>) {
    && |logs| == |ops| + 1 && logs[0] == []
    && forall i {:trigger StepAt(ops, logs, i)} :: 0 <= i < |ops| ==> StepAt(ops, logs, i)
  }

  ghost predicate StepAt(ops: seq<Op>, logs: seq<seq<Entry>>, i: nat)
    requires |logs| == |ops| + 1 && i < |ops|
  {
    Step(logs[i], ops[i], logs[i+1])
  }

  function MapNext(m: map<string, string>, op: Op): map<string, string> {
    match op
    case PutOp(k, v) => m[k := v]
    case DeleteOp(k) => m - {k}
    case CompactOp => m
  }

  function PlainMap(ops: seq<Op>): map<string, string> {
    if ops == [] then map[] else MapNext(PlainMap(ops[..|ops|-1]), ops[|ops|-1])
  }

  /** After any sequence of puts, deletes and compactions the log stands for
      exactly the plain map the operations describe. */
  lemma {:induction false} RunRefinesPlainMap(ops: seq<Op>, logs: seq<seq<Entry>>, n: nat)
    requires IsRun(ops, logs) && n <= |ops|
    ensures Contents(logs[n]) == PlainMap(ops[..n])
  {
    if n > 0 {
      RunRefinesPlainMap(ops, logs, n - 1);
      assert ops[..n][..n-1] == ops[..n-1];
      assert StepAt(ops, logs, n - 1);
      match ops[n-1]
      case PutOp(k, v) => AppendContents(logs[n-1], Entry(k, Value(v)));
      case DeleteOp(k) =>
        if k in Replay(logs[n-1]) {
          AppendContents(logs[n-1], Entry(k, Tombstone));
        } else {
          assert Contents(logs[n-1]) - {k} == Contents(logs[n-1]);
        }
      case CompactOp => CompactionKeepsContents(logs[n-1], logs[n]);
    }
  }
}
