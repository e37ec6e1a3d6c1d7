/** relay/lsmtree.py: writes to a memtable, flushed to runs; reads newest first.
    The tree refines a plain map. */
module LSMTree {
  import opened Common

  datatype Cell = Value(text: string) | Tombstone

  type Table = map<string, Cell>

  // The newest cell of a key: the memtable, then the runs from last to first.
  function Newest(memtable: Table, runs: seq<Table>, k: string): Option<Cell>
    decreases |runs|
  {
    if k in memtable then Some(memtable[k])
    else if runs == [] then None
    else Newest(runs[|runs|-1], runs[..|runs|-1], k)
  }

  function Live(c: Option<Cell>): Option<string> {
    match c
    case Some(Value(v)) => Some(v)
    case _ => None
  }

  function AllKeys(memtable: Table, runs: seq<Table>): set<string>
    decreases |runs|
  {
    if runs == [] then memtable.Keys
    else memtable.Keys + AllKeys(runs[|runs|-1], runs[..|runs|-1])
  }

  lemma {:induction false} NewestIsKeyed(memtable: Table, runs: seq<Table>, k: string)
    ensures Newest(memtable, runs, k).Some? <==> k in AllKeys(memtable, runs)
    decreases |runs|
  {
    if k !in memtable && runs != [] { NewestIsKeyed(runs[|runs|-1], runs[..|runs|-1], k); }
  }

  // The plain map the tree stands for.
  function Contents(memtable: Table, runs: seq<Table>): map<string, string> {
    map k | k in AllKeys(memtable, runs) && Live(Newest(memtable, runs, k)).Some? ::
      Live(Newest(memtable, runs, k)).value
  }

  lemma ContentsLookup(memtable: Table, runs: seq<Table>, k: string)
    ensures Lookup(Contents(memtable, runs), k) == Live(Newest(memtable, runs, k))
  {
    NewestIsKeyed(memtable, runs, k);
  }

  lemma WriteContents(memtable: Table, runs: seq<Table>, k: string, c: Cell)
    ensures Contents(memtable[k := c], runs) == match c
      case Value(v) => Contents(memtable, runs)[k := v]
      case Tombstone => Contents(memtable, runs) - {k}
  {
  }

  lemma FlushContents(memtable: Table, runs: seq<Table>)
    ensures Contents(map[], runs + [memtable]) == Contents(memtable, runs)
  {
  }

  // The merge of the runs, oldest to newest, newer over older.
  function Overlay(runs: seq<Table>): Table {
    if runs == [] then map[] else Overlay(runs[..|runs|-1]) + runs[|runs|-1]
  }

  function WithoutTombstones(t: Table): Table {
    map k | k in t && t[k] != Tombstone :: t[k]
  }

  lemma {:induction false} OverlayIsNewest(memtable: Table, runs: seq<Table>, k: string)
    ensures Newest(memtable, runs, k) ==
      if k in memtable then Some(memtable[k]) else if k in Overlay(runs) then Some(Overlay(runs)[k]) else None
    decreases |runs|
  {
    if k !in memtable && runs != [] { OverlayIsNewest(runs[|runs|-1], runs[..|runs|-1], k); }
  }

  /** Dropping tombstones while merging all runs is invisible: nothing older is
      left for a dropped tombstone to hide. */
  lemma CompactContents(memtable: Table, runs: seq<Table>)
    ensures var merged := WithoutTombstones(Overlay(runs));
      Contents(memtable, if |merged| > 0 then [merged] else []) == Contents(memtable, runs)
  {
    var merged := WithoutTombstones(Overlay(runs));
    var after := if |merged| > 0 then [merged] else [];
    assert |merged| == 0 ==> merged == map[];
    forall k ensures Lookup(Contents(memtable, after), k) == Lookup(Contents(memtable, runs), k) {
      ContentsLookup(memtable, after, k);
      ContentsLookup(memtable, runs, k);
      OverlayIsNewest(memtable, after, k);
      OverlayIsNewest(memtable, runs, k);
      OverlayOfOne(merged);
    }
    SameMap(Contents(memtable, after), Contents(memtable, runs));
  }

  lemma OverlayOfOne(t: Table)
    ensures Overlay([t]) == t
  {
  }

  // ---- the operations

  datatype Op = PutOp(key: string, value: string) | DeleteOp(key: string) | FlushOp | CompactOp

  datatype Store = Store(limit: int, memtable: Table, runs: seq<Table>)

  // A flush of an empty memtable is refused and changes nothing.
  function Flushed(s: Store): Store {
    if s.memtable == map[] then s else s.(memtable := map[], runs := s.runs + [s.memtable])
  }

  function Next(s: Store, op: Op): Store {
    match op
    case PutOp(k, v) =>
      var t := s.(memtable := s.memtable[k := Value(v)]);
      if |t.memtable| >= t.limit then Flushed(t) else t
    case DeleteOp(k) => s.(memtable := s.memtable[k := Tombstone])
    case FlushOp => Flushed(s)
    case CompactOp =>
      var merged := WithoutTombstones(Overlay(s.runs));
      s.(runs := if |merged| > 0 then [merged] else [])
  }

  class LSMTree {
    const memtableLimit: int
    var memtable: Table
    var runs: seq<Table>

    function Now(): Store
      reads this
    {
      Store(memtableLimit, memtable, runs)
    }

    // The plain map this tree refines.
    function View(): map<string, string>
      reads this
    {
      Contents(memtable, runs)
    }

    constructor (limit: int)
      requires limit >= 1
      ensures memtableLimit == limit && memtable == map[] && runs == [] && View() == map[]
    {
      memtableLimit := limit;
      memtable, runs := map[], [];
    }

    /** The source's `put`: a full memtable is flushed. */
    method Put(key: string, value: string)
      modifies this
      ensures View() == old(View())[key := value]
      ensures Now() == Next(old(Now()), PutOp(key, value))
      ensures var written := old(memtable)[key := Value(value)];
        if |written| >= memtableLimit then memtable == map[] && runs == old(runs) + [written]
        else memtable == written && runs == old(runs)
    {
      WriteContents(memtable, runs, key, Value(value));
      memtable := memtable[key := Value(value)];
      if |memtable| >= memtableLimit {
        var _ := Flush();
      }
    }

    /** The source's `delete`: a tombstone, written without a flush. */
    method Delete(key: string)
      modifies this
      ensures View() == old(View()) - {key}
      ensures Now() == Next(old(Now()), DeleteOp(key))
      ensures memtable == old(memtable)[key := Tombstone] && runs == old(runs)
    {
      WriteContents(memtable, runs, key, Tombstone);
      memtable := memtable[key := Tombstone];
    }

    /** The source's `flush`. */
    method Flush() returns (r: Result<()>)
      modifies this
      ensures r.Err? <==> old(memtable) == map[]
      ensures r.Err? ==> r.error == Invalid && unchanged(this)
      ensures Now() == Next(old(Now()), FlushOp)
      ensures r.Ok? ==> memtable == map[] && runs == old(runs) + [old(memtable)]
      ensures View() == old(View())
    {
      if |memtable| == 0 {
        return Err(Invalid);
      }
      FlushContents(memtable, runs);
      runs := runs + [memtable];
      memtable := map[];
      return Ok(());
    }

    /** The source's `get`: memtable first, then the runs newest to oldest. */
    method Get(key: string) returns (r: Result<string>)
      ensures r == if key in View() then Ok(View()[key]) else Err(Missing)
    {
      ContentsLookup(memtable, runs, key);
      var cell: Option<Cell> := None;
      if key in memtable {
        cell := Some(memtable[key]);
      } else {
        NewestSkips(memtable, runs, key);
        var i := |runs|;
        assert runs[..i] == runs;
        while i > 0
          invariant 0 <= i <= |runs|
          invariant cell == None && key !in memtable
          invariant Newest(memtable, runs, key) == Newest(map[], runs[..i], key)
        {
          i := i - 1;
          assert runs[..i+1][..i] == runs[..i];
          if key in runs[i] {
            cell := Some(runs[i][key]);
            break;
          }
          NewestSkips(runs[i], runs[..i], key);
        }
      }
      match cell
      case Some(Value(v)) => return Ok(v);
      case _ => return Err(Missing);
    }

    /** The source's `compact`: one run, without tombstones, or none. */
    method Compact()
      modifies this
      ensures View() == old(View())
      ensures Now() == Next(old(Now()), CompactOp)
      ensures |runs| <= 1 && forall t :: t in runs ==> t != map[] && Tombstone !in t.Values
      ensures memtable == old(memtable) && Contents(map[], runs) == Contents(map[], old(runs))
    {
      var merged: Table := map[];
      for i := 0 to |runs|
        invariant merged == Overlay(runs[..i]) && runs == old(runs) && memtable == old(memtable)
      {
        assert runs[..i+1][..i] == runs[..i];
        merged := merged + runs[i];
      }
      assert runs[..|runs|] == runs;
      CompactContents(memtable, runs);
      CompactContents(map[], runs);
      merged := WithoutTombstones(merged);
      runs := if |merged| > 0 then [merged] else [];
    }
  }

  lemma NewestSkips(t: Table, runs: seq<Table>, k: string)
    requires k !in t
    ensures Newest(t, runs, k) == Newest(map[], runs, k)
  {
  }

  // ---- every operation sequence

  function MapNext(m: map<string, string>, op: Op): map<string, string> {
    match op
    case PutOp(k, v) => m[k := v]
    case DeleteOp(k) => m - {k}
    case _ => m
  }

  /** The memtable after a put holds fewer keys than the limit; it was flushed, so
      that a flush right after is refused, exactly when the table as written had
      reached it. */
  lemma PutKeepsBelowLimit(s: Store, k: string, v: string)
    requires s.limit >= 1
    ensures var t, size := Next(s, PutOp(k, v)), |s.memtable.Keys + {k}|;
      && |t.memtable| < s.limit
      && (t.memtable == map[] <==> size >= s.limit)
      && |t.runs| == |s.runs| + if size >= s.limit then 1 else 0
  {
    var written := s.memtable[k := Value(v)];
    assert written.Keys == s.memtable.Keys + {k};
    assert |written| == |written.Keys|;
  }

  function AfterAll(s: Store, ops: seq<Op>): Store
    decreases |ops|
  {
    if ops == [] then s else AfterAll(Next(s, ops[0]), ops[1..])
  }

  function MapAfterAll(m: map<string, string>, ops: seq<Op>): map<string, string>
    decreases |ops|
  {
    if ops == [] then m else MapAfterAll(MapNext(m, ops[0]), ops[1..])
  }

  lemma NextRefines(s: Store, op: Op)
    ensures Contents(Next(s, op).memtable, Next(s, op).runs) == MapNext(Contents(s.memtable, s.runs), op)
  {
    match op
    case PutOp(k, v) =>
      WriteContents(s.memtable, s.runs, k, Value(v));
      FlushContents(s.memtable[k := Value(v)], s.runs);
    case DeleteOp(k) => WriteContents(s.memtable, s.runs, k, Tombstone);
    case FlushOp => FlushContents(s.memtable, s.runs);
    case CompactOp => CompactContents(s.memtable, s.runs);
  }

  /** After any sequence of puts, deletes, flushes and compactions, a read finds
      exactly what a plain map would hold. */
  lemma {:induction false} ReadsMatchPlainMap(s: Store, ops: seq<Op>, k: string)
    ensures var t := AfterAll(s, ops);
      Live(Newest(t.memtable, t.runs, k)) == Lookup(MapAfterAll(Contents(s.memtable, s.runs), ops), k)
    decreases |ops|
  {
    if ops == [] {
      ContentsLookup(s.memtable, s.runs, k);
    } else {
      NextRefines(s, ops[0]);
      ReadsMatchPlainMap(Next(s, ops[0]), ops[1..], k);
    }
  }
}
