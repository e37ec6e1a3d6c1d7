/** relay/fairqueue.py: weighted fair service by deficit round robin. Clients never
    touch each other's queue, deficit or service, so each is a machine of its own. */
module FairQueue {
  import opened Common

  // One client's queue of request costs, carried deficit and service so far.
  datatype Client = Client(queue: seq<int>, deficit: int, served: int)

  const NEW := Client([], 0, 0)

  // Serve from the head while the deficit covers the cost.
  function Serve(c: Client): Client
    decreases |c.queue|
  {
    if c.queue != [] && c.queue[0] <= c.deficit then
      Serve(Client(c.queue[1..], c.deficit - c.queue[0], c.served + c.queue[0]))
    else c
  }

  // One round: add the weight, then serve.
  function RoundOf(c: Client, weight: int): Client {
    Serve(c.(deficit := c.deficit + weight))
  }

  datatype Op = Enqueue(client: string, cost: int) | Round

  // What an operation does to the client called `name`.
  function Step(name: string, c: Client, weight: int, op: Op): Client {
    match op
    case Enqueue(client, cost) => if client == name then c.(queue := c.queue + [cost]) else c
    case Round => RoundOf(c, weight)
  }

  class FairQueue {
    const weights: map<string, int>
    var queues: map<string, seq<int>>
    var deficit: map<string, int>
    var served: map<string, int>

    ghost predicate Valid()
      reads this
    {
      && (forall c :: c in weights ==> weights[c] > 0)
      && queues.Keys == weights.Keys && deficit.Keys == weights.Keys && served.Keys == weights.Keys
    }

    ghost function At(c: string): Client
      requires Valid() && c in weights
      reads this
    {
      Client(queues[c], deficit[c], served[c])
    }

    constructor (weights: map<string, int>)
      requires forall c :: c in weights ==> weights[c] > 0
      ensures Valid() && this.weights == weights
      ensures forall c :: c in weights ==> At(c) == NEW
    {
      this.weights := weights;
      queues := map c | c in weights :: [];
      deficit := map c | c in weights :: 0;
      served := map c | c in weights :: 0;
    }

    /** The source's `enqueue`. */
    method Enqueue(client: string, cost: int) returns (r: Result<()>)
      requires Valid()
      modifies this
      ensures Valid()
      ensures r.Ok? <==> client in weights
      ensures r.Err? ==> r.error == Invalid && unchanged(this)
      ensures forall c :: c in weights ==> At(c) == Step(c, old(At(c)), weights[c], Op.Enqueue(client, cost))
    {
      if !(client in weights) {
        return Err(Invalid);
      }
      queues := queues[client := queues[client] + [cost]];
      return Ok(());
    }

    // Serve the head request of a client.
    method ServeHead(client: string)
      requires Valid() && client in weights && queues[client] != []
      modifies this
      ensures Valid()
      ensures var was := old(At(client));
        At(client) == Client(was.queue[1..], was.deficit - was.queue[0], was.served + was.queue[0])
      ensures forall c :: c in weights && c != client ==> At(c) == old(At(c))
    {
      var cost := queues[client][0];
      queues := queues[client := queues[client][1..]];
      deficit := deficit[client := deficit[client] - cost];
      served := served[client := served[client] + cost];
    }

    // The body of the round for one client.
    method ServeClient(client: string)
      requires Valid() && client in weights
      modifies this
      ensures Valid()
      ensures At(client) == RoundOf(old(At(client)), weights[client])
      ensures forall c :: c in weights && c != client ==> At(c) == old(At(c))
    {
      Grant(client);
      ServeCovered(client);
    }

    // Add the weight to one client's deficit.
    method Grant(client: string)
      requires Valid() && client in weights
      modifies this
      ensures Valid()
      ensures var was := old(At(client)); At(client) == was.(deficit := was.deficit + weights[client])
      ensures forall c :: c in weights && c != client ==> At(c) == old(At(c))
    {
      deficit := deficit[client := deficit[client] + weights[client]];
    }

    // Serve one client while its deficit covers the head request.
    method ServeCovered(client: string)
      requires Valid() && client in weights
      modifies this
      ensures Valid()
      ensures At(client) == Serve(old(At(client)))
      ensures forall c :: c in weights && c != client ==> At(c) == old(At(c))
    {
      while queues[client] != [] && queues[client][0] <= deficit[client]
        invariant Valid()
        invariant Serve(At(client)) == Serve(old(At(client)))
        invariant forall c :: c in weights && c != client ==> At(c) == old(At(c))
        decreases |queues[client]|
      {
        ServeHead(client);
      }
    }

    /** The source's `round`, visiting the clients in any order. */
    method Round()
      requires Valid()
      modifies this
      ensures Valid()
      ensures forall c :: c in weights ==> At(c) == Step(c, old(At(c)), weights[c], Op.Round)
    {
      var todo := weights.Keys;
      while todo != {}
        invariant Valid() && todo <= weights.Keys
        invariant forall c :: c in todo ==> At(c) == old(At(c))
        invariant forall c :: c in weights && c !in todo ==> At(c) == RoundOf(old(At(c)), weights[c])
        decreases todo
      {
        var client :| client in todo;
        todo := todo - {client};
        ServeClient(client);
      }
    }
  }

  // ---- runs of the queue: any trace of arrivals and rounds

  // A client after the trace.
  function After(name: string, c: Client, weight: int, ops: seq<Op>): Client {
    if ops == [] then c
    else Step(name, After(name, c, weight, ops[..|ops|-1]), weight, ops[|ops|-1])
  }

  function Rounds(ops: seq<Op>): nat {
    if ops == [] then 0
    else Rounds(ops[..|ops|-1]) + if ops[|ops|-1].Round? then 1 else 0
  }

  function Total(costs: seq<int>): int {
    if costs == [] then 0 else costs[0] + Total(costs[1..])
  }

  lemma {:induction false} ServeConserves(c: Client)
    ensures var d := Serve(c);
      && d.served + d.deficit == c.served + c.deficit
      && d.served + Total(d.queue) == c.served + Total(c.queue)
      && (c.deficit >= 0 ==> d.deficit >= 0)
      && (d.queue != [] ==> d.deficit < d.queue[0])
      && |d.queue| <= |c.queue|
      && (forall x :: x in d.queue ==> x in c.queue)
    decreases |c.queue|
  {
    if c.queue != [] && c.queue[0] <= c.deficit {
      var c' := Client(c.queue[1..], c.deficit - c.queue[0], c.served + c.queue[0]);
      ServeConserves(c');
    }
  }

  /** Every unit of quantum is either served or still carried. */
  lemma {:induction false} QuantumIsConserved(name: string, weight: int, ops: seq<Op>)
    requires weight > 0
    ensures var c := After(name, NEW, weight, ops);
      c.served + c.deficit == Rounds(ops) * weight && c.deficit >= 0
  {
    if ops != [] {
      var init := ops[..|ops|-1];
      QuantumIsConserved(name, weight, init);
      var before := After(name, NEW, weight, init);
      ServeConserves(before.(deficit := before.deficit + weight));
      assert (Rounds(init) + 1) * weight == Rounds(init) * weight + weight;
    }
  }

  // The costs the client has enqueued, in order.
  function Enqueued(name: string, ops: seq<Op>): seq<int> {
    if ops == [] then []
    else
      Enqueued(name, ops[..|ops|-1]) +
      match ops[|ops|-1]
      case Enqueue(client, cost) => if client == name then [cost] else []
      case Round => []
  }

  lemma TotalOfAppend(s: seq<int>, x: int)
    ensures Total(s + [x]) == Total(s) + x
  {
    if s == [] {
      assert [x][1..] == [];
    } else {
      assert (s + [x])[1..] == s[1..] + [x];
      TotalOfAppend(s[1..], x);
    }
  }

  // `d` has served the first k requests of `costs`, and has the others in its queue.
  ghost predicate ServedPrefix(costs: seq<int>, d: Client, k: int) {
    0 <= k <= |costs| && d.queue == costs[k..] && d.served == Total(costs[..k])
  }

  lemma {:induction false} ServeTakesInOrder(costs: seq<int>, c: Client, k: nat) returns (k': nat)
    requires ServedPrefix(costs, c, k)
    ensures k' >= k && ServedPrefix(costs, Serve(c), k')
    decreases |costs| - k
  {
    k' := k;
    if c.queue != [] && c.queue[0] <= c.deficit {
      assert costs[..k+1] == costs[..k] + [costs[k]];
      TotalOfAppend(costs[..k], costs[k]);
      k' := ServeTakesInOrder(costs, Client(c.queue[1..], c.deficit - c.queue[0], c.served + c.queue[0]), k + 1);
    }
  }

  /** Requests are served in the order they came: after every trace some of the
      first ones have been served, their costs are the service, and the others wait
      in order. */
  lemma {:induction false} ServedInOrder(name: string, weight: int, ops: seq<Op>) returns (k: nat)
    ensures ServedPrefix(Enqueued(name, ops), After(name, NEW, weight, ops), k)
  {
    if ops == [] {
      k := 0;
    } else {
      var init := ops[..|ops|-1];
      k := ServedInOrder(name, weight, init);
      var costs, c := Enqueued(name, init), After(name, NEW, weight, init);
      match ops[|ops|-1]
      case Enqueue(client, cost) =>
        assert (costs + [cost])[..k] == costs[..k];
        assert costs + [] == costs;
      case Round =>
        assert costs + [] == costs;
        k := ServeTakesInOrder(costs, c.(deficit := c.deficit + weight), k);
    }
  }

  ghost predicate CostsWithin(name: string, ops: seq<Op>, most: int) {
    forall i :: 0 <= i < |ops| && ops[i].Enqueue? && ops[i].client == name ==> ops[i].cost <= most
  }

  lemma {:induction false} QueuedCostsWithin(name: string, weight: int, ops: seq<Op>, most: int)
    requires CostsWithin(name, ops, most)
    ensures forall x :: x in After(name, NEW, weight, ops).queue ==> x <= most
  {
    if ops != [] {
      var init := ops[..|ops|-1];
      QueuedCostsWithin(name, weight, init, most);
      var before := After(name, NEW, weight, init);
      if ops[|ops|-1].Round? { ServeConserves(before.(deficit := before.deficit + weight)); }
    }
  }

  // Some request of the client has been waiting since the last round.
  ghost predicate HeldOver(name: string, weight: int, ops: seq<Op>) {
    ops != [] &&
    if ops[|ops|-1].Round? then After(name, NEW, weight, ops).queue != []
    else HeldOver(name, weight, ops[..|ops|-1])
  }

  /** A client whose work was held over at the last round carries less than one
      largest request, whatever has arrived since. */
  lemma {:induction false} HeldOverIsLean(name: string, weight: int, ops: seq<Op>, most: int)
    requires weight > 0 && CostsWithin(name, ops, most)
    requires HeldOver(name, weight, ops)
    ensures 0 <= After(name, NEW, weight, ops).deficit < most
  {
    var init := ops[..|ops|-1];
    if ops[|ops|-1].Round? {
      QuantumIsConserved(name, weight, ops);
      QueuedCostsWithin(name, weight, ops, most);
      var before, c := After(name, NEW, weight, init), After(name, NEW, weight, ops);
      ServeConserves(before.(deficit := before.deficit + weight));
      assert c.queue[0] in c.queue;
    } else {
      HeldOverIsLean(name, weight, init, most);
    }
  }

  // ---- fairness over a window of a trace

  // What `rounds` rounds grant at this weight.
  function Share(rounds: int, weight: int): int {
    rounds * weight
  }

  ghost predicate Within(x: int, y: int, gap: int) {
    -gap < x - y < gap
  }

  type Weights = w: map<string, int> | forall c :: c in w ==> w[c] > 0

  // The client after the first `n` operations of the trace.
  function ClientAt(weights: Weights, ops: seq<Op>, n: nat, c: string): Client
    requires c in weights && n <= |ops|
  {
    After(c, NEW, weights[c], ops[..n])
  }

  function ServedIn(weights: Weights, ops: seq<Op>, i: nat, j: nat, c: string): int
    requires c in weights && i <= j <= |ops|
  {
    ClientAt(weights, ops, j, c).served - ClientAt(weights, ops, i, c).served
  }

  function RoundsIn(ops: seq<Op>, i: nat, j: nat): int
    requires i <= j <= |ops|
  {
    Rounds(ops[..j]) - Rounds(ops[..i])
  }

  // What the client carried into the window and did not carry out of it.
  function SpentIn(weights: Weights, ops: seq<Op>, i: nat, j: nat, c: string): int
    requires c in weights && i <= j <= |ops|
  {
    ClientAt(weights, ops, i, c).deficit - ClientAt(weights, ops, j, c).deficit
  }

  // The client carries less than one largest request.
  ghost predicate Lean(weights: Weights, ops: seq<Op>, n: nat, c: string, most: int)
    requires c in weights && n <= |ops|
  {
    ClientAt(weights, ops, n, c).deficit < most
  }

  /** Over any window, service is the share of the rounds plus what was drawn from
      the deficit. */
  lemma ServiceIsShareAndSpent(weights: Weights, ops: seq<Op>, i: nat, j: nat, c: string)
    requires c in weights && i <= j <= |ops|
    ensures ServedIn(weights, ops, i, j, c) ==
            Share(RoundsIn(ops, i, j), weights[c]) + SpentIn(weights, ops, i, j, c)
    ensures ClientAt(weights, ops, i, c).deficit >= 0 && ClientAt(weights, ops, j, c).deficit >= 0
  {
    QuantumIsConserved(c, weights[c], ops[..i]);
    QuantumIsConserved(c, weights[c], ops[..j]);
    ShareOfDifference(Rounds(ops[..i]), Rounds(ops[..j]), weights[c]);
  }

  lemma ShareOfDifference(m: int, n: int, weight: int)
    ensures Share(n - m, weight) == n * weight - m * weight
  {
  }

  /** Exactly when service tracks the weight, over every window: the deficits at
      its two ends must differ by less than one largest request. */
  lemma ServiceTracksWeightIff(weights: Weights, ops: seq<Op>, i: nat, j: nat, c: string, most: int)
    requires c in weights && i <= j <= |ops|
    ensures Within(ServedIn(weights, ops, i, j, c), Share(RoundsIn(ops, i, j), weights[c]), most) <==>
            Within(ClientAt(weights, ops, i, c).deficit, ClientAt(weights, ops, j, c).deficit, most)
  {
    ServiceIsShareAndSpent(weights, ops, i, j, c);
  }

  /** Into a window that ends with work held over, it tracks the weight exactly
      when the client did not bring in a whole largest request more than it took
      out: what it hoarded before is the only thing that can break it. */
  lemma HoardIsTheOnlyExcess(weights: Weights, ops: seq<Op>, i: nat, j: nat, c: string, most: int)
    requires c in weights && i <= j <= |ops|
    requires CostsWithin(c, ops, most) && HeldOver(c, weights[c], ops[..j])
    ensures Within(ServedIn(weights, ops, i, j, c), Share(RoundsIn(ops, i, j), weights[c]), most) <==>
            ClientAt(weights, ops, i, c).deficit < most + ClientAt(weights, ops, j, c).deficit
  {
    ServiceTracksWeightIff(weights, ops, i, j, c, most);
    ServiceIsShareAndSpent(weights, ops, i, j, c);
    HeldOverIsLean(c, weights[c], ops[..j], most);
  }

  /** Lean ends are enough: the service of the window is within one largest
      request of the share of its rounds. */
  lemma ServiceTracksWeight(weights: Weights, ops: seq<Op>, i: nat, j: nat, c: string, most: int)
    requires c in weights && i <= j <= |ops|
    requires Lean(weights, ops, i, c, most) && Lean(weights, ops, j, c, most)
    ensures Within(ServedIn(weights, ops, i, j, c), Share(RoundsIn(ops, i, j), weights[c]), most)
  {
    ServiceIsShareAndSpent(weights, ops, i, j, c);
  }

  /** Before the first round every client is lean, however much it has queued; and
      so is a client with work held over at the last round. */
  lemma BackloggedIsLean(weights: Weights, ops: seq<Op>, n: nat, c: string, most: int)
    requires c in weights && n <= |ops| && most > 0 && CostsWithin(c, ops, most)
    requires Rounds(ops[..n]) == 0 || HeldOver(c, weights[c], ops[..n])
    ensures Lean(weights, ops, n, c, most)
  {
    QuantumIsConserved(c, weights[c], ops[..n]);
    if Rounds(ops[..n]) == 0 { NothingServedYet(c, weights[c], ops[..n]); }
    else { HeldOverIsLean(c, weights[c], ops[..n], most); }
  }

  lemma {:induction false} NothingServedYet(name: string, weight: int, ops: seq<Op>)
    requires Rounds(ops) == 0
    ensures After(name, NEW, weight, ops).deficit == 0
  {
    if ops != [] { NothingServedYet(name, weight, ops[..|ops|-1]); }
  }

  // The services x and y stand in the ratio of the weights, up to one largest
  // request each.
  ghost predicate FairGap(x: int, y: int, wa: int, wb: int, most: int) {
    Within(wb * x, wa * y, most * (wa + wb))
  }

  lemma SharesCancel(x: int, y: int, n: int, wa: int, wb: int)
    ensures wb * (Share(n, wa) + x) - wa * (Share(n, wb) + y) == wb * x - wa * y
  {
    assert wb * (n * wa + x) == wb * (n * wa) + wb * x;
    assert wa * (n * wb + y) == wa * (n * wb) + wa * y;
    assert wb * (n * wa) == wa * (n * wb);
  }

  /** Over any window of any trace the rounds cancel: the services of two clients
      are as far apart as what they drew from their deficits. */
  lemma FairSharesIff(weights: Weights, ops: seq<Op>, i: nat, j: nat, a: string, b: string, most: int)
    requires a in weights && b in weights && i <= j <= |ops|
    ensures FairGap(ServedIn(weights, ops, i, j, a), ServedIn(weights, ops, i, j, b), weights[a], weights[b], most) <==>
            FairGap(SpentIn(weights, ops, i, j, a), SpentIn(weights, ops, i, j, b), weights[a], weights[b], most)
  {
    ServiceIsShareAndSpent(weights, ops, i, j, a);
    ServiceIsShareAndSpent(weights, ops, i, j, b);
    SharesCancel(SpentIn(weights, ops, i, j, a), SpentIn(weights, ops, i, j, b),
                 RoundsIn(ops, i, j), weights[a], weights[b]);
  }

  // The deficits da and db are not so far apart that spending all of da and as
  // little as can be of db opens a gap.
  predicate Balanced(da: int, db: int, wa: int, wb: int, most: int) {
    wb * da - wa * db < most * wb + wa
  }

  // What both clients carry after `n` operations is balanced both ways.
  ghost predicate BalancedAt(weights: Weights, ops: seq<Op>, n: nat, a: string, b: string, most: int)
    requires a in weights && b in weights && n <= |ops|
  {
    var da, db := ClientAt(weights, ops, n, a).deficit, ClientAt(weights, ops, n, b).deficit;
    Balanced(da, db, weights[a], weights[b], most) && Balanced(db, da, weights[b], weights[a], most)
  }

  lemma LeanIsBalanced(weights: Weights, ops: seq<Op>, n: nat, a: string, b: string, most: int)
    requires a in weights && b in weights && n <= |ops|
    requires Lean(weights, ops, n, a, most) && Lean(weights, ops, n, b, most)
    ensures BalancedAt(weights, ops, n, a, b, most)
  {
    QuantumIsConserved(a, weights[a], ops[..n]);
    QuantumIsConserved(b, weights[b], ops[..n]);
    var da, db := ClientAt(weights, ops, n, a).deficit, ClientAt(weights, ops, n, b).deficit;
    ScaledBelow(da, most, weights[b]);
    ScaledBelow(db, most, weights[a]);
  }

  lemma ScaledBelow(x: int, most: int, w: int)
    requires 0 <= x < most && w > 0
    ensures 0 <= w * x <= most * w - w
  {
    assert w * (most - 1 - x) >= 0;
    assert w * (most - 1 - x) == most * w - w - w * x;
  }

  lemma GapAtEnd(da: int, ea: int, db: int, eb: int, wa: int, wb: int)
    ensures wb * (da - ea) - wa * (db - eb) == (wb * da - wa * db) - wb * ea + wa * eb
  {
    assert wb * (da - ea) == wb * da - wb * ea && wa * (db - eb) == wa * db - wa * eb;
  }

  lemma BalancedIsFair(da: int, ea: int, db: int, eb: int, wa: int, wb: int, most: int)
    requires wa > 0 && wb > 0 && 0 <= ea < most && 0 <= eb < most
    requires Balanced(da, db, wa, wb, most) && Balanced(db, da, wb, wa, most)
    ensures FairGap(da - ea, db - eb, wa, wb, most)
  {
    GapAtEnd(da, ea, db, eb, wa, wb);
    ScaledBelow(ea, most, wb);
    ScaledBelow(eb, most, wa);
    assert most * (wa + wb) == most * wa + most * wb;
  }

  /** Fairness: over a window at whose start clients a and b carry balanced
      deficits, and at whose end each carries less than one largest request, their
      service differs from the ratio of their weights by less than one largest
      request each, whatever any client enqueues. */
  lemma FairShares(weights: Weights, ops: seq<Op>, i: nat, j: nat, a: string, b: string, most: int)
    requires a in weights && b in weights && i <= j <= |ops|
    requires BalancedAt(weights, ops, i, a, b, most)
    requires Lean(weights, ops, j, a, most) && Lean(weights, ops, j, b, most)
    ensures FairGap(ServedIn(weights, ops, i, j, a), ServedIn(weights, ops, i, j, b), weights[a], weights[b], most)
  {
    ServiceIsShareAndSpent(weights, ops, i, j, a);
    ServiceIsShareAndSpent(weights, ops, i, j, b);
    BalancedIsFair(ClientAt(weights, ops, i, a).deficit, ClientAt(weights, ops, j, a).deficit,
                   ClientAt(weights, ops, i, b).deficit, ClientAt(weights, ops, j, b).deficit,
                   weights[a], weights[b], most);
    FairSharesIff(weights, ops, i, j, a, b, most);
  }

  // How many requests the rounds among `ops` have served.
  function Pops(name: string, c: Client, weight: int, ops: seq<Op>): int {
    if ops == [] then 0
    else
      var init := ops[..|ops|-1];
      Pops(name, c, weight, init) +
      match ops[|ops|-1]
      case Enqueue(_, _) => 0
      case Round => |After(name, c, weight, init).queue| - |After(name, c, weight, ops).queue|
  }

  lemma {:induction false} PopsOnlyGrow(name: string, c: Client, weight: int, ops: seq<Op>)
    ensures Pops(name, c, weight, ops) >= 0
  {
    if ops != [] {
      var init := ops[..|ops|-1];
      PopsOnlyGrow(name, c, weight, init);
      var before := After(name, c, weight, init);
      ServeConserves(before.(deficit := before.deficit + weight));
    }
  }

  // While nothing has been served, every quantum is saved up for the head.
  lemma {:induction false} UnservedHeadSavesUp(name: string, c: Client, weight: int, ops: seq<Op>)
    requires c.queue != [] && Pops(name, c, weight, ops) == 0
    ensures var d := After(name, c, weight, ops);
      && d.queue != [] && d.queue[0] == c.queue[0]
      && d.deficit == c.deficit + Share(Rounds(ops), weight)
      && (Rounds(ops) > 0 ==> d.deficit < d.queue[0])
  {
    if ops != [] {
      var init := ops[..|ops|-1];
      PopsOnlyGrow(name, c, weight, init);
      var before := After(name, c, weight, init);
      var granted := before.(deficit := before.deficit + weight);
      ServeConserves(granted);
      UnservedHeadSavesUp(name, c, weight, init);
      NextShare(Rounds(init), weight);
      if ops[|ops|-1].Round? {
        ServeLeavesOrTakes(granted);
      }
    }
  }

  lemma NextShare(rounds: int, weight: int)
    ensures Share(rounds + 1, weight) == Share(rounds, weight) + weight
  {
  }

  lemma ServeLeavesOrTakes(c: Client)
    ensures Serve(c) == c || |Serve(c).queue| < |c.queue|
  {
    if c.queue != [] && c.queue[0] <= c.deficit {
      ServeConserves(Client(c.queue[1..], c.deficit - c.queue[0], c.served + c.queue[0]));
    }
  }

  /** No starvation: a request at the head of a queue is served by the time the
      rounds have granted its cost, whatever any client enqueues meanwhile. */
  lemma HeadIsServedInTime(name: string, c: Client, weight: int, ops: seq<Op>)
    requires c.queue != [] && Rounds(ops) > 0
    requires c.queue[0] <= c.deficit + Share(Rounds(ops), weight)
    ensures Pops(name, c, weight, ops) > 0
  {
    PopsOnlyGrow(name, c, weight, ops);
    if Pops(name, c, weight, ops) == 0 { UnservedHeadSavesUp(name, c, weight, ops); }
  }

  /** The quantum of an idle client is hoarded, not passed over: every round over
      an empty queue adds the whole weight to the carried deficit. */
  lemma {:induction false} IdleQuantumIsHoarded(name: string, c: Client, weight: int, ops: seq<Op>)
    requires c.queue == []
    requires forall i :: 0 <= i < |ops| && ops[i].Enqueue? ==> ops[i].client != name
    ensures After(name, c, weight, ops) == c.(deficit := c.deficit + Share(Rounds(ops), weight))
  {
    if ops != [] {
      var init := ops[..|ops|-1];
      IdleQuantumIsHoarded(name, c, weight, init);
      NextShare(Rounds(init), weight);
    }
  }

  // ---- what the hoard costs: a burst after idle rounds

  function Ones(n: nat): seq<int> {
    seq(n, _ => 1)
  }

  function Arrivals(client: string, n: nat): seq<Op> {
    seq(n, _ => Op.Enqueue(client, 1))
  }

  function IdleRounds(n: nat): seq<Op> {
    seq(n, _ => Op.Round)
  }

  lemma {:induction false} AfterConcat(name: string, c: Client, weight: int, xs: seq<Op>, ys: seq<Op>)
    ensures After(name, c, weight, xs + ys) == After(name, After(name, c, weight, xs), weight, ys)
    decreases |ys|
  {
    if ys == [] {
      assert xs + ys == xs;
    } else {
      assert (xs + ys)[..|xs + ys|-1] == xs + ys[..|ys|-1];
      AfterConcat(name, c, weight, xs, ys[..|ys|-1]);
    }
  }

  lemma {:induction false} AfterArrivals(name: string, c: Client, weight: int, client: string, n: nat)
    ensures After(name, c, weight, Arrivals(client, n)) ==
            if client == name then c.(queue := c.queue + Ones(n)) else c
  {
    if n == 0 {
      assert c.queue + Ones(0) == c.queue;
    } else {
      assert Arrivals(client, n)[..n-1] == Arrivals(client, n - 1);
      AfterArrivals(name, c, weight, client, n - 1);
      assert Ones(n) == Ones(n - 1) + [1];
      assert c.queue + Ones(n - 1) + [1] == c.queue + Ones(n);
    }
  }

  lemma {:induction false} ServeOnes(n: nat, d: nat, served: int)
    requires d <= n
    ensures Serve(Client(Ones(n), d, served)) == Client(Ones(n - d), 0, served + d)
    decreases d
  {
    if d > 0 {
      assert Ones(n)[1..] == Ones(n - 1);
      ServeOnes(n - 1, d - 1, served + 1);
    }
  }

  // One unit a round is served from a queue of units.
  lemma {:induction false} AfterSteadyRounds(name: string, n: nat, k: nat)
    requires k <= n
    ensures After(name, Client(Ones(n), 0, 0), 1, IdleRounds(k)) == Client(Ones(n - k), 0, k)
  {
    if k > 0 {
      assert IdleRounds(k)[..k-1] == IdleRounds(k - 1);
      AfterSteadyRounds(name, n, k - 1);
      ServeOnes(n - (k - 1), 1, k - 1);
    }
  }

  lemma {:induction false} RoundsOfIdle(k: nat)
    ensures Rounds(IdleRounds(k)) == k
  {
    if k > 0 {
      assert IdleRounds(k)[..k-1] == IdleRounds(k - 1);
      RoundsOfIdle(k - 1);
    }
  }

  // Client b is busy throughout; client a is idle for k rounds and then bursts.
  function BeforeBurst(a: string, b: string, k: nat): seq<Op> {
    Arrivals(b, k + 2) + IdleRounds(k) + Arrivals(a, k + 2)
  }

  lemma BusyBeforeBurst(a: string, b: string, k: nat)
    requires a != b
    ensures After(b, NEW, 1, BeforeBurst(a, b, k)) == Client(Ones(2), 0, k)
  {
    AfterConcat(b, NEW, 1, Arrivals(b, k + 2) + IdleRounds(k), Arrivals(a, k + 2));
    AfterConcat(b, NEW, 1, Arrivals(b, k + 2), IdleRounds(k));
    AfterArrivals(b, NEW, 1, b, k + 2);
    assert [] + Ones(k + 2) == Ones(k + 2);
    AfterSteadyRounds(b, k + 2, k);
    AfterArrivals(b, Client(Ones(2), 0, k), 1, a, k + 2);
  }

  lemma IdleBeforeBurst(a: string, b: string, k: nat)
    requires a != b
    ensures After(a, NEW, 1, BeforeBurst(a, b, k)) == Client(Ones(k + 2), k, 0)
  {
    AfterConcat(a, NEW, 1, Arrivals(b, k + 2) + IdleRounds(k), Arrivals(a, k + 2));
    AfterConcat(a, NEW, 1, Arrivals(b, k + 2), IdleRounds(k));
    AfterArrivals(a, NEW, 1, b, k + 2);
    IdleQuantumIsHoarded(a, NEW, 1, IdleRounds(k));
    RoundsOfIdle(k);
    AfterArrivals(a, Client([], k, 0), 1, a, k + 2);
    assert [] + Ones(k + 2) == Ones(k + 2);
  }

  /** Backlog at both ends is not enough, by any margin: with equal weights and
      unit costs, both clients queued at both ends of one round, the client that
      was idle for k rounds is served k + 1 and the busy one 1. The window is fair
      exactly while fewer than two rounds were hoarded. */
  lemma BurstAfterIdleIsUnfair(a: string, b: string, k: nat)
    requires a != b
    ensures var weights: Weights := map[a := 1, b := 1];
      var ops, i := BeforeBurst(a, b, k) + [Op.Round], |BeforeBurst(a, b, k)|;
      && CostsWithin(a, ops, 1) && CostsWithin(b, ops, 1) && RoundsIn(ops, i, i + 1) == 1
      && ClientAt(weights, ops, i, a).queue != [] && ClientAt(weights, ops, i + 1, a).queue != []
      && ClientAt(weights, ops, i, b).queue != [] && ClientAt(weights, ops, i + 1, b).queue != []
      && ServedIn(weights, ops, i, i + 1, a) == k + 1 && ServedIn(weights, ops, i, i + 1, b) == 1
      && (FairGap(ServedIn(weights, ops, i, i + 1, a), ServedIn(weights, ops, i, i + 1, b), 1, 1, 1) <==> k < 2)
  {
    var before := BeforeBurst(a, b, k);
    var ops, i := before + [Op.Round], |before|;
    assert ops[..i] == before && ops[..i+1] == ops && ops[..|ops|-1] == before;
    IdleBeforeBurst(a, b, k);
    BusyBeforeBurst(a, b, k);
    RoundAfterBurst(a, b, k);
  }

  lemma RoundAfterBurst(a: string, b: string, k: nat)
    requires a != b
    ensures After(a, NEW, 1, BeforeBurst(a, b, k) + [Op.Round]) == Client(Ones(1), 0, k + 1)
    ensures After(b, NEW, 1, BeforeBurst(a, b, k) + [Op.Round]) == Client(Ones(1), 0, k + 1)
  {
    var before := BeforeBurst(a, b, k);
    assert (before + [Op.Round])[..|before|] == before;
    IdleBeforeBurst(a, b, k);
    BusyBeforeBurst(a, b, k);
    ServeOnes(k + 2, k + 1, 0);
    ServeOnes(2, 1, k);
  }

  // ---- what a client may bring into a window

  // Left alone, every queue runs empty.
  lemma {:induction false} RunsEmpty(name: string, c: Client, weight: int) returns (n: nat)
    requires weight > 0
    ensures After(name, c, weight, IdleRounds(n)).queue == []
    decreases |c.queue|, if c.queue != [] && c.deficit < c.queue[0] then c.queue[0] - c.deficit else 0
  {
    if c.queue == [] {
      n := 0;
    } else {
      ServeLeavesOrTakes(c.(deficit := c.deficit + weight));
      ServeConserves(c.(deficit := c.deficit + weight));
      n := RunsEmpty(name, RoundOf(c, weight), weight);
      OneRoundFirst(name, c, weight, n);
      n := n + 1;
    }
  }

  lemma OneRoundFirst(name: string, c: Client, weight: int, n: nat)
    ensures After(name, c, weight, IdleRounds(n + 1)) == After(name, RoundOf(c, weight), weight, IdleRounds(n))
  {
    assert IdleRounds(n + 1) == [Op.Round] + IdleRounds(n);
    AfterConcat(name, c, weight, [Op.Round], IdleRounds(n));
    assert [Op.Round][..0] == [];
  }

  // From an empty queue, a long enough burst takes the whole deficit in a round.
  lemma BurstTakesAll(name: string, c: Client, weight: int, n: nat)
    requires weight > 0 && c.queue == [] && c.deficit >= 0 && n == c.deficit + weight + 1
    ensures After(name, c, weight, Arrivals(name, n) + [Op.Round]) == Client([1], 0, c.served + c.deficit + weight)
  {
    var ops := Arrivals(name, n) + [Op.Round];
    assert ops[..|ops|-1] == Arrivals(name, n);
    AfterArrivals(name, c, weight, name, n);
    assert [] + Ones(n) == Ones(n);
    ServeOnes(n, c.deficit + weight, c.served);
    assert Ones(1) == [1];
  }

  lemma BurstCosts(name: string, ops: seq<Op>, n: nat, most: int)
    requires most >= 1 && CostsWithin(name, ops, most)
    ensures CostsWithin(name, ops + (Arrivals(name, n) + [Op.Round]), most)
  {
  }

  lemma EmptyQueueCanSpendAll(name: string, weight: int, ops: seq<Op>, most: int) returns (burst: seq<Op>)
    requires weight > 0 && most >= 1 && CostsWithin(name, ops, most)
    requires After(name, NEW, weight, ops).queue == []
    ensures CostsWithin(name, ops + burst, most) && HeldOver(name, weight, ops + burst)
    ensures After(name, NEW, weight, ops + burst).deficit == 0
  {
    QuantumIsConserved(name, weight, ops);
    var c := After(name, NEW, weight, ops);
    var n := c.deficit + weight + 1;
    burst := Arrivals(name, n) + [Op.Round];
    BurstTakesAll(name, c, weight, n);
    AfterConcat(name, NEW, weight, ops, burst);
    BurstCosts(name, ops, n, most);
    var all := ops + burst;
    assert all[|all|-1] == Op.Round;
  }

  // After any trace: rounds until the queue is empty, and then such a burst.
  lemma EverythingCanBeSpent(name: string, weight: int, ops: seq<Op>, most: int) returns (more: seq<Op>)
    requires weight > 0 && most >= 1 && CostsWithin(name, ops, most)
    ensures CostsWithin(name, ops + more, most) && HeldOver(name, weight, ops + more)
    ensures After(name, NEW, weight, ops + more).deficit == 0
  {
    var idle := RunsEmpty(name, After(name, NEW, weight, ops), weight);
    AfterConcat(name, NEW, weight, ops, IdleRounds(idle));
    var burst := EmptyQueueCanSpendAll(name, weight, ops + IdleRounds(idle), most);
    more := IdleRounds(idle) + burst;
    assert ops + more == ops + IdleRounds(idle) + burst;
  }

  // Every window from here to a point with work held over tracks the weight.
  ghost predicate AlwaysTracks(weights: Weights, ops: seq<Op>, c: string, most: int)
    requires c in weights
  {
    forall more :: CostsWithin(c, ops + more, most) && HeldOver(c, weights[c], ops + more) ==>
      Tracks(weights, ops + more, |ops|, c, most)
  }

  // From the i-th operation to the end of the trace, service tracks the weight.
  ghost predicate Tracks(weights: Weights, ops: seq<Op>, i: nat, c: string, most: int)
    requires c in weights && i <= |ops|
  {
    Within(ServedIn(weights, ops, i, |ops|, c), Share(RoundsIn(ops, i, |ops|), weights[c]), most)
  }

  /** The guarantee a client can read off before a window begins: service will
      track the weight, whatever arrives, exactly when the deficit the client
      brings in is less than one largest request. */
  lemma AlwaysTracksIffLean(weights: Weights, ops: seq<Op>, c: string, most: int)
    requires c in weights && most >= 1 && CostsWithin(c, ops, most)
    ensures AlwaysTracks(weights, ops, c, most) <==> Lean(weights, ops, |ops|, c, most)
  {
    if Lean(weights, ops, |ops|, c, most) {
      forall more | CostsWithin(c, ops + more, most) && HeldOver(c, weights[c], ops + more)
        ensures Tracks(weights, ops + more, |ops|, c, most)
      {
        LeanStartTracks(weights, ops, more, c, most);
      }
    } else {
      var more := EverythingCanBeSpent(c, weights[c], ops, most);
      HoardBreaksTracking(weights, ops, more, c, most);
    }
  }

  lemma LeanStartTracks(weights: Weights, ops: seq<Op>, more: seq<Op>, c: string, most: int)
    requires c in weights && CostsWithin(c, ops + more, most) && HeldOver(c, weights[c], ops + more)
    requires Lean(weights, ops, |ops|, c, most)
    ensures Tracks(weights, ops + more, |ops|, c, most)
  {
    var all := ops + more;
    assert ops[..|ops|] == ops == all[..|ops|] && all[..|all|] == all;
    HeldOverIsLean(c, weights[c], all, most);
    ServiceTracksWeight(weights, all, |ops|, |all|, c, most);
  }

  lemma HoardBreaksTracking(weights: Weights, ops: seq<Op>, more: seq<Op>, c: string, most: int)
    requires c in weights && !Lean(weights, ops, |ops|, c, most)
    requires After(c, NEW, weights[c], ops + more).deficit == 0
    ensures !Tracks(weights, ops + more, |ops|, c, most)
  {
    var all := ops + more;
    assert ops[..|ops|] == ops == all[..|ops|] && all[..|all|] == all;
    ServiceTracksWeightIff(weights, all, |ops|, |all|, c, most);
  }

  // ---- what two clients may bring into a window

  // Both clients keep within `most` and have work held over at the last round.
  ghost predicate BothBusy(weights: Weights, ops: seq<Op>, a: string, b: string, most: int)
    requires a in weights && b in weights
  {
    && CostsWithin(a, ops, most) && CostsWithin(b, ops, most)
    && HeldOver(a, weights[a], ops) && HeldOver(b, weights[b], ops)
  }

  // From the i-th operation to the end of the trace, a and b are served fairly.
  ghost predicate Fair(weights: Weights, ops: seq<Op>, i: nat, a: string, b: string, most: int)
    requires a in weights && b in weights && i <= |ops|
  {
    FairGap(ServedIn(weights, ops, i, |ops|, a), ServedIn(weights, ops, i, |ops|, b), weights[a], weights[b], most)
  }

  // Every window from here to a point with work of both held over is fair.
  ghost predicate AlwaysFair(weights: Weights, ops: seq<Op>, a: string, b: string, most: int)
    requires a in weights && b in weights
  {
    forall more :: BothBusy(weights, ops + more, a, b, most) ==> Fair(weights, ops + more, |ops|, a, b, most)
  }

  // A client left alone once its queue is empty only saves up.
  lemma SavesUp(name: string, c: Client, weight: int, m: nat, n: nat)
    requires weight > 0 && m <= n
    requires After(name, c, weight, IdleRounds(m)).queue == []
    ensures var before, d := After(name, c, weight, IdleRounds(m)), After(name, c, weight, IdleRounds(n));
      d.queue == [] && d.deficit >= before.deficit + (n - m)
  {
    assert IdleRounds(n) == IdleRounds(m) + IdleRounds(n - m);
    AfterConcat(name, c, weight, IdleRounds(m), IdleRounds(n - m));
    IdleQuantumIsHoarded(name, After(name, c, weight, IdleRounds(m)), weight, IdleRounds(n - m));
    RoundsOfIdle(n - m);
    AtLeastOneEach(n - m, weight);
  }

  lemma AtLeastOneEach(rounds: nat, weight: int)
    requires weight > 0
    ensures Share(rounds, weight) >= rounds
  {
    assert rounds * (weight - 1) >= 0;
  }

  // Left alone long enough, a client has an empty queue and a deficit to spare.
  lemma EmptyWithHoard(name: string, weight: int, ops: seq<Op>, hoard: nat) returns (n: nat)
    requires weight > 0
    ensures forall k {:trigger IdleRounds(k)} :: k >= n ==> Hoards(name, weight, ops + IdleRounds(k), hoard)
  {
    var c := After(name, NEW, weight, ops);
    var idle := RunsEmpty(name, c, weight);
    AfterConcat(name, NEW, weight, ops, IdleRounds(idle));
    QuantumIsConserved(name, weight, ops + IdleRounds(idle));
    n := idle + hoard;
    forall k {:trigger IdleRounds(k)} | k >= n ensures Hoards(name, weight, ops + IdleRounds(k), hoard) {
      SavesUp(name, c, weight, idle, k);
      AfterConcat(name, NEW, weight, ops, IdleRounds(k));
    }
  }

  ghost predicate Hoards(name: string, weight: int, ops: seq<Op>, hoard: nat) {
    var c := After(name, NEW, weight, ops);
    c.queue == [] && c.deficit >= hoard
  }

  // The worst burst: units for a to spend everything on, units for b to spend down
  // to most - 1 on and then a request of cost `most`, and one round.
  function WorstBurst(a: string, m: nat, b: string, n: nat, most: int): seq<Op> {
    Arrivals(a, m) + (Arrivals(b, n) + [Op.Enqueue(b, most), Op.Round])
  }

  lemma AfterOne(name: string, c: Client, weight: int, op: Op)
    ensures After(name, c, weight, [op]) == Step(name, c, weight, op)
  {
    assert [op][..0] == [];
  }

  lemma EndOfWorstBurst(name: string, c: Client, weight: int, b: string, most: int)
    ensures After(name, c, weight, [Op.Enqueue(b, most), Op.Round]) ==
            RoundOf(if name == b then c.(queue := c.queue + [most]) else c, weight)
  {
    var ops := [Op.Enqueue(b, most), Op.Round];
    assert ops[..|ops|-1] == [Op.Enqueue(b, most)];
    AfterOne(name, c, weight, Op.Enqueue(b, most));
  }

  lemma AfterWorstBurst(name: string, c: Client, weight: int, a: string, m: nat, b: string, n: nat, most: int)
    requires c.queue == []
    ensures name == a != b ==>
      After(name, c, weight, WorstBurst(a, m, b, n, most)) == RoundOf(c.(queue := Ones(m)), weight)
    ensures name == b != a ==>
      After(name, c, weight, WorstBurst(a, m, b, n, most)) == RoundOf(c.(queue := Ones(n) + [most]), weight)
  {
    var tail := [Op.Enqueue(b, most), Op.Round];
    var first := After(name, c, weight, Arrivals(a, m));
    AfterConcat(name, c, weight, Arrivals(a, m), Arrivals(b, n) + tail);
    AfterArrivals(name, c, weight, a, m);
    AfterConcat(name, first, weight, Arrivals(b, n), tail);
    AfterArrivals(name, first, weight, b, n);
    EndOfWorstBurst(name, After(name, first, weight, Arrivals(b, n)), weight, b, most);
    assert [] + Ones(m) == Ones(m) && [] + Ones(n) == Ones(n);
  }

  lemma SpendsAll(a: string, c: Client, weight: int, m: nat, b: string, n: nat, most: int)
    requires a != b && c.queue == [] && c.deficit >= 0 && weight > 0 && m == c.deficit + weight + 1
    ensures var d := After(a, c, weight, WorstBurst(a, m, b, n, most));
      d.queue != [] && d.deficit == 0
  {
    AfterWorstBurst(a, c, weight, a, m, b, n, most);
    ServeOnes(m, c.deficit + weight, c.served);
  }

  // Units are served one by one until the deficit no longer covers what follows.
  lemma {:induction false} ServeOnesBefore(n: nat, cost: int, d: int, served: int)
    requires 0 <= d < cost
    ensures Serve(Client(Ones(n) + [cost], n + d, served)) == Client([cost], d, served + n)
    decreases n
  {
    if n == 0 {
      assert Ones(0) + [cost] == [cost];
    } else {
      assert (Ones(n) + [cost])[1..] == Ones(n - 1) + [cost];
      ServeOnesBefore(n - 1, cost, d, served + 1);
    }
  }

  lemma KeepsMost(a: string, m: nat, b: string, c: Client, weight: int, n: nat, most: int)
    requires a != b && c.queue == [] && most >= 1 && n + most - 1 == c.deficit + weight
    ensures var d := After(b, c, weight, WorstBurst(a, m, b, n, most));
      d.queue != [] && d.deficit == most - 1
  {
    AfterWorstBurst(b, c, weight, a, m, b, n, most);
    ServeOnesBefore(n, most, most - 1, c.served);
  }

  lemma CostsOfConcat(name: string, xs: seq<Op>, ys: seq<Op>, most: int)
    requires CostsWithin(name, xs, most) && CostsWithin(name, ys, most)
    ensures CostsWithin(name, xs + ys, most)
  {
  }

  lemma CostsOfWorstBurst(name: string, a: string, m: nat, b: string, n: nat, most: int)
    requires most >= 1
    ensures CostsWithin(name, WorstBurst(a, m, b, n, most), most)
  {
    CostsOfConcat(name, Arrivals(b, n), [Op.Enqueue(b, most), Op.Round], most);
    CostsOfConcat(name, Arrivals(a, m), Arrivals(b, n) + [Op.Enqueue(b, most), Op.Round], most);
  }

  // From empty queues, and enough carried by b, the worst burst leaves both busy.
  lemma BurstIsWorst(weights: Weights, ops: seq<Op>, a: string, b: string, most: int) returns (burst: seq<Op>)
    requires a in weights && b in weights && a != b && most >= 1
    requires CostsWithin(a, ops, most) && CostsWithin(b, ops, most)
    requires Hoards(a, weights[a], ops, 0) && Hoards(b, weights[b], ops, most - 1)
    ensures BothBusy(weights, ops + burst, a, b, most)
    ensures After(a, NEW, weights[a], ops + burst).deficit == 0
    ensures After(b, NEW, weights[b], ops + burst).deficit == most - 1
  {
    var ca, cb := After(a, NEW, weights[a], ops), After(b, NEW, weights[b], ops);
    var m, n := ca.deficit + weights[a] + 1, cb.deficit + weights[b] - (most - 1);
    burst := WorstBurst(a, m, b, n, most);
    SpendsAll(a, ca, weights[a], m, b, n, most);
    KeepsMost(a, m, b, cb, weights[b], n, most);
    AfterConcat(a, NEW, weights[a], ops, burst);
    AfterConcat(b, NEW, weights[b], ops, burst);
    CostsOfWorstBurst(a, a, m, b, n, most);
    CostsOfWorstBurst(b, a, m, b, n, most);
    CostsOfConcat(a, ops, burst, most);
    CostsOfConcat(b, ops, burst, most);
    assert burst[|burst|-1] == Op.Round;
    var all := ops + burst;
    assert all[|all|-1] == Op.Round;
  }

  // After any trace: rounds until both queues are empty, and then the worst burst.
  lemma WorstWindow(weights: Weights, ops: seq<Op>, a: string, b: string, most: int) returns (more: seq<Op>)
    requires a in weights && b in weights && a != b && most >= 1
    requires CostsWithin(a, ops, most) && CostsWithin(b, ops, most)
    ensures BothBusy(weights, ops + more, a, b, most)
    ensures After(a, NEW, weights[a], ops + more).deficit == 0
    ensures After(b, NEW, weights[b], ops + more).deficit == most - 1
  {
    var m := EmptyWithHoard(a, weights[a], ops, 0);
    var n := EmptyWithHoard(b, weights[b], ops, most - 1);
    var idle := IdleRounds(m + n);
    CostsOfConcat(a, ops, idle, most);
    CostsOfConcat(b, ops, idle, most);
    var burst := BurstIsWorst(weights, ops + idle, a, b, most);
    more := idle + burst;
    assert ops + more == ops + idle + burst;
  }

  // The worst window is fair only from balanced deficits.
  lemma WorstWindowNeedsBalance(weights: Weights, ops: seq<Op>, a: string, b: string, most: int, more: seq<Op>)
    requires a in weights && b in weights
    requires After(a, NEW, weights[a], ops + more).deficit == 0
    requires After(b, NEW, weights[b], ops + more).deficit == most - 1
    requires FairGap(ServedIn(weights, ops + more, |ops|, |ops + more|, a),
                     ServedIn(weights, ops + more, |ops|, |ops + more|, b), weights[a], weights[b], most)
    ensures Balanced(ClientAt(weights, ops, |ops|, a).deficit, ClientAt(weights, ops, |ops|, b).deficit,
                     weights[a], weights[b], most)
  {
    var all, wa, wb := ops + more, weights[a], weights[b];
    assert ops[..|ops|] == ops == all[..|ops|] && all[..|all|] == all;
    FairSharesIff(weights, all, |ops|, |all|, a, b, most);
    var da, db := ClientAt(weights, ops, |ops|, a).deficit, ClientAt(weights, ops, |ops|, b).deficit;
    FairAtWorst(da, db, wa, wb, most);
  }

  lemma FairAtWorst(da: int, db: int, wa: int, wb: int, most: int)
    requires FairGap(da - 0, db - (most - 1), wa, wb, most)
    ensures Balanced(da, db, wa, wb, most)
  {
    GapAtEnd(da, 0, db, most - 1, wa, wb);
    assert wa * (most - 1) == most * wa - wa;
    assert most * (wa + wb) == most * wa + most * wb;
  }

  lemma FairGapIsSymmetric(x: int, y: int, wa: int, wb: int, most: int)
    requires FairGap(x, y, wa, wb, most)
    ensures FairGap(y, x, wb, wa, most)
  {
    assert wa + wb == wb + wa;
  }

  lemma AlwaysFairNeedsBalance(weights: Weights, ops: seq<Op>, a: string, b: string, most: int)
    requires a in weights && b in weights && a != b && most >= 1
    requires CostsWithin(a, ops, most) && CostsWithin(b, ops, most)
    requires AlwaysFair(weights, ops, a, b, most)
    ensures Balanced(ClientAt(weights, ops, |ops|, a).deficit, ClientAt(weights, ops, |ops|, b).deficit,
                     weights[a], weights[b], most)
  {
    var more := WorstWindow(weights, ops, a, b, most);
    assert Fair(weights, ops + more, |ops|, a, b, most);
    WorstWindowNeedsBalance(weights, ops, a, b, most, more);
  }

  lemma AlwaysFairIsSymmetric(weights: Weights, ops: seq<Op>, a: string, b: string, most: int)
    requires a in weights && b in weights
    requires AlwaysFair(weights, ops, a, b, most)
    ensures AlwaysFair(weights, ops, b, a, most)
  {
    forall more | BothBusy(weights, ops + more, b, a, most) ensures Fair(weights, ops + more, |ops|, b, a, most) {
      var all := ops + more;
      assert BothBusy(weights, all, a, b, most);
      assert Fair(weights, all, |ops|, a, b, most);
      FairGapIsSymmetric(ServedIn(weights, all, |ops|, |all|, a), ServedIn(weights, all, |ops|, |all|, b),
                         weights[a], weights[b], most);
    }
  }

  lemma BalancedStartIsFair(weights: Weights, ops: seq<Op>, more: seq<Op>, a: string, b: string, most: int)
    requires a in weights && b in weights
    requires BalancedAt(weights, ops, |ops|, a, b, most) && BothBusy(weights, ops + more, a, b, most)
    ensures Fair(weights, ops + more, |ops|, a, b, most)
  {
    var all := ops + more;
    assert ops[..|ops|] == ops == all[..|ops|] && all[..|all|] == all;
    HeldOverIsLean(a, weights[a], all, most);
    HeldOverIsLean(b, weights[b], all, most);
    FairShares(weights, all, |ops|, |all|, a, b, most);
  }

  /** The guarantee two clients can read off before a window begins: whatever
      arrives, they will have been served fairly at every later point with work of
      both held over, exactly when the deficits they carry now are balanced. */
  lemma AlwaysFairIffBalanced(weights: Weights, ops: seq<Op>, a: string, b: string, most: int)
    requires a in weights && b in weights && a != b && most >= 1
    requires CostsWithin(a, ops, most) && CostsWithin(b, ops, most)
    ensures AlwaysFair(weights, ops, a, b, most) <==> BalancedAt(weights, ops, |ops|, a, b, most)
  {
    if AlwaysFair(weights, ops, a, b, most) {
      AlwaysFairNeedsBalance(weights, ops, a, b, most);
      AlwaysFairIsSymmetric(weights, ops, a, b, most);
      AlwaysFairNeedsBalance(weights, ops, b, a, most);
    }
    if BalancedAt(weights, ops, |ops|, a, b, most) {
      forall more | BothBusy(weights, ops + more, a, b, most) ensures Fair(weights, ops + more, |ops|, a, b, most) {
        BalancedStartIsFair(weights, ops, more, a, b, most);
      }
    }
  }
}
