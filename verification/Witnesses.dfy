/** Runs showing that the overshoot bound is reached, and that every boundary instant can mix windows. */
module Witnesses {
  import opened Base
  import opened Cluster
  import opened Replication
  import opened Overshoot
  import C = Counter
  import T = Tables
  import W = Worker

  lemma RunNext(c: Setup, steps: seq<Step>, s: State, last: Step, s': State)
    requires Run(c, steps) == s && Next(c, s, last) == s'
    ensures Run(c, steps + [last]) == s'
  {
    assert (steps + [last])[..|steps|] == steps;
  }

  lemma TotalNext(c: Setup, steps: seq<Step>, s: State, last: Step, f: Focus, m: Meter)
    requires Run(c, steps) == s
    ensures Total(c, steps + [last], f, m) == Total(c, steps, f, m) + Delta(c, s, last, f, m)
  {
    assert (steps + [last])[..|steps|] == steps;
  }

  lemma MeetsNext(c: Setup, steps: seq<Step>, s: State, last: Step, q: Requirement)
    requires Run(c, steps) == s && Throughout(c, steps, q) && Meets(s, last, q)
    ensures Throughout(c, steps + [last], q)
  {
    assert (steps + [last])[..|steps|] == steps;
  }

  lemma TwoSteps(c: Setup, steps: seq<Step>, s: State, a: Step, s': State, b: Step, f: Focus, m: Meter, q: Requirement)
    requires Run(c, steps) == s && Next(c, s, a) == s'
    ensures Run(c, steps + [a] + [b]) == Next(c, s', b)
    ensures Total(c, steps + [a] + [b], f, m) == Total(c, steps, f, m) + Delta(c, s, a, f, m) + Delta(c, s', b, f, m)
    ensures Throughout(c, steps, q) && Meets(s, a, q) && Meets(s', b, q) ==> Throughout(c, steps + [a] + [b], q)
  {
    hide Delta, Meets, Next;
    RunNext(c, steps, s, a, s');
    TotalNext(c, steps, s, a, f, m);
    RunNext(c, steps + [a], s', b, Next(c, s', b));
    TotalNext(c, steps + [a], s', b, f, m);
    if Throughout(c, steps, q) && Meets(s, a, q) && Meets(s', b, q) {
      MeetsNext(c, steps, s, a, q);
      MeetsNext(c, steps + [a], s', b, q);
    }
  }

  lemma EmptyRun(c: Setup)
    ensures Run(c, []) == Init(c)
  {
  }

  lemma EmptyTotal(c: Setup, f: Focus, m: Meter)
    ensures Total(c, [], f, m) == 0
  {
  }

  lemma EmptyMeets(c: Setup, q: Requirement)
    ensures Throughout(c, [], q)
  {
  }

  const IDLE := Node(map[], [], map[])

  // ---- The overshoot bound is reached -----------------------------------------------------------------

  const HALF_SECOND := 500_000_000

  lemma HalfSecond()
    ensures C.GenExpiry(HALF_SECOND, 1) == C.SECOND
    ensures !OnBoundary(HALF_SECOND, 1)
  {
    assert 0 == 0 * C.Span(1);
    if C.Aligned(HALF_SECOND, C.Span(1)) {
      C.AlignedApart(HALF_SECOND, 0, C.Span(1));
    }
  }

  function Nodes(n: nat, unsynced: nat): Setup { Setup(Unbounded, n, HALF_SECOND, unsynced) }

  function Counted(count: int): T.Table { map["k" := C.Entry(C.SECOND, count)] }

  function Sent(count: int): Command { T.Command("k", count, C.SECOND, false) }

  function Ask(i: nat, count: int, limit: nat): Step { Call(i, "k", count, limit, 1) }

  /** The first k nodes, one after the other, each allow as much as their workers may hold back. */
  function HoldingBack(k: nat, limit: nat, held: nat): seq<Step> {
    if k == 0 then [] else HoldingBack(k - 1, limit, held) + [Ask(k - 1, held, limit)] + [Dequeue(k - 1)]
  }

  /** They have, and their workers hold it. */
  function Holding(n: nat, k: nat, held: nat): State {
    State(HALF_SECOND, seq(n, i => if i < k then Node(Counted(held), [], map["k" := Sent(held)]) else IDLE), [])
  }

  /** The same, with node k's command still in its channel. */
  function Waiting(n: nat, k: nat, held: nat): State
    requires k < n
  {
    var s := Holding(n, k, held);
    s.(nodes := s.nodes[k := Node(Counted(held), [Sent(held)], map[])])
  }

  lemma HoldCall(n: nat, k: nat, limit: nat, held: nat, ctr: nat)
    requires k < n && held <= limit
    ensures Next(Nodes(n, ctr), Holding(n, k, held), Ask(k, held, limit)) == Waiting(n, k, held)
  {
    HalfSecond();
    hide C.GenExpiry;
    var s := Holding(n, k, held);
    assert s.nodes[k] == IDLE;
    assert Served(Nodes(n, ctr), s, Ask(k, held, limit))
        == (Counted(held), C.Response(false, C.SECOND, false));
    assert [] + [Sent(held)] == [Sent(held)];
  }

  lemma HoldTake(n: nat, k: nat, held: nat, ctr: nat)
    requires k < n && held <= ctr
    ensures Next(Nodes(n, ctr), Waiting(n, k, held), Dequeue(k)) == Holding(n, k + 1, held)
  {
    var c, s := Nodes(n, ctr), Waiting(n, k, held);
    var (m, sent) := W.Receive(Unbounded, ctr, map[], Sent(held));
    assert m == map["k" := Sent(held)] && sent == [];
    assert [Sent(held)][1..] == [] && [] + SendAll(k, n, []) == [];
    assert Worked(c, s.nodes[k], Dequeue(k)) == (Node(Counted(held), [], m), []);
    assert s.nodes[k := Node(Counted(held), [], m)] == Holding(n, k + 1, held).nodes;
  }

  ghost predicate BoundRequires(q: Requirement, limit: nat) {
    q in {Windowed("k", 1), Apart("k", 1), Limited("k", limit), Prompt("k"), Lossless("k")}
  }

  lemma AskMeets(n: nat, k: nat, count: nat, limit: nat, held: nat, q: Requirement)
    requires BoundRequires(q, limit) && k <= n
    ensures Meets(Holding(n, k, held), Ask(k, count, limit), q)
  {
    HalfSecond();
  }

  lemma TakingMeets(s: State, k: nat, limit: nat, q: Requirement)
    requires BoundRequires(q, limit)
    ensures Meets(s, Dequeue(k), q)
  {
  }

  lemma AskAllowed(n: nat, k: nat, count: nat, limit: nat, held: nat, ctr: nat, i: nat)
    requires k < n && count <= limit
    ensures Delta(Nodes(n, ctr), Holding(n, k, held), Ask(k, count, limit), Focus("k", C.SECOND), Allowed(i))
         == if i == k then count else 0
  {
    HalfSecond();
    hide C.GenExpiry;
    assert Holding(n, k, held).nodes[k] == IDLE;
  }

  lemma TakingAllowsNothing(c: Setup, s: State, k: nat, f: Focus, i: nat)
    ensures Delta(c, s, Dequeue(k), f, Allowed(i)) == 0
  {
  }

  lemma HoldNone(n: nat, held: nat, ctr: nat)
    ensures Run(Nodes(n, ctr), []) == Holding(n, 0, held)
  {
    EmptyRun(Nodes(n, ctr));
    assert Init(Nodes(n, ctr)).nodes == Holding(n, 0, held).nodes;
  }

  /** While the nodes hold back, every condition of the bound is met, and each allows what it holds. */
  lemma {:induction false} HoldRun(
    n: nat, k: nat, limit: nat, held: nat, ctr: nat, q: Requirement, i: nat)
    requires k <= n && held <= limit && held <= ctr && BoundRequires(q, limit)
    ensures Run(Nodes(n, ctr), HoldingBack(k, limit, held)) == Holding(n, k, held)
    ensures Throughout(Nodes(n, ctr), HoldingBack(k, limit, held), q)
    ensures Total(Nodes(n, ctr), HoldingBack(k, limit, held), Focus("k", C.SECOND), Allowed(i))
         == if i < k then held else 0
  {
    hide Run, Next, Holding, Waiting, Total, Throughout, Ask, Delta, Meets;
    var c, f := Nodes(n, ctr), Focus("k", C.SECOND);
    if k == 0 {
      HoldNone(n, held, ctr);
      EmptyMeets(c, q);
      EmptyTotal(c, f, Allowed(i));
    } else {
      var before, a := HoldingBack(k - 1, limit, held), Ask(k - 1, held, limit);
      var s, s' := Holding(n, k - 1, held), Waiting(n, k - 1, held);
      HoldRun(n, k - 1, limit, held, ctr, q, i);
      HoldCall(n, k - 1, limit, held, ctr);
      HoldTake(n, k - 1, held, ctr);
      AskMeets(n, k - 1, held, limit, held, q);
      TakingMeets(s', k - 1, limit, q);
      AskAllowed(n, k - 1, held, limit, held, ctr, i);
      TakingAllowsNothing(c, s', k - 1, f, i);
      TwoSteps(c, before, s, a, s', Dequeue(k - 1), f, Allowed(i), q);
    }
  }

  lemma {:induction false} SumOfEqualAndLast(n: nat, f: nat -> int, each: int)
    requires n > 0 && forall i: nat | i < n - 1 :: f(i) == each
    ensures Sum(n, f) == (n - 1) * each + f(n - 1)
  {
    if n > 1 {
      SumOfEqualAndLast(n - 1, f, each);
      assert (n - 2) * each + each == (n - 1) * each;
    }
  }

  /** For every number of nodes, limit and unsynced limit: a run in which every condition of the bound holds and the
      cluster allows exactly the bound. All nodes but one hold back what they may; the last allows a full limit. */
  lemma OvershootIsReached(n: nat, limit: nat, unsynced: nat)
    requires n > 0
    ensures var c := Nodes(n, unsynced);
            var steps := HoldingBack(n - 1, limit, HeldBack(c, limit)) + [Ask(n - 1, limit, limit)];
            && Throughout(c, steps, Windowed("k", 1)) && Throughout(c, steps, Apart("k", 1))
            && Throughout(c, steps, Limited("k", limit)) && Throughout(c, steps, Prompt("k"))
            && Throughout(c, steps, Lossless("k"))
            && TotalAllowed(c, steps, Focus("k", C.SECOND)) == limit + (n - 1) * HeldBack(c, limit)
  {
    hide Run, Holding, Throughout, Total, Ask, Delta, Meets;
    var c, f := Nodes(n, unsynced), Focus("k", C.SECOND);
    var held := HeldBack(c, limit);
    var before, last := HoldingBack(n - 1, limit, held), Ask(n - 1, limit, limit);
    var s := Holding(n, n - 1, held);
    forall q | BoundRequires(q, limit)
      ensures Throughout(c, before + [last], q)
    {
      HoldRun(n, n - 1, limit, held, unsynced, q, 0);
      AskMeets(n, n - 1, limit, limit, held, q);
      MeetsNext(c, before, s, last, q);
    }
    var g := (i: nat) => Total(c, before + [last], f, Allowed(i));
    forall i: nat | i < n
      ensures g(i) == if i < n - 1 then held else limit
    {
      HoldRun(n, n - 1, limit, held, unsynced, Prompt("k"), i);
      AskAllowed(n, n - 1, limit, limit, held, unsynced, i);
      TotalNext(c, before, s, last, f, Allowed(i));
    }
    SumOfEqualAndLast(n, g, held);
    SumEqual(n, g, (i: nat) => Total(c, before + [last], f, Allowed(i)));
  }

  // ---- At the instant a window ends, windows mix ----------------------------------------------------------

  /** Node 0 counts `ending` just before the instant `at`, where a window ends; node 1 counts `starting` at it. */
  datatype Crossing = Crossing(key: string, window: int, at: Time, ending: nat, starting: nat) {
    ghost predicate Valid() { window > 0 && at > 0 && OnBoundary(at, window) }

    function Limit(): nat { ending + starting }

    function Cluster(): Setup
      requires at > 0
    {
      Setup(Unbounded, 2, at - 1, ending)
    }

    function NextExpiry(): int { at + C.Span(window) }

    function Old(): Command { T.Command(key, ending, at, false) }

    function New(): Command { T.Command(key, starting, NextExpiry(), false) }

    function Ending(queue: seq<Command>, pending: Batch): Node {
      Node(map[key := C.Entry(at, ending)], queue, pending)
    }

    function Started(count: int): Node { Node(map[key := C.Entry(NextExpiry(), count)], [New()], map[]) }

    function First(): Step { Call(0, key, ending, Limit(), window) }

    function Second(): Step { Call(1, key, starting, Limit(), window) }

    function Told(): seq<Message> { [Message(0, 1, map[key := Old()])] }

    /** Node 0 counts, the window ends, node 1 counts in the next one, and then is about to be told. */
    function Steps(): seq<Step> { [] + [First()] + [Tick(1)] + [Second()] + [Dequeue(0)] + [Timeout(0)] }
  }

  function Two(now: Time, a: Node, b: Node, net: seq<Message>): State { State(now, [a, b], net) }

  lemma Expiries(x: Crossing)
    requires x.Valid()
    ensures C.GenExpiry(x.at - 1, x.window) == x.at && C.GenExpiry(x.at, x.window) == x.NextExpiry()
  {
    var span := C.Span(x.window);
    var q: int :| x.at == q * span;
    assert x.NextExpiry() == (q + 1) * span;
    var p := q - 1;
    assert x.at - span == p * span;
    C.GenExpiryIsNextBoundary(x.at - 1, x.window, x.at);
    C.GenExpiryIsNextBoundary(x.at, x.window, x.NextExpiry());
  }

  lemma FirstCrosses(x: Crossing)
    requires x.Valid()
    ensures Init(x.Cluster()) == Two(x.at - 1, IDLE, IDLE, [])
    ensures Next(x.Cluster(), Two(x.at - 1, IDLE, IDLE, []), x.First())
         == Two(x.at - 1, x.Ending([x.Old()], map[]), IDLE, [])
  {
    Expiries(x);
    hide C.GenExpiry;
    var s := Two(x.at - 1, IDLE, IDLE, []);
    assert Init(x.Cluster()).nodes == [IDLE, IDLE];
    assert Served(x.Cluster(), s, x.First()) == (map[x.key := C.Entry(x.at, x.ending)], C.Response(false, x.at, false));
    assert [] + [x.Old()] == [x.Old()];
    assert [IDLE, IDLE][0 := x.Ending([x.Old()], map[])] == [x.Ending([x.Old()], map[]), IDLE];
  }

  lemma SecondCrosses(x: Crossing)
    requires x.Valid()
    ensures Next(x.Cluster(), Two(x.at, x.Ending([x.Old()], map[]), IDLE, []), x.Second())
         == Two(x.at, x.Ending([x.Old()], map[]), x.Started(x.starting), [])
  {
    Expiries(x);
    hide C.GenExpiry;
    var e := x.Ending([x.Old()], map[]);
    assert Served(x.Cluster(), Two(x.at, e, IDLE, []), x.Second())
        == (map[x.key := C.Entry(x.NextExpiry(), x.starting)], C.Response(false, x.NextExpiry(), false));
    assert [] + [x.New()] == [x.New()];
    assert [e, IDLE][1 := x.Started(x.starting)] == [e, x.Started(x.starting)];
  }

  lemma DequeueCrosses(x: Crossing, b: Node)
    requires x.at > 0
    ensures Next(x.Cluster(), Two(x.at, x.Ending([x.Old()], map[]), b, []), Dequeue(0))
         == Two(x.at, x.Ending([], map[x.key := x.Old()]), b, [])
  {
    var m: Batch := map[x.key := x.Old()];
    assert W.Receive(Unbounded, x.ending, map[], x.Old()) == (m, []);
    assert [x.Old()][1..] == [] && [] + SendAll(0, 2, []) == [];
    assert [x.Ending([x.Old()], map[]), b][0 := x.Ending([], m)] == [x.Ending([], m), b];
  }

  lemma TimeoutCrosses(x: Crossing, b: Node)
    requires x.at > 0
    ensures Next(x.Cluster(), Two(x.at, x.Ending([], map[x.key := x.Old()]), b, []), Timeout(0))
         == Two(x.at, x.Ending([], map[]), b, x.Told())
  {
    var m: Batch := map[x.key := x.Old()];
    assert x.key in m && |m| > 0;
    assert Broadcast(0, 2, m) == Broadcast(0, 1, m) + x.Told() && Broadcast(0, 1, m) == Broadcast(0, 0, m) + [];
    assert [m][0] == m && [] + SendAll(0, 2, [m]) == x.Told();
    assert [x.Ending([], m), b][0 := x.Ending([], map[])] == [x.Ending([], map[]), b];
  }

  lemma DeliverCrosses(x: Crossing)
    requires x.at > 0 && x.window > 0
    ensures Next(x.Cluster(), Two(x.at, x.Ending([], map[]), x.Started(x.starting), x.Told()), Deliver(0))
         == Two(x.at, x.Ending([], map[]), x.Started(x.starting + x.ending), [])
  {
    var m: Batch := map[x.key := x.Old()];
    var a, b := x.Ending([], map[]), x.Started(x.starting);
    T.SyncBatchAt(Unbounded, b.table, x.at, m, x.key);
    assert T.SyncBatch(Unbounded, b.table, x.at, m) == x.Started(x.starting + x.ending).table;
    assert [a, b][1 := x.Started(x.starting + x.ending)] == [a, x.Started(x.starting + x.ending)];
    assert Without(x.Told(), 0) == [];
  }

  lemma TickCrosses(x: Crossing)
    requires x.at > 0
    ensures Next(x.Cluster(), Two(x.at - 1, x.Ending([x.Old()], map[]), IDLE, []), Tick(1))
         == Two(x.at, x.Ending([x.Old()], map[]), IDLE, [])
  {
  }

  /** Where the run is before each of its steps. */
  function Along(x: Crossing, p: nat): State
    requires x.at > 0
  {
    var b := x.Started(x.starting);
    if p == 0 then Two(x.at - 1, IDLE, IDLE, [])
    else if p == 1 then Two(x.at - 1, x.Ending([x.Old()], map[]), IDLE, [])
    else if p == 2 then Two(x.at, x.Ending([x.Old()], map[]), IDLE, [])
    else if p == 3 then Two(x.at, x.Ending([x.Old()], map[]), b, [])
    else if p == 4 then Two(x.at, x.Ending([], map[x.key := x.Old()]), b, [])
    else Two(x.at, x.Ending([], map[]), b, x.Told())
  }

  lemma StepCrosses(x: Crossing, p: nat)
    requires x.Valid() && p < 5
    ensures Next(x.Cluster(), Along(x, p), x.Steps()[p]) == Along(x, p + 1)
  {
    hide Next;
    if p == 0 {
      FirstCrosses(x);
    } else if p == 1 {
      TickCrosses(x);
    } else if p == 2 {
      SecondCrosses(x);
    } else if p == 3 {
      DequeueCrosses(x, x.Started(x.starting));
    } else {
      TimeoutCrosses(x, x.Started(x.starting));
    }
  }

  /** What node i's calls count in the next window, step by step. */
  lemma AmountCrosses(x: Crossing, p: nat, i: nat)
    requires x.Valid() && p < 5
    ensures CallAmount(x.Cluster(), Along(x, p), x.Steps()[p], Focus(x.key, x.NextExpiry()), i)
         == if p == 2 && i == 1 then x.starting else 0
  {
    Expiries(x);
    hide C.GenExpiry;
  }

  lemma CrossingStarts(x: Crossing)
    requires x.Valid()
    ensures Run(x.Cluster(), []) == Along(x, 0)
  {
    EmptyRun(x.Cluster());
    FirstCrosses(x);
  }

  lemma {:induction false} CrossingRuns(x: Crossing, p: nat, i: nat)
    requires x.Valid() && p <= 5
    ensures Run(x.Cluster(), x.Steps()[..p]) == Along(x, p)
    ensures Throughout(x.Cluster(), x.Steps()[..p], Windowed(x.key, x.window))
    ensures Total(x.Cluster(), x.Steps()[..p], Focus(x.key, x.NextExpiry()), Accepted(i))
         == if p >= 3 && i == 1 then x.starting else 0
  {
    hide Run, Next, Total, Throughout, Along, CallAmount;
    var c, f := x.Cluster(), Focus(x.key, x.NextExpiry());
    if p == 0 {
      CrossingStarts(x);
      EmptyMeets(c, Windowed(x.key, x.window));
      EmptyTotal(c, f, Accepted(i));
    } else {
      var before, last := x.Steps()[..p - 1], x.Steps()[p - 1];
      assert x.Steps()[..p] == before + [last];
      CrossingRuns(x, p - 1, i);
      StepCrosses(x, p - 1);
      AmountCrosses(x, p - 1, i);
      RunNext(c, before, Along(x, p - 1), last, Along(x, p));
      MeetsNext(c, before, Along(x, p - 1), last, Windowed(x.key, x.window));
      TotalNext(c, before, Along(x, p - 1), last, f, Accepted(i));
    }
  }

  /** For every key, window, boundary instant after the start of time, and counts: a command is still unexpired at the
      very instant its window ends. Delivered then to a node already in the next window, it is counted there: the node
      holds both counts for a window in which the cluster accepted one of them. */
  lemma BoundaryInstantMixesWindows(x: Crossing)
    requires x.Valid()
    ensures var (c, steps, f) := (x.Cluster(), x.Steps() + [Deliver(0)], Focus(x.key, x.NextExpiry()));
            && Throughout(c, steps, Windowed(x.key, x.window)) && Run(c, steps).now == x.at
            && |Run(c, steps).nodes| == 2
            && T.Get(Run(c, steps).nodes[1].table, x.key) == Some(C.Entry(x.NextExpiry(), x.starting + x.ending))
            && TotalAccepted(c, steps, f) == x.starting
  {
    hide Run, Total, Next, C.GenExpiry, Throughout;
    var c, f := x.Cluster(), Focus(x.key, x.NextExpiry());
    var steps := x.Steps() + [Deliver(0)];
    assert x.Steps()[..5] == x.Steps();
    CrossingRuns(x, 5, 0);
    DeliverCrosses(x);
    RunNext(c, x.Steps(), Along(x, 5), Deliver(0),
            Two(x.at, x.Ending([], map[]), x.Started(x.starting + x.ending), []));
    MeetsNext(c, x.Steps(), Along(x, 5), Deliver(0), Windowed(x.key, x.window));
    var g := (i: nat) => Total(c, steps, f, Accepted(i));
    forall i: nat | i < 2
      ensures g(i) == if i == 1 then x.starting else 0
    {
      CrossingRuns(x, 5, i);
      TotalNext(c, x.Steps(), Along(x, 5), Deliver(0), f, Accepted(i));
    }
    assert Sum(2, g) == Sum(1, g) + g(1) && Sum(1, g) == Sum(0, g) + g(0);
    SumEqual(2, g, (i: nat) => Total(c, steps, f, Accepted(i)));
  }

  /** A run that keeps to one window length and, at time t, delivers a command of one window to an entry of another. */
  ghost predicate Mixes(c: Setup, steps: seq<Step>, n: nat, key: string, window: int, t: Time) {
    && Throughout(c, steps, Windowed(key, window)) && Run(c, steps).now == t && Meeting(Run(c, steps), n, key)
    && (var s := Run(c, steps); s.nodes[s.net[n].dst].table[key].expires != s.net[n].batch[key].expiry)
  }

  /** Windows can mix at time t exactly when a window ends at t. */
  lemma MixingExactlyAtBoundaries(key: string, window: int, t: Time)
    requires window > 0
    ensures (exists c, steps, n :: Mixes(c, steps, n, key, window, t)) <==> OnBoundary(t, window) && t > 0
  {
    if c, steps, n :| Mixes(c, steps, n, key, window, t) {
      SyncMixesExactlyOnBoundary(c, steps, n, key, window);
    }
    if OnBoundary(t, window) && t > 0 {
      var x := Crossing(key, window, t, 1, 1);
      CrossingMixes(x);
    }
  }

  lemma CrossingMixes(x: Crossing)
    requires x.Valid()
    ensures Mixes(x.Cluster(), x.Steps(), 0, x.key, x.window, x.at)
  {
    hide Run, Throughout, C.Aligned;
    assert x.Steps()[..5] == x.Steps();
    CrossingRuns(x, 5, 0);
  }
}
