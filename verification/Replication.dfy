/** What replication guarantees in every run of the cluster. */
module Replication {
  import opened Base
  import opened Cluster
  import C = Counter
  import T = Tables
  import W = Worker

  // ---- What a run is asked to respect ------------------------------------------------------------------

  datatype Requirement =
    | Windowed(key: string, window: int)      // calls on the key use one window length
    | Apart(key: string, window: int)         // nothing touches the key exactly on a window boundary
    | Limited(key: string, limit: int)        // calls on the key use one limit and count upwards
    | AtMost(key: string, count: int)         // calls on the key count at most this much
    | Prompt(key: string)                     // when the key is called nothing of it is queued or in flight
    | Lossless(key: string)                   // no message about the key is lost

  ghost predicate OnBoundary(now: Time, window: int) {
    window > 0 && C.Aligned(now, C.Span(window))
  }

  /** No node has a command for the key in its channel, and no message carries one. */
  ghost predicate Settled(s: State, key: string) {
    && (forall i, p | 0 <= i < |s.nodes| && 0 <= p < |s.nodes[i].queue| :: s.nodes[i].queue[p].key != key)
    && (forall n | 0 <= n < |s.net| :: key !in s.net[n].batch)
  }

  ghost predicate Meets(s: State, step: Step, q: Requirement) {
    match q
    case Windowed(key, window) => step.Call? && step.key == key ==> step.window == window
    case Apart(key, window) =>
      || (step.Call? && step.key != key)
      || (step.Deliver? && step.n < |s.net| && key !in s.net[step.n].batch)
      || (step.Call? || step.Deliver? ==> !OnBoundary(s.now, window))
    case Limited(key, limit) => step.Call? && step.key == key ==> step.limit == limit && step.count >= 0
    case AtMost(key, count) => step.Call? && step.key == key ==> step.count <= count
    case Prompt(key) => step.Call? && step.key == key ==> Settled(s, key)
    case Lossless(key) => step.Lose? && step.n < |s.net| ==> key !in s.net[step.n].batch
  }

  ghost predicate Throughout(c: Setup, steps: seq<Step>, q: Requirement) {
    steps == []
    || (Throughout(c, steps[..|steps| - 1], q) && Meets(Run(c, steps[..|steps| - 1]), steps[|steps| - 1], q))
  }

  // ---- Cross-node window agreement -----------------------------------------------------------------------

  ghost predicate Agreed(expiry: int, now: Time, window: int)
    requires window > 0
  {
    C.Aligned(expiry, C.Span(window)) && 0 < expiry <= now + C.Span(window)
  }

  ghost predicate NodeAgrees(node: Node, now: Time, key: string, window: int)
    requires window > 0
  {
    && (key in node.table ==> Agreed(node.table[key].expires, now, window))
    && (forall p | 0 <= p < |node.queue| && node.queue[p].key == key :: Agreed(node.queue[p].expiry, now, window))
    && (key in node.pending ==> Agreed(node.pending[key].expiry, now, window))
  }

  ghost predicate WindowOk(s: State, key: string, window: int)
    requires window > 0
  {
    && (forall i | 0 <= i < |s.nodes| :: NodeAgrees(s.nodes[i], s.now, key, window))
    && (forall n | 0 <= n < |s.net| && key in s.net[n].batch :: Agreed(s.net[n].batch[key].expiry, s.now, window))
  }

  lemma CallAgrees(c: Setup, s: State, step: Step, key: string, window: int)
    requires window > 0 && WindowOk(s, key, window)
    requires step.Call? && step.node < |s.nodes| && Meets(s, step, Windowed(key, window))
    ensures NodeAgrees(Next(c, s, step).nodes[step.node], s.now, key, window)
  {
    C.GenExpiryIsNextBoundary(s.now, window, 0);
    hide C.GenExpiry, C.Aligned;
    assert NodeAgrees(s.nodes[step.node], s.now, key, window);
  }

  lemma WorkerAgrees(c: Setup, s: State, step: Step, key: string, window: int)
    requires window > 0 && WindowOk(s, key, window)
    requires (step.Dequeue? || step.Timeout?) && step.node < |s.nodes|
    ensures var (node, sent) := Worked(c, s.nodes[step.node], step);
            && NodeAgrees(node, s.now, key, window)
            && (sent != [] && key in sent[0] ==> Agreed(sent[0][key].expiry, s.now, window))
  {
    hide Agreed;
    assert NodeAgrees(s.nodes[step.node], s.now, key, window);
  }

  lemma DeliverAgrees(c: Setup, s: State, step: Step, key: string, window: int)
    requires window > 0 && WindowOk(s, key, window)
    requires step.Deliver? && step.n < |s.net| && s.net[step.n].dst < |s.nodes|
    ensures NodeAgrees(Next(c, s, step).nodes[s.net[step.n].dst], s.now, key, window)
  {
    hide Agreed;
    var node := s.nodes[s.net[step.n].dst];
    assert NodeAgrees(node, s.now, key, window);
    T.SyncBatchAt(c.ar, node.table, s.now, s.net[step.n].batch, key);
  }

  lemma TickAgrees(s: State, d: nat, key: string, window: int)
    requires window > 0 && WindowOk(s, key, window)
    ensures WindowOk(s.(now := s.now + d), key, window)
  {
    hide C.Aligned;
    forall i | 0 <= i < |s.nodes|
      ensures NodeAgrees(s.nodes[i], s.now + d, key, window)
    {
      assert NodeAgrees(s.nodes[i], s.now, key, window);
    }
  }

  lemma NextAgrees(c: Setup, s: State, step: Step, key: string, window: int)
    requires window > 0 && WindowOk(s, key, window) && Meets(s, step, Windowed(key, window))
    ensures WindowOk(Next(c, s, step), key, window)
  {
    hide Agreed;
    var s' := Next(c, s, step);
    match step
    case Call(i, _, _, _, _) => if i < |s.nodes| { CallAgrees(c, s, step, key, window); }
    case Deliver(n) => if n < |s.net| && s.net[n].dst < |s.nodes| { DeliverAgrees(c, s, step, key, window); }
    case Tick(d) => TickAgrees(s, d, key, window);
    case Lose(n) =>
    case Collect(i, visited, grace) =>
      if i < |s.nodes| {
        assert NodeAgrees(s.nodes[i], s.now, key, window);
      }
    case _ =>
      if step.node < |s.nodes| {
        WorkerAgrees(c, s, step, key, window);
        var sent := Worked(c, s.nodes[step.node], step).1;
        forall n | 0 <= n < |s'.net| && key in s'.net[n].batch
          ensures Agreed(s'.net[n].batch[key].expiry, s.now, window)
        {
          if n >= |s.net| {
            assert s'.net[n] == SendAll(step.node, c.size, sent)[n - |s.net|];
            BroadcastOk(step.node, c.size, sent[0], s'.net[n]);
          }
        }
      }
  }

  lemma {:induction false} RunAgrees(c: Setup, steps: seq<Step>, key: string, window: int)
    requires window > 0 && Throughout(c, steps, Windowed(key, window))
    ensures WindowOk(Run(c, steps), key, window)
  {
    if steps != [] {
      RunAgrees(c, steps[..|steps| - 1], key, window);
      NextAgrees(c, Run(c, steps[..|steps| - 1]), steps[|steps| - 1], key, window);
    }
  }

  /** Expiries that an unexpired entry or command for the key carries somewhere in the cluster. */
  ghost predicate Carried(s: State, key: string, expiry: int) {
    && s.now <= expiry
    && (|| (exists i :: 0 <= i < |s.nodes| && key in s.nodes[i].table && s.nodes[i].table[key].expires == expiry)
        || (exists i, p :: 0 <= i < |s.nodes| && 0 <= p < |s.nodes[i].queue|
              && s.nodes[i].queue[p].key == key && s.nodes[i].queue[p].expiry == expiry)
        || (exists i :: 0 <= i < |s.nodes| && key in s.nodes[i].pending && s.nodes[i].pending[key].expiry == expiry)
        || (exists n :: 0 <= n < |s.net| && key in s.net[n].batch && s.net[n].batch[key].expiry == expiry))
  }

  lemma CarriedAgrees(s: State, key: string, window: int, expiry: int)
    requires window > 0 && WindowOk(s, key, window) && Carried(s, key, expiry)
    ensures Agreed(expiry, s.now, window)
  {
    hide Agreed;
    assert forall i | 0 <= i < |s.nodes| :: NodeAgrees(s.nodes[i], s.now, key, window);
  }

  lemma CurrentWindow(now: Time, window: int, expiry: int)
    requires window > 0 && Agreed(expiry, now, window) && now <= expiry
    ensures !OnBoundary(now, window) ==> expiry == C.GenExpiry(now, window)
    ensures OnBoundary(now, window) ==> expiry == now || expiry == C.GenExpiry(now, window)
  {
    C.GenExpiryIsNextBoundary(now, window, expiry);
  }

  /** With one window length per key, everything unexpired about it, on every node and on the wire, carries a
      window boundary at most one window ahead. That is one and the same expiry, except at the very instant a
      window ends, when it may also be the one just ending. */
  lemma WindowAgreement(c: Setup, steps: seq<Step>, key: string, window: int, expiry: int)
    requires window > 0 && Throughout(c, steps, Windowed(key, window))
    requires Carried(Run(c, steps), key, expiry)
    ensures C.Aligned(expiry, C.Span(window))
    ensures var now := Run(c, steps).now;
            && now <= expiry <= now + C.Span(window)
            && (expiry == C.GenExpiry(now, window) || (expiry == now && OnBoundary(now, window)))
  {
    RunAgrees(c, steps, key, window);
    CarriedAgrees(Run(c, steps), key, window, expiry);
    CurrentWindow(Run(c, steps).now, window, expiry);
  }

  /** Message n is about to deliver an unexpired command to a node whose entry is live. */
  ghost predicate Meeting(s: State, n: nat, key: string) {
    && n < |s.net| && s.net[n].dst < |s.nodes|
    && key in s.net[n].batch && s.now <= s.net[n].batch[key].expiry
    && C.Live(T.Get(s.nodes[s.net[n].dst].table, key), s.now)
  }

  /** A delivered command is counted into another window than its own exactly when one of the two, and only one, ends at
      this instant. */
  lemma SyncMixesExactlyOnBoundary(c: Setup, steps: seq<Step>, n: nat, key: string, window: int)
    requires window > 0 && Throughout(c, steps, Windowed(key, window))
    requires Meeting(Run(c, steps), n, key)
    ensures var s := Run(c, steps);
            var held, told := s.nodes[s.net[n].dst].table[key].expires, s.net[n].batch[key].expiry;
            && held > 0 && told > 0
            && (held != told <==> OnBoundary(s.now, window) && ((held == s.now) != (told == s.now)))
  {
    var s := Run(c, steps);
    var held, told := s.nodes[s.net[n].dst].table[key].expires, s.net[n].batch[key].expiry;
    RunAgrees(c, steps, key, window);
    CarriedAgrees(s, key, window, held);
    CarriedAgrees(s, key, window, told);
    CurrentWindow(s.now, window, held);
    CurrentWindow(s.now, window, told);
  }

  // ---- Counting over a run ------------------------------------------------------------------------------------

  /** A key in one window. */
  datatype Focus = Focus(key: string, expiry: int)

  /** Quantities added up over a run, for a focus. */
  datatype Meter =
    | Accepted(i: nat)            // counts that calls at node i added to its entry
    | Allowed(i: nat)             // counts of the calls node i allowed
    | Applied(i: nat, j: nat)     // counts from i that node j applied
    | Lost(i: nat, j: nat)        // counts in messages from i to j that were lost
    | Into(j: nat)                // counts added to j's entry, by calls or by peers

  /** What a batch holds for the focus. */
  function Held(m: Batch, f: Focus): int {
    if f.key in m && m[f.key].expiry == f.expiry then m[f.key].count else 0
  }

  function CallAmount(c: Setup, s: State, step: Step, f: Focus, i: nat): int {
    if step.Call? && step.node == i < |s.nodes| && step.key == f.key
       && C.Shared(Served(c, s, step).1) && Served(c, s, step).1.expiry == f.expiry
    then step.count else 0
  }

  function AllowedAmount(c: Setup, s: State, step: Step, f: Focus, i: nat): int {
    if step.Call? && step.node == i < |s.nodes| && step.key == f.key
       && !Served(c, s, step).1.blocked && Served(c, s, step).1.expiry == f.expiry
    then step.count else 0
  }

  /** What one message from i to j held. */
  function MessageAmount(m: Message, f: Focus, i: nat, j: nat): int {
    if m.src == i && m.dst == j then Held(m.batch, f) else 0
  }

  function DeliveredAmount(s: State, step: Step, f: Focus, i: nat, j: nat): int {
    if step.Deliver? && step.n < |s.net| && s.net[step.n].dst < |s.nodes| && s.now <= f.expiry
    then MessageAmount(s.net[step.n], f, i, j) else 0
  }

  function Delta(c: Setup, s: State, step: Step, f: Focus, m: Meter): int {
    match m
    case Accepted(i) => CallAmount(c, s, step, f, i)
    case Allowed(i) => AllowedAmount(c, s, step, f, i)
    case Applied(i, j) => DeliveredAmount(s, step, f, i, j)
    case Lost(i, j) => if step.Lose? && step.n < |s.net| then MessageAmount(s.net[step.n], f, i, j) else 0
    case Into(j) =>
      CallAmount(c, s, step, f, j)
      + if step.Deliver? && step.n < |s.net| then DeliveredAmount(s, step, f, s.net[step.n].src, j) else 0
  }

  function Total(c: Setup, steps: seq<Step>, f: Focus, m: Meter): int {
    if steps == [] then 0
    else
      var before := steps[..|steps| - 1];
      Total(c, before, f, m) + Delta(c, Run(c, before), steps[|steps| - 1], f, m)
  }

  /** What a sequence of commands holds for the focus. */
  function Queued(cs: seq<Command>, f: Focus): int {
    if cs == [] then 0
    else
      Queued(cs[..|cs| - 1], f)
      + var last := cs[|cs| - 1]; if last.key == f.key && last.expiry == f.expiry then last.count else 0
  }

  function InFlight(net: seq<Message>, f: Focus, i: nat, j: nat): int {
    if net == [] then 0 else InFlight(net[..|net| - 1], f, i, j) + MessageAmount(net[|net| - 1], f, i, j)
  }

  lemma {:induction false} QueuedSplits(a: seq<Command>, b: seq<Command>, f: Focus)
    ensures Queued(a + b, f) == Queued(a, f) + Queued(b, f)
    decreases |b|
  {
    if b == [] {
      assert a + b == a;
    } else {
      assert (a + b)[..|a + b| - 1] == a + b[..|b| - 1];
      QueuedSplits(a, b[..|b| - 1], f);
    }
  }

  lemma {:induction false} InFlightSplits(a: seq<Message>, b: seq<Message>, f: Focus, i: nat, j: nat)
    ensures InFlight(a + b, f, i, j) == InFlight(a, f, i, j) + InFlight(b, f, i, j)
    decreases |b|
  {
    if b == [] {
      assert a + b == a;
    } else {
      assert (a + b)[..|a + b| - 1] == a + b[..|b| - 1];
      InFlightSplits(a, b[..|b| - 1], f, i, j);
    }
  }

  lemma InFlightWithout(net: seq<Message>, n: nat, f: Focus, i: nat, j: nat)
    requires n < |net|
    ensures InFlight(Without(net, n), f, i, j) == InFlight(net, f, i, j) - MessageAmount(net[n], f, i, j)
  {
    InFlightSplits(net[..n], net[n + 1..], f, i, j);
    InFlightSplits(net[..n + 1], net[n + 1..], f, i, j);
    assert net[..n + 1] + net[n + 1..] == net;
    assert net[..n + 1][..n] == net[..n];
  }

  /** A broadcast puts its batch on the wire once for every peer. */
  lemma {:induction false} BroadcastInFlight(src: nat, size: nat, batch: Batch, f: Focus, i: nat, j: nat)
    ensures InFlight(Broadcast(src, size, batch), f, i, j)
         == if src == i && j < size && j != i then Held(batch, f) else 0
    decreases size
  {
    if size > 0 {
      BroadcastInFlight(src, size - 1, batch, f, i, j);
      var rest := Broadcast(src, size - 1, batch);
      if size - 1 != src {
        var m := Message(src, size - 1, batch);
        InFlightSplits(rest, [m], f, i, j);
        assert [m][..0] == [];
      } else {
        assert rest + [] == rest;
      }
    }
  }

  // ---- Conservation -----------------------------------------------------------------------------------------------

  /** Accepted at i and not yet applied, or lost, on the way to j. */
  function Outstanding(s: State, f: Focus, i: nat, j: nat): int
    requires i < |s.nodes|
  {
    Queued(s.nodes[i].queue, f) + Held(s.nodes[i].pending, f) + InFlight(s.net, f, i, j)
  }

  /** Merging keeps the focus's amount, as long as what a merge replaces has expired. */
  lemma MergeHolds(m: Batch, next: Command, f: Focus)
    requires next.key in m && m[next.key].expiry != next.expiry ==> m[next.key].expiry < f.expiry
    ensures Held(W.Merge(Unbounded, m, next), f) == Held(m, f) + Queued([next], f)
  {
    assert [next][..0] == [];
  }

  lemma DequeueConserves(c: Setup, s: State, f: Focus, i: nat, j: nat)
    requires c.ar.Unbounded? && NetOk(c, s) && i < c.size && j < c.size && i != j
    requires s.nodes[i].queue != []
    requires var node := s.nodes[i];
             var next := node.queue[0];
             (next.key in node.pending && node.pending[next.key].expiry != next.expiry) ==>
               node.pending[next.key].expiry < f.expiry
    ensures Outstanding(Next(c, s, Dequeue(i)), f, i, j) == Outstanding(s, f, i, j)
  {
    var node := s.nodes[i];
    var next := node.queue[0];
    MergeHolds(node.pending, next, f);
    QueuedSplits([next], node.queue[1..], f);
    assert [next] + node.queue[1..] == node.queue;
    WorkerConserves(c, s, Dequeue(i), f, i, j);
  }

  /** What the worker sends is on the wire to every peer, and nothing else is. */
  lemma WorkerConserves(c: Setup, s: State, step: Step, f: Focus, i: nat, j: nat)
    requires NetOk(c, s) && (step.Dequeue? || step.Timeout?) && step.node < c.size && j < c.size && i != j
    ensures var sent := Worked(c, s.nodes[step.node], step).1;
            InFlight(Next(c, s, step).net, f, i, j)
            == InFlight(s.net, f, i, j) + if sent != [] && step.node == i then Held(sent[0], f) else 0
  {
    var sent := Worked(c, s.nodes[step.node], step).1;
    if sent != [] {
      BroadcastInFlight(step.node, c.size, sent[0], f, i, j);
      InFlightSplits(s.net, Broadcast(step.node, c.size, sent[0]), f, i, j);
    } else {
      assert s.net + [] == s.net;
    }
  }

  lemma CallConserves(c: Setup, s: State, step: Step, f: Focus, i: nat, j: nat)
    requires NetOk(c, s) && step.Call? && i < c.size && j < c.size
    ensures Outstanding(Next(c, s, step), f, i, j) == Outstanding(s, f, i, j) + CallAmount(c, s, step, f, i)
  {
    hide C.Incr, InFlight;
    if step.node == i {
      var r := Served(c, s, step).1;
      var sent := T.Announced(step.key, step.count, r);
      QueuedSplits(s.nodes[i].queue, sent, f);
      assert sent != [] ==> sent[..0] == [];
    }
  }

  /** One step moves the focus's counts between channel, worker, wire and peer, and loses track of none. */
  lemma NextConserves(c: Setup, steps: seq<Step>, step: Step, f: Focus, i: nat, j: nat)
    requires c.ar.Unbounded? && i < c.size && j < c.size && i != j && Run(c, steps).now <= f.expiry
    requires NetOk(c, Run(c, steps)) && NetOk(c, Next(c, Run(c, steps), step))
    ensures var s := Run(c, steps);
            Outstanding(Next(c, s, step), f, i, j)
            == Outstanding(s, f, i, j) + Delta(c, s, step, f, Accepted(i))
               - Delta(c, s, step, f, Applied(i, j)) - Delta(c, s, step, f, Lost(i, j))
  {
    hide Run, C.Incr, W.Receive, Queued, InFlight;
    var s := Run(c, steps);
    match step
    case Call(_, _, _, _, _) => CallConserves(c, s, step, f, i, j);
    case Dequeue(k) =>
      if k < c.size {
        if k == i && s.nodes[i].queue != [] {
          ReplacedHasExpired(c, steps, i);
          DequeueConserves(c, s, f, i, j);
        } else {
          WorkerConserves(c, s, step, f, i, j);
        }
      }
    case Timeout(k) => if k < c.size { WorkerConserves(c, s, step, f, i, j); }
    case Deliver(n) => if n < |s.net| { InFlightWithout(s.net, n, f, i, j); }
    case Lose(n) => if n < |s.net| { InFlightWithout(s.net, n, f, i, j); }
    case _ =>
  }

  lemma TimeMovesOn(c: Setup, s: State, step: Step)
    ensures s.now <= Next(c, s, step).now
  {
  }

  /** Until its window is over, everything accepted at i is in i's channel or worker, on its way to j, applied
      at j, or lost on the wire. Counts, limits and windows are arbitrary. */
  lemma {:induction false} Conservation(c: Setup, steps: seq<Step>, f: Focus, i: nat, j: nat)
    requires c.ar.Unbounded? && i < c.size && j < c.size && i != j && Run(c, steps).now <= f.expiry
    ensures i < |Run(c, steps).nodes|
    ensures Total(c, steps, f, Accepted(i))
         == Outstanding(Run(c, steps), f, i, j) + Total(c, steps, f, Applied(i, j)) + Total(c, steps, f, Lost(i, j))
  {
    NetAlwaysOk(c, steps);
    if steps != [] {
      var before := steps[..|steps| - 1];
      hide Next, Delta;
      TimeMovesOn(c, Run(c, before), steps[|steps| - 1]);
      NetAlwaysOk(c, before);
      Conservation(c, before, f, i, j);
      NextConserves(c, before, steps[|steps| - 1], f, i, j);
    }
  }

  // ---- What a node's counter holds --------------------------------------------------------------------------------

  /** Node j's entry holds exactly what reached it for the focus. */
  ghost predicate CountIs(s: State, f: Focus, j: nat, total: int)
    requires j < |s.nodes|
  {
    var o := T.Get(s.nodes[j].table, f.key);
    if o.Some? && o.value.expires == f.expiry then o.value.count == total else total == 0
  }

  lemma CallCounts(c: Setup, s: State, step: Step, f: Focus, j: nat, window: int, total: int)
    requires c.ar.Unbounded? && j < |s.nodes| && s.now <= f.expiry && CountIs(s, f, j, total)
    requires window > 0 && WindowOk(s, f.key, window)
    requires step.Call? && step.node == j && step.key == f.key
    requires Meets(s, step, Windowed(f.key, window)) && Meets(s, step, Apart(f.key, window))
    ensures CountIs(Next(c, s, step), f, j, total + Delta(c, s, step, f, Into(j)))
  {
    var o := T.Get(s.nodes[j].table, f.key);
    assert NodeAgrees(s.nodes[j], s.now, f.key, window);
    if C.Live(o, s.now) {
      CurrentWindow(s.now, window, o.value.expires);
    }
    hide C.GenExpiry;
  }

  lemma DeliverCounts(c: Setup, s: State, step: Step, f: Focus, j: nat, window: int, total: int)
    requires c.ar.Unbounded? && j < |s.nodes| && s.now <= f.expiry && CountIs(s, f, j, total)
    requires window > 0 && WindowOk(s, f.key, window)
    requires step.Deliver? && step.n < |s.net| && s.net[step.n].dst == j
    requires Meets(s, step, Apart(f.key, window))
    ensures CountIs(Next(c, s, step), f, j, total + Delta(c, s, step, f, Into(j)))
  {
    var o := T.Get(s.nodes[j].table, f.key);
    var batch := s.net[step.n].batch;
    T.SyncBatchAt(c.ar, s.nodes[j].table, s.now, batch, f.key);
    assert NodeAgrees(s.nodes[j], s.now, f.key, window);
    if f.key in batch {
      if s.now <= batch[f.key].expiry {
        CurrentWindow(s.now, window, batch[f.key].expiry);
      }
      if C.Live(o, s.now) {
        CurrentWindow(s.now, window, o.value.expires);
      }
    }
    hide C.GenExpiry;
  }

  /** Nothing else changes a node's live entry. */
  lemma OthersDoNotCount(c: Setup, s: State, step: Step, f: Focus, j: nat, total: int)
    requires NetOk(c, s) && j < c.size && Next(c, s, step).now <= f.expiry && CountIs(s, f, j, total)
    requires !(step.Call? && step.node == j && step.key == f.key)
    requires !(step.Deliver? && step.n < |s.net| && s.net[step.n].dst == j)
    ensures CountIs(Next(c, s, step), f, j, total) && Delta(c, s, step, f, Into(j)) == 0
  {
    hide C.Incr;
  }

  lemma {:induction false} CountsReach(c: Setup, steps: seq<Step>, f: Focus, j: nat, window: int)
    requires c.ar.Unbounded? && j < c.size && window > 0 && Run(c, steps).now <= f.expiry
    requires Throughout(c, steps, Windowed(f.key, window)) && Throughout(c, steps, Apart(f.key, window))
    ensures j < |Run(c, steps).nodes| && CountIs(Run(c, steps), f, j, Total(c, steps, f, Into(j)))
  {
    NetAlwaysOk(c, steps);
    if steps != [] {
      var before, last := steps[..|steps| - 1], steps[|steps| - 1];
      var s := Run(c, before);
      hide CountIs, C.Incr, Next, Delta;
      TimeMovesOn(c, s, last);
      NetAlwaysOk(c, before);
      CountsReach(c, before, f, j, window);
      RunAgrees(c, before, f.key, window);
      var total := Total(c, before, f, Into(j));
      if last.Call? && last.node == j && last.key == f.key {
        CallCounts(c, s, last, f, j, window, total);
      } else if last.Deliver? && last.n < |s.net| && s.net[last.n].dst == j {
        DeliverCounts(c, s, last, f, j, window, total);
      } else {
        OthersDoNotCount(c, s, last, f, j, total);
      }
    } else {
      NothingCounted(c, f, j);
    }
  }

  lemma NothingCounted(c: Setup, f: Focus, j: nat)
    requires j < c.size
    ensures CountIs(Init(c), f, j, 0)
  {
  }

  /** What reached j from i: j's own calls, or what it applied from i. */
  function Contribution(c: Setup, steps: seq<Step>, f: Focus, i: nat, j: nat): int {
    if i == j then Total(c, steps, f, Accepted(j)) else Total(c, steps, f, Applied(i, j))
  }

  lemma {:induction false} IntoIsSum(c: Setup, steps: seq<Step>, f: Focus, j: nat)
    requires j < c.size
    ensures Total(c, steps, f, Into(j)) == Sum(c.size, (i: nat) => Contribution(c, steps, f, i, j))
  {
    var g := (i: nat) => Contribution(c, steps, f, i, j);
    if steps == [] {
      SumAtMost(c.size, g, 0);
      SumNonNegative(c.size, g);
    } else {
      var before, last := steps[..|steps| - 1], steps[|steps| - 1];
      var s := Run(c, before);
      NetAlwaysOk(c, before);
      IntoIsSum(c, before, f, j);
      var g0 := (i: nat) => Contribution(c, before, f, i, j);
      var at := if last.Deliver? && last.n < |s.net| then s.net[last.n].src else j;
      SumBump(c.size, g0, g, at, Delta(c, s, last, f, Into(j)));
    }
  }

  // ---- Convergence --------------------------------------------------------------------------------------------------

  function TotalAccepted(c: Setup, steps: seq<Step>, f: Focus): int {
    Sum(c.size, (i: nat) => Total(c, steps, f, Accepted(i)))
  }

  function TotalAllowed(c: Setup, steps: seq<Step>, f: Focus): int {
    Sum(c.size, (i: nat) => Total(c, steps, f, Allowed(i)))
  }

  /** What node j has not been told of node i's count. */
  function Missing(c: Setup, steps: seq<Step>, f: Focus, i: nat, j: nat): int {
    var s := Run(c, steps);
    if i == j || i >= |s.nodes| then 0
    else Outstanding(s, f, i, j) + Total(c, steps, f, Lost(i, j))
  }

  /** Node j's counter lags behind the cluster's total by exactly what it has not been told. */
  lemma CounterLag(c: Setup, steps: seq<Step>, f: Focus, j: nat, window: int)
    requires c.ar.Unbounded? && j < c.size && window > 0 && Run(c, steps).now <= f.expiry
    requires Throughout(c, steps, Windowed(f.key, window)) && Throughout(c, steps, Apart(f.key, window))
    ensures j < |Run(c, steps).nodes|
    ensures CountIs(Run(c, steps), f, j,
                    TotalAccepted(c, steps, f) - Sum(c.size, (i: nat) => Missing(c, steps, f, i, j)))
  {
    hide CountIs, Run, Throughout, Total, Outstanding, Sum;
    NetAlwaysOk(c, steps);
    CountsReach(c, steps, f, j, window);
    IntoIsSum(c, steps, f, j);
    var accepted := (i: nat) => Total(c, steps, f, Accepted(i));
    var missing := (i: nat) => Missing(c, steps, f, i, j);
    var reached := (i: nat) => Contribution(c, steps, f, i, j);
    forall i: nat | i < c.size
      ensures reached(i) == accepted(i) - missing(i)
    {
      if i != j {
        Conservation(c, steps, f, i, j);
      }
    }
    SumMinus(c.size, accepted, missing, reached);
    SumEqual(c.size, accepted, (i: nat) => Total(c, steps, f, Accepted(i)));
    SumEqual(c.size, missing, (i: nat) => Missing(c, steps, f, i, j));
  }

  lemma {:induction false} NothingLost(c: Setup, steps: seq<Step>, f: Focus, i: nat, j: nat)
    requires Throughout(c, steps, Lossless(f.key))
    ensures Total(c, steps, f, Lost(i, j)) == 0
  {
    if steps != [] {
      NothingLost(c, steps[..|steps| - 1], f, i, j);
    }
  }

  /** Once nothing is outstanding, every node holds the same count: the cluster's total. */
  lemma Convergence(c: Setup, steps: seq<Step>, f: Focus, j: nat, window: int)
    requires c.ar.Unbounded? && j < c.size && window > 0 && Run(c, steps).now <= f.expiry
    requires Throughout(c, steps, Windowed(f.key, window)) && Throughout(c, steps, Apart(f.key, window))
    requires Throughout(c, steps, Lossless(f.key))
    requires |Run(c, steps).nodes| == c.size
    requires forall i | 0 <= i < c.size && i != j :: Outstanding(Run(c, steps), f, i, j) == 0
    ensures CountIs(Run(c, steps), f, j, TotalAccepted(c, steps, f))
  {
    hide CountIs, Run, TotalAccepted, Outstanding, Total, Throughout;
    CounterLag(c, steps, f, j, window);
    var missing := (i: nat) => Missing(c, steps, f, i, j);
    forall i: nat | i < c.size
      ensures missing(i) == 0
    {
      NothingLost(c, steps, f, i, j);
    }
    SumZero(c.size, missing);
    SumEqual(c.size, missing, (i: nat) => Missing(c, steps, f, i, j));
  }

  // ---- Overshoot ---------------------------------------------------------------------------------------

  /** An allowed call leaves the cluster's total at most the limit plus what its node has not been told of. */
  lemma AllowedCallOvershoot(c: Setup, steps: seq<Step>, call: Step, f: Focus, window: int)
    requires c.ar.Unbounded? && window > 0 && call.Call? && call.node < c.size && call.key == f.key
    requires call.node < |Run(c, steps).nodes|
    requires Throughout(c, steps + [call], Windowed(f.key, window))
    requires Throughout(c, steps + [call], Apart(f.key, window))
    requires var r := Served(c, Run(c, steps), call).1; !r.blocked && r.expiry == f.expiry
    ensures TotalAccepted(c, steps + [call], f)
         <= call.limit + Sum(c.size, (i: nat) => Missing(c, steps + [call], f, i, call.node))
  {
    hide Throughout, TotalAccepted, Missing, C.Incr, Sum, Worked, T.Sweep, T.SyncBatch;
    var after := steps + [call];
    assert after[..|steps|] == steps;
    var s := Run(c, steps);
    AnswerIsLive(c, s, call);
    CounterLag(c, after, f, call.node, window);
    assert Run(c, after).nodes[call.node].table == Served(c, s, call).0;
    AllowedFits(c, s, call);
  }

  lemma AnswerIsLive(c: Setup, s: State, call: Step)
    requires call.Call? && call.node < |s.nodes|
    ensures s.now <= Served(c, s, call).1.expiry
  {
    if call.window > 0 {
      C.GenExpiryIsNextBoundary(s.now, call.window, 0);
    }
  }

  lemma AllowedFits(c: Setup, s: State, call: Step)
    requires call.Call? && call.node < |s.nodes|
    ensures var (t, r) := Served(c, s, call);
            call.key in t && t[call.key].expires == r.expiry && (!r.blocked <==> t[call.key].count <= call.limit)
  {
    hide C.GenExpiry;
  }

  /** Calls on the key ask for a non-negative count, so nothing is allowed that was not also accepted. */
  lemma {:induction false} AllowedIsAccepted(c: Setup, steps: seq<Step>, f: Focus, limit: int, i: nat)
    requires Throughout(c, steps, Limited(f.key, limit))
    ensures 0 <= Total(c, steps, f, Allowed(i)) <= Total(c, steps, f, Accepted(i))
  {
    if steps != [] {
      hide C.Incr;
      AllowedIsAccepted(c, steps[..|steps| - 1], f, limit, i);
    }
  }

  lemma LastStep(c: Setup, steps: seq<Step>, last: Step, q: Requirement)
    requires Throughout(c, steps + [last], q)
    ensures Throughout(c, steps, q) && Meets(Run(c, steps), last, q)
  {
    assert (steps + [last])[..|steps|] == steps;
  }
}
