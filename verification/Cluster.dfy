/** N nodes replicating their counters: local calls, workers, messages that may be reordered or lost. */
module Cluster {
  import opened Base
  import C = Counter
  import T = Tables
  import W = Worker

  type Time = C.Time
  type Command = T.Command
  type Batch = T.Batch

  datatype Node = Node(table: T.Table, queue: seq<Command>, pending: Batch)

  datatype Message = Message(src: nat, dst: nat, batch: Batch)

  datatype State = State(now: Time, nodes: seq<Node>, net: seq<Message>)

  datatype Setup = Setup(ar: Arith, size: nat, start: Time, ctrLimit: int)

  datatype Step =
    | Call(node: nat, key: string, count: int, limit: int, window: int)
    | Dequeue(node: nat)
    | Timeout(node: nat)
    | Deliver(n: nat)
    | Lose(n: nat)
    | Collect(node: nat, visited: set<string>, grace: int)
    | Tick(d: nat)

  /** One message to every other node. */
  function Broadcast(src: nat, size: nat, batch: Batch): seq<Message> {
    if size == 0 then []
    else Broadcast(src, size - 1, batch) + if size - 1 == src then [] else [Message(src, size - 1, batch)]
  }

  function Without(net: seq<Message>, n: nat): seq<Message>
    requires n < |net|
  {
    net[..n] + net[n + 1..]
  }

  function SendAll(src: nat, size: nat, batches: seq<Batch>): seq<Message> {
    if batches == [] then [] else Broadcast(src, size, batches[0])
  }

  function Served(c: Setup, s: State, step: Step): (T.Table, C.Response)
    requires step.Call? && step.node < |s.nodes|
  {
    T.Incr(c.ar, s.nodes[step.node].table, s.now, step.key, step.count, step.limit, step.window)
  }

  /** The node after its worker took input, and the batch it sends, if any. */
  function Worked(c: Setup, node: Node, step: Step): (Node, seq<Batch>)
    requires step.Dequeue? || step.Timeout?
  {
    if step.Timeout? then
      var (m, sent) := W.Timeout(node.pending);
      (node.(pending := m), sent)
    else if node.queue == [] then (node, [])
    else
      var (m, sent) := W.Receive(c.ar, c.ctrLimit, node.pending, node.queue[0]);
      (node.(pending := m, queue := node.queue[1..]), sent)
  }

  function Next(c: Setup, s: State, step: Step): State {
    match step
    case Call(i, key, count, limit, window) =>
      if i >= |s.nodes| then s
      else
        var (t, r) := Served(c, s, step);
        var node := s.nodes[i];
        s.(nodes := s.nodes[i := node.(table := t, queue := node.queue + T.Announced(key, count, r))])
    case Dequeue(i) =>
      if i >= |s.nodes| then s
      else
        var (node, sent) := Worked(c, s.nodes[i], step);
        s.(nodes := s.nodes[i := node], net := s.net + SendAll(i, c.size, sent))
    case Timeout(i) =>
      if i >= |s.nodes| then s
      else
        var (node, sent) := Worked(c, s.nodes[i], step);
        s.(nodes := s.nodes[i := node], net := s.net + SendAll(i, c.size, sent))
    case Deliver(n) =>
      if n >= |s.net| || s.net[n].dst >= |s.nodes| then s
      else
        var node := s.nodes[s.net[n].dst];
        var t := T.SyncBatch(c.ar, node.table, s.now, s.net[n].batch);
        s.(nodes := s.nodes[s.net[n].dst := node.(table := t)], net := Without(s.net, n))
    case Lose(n) => if n >= |s.net| then s else s.(net := Without(s.net, n))
    case Collect(i, visited, grace) =>
      if i >= |s.nodes| then s
      else s.(nodes := s.nodes[i := s.nodes[i].(table := T.Collect(s.nodes[i].table, s.now, visited, grace))])
    case Tick(d) => s.(now := s.now + d)
  }

  function Init(c: Setup): State {
    State(c.start, seq(c.size, _ => Node(map[], [], map[])), [])
  }

  function Run(c: Setup, steps: seq<Step>): State {
    if steps == [] then Init(c) else Next(c, Run(c, steps[..|steps| - 1]), steps[|steps| - 1])
  }

  // ---- Messages ------------------------------------------------------------------------------------

  /** Messages go between two different nodes. */
  ghost predicate NetOk(c: Setup, s: State) {
    && |s.nodes| == c.size
    && forall n | 0 <= n < |s.net| :: s.net[n].src < c.size && s.net[n].dst < c.size && s.net[n].src != s.net[n].dst
  }

  lemma {:induction false} BroadcastOk(src: nat, size: nat, batch: Batch, m: Message)
    requires m in Broadcast(src, size, batch)
    ensures m.src == src && m.dst < size && m.dst != src && m.batch == batch
  {
    if m in Broadcast(src, size - 1, batch) {
      BroadcastOk(src, size - 1, batch, m);
    }
  }

  lemma NetKept(c: Setup, s: State, step: Step)
    requires NetOk(c, s)
    ensures NetOk(c, Next(c, s, step))
  {
    var s' := Next(c, s, step);
    forall n | 0 <= n < |s'.net|
      ensures s'.net[n].src < c.size && s'.net[n].dst < c.size && s'.net[n].src != s'.net[n].dst
    {
      if (step.Dequeue? || step.Timeout?) && n >= |s.net| {
        var sent := Worked(c, s.nodes[step.node], step).1;
        assert s'.net[n] == SendAll(step.node, c.size, sent)[n - |s.net|];
        BroadcastOk(step.node, c.size, sent[0], s'.net[n]);
      }
    }
  }

  lemma {:induction false} NetAlwaysOk(c: Setup, steps: seq<Step>)
    ensures NetOk(c, Run(c, steps))
  {
    if steps != [] {
      NetAlwaysOk(c, steps[..|steps| - 1]);
      NetKept(c, Run(c, steps[..|steps| - 1]), steps[|steps| - 1]);
    }
  }

  // ---- A node's stream of commands -------------------------------------------------------------------

  /** The commands node i's worker took since it last flushed. */
  function SinceFlush(c: Setup, steps: seq<Step>, i: nat): seq<Command> {
    if steps == [] then []
    else
      var before := steps[..|steps| - 1];
      var s := Run(c, before);
      match steps[|steps| - 1]
      case Dequeue(j) =>
        if j != i || i >= |s.nodes| || s.nodes[i].queue == [] then SinceFlush(c, before, i)
        else if Worked(c, s.nodes[i], steps[|steps| - 1]).1 != [] then []
        else SinceFlush(c, before, i) + [s.nodes[i].queue[0]]
      case Timeout(j) => if j == i then [] else SinceFlush(c, before, i)
      case _ => SinceFlush(c, before, i)
  }

  /** An unexpired command names the expiry of its node's entry. */
  ghost predicate Current(cs: seq<Command>, t: T.Table, now: Time) {
    forall p | 0 <= p < |cs| && cs[p].expiry >= now :: cs[p].key in t && t[cs[p].key].expires == cs[p].expiry
  }

  ghost predicate StreamOk(c: Setup, s: State, i: nat, taken: seq<Command>)
    requires i < |s.nodes|
  {
    var node := s.nodes[i];
    && node.pending == W.MergeAll(c.ar, taken)
    && W.Kept(node.pending, c.ctrLimit)
    && W.Superseded(taken + node.queue, s.now)
    && Current(taken + node.queue, node.table, s.now)
  }

  lemma CallStream(c: Setup, s: State, step: Step, taken: seq<Command>)
    requires step.Call? && step.node < |s.nodes| && StreamOk(c, s, step.node, taken)
    ensures StreamOk(c, Next(c, s, step), step.node, taken)
  {
    hide C.GenExpiry, W.Kept, W.MergeAll;
    var node := s.nodes[step.node];
    var r := Served(c, s, step).1;
    var stream := taken + node.queue;
    var stream' := stream + T.Announced(step.key, step.count, r);
    var table' := Served(c, s, step).0;
    assert Next(c, s, step).nodes[step.node].queue == node.queue + T.Announced(step.key, step.count, r);
    assert taken + (node.queue + T.Announced(step.key, step.count, r)) == stream';
    assert Current(stream', table', s.now);
    forall p, q | 0 <= p < q < |stream'| && stream'[p].key == stream'[q].key
      ensures stream'[p].expiry == stream'[q].expiry || stream'[p].expiry < s.now
    {
      if q < |stream| {
        assert stream[p] == stream'[p] && stream[q] == stream'[q];
      } else {
        assert stream'[p].expiry >= s.now ==> table'[step.key].expires == stream'[p].expiry;
      }
    }
  }

  lemma DeliverStream(c: Setup, s: State, step: Step, taken: seq<Command>)
    requires step.Deliver? && step.n < |s.net| && s.net[step.n].dst < |s.nodes|
    requires StreamOk(c, s, s.net[step.n].dst, taken)
    ensures StreamOk(c, Next(c, s, step), s.net[step.n].dst, taken)
  {
    hide W.Kept, W.MergeAll, W.Superseded;
    var i := s.net[step.n].dst;
    var node := s.nodes[i];
    var stream := taken + node.queue;
    var table' := Next(c, s, step).nodes[i].table;
    forall p | 0 <= p < |stream| && stream[p].expiry >= s.now
      ensures stream[p].key in table' && table'[stream[p].key].expires == stream[p].expiry
    {
      T.SyncBatchAt(c.ar, node.table, s.now, s.net[step.n].batch, stream[p].key);
      assert T.Get(node.table, stream[p].key) == Some(node.table[stream[p].key]);
    }
  }

  lemma SuffixOk(cs: seq<Command>, t: T.Table, now: Time, n: nat)
    requires W.Superseded(cs, now) && Current(cs, t, now) && n <= |cs|
    ensures W.Superseded(cs[n..], now) && Current(cs[n..], t, now)
  {
    var rest := cs[n..];
    assert forall p | 0 <= p < |rest| :: rest[p] == cs[n + p];
  }

  lemma DequeueStream(c: Setup, s: State, i: nat, taken: seq<Command>)
    requires i < |s.nodes| && s.nodes[i].queue != [] && StreamOk(c, s, i, taken)
    ensures StreamOk(c, Next(c, s, Dequeue(i)), i,
                     if Worked(c, s.nodes[i], Dequeue(i)).1 != [] then [] else taken + [s.nodes[i].queue[0]])
  {
    hide W.Superseded, Current, W.Merge;
    var node := s.nodes[i];
    var stream := taken + node.queue;
    var next := node.queue[0];
    W.ReceiveKeeps(c.ar, c.ctrLimit, node.pending, next);
    SuffixOk(stream, node.table, s.now, |taken| + 1);
    assert stream[|taken| + 1..] == [] + node.queue[1..];
    assert (taken + [next]) + node.queue[1..] == stream;
    assert (taken + [next])[..|taken|] == taken;
  }

  lemma TimeoutStream(c: Setup, s: State, i: nat, taken: seq<Command>)
    requires i < |s.nodes| && StreamOk(c, s, i, taken)
    ensures StreamOk(c, Next(c, s, Timeout(i)), i, [])
  {
    hide W.Superseded, Current;
    var node := s.nodes[i];
    SuffixOk(taken + node.queue, node.table, s.now, |taken|);
    assert (taken + node.queue)[|taken|..] == [] + node.queue;
    if |node.pending| == 0 {
      assert node.pending == map[];
    }
  }

  /** What a node queued and took never mixes two unexpired windows of a key, whatever windows, limits and
      counts its calls use. */
  lemma {:induction false} StreamAlwaysOk(c: Setup, steps: seq<Step>, i: nat)
    requires i < c.size
    ensures |Run(c, steps).nodes| == c.size && StreamOk(c, Run(c, steps), i, SinceFlush(c, steps, i))
  {
    NetAlwaysOk(c, steps);
    if steps != [] {
      var before, last := steps[..|steps| - 1], steps[|steps| - 1];
      var s := Run(c, before);
      var taken := SinceFlush(c, before, i);
      NetAlwaysOk(c, before);
      StreamAlwaysOk(c, before, i);
      match last
      case Call(j, _, _, _, _) => if j == i { CallStream(c, s, last, taken); }
      case Deliver(n) => if n < |s.net| && s.net[n].dst == i { DeliverStream(c, s, last, taken); }
      case Dequeue(j) => if j == i && s.nodes[i].queue != [] { DequeueStream(c, s, i, taken); }
      case Timeout(j) => if j == i { TimeoutStream(c, s, i, taken); }
      case _ =>
    }
  }

  /** In every run, what a worker holds would leave any receiver, now or later, exactly where the commands
      it took since its last flush, delivered one by one, would. */
  lemma PendingStandsForItsCommands(c: Setup, steps: seq<Step>, i: nat, t: T.Table, now: Time)
    requires i < c.size && Run(c, steps).now <= now
    ensures |Run(c, steps).nodes| == c.size
    ensures T.SyncBatch(c.ar, t, now, Run(c, steps).nodes[i].pending)
         == T.SyncKeys(c.ar, t, now, SinceFlush(c, steps, i))
  {
    StreamAlwaysOk(c, steps, i);
    var s := Run(c, steps);
    var taken := SinceFlush(c, steps, i);
    assert forall p | 0 <= p < |taken| :: taken[p] == (taken + s.nodes[i].queue)[p];
    W.CoalescingPreservesMeaning(c.ar, t, now, taken);
  }

  /** The same of every batch a full or forced worker sends: it stands for all commands since the last flush. */
  lemma SentBatchStandsForItsCommands(c: Setup, steps: seq<Step>, i: nat, t: T.Table, now: Time)
    requires i < c.size && Run(c, steps).now <= now
    requires i < |Run(c, steps).nodes| && Run(c, steps).nodes[i].queue != []
    requires Worked(c, Run(c, steps).nodes[i], Dequeue(i)).1 != []
    ensures T.SyncBatch(c.ar, t, now, Worked(c, Run(c, steps).nodes[i], Dequeue(i)).1[0])
         == T.SyncKeys(c.ar, t, now, SinceFlush(c, steps, i) + [Run(c, steps).nodes[i].queue[0]])
  {
    hide Run, SinceFlush, T.SyncBatch, T.SyncKeys, W.Merge, W.Kept, Current;
    StreamAlwaysOk(c, steps, i);
    var node := Run(c, steps).nodes[i];
    var taken := SinceFlush(c, steps, i) + [node.queue[0]];
    var stream := SinceFlush(c, steps, i) + node.queue;
    assert forall p | 0 <= p < |taken| :: taken[p] == stream[p];
    assert taken[..|taken| - 1] == SinceFlush(c, steps, i);
    W.CoalescingPreservesMeaning(c.ar, t, now, taken);
  }

  /** A pending command is only ever replaced once it has expired. */
  lemma ReplacedHasExpired(c: Setup, steps: seq<Step>, i: nat)
    requires i < c.size && i < |Run(c, steps).nodes| && Run(c, steps).nodes[i].queue != []
    ensures var node := Run(c, steps).nodes[i];
            var next := node.queue[0];
            (next.key in node.pending && node.pending[next.key].expiry != next.expiry) ==>
              node.pending[next.key].expiry < Run(c, steps).now
  {
    StreamAlwaysOk(c, steps, i);
    var node := Run(c, steps).nodes[i];
    var taken := SinceFlush(c, steps, i);
    var next := node.queue[0];
    if next.key in node.pending {
      var p := W.PendingComesFrom(c.ar, taken, next.key);
      var stream := taken + node.queue;
      assert stream[p] == taken[p] && stream[|taken|] == next;
    }
  }

  /** In every run, a pending count is the sum of the commands in its key's latest run of equal expiries since
      the last flush, and is within the unsynced limit. */
  lemma PendingCount(c: Setup, steps: seq<Step>, i: nat, key: string)
    requires c.ar.Unbounded? && i < c.size
    ensures |Run(c, steps).nodes| == c.size
    ensures key in Run(c, steps).nodes[i].pending ==>
              var p := Run(c, steps).nodes[i].pending[key];
              && p.key == key && !p.force && p.count <= c.ctrLimit
              && p.count == W.LatestRun(W.OfKey(SinceFlush(c, steps, i), key))
  {
    StreamAlwaysOk(c, steps, i);
    W.PendingIsLatestRun(SinceFlush(c, steps, i), key);
  }

  /** The cluster's worker is the loop's: taking a command, and running out of patience, do what one iteration does. */
  lemma ClusterWorkerIsLoop(c: Setup, node: Node, i: nat)
    requires c.ar.Int32?
    ensures var (after, sent) := Worked(c, node, Timeout(i));
            && W.OnInput(c.ctrLimit, node.pending, W.TimedOut) == (after.pending, sent)
            && after == node.(pending := after.pending)
    ensures node.queue != [] ==>
              var (after, sent) := Worked(c, node, Dequeue(i));
              && W.OnInput(c.ctrLimit, node.pending, W.Received(node.queue[0])) == (after.pending, sent)
              && after == node.(pending := after.pending, queue := node.queue[1..])
  {
  }

  /** A worker out of patience sends all it holds, and then holds nothing. */
  lemma TimeoutFlushes(c: Setup, node: Node, i: nat)
    ensures Worked(c, node, Timeout(i))
         == (node.(pending := map[]), if node.pending == map[] then [] else [node.pending])
  {
    if |node.pending| == 0 {
      assert node.pending == map[];
    }
  }

  /** A worker that takes a command sends exactly when the command is forced, or what it took for that key since it last
      sent, in the command's own window, adds up to more than the unsynced limit. */
  lemma SendsExactly(c: Setup, steps: seq<Step>, i: nat)
    requires c.ar.Unbounded? && i < c.size
    requires i < |Run(c, steps).nodes| && Run(c, steps).nodes[i].queue != []
    ensures var node := Run(c, steps).nodes[i];
            var next := node.queue[0];
            Worked(c, node, Dequeue(i)).1 != []
            <==> next.force || W.LatestRun(W.OfKey(SinceFlush(c, steps, i) + [next], next.key)) > c.ctrLimit
  {
    StreamAlwaysOk(c, steps, i);
    var next := Run(c, steps).nodes[i].queue[0];
    var taken := SinceFlush(c, steps, i);
    assert (taken + [next])[..|taken|] == taken;
    W.PendingIsLatestRun(taken + [next], next.key);
  }
}
