/** No 32-bit counter wraps: the program's arithmetic agrees with unbounded arithmetic in whole runs. */
module Bounds {
  import opened Base
  import opened Cluster
  import opened Replication
  import C = Counter
  import T = Tables
  import W = Worker

  datatype KeyRule = KeyRule(window: int, limit: nat)

  /** Every key keeps to one rule, is not touched exactly on its window boundaries, and is called with counts
      between 0 and `most`. */
  ghost predicate KeyRuled(c: Setup, steps: seq<Step>, key: string, rule: KeyRule, most: nat) {
    && rule.window > 0
    && Throughout(c, steps, Windowed(key, rule.window)) && Throughout(c, steps, Apart(key, rule.window))
    && Throughout(c, steps, Limited(key, rule.limit)) && Throughout(c, steps, AtMost(key, most))
  }

  ghost predicate Ruled(c: Setup, steps: seq<Step>, rules: string -> KeyRule, most: nat) {
    forall key :: KeyRuled(c, steps, key, rules(key), most)
  }

  // ---- Commands never carry negative counts ---------------------------------------------------------------

  ghost predicate BatchCounts(m: Batch, key: string) { key in m ==> m[key].count >= 0 }

  ghost predicate NodeCounts(node: Node, key: string) {
    && (forall p | 0 <= p < |node.queue| && node.queue[p].key == key :: node.queue[p].count >= 0)
    && BatchCounts(node.pending, key)
  }

  ghost predicate CountsOk(s: State, key: string) {
    && (forall i | 0 <= i < |s.nodes| :: NodeCounts(s.nodes[i], key))
    && (forall n | 0 <= n < |s.net| :: BatchCounts(s.net[n].batch, key))
  }

  lemma WorkerCountsOk(c: Setup, node: Node, step: Step, key: string)
    requires c.ar.Unbounded? && (step.Dequeue? || step.Timeout?) && NodeCounts(node, key)
    ensures var (node', sent) := Worked(c, node, step);
            NodeCounts(node', key) && (sent != [] ==> BatchCounts(sent[0], key))
  {
  }

  lemma NextCountsOk(c: Setup, s: State, step: Step, key: string, limit: int)
    requires c.ar.Unbounded? && CountsOk(s, key) && Meets(s, step, Limited(key, limit))
    ensures CountsOk(Next(c, s, step), key)
  {
    hide C.Incr, BatchCounts;
    var s' := Next(c, s, step);
    match step
    case Call(i, _, _, _, _) => if i < |s.nodes| { assert NodeCounts(s.nodes[i], key); }
    case Deliver(n) => if n < |s.net| && s.net[n].dst < |s.nodes| { assert NodeCounts(s.nodes[s.net[n].dst], key); }
    case Collect(i, _, _) => if i < |s.nodes| { assert NodeCounts(s.nodes[i], key); }
    case Tick(_) =>
    case Lose(_) =>
    case _ =>
      if step.node < |s.nodes| {
        WorkerCountsOk(c, s.nodes[step.node], step, key);
        var sent := Worked(c, s.nodes[step.node], step).1;
        forall n | |s.net| <= n < |s'.net|
          ensures BatchCounts(s'.net[n].batch, key)
        {
          assert s'.net[n] == SendAll(step.node, c.size, sent)[n - |s.net|];
          BroadcastOk(step.node, c.size, sent[0], s'.net[n]);
        }
      }
  }

  lemma {:induction false} RunCountsOk(c: Setup, steps: seq<Step>, key: string, limit: int)
    requires c.ar.Unbounded? && Throughout(c, steps, Limited(key, limit))
    ensures CountsOk(Run(c, steps), key)
  {
    if steps != [] {
      RunCountsOk(c, steps[..|steps| - 1], key, limit);
      NextCountsOk(c, Run(c, steps[..|steps| - 1]), steps[|steps| - 1], key, limit);
    }
  }

  lemma {:induction false} QueuedOk(cs: seq<Command>, f: Focus)
    requires forall p | 0 <= p < |cs| && cs[p].key == f.key :: cs[p].count >= 0
    ensures Queued(cs, f) >= 0
  {
    if cs != [] {
      QueuedOk(cs[..|cs| - 1], f);
    }
  }

  lemma {:induction false} InFlightOk(net: seq<Message>, f: Focus, i: nat, j: nat)
    requires forall n | 0 <= n < |net| :: BatchCounts(net[n].batch, f.key)
    ensures InFlight(net, f, i, j) >= 0
  {
    if net != [] {
      InFlightOk(net[..|net| - 1], f, i, j);
    }
  }

  lemma OutstandingOk(s: State, f: Focus, i: nat, j: nat)
    requires CountsOk(s, f.key) && i < |s.nodes|
    ensures Outstanding(s, f, i, j) >= 0
  {
    assert NodeCounts(s.nodes[i], f.key);
    QueuedOk(s.nodes[i].queue, f);
    InFlightOk(s.net, f, i, j);
  }

  lemma {:induction false} LostOk(c: Setup, steps: seq<Step>, f: Focus, limit: int, i: nat, j: nat)
    requires c.ar.Unbounded? && Throughout(c, steps, Limited(f.key, limit))
    ensures Total(c, steps, f, Lost(i, j)) >= 0 && Total(c, steps, f, Applied(i, j)) >= 0
  {
    if steps != [] {
      LostOk(c, steps[..|steps| - 1], f, limit, i, j);
      RunCountsOk(c, steps[..|steps| - 1], f.key, limit);
    }
  }

  // ---- What one node accepts ----------------------------------------------------------------------------------

  /** A node's own acceptances are among what its counter holds. */
  lemma AcceptedIsCounted(c: Setup, steps: seq<Step>, f: Focus, limit: int, j: nat)
    requires c.ar.Unbounded? && j < c.size && Throughout(c, steps, Limited(f.key, limit))
    ensures 0 <= Total(c, steps, f, Accepted(j)) <= Total(c, steps, f, Into(j))
  {
    AllowedIsAccepted(c, steps, f, limit, j);
    IntoIsSum(c, steps, f, j);
    var g := (i: nat) => Contribution(c, steps, f, i, j);
    forall i: nat | i < c.size
      ensures g(i) >= 0
    {
      if i == j {
        AllowedIsAccepted(c, steps, f, limit, j);
      } else {
        LostOk(c, steps, f, limit, i, j);
      }
    }
    SumNonNegative(c.size, g);
    assert g(j) <= Sum(c.size, g);
    SumEqual(c.size, g, (i: nat) => Contribution(c, steps, f, i, j));
  }

  /** A counted call found its entry within the limit, and the entry is live. */
  lemma CountedCall(c: Setup, s: State, step: Step, f: Focus, j: nat, total: int)
    requires c.ar.Unbounded? && j < |s.nodes| && step.Call? && step.node == j && step.key == f.key && step.count >= 0
    requires s.now <= f.expiry ==> CountIs(s, f, j, total)
    requires CallAmount(c, s, step, f, j) != 0
    ensures s.now <= f.expiry && total <= step.limit
  {
    AnswerIsLive(c, s, step);
    hide C.GenExpiry;
  }

  /** One node accepts at most the limit and one more call's count. */
  lemma {:induction false} AcceptedBound(c: Setup, steps: seq<Step>, f: Focus, rule: KeyRule, most: nat, j: nat)
    requires c.ar.Unbounded? && j < c.size && KeyRuled(c, steps, f.key, rule, most)
    ensures 0 <= Total(c, steps, f, Accepted(j)) <= rule.limit + most
  {
    AllowedIsAccepted(c, steps, f, rule.limit, j);
    if steps != [] {
      var before, last := steps[..|steps| - 1], steps[|steps| - 1];
      var s := Run(c, before);
      hide Next, Served;
      NetAlwaysOk(c, before);
      AcceptedBound(c, before, f, rule, most, j);
      if CallAmount(c, s, last, f, j) != 0 {
        if s.now <= f.expiry {
          CountsReach(c, before, f, j, rule.window);
        }
        CountedCall(c, s, last, f, j, Total(c, before, f, Into(j)));
        AcceptedIsCounted(c, before, f, rule.limit, j);
      }
    }
  }

  // ---- What an entry can hold ------------------------------------------------------------------------------------

  lemma ContributionBound(c: Setup, steps: seq<Step>, f: Focus, rule: KeyRule, most: nat, i: nat, j: nat)
    requires c.ar.Unbounded? && i < c.size && j < c.size && KeyRuled(c, steps, f.key, rule, most)
    requires Run(c, steps).now <= f.expiry
    ensures 0 <= Contribution(c, steps, f, i, j) <= rule.limit + most
  {
    AcceptedBound(c, steps, f, rule, most, i);
    if i != j {
      Conservation(c, steps, f, i, j);
      RunCountsOk(c, steps, f.key, rule.limit);
      OutstandingOk(Run(c, steps), f, i, j);
      LostOk(c, steps, f, rule.limit, i, j);
    }
  }

  /** In any run, a live entry holds at most what every node together may accept. */
  lemma EntryBound(c: Setup, steps: seq<Step>, j: nat, key: string, rule: KeyRule, most: nat)
    requires c.ar.Unbounded? && j < c.size && KeyRuled(c, steps, key, rule, most)
    requires j < |Run(c, steps).nodes| && C.Live(T.Get(Run(c, steps).nodes[j].table, key), Run(c, steps).now)
    ensures 0 <= Run(c, steps).nodes[j].table[key].count <= c.size * (rule.limit + most)
  {
    var f := Focus(key, Run(c, steps).nodes[j].table[key].expires);
    CountsReach(c, steps, f, j, rule.window);
    IntoIsSum(c, steps, f, j);
    var g := (i: nat) => Contribution(c, steps, f, i, j);
    forall i: nat | i < c.size
      ensures 0 <= g(i) <= rule.limit + most
    {
      ContributionBound(c, steps, f, rule, most, i, j);
    }
    SumAtMost(c.size, g, rule.limit + most);
    SumNonNegative(c.size, g);
    SumEqual(c.size, g, (i: nat) => Contribution(c, steps, f, i, j));
  }

  /** What a node queued and holds for one window, even one that is over, it accepted. */
  lemma {:induction false} BacklogBound(c: Setup, steps: seq<Step>, f: Focus, rule: KeyRule, most: nat, i: nat)
    requires c.ar.Unbounded? && i < c.size && KeyRuled(c, steps, f.key, rule, most)
    ensures i < |Run(c, steps).nodes|
    ensures var node := Run(c, steps).nodes[i];
            Queued(node.queue, f) + Held(node.pending, f) <= Total(c, steps, f, Accepted(i))
  {
    NetAlwaysOk(c, steps);
    if steps != [] {
      var before, last := steps[..|steps| - 1], steps[|steps| - 1];
      var s := Run(c, before);
      NetAlwaysOk(c, before);
      RunCountsOk(c, before, f.key, rule.limit);
      BacklogBound(c, before, f, rule, most, i);
      BacklogStep(c, s, last, f, i);
    }
  }

  lemma BacklogStep(c: Setup, s: State, step: Step, f: Focus, i: nat)
    requires c.ar.Unbounded? && NetOk(c, s) && i < c.size && CountsOk(s, f.key)
    ensures i < |Next(c, s, step).nodes|
    ensures var (node, node') := (s.nodes[i], Next(c, s, step).nodes[i]);
            Queued(node'.queue, f) + Held(node'.pending, f)
            <= Queued(node.queue, f) + Held(node.pending, f) + CallAmount(c, s, step, f, i)
  {
    var node := s.nodes[i];
    assert NodeCounts(node, f.key);
    match step
    case Call(k, _, _, _, _) => if k < c.size { CallConserves(c, s, step, f, i, i); }
    case Dequeue(k) => if k == i && node.queue != [] { DequeueBacklog(c, node, f); }
    case _ =>
  }

  lemma DequeueBacklog(c: Setup, node: Node, f: Focus)
    requires c.ar.Unbounded? && node.queue != [] && NodeCounts(node, f.key)
    ensures var node' := Worked(c, node, Dequeue(0)).0;
            Queued(node'.queue, f) + Held(node'.pending, f) <= Queued(node.queue, f) + Held(node.pending, f)
  {
    var next := node.queue[0];
    QueuedSplits([next], node.queue[1..], f);
    assert [next] + node.queue[1..] == node.queue && [next][..0] == [];
  }

  // ---- The 32-bit run is the unbounded run -----------------------------------------------------------------------

  /** All nodes together may accept no more than an int32 holds. */
  ghost predicate FitsInt32(c: Setup, rules: string -> KeyRule, most: nat) {
    forall key :: c.size * (rules(key).limit + most) <= INT32_MAX
  }

  function Wrapping(c: Setup): Setup { c.(ar := Int32) }

  lemma AtLeastOneShare(size: nat, share: nat)
    requires size > 0
    ensures share <= size * share
  {
  }

  /** After an unbounded step, every live entry is within int32. */
  lemma EntryFits(c: Setup, steps: seq<Step>, rules: string -> KeyRule, most: nat, j: nat, key: string)
    requires c.ar.Unbounded? && j < c.size && Ruled(c, steps, rules, most) && FitsInt32(c, rules, most)
    requires j < |Run(c, steps).nodes| && C.Live(T.Get(Run(c, steps).nodes[j].table, key), Run(c, steps).now)
    ensures 0 <= Run(c, steps).nodes[j].table[key].count <= INT32_MAX
  {
    hide Throughout, KeyRuled, Run;
    assert KeyRuled(c, steps, key, rules(key), most);
    EntryBound(c, steps, j, key, rules(key), most);
  }

  /** A counting step agrees in both arithmetics when its unbounded result fits. */
  lemma CallAgreesInt32(s: State, step: Step)
    requires step.Call? && step.node < |s.nodes|
    requires var t := s.nodes[step.node].table;
             var (t', _) := T.Incr(Unbounded, t, s.now, step.key, step.count, step.limit, step.window);
             0 <= t'[step.key].count <= INT32_MAX
    ensures T.Incr(Unbounded, s.nodes[step.node].table, s.now, step.key, step.count, step.limit, step.window)
         == T.Incr(Int32, s.nodes[step.node].table, s.now, step.key, step.count, step.limit, step.window)
  {
    hide C.GenExpiry;
  }

  lemma DeliverAgreesInt32(t: T.Table, now: Time, m: Batch)
    requires forall key | key in m && now <= m[key].expiry ::
               0 <= C.Sync(Unbounded, T.Get(t, key), now, m[key].count, m[key].expiry).value.count <= INT32_MAX
    ensures T.SyncBatch(Unbounded, t, now, m) == T.SyncBatch(Int32, t, now, m)
  {
    forall key
      ensures T.Get(T.SyncBatch(Unbounded, t, now, m), key) == T.Get(T.SyncBatch(Int32, t, now, m), key)
    {
      T.SyncBatchAt(Unbounded, t, now, m, key);
      T.SyncBatchAt(Int32, t, now, m, key);
    }
    T.SameTable(T.SyncBatch(Unbounded, t, now, m), T.SyncBatch(Int32, t, now, m));
  }

  lemma NextAgreesInt32Call(c: Setup, steps: seq<Step>, last: Step, rules: string -> KeyRule, most: nat)
    requires c.ar.Unbounded? && last.Call? && FitsInt32(c, rules, most) && Ruled(c, steps + [last], rules, most)
    ensures Next(Wrapping(c), Run(c, steps), last) == Next(c, Run(c, steps), last)
  {
    var after := steps + [last];
    assert after[..|steps|] == steps;
    var s := Run(c, steps);
    NetAlwaysOk(c, steps);
    if last.node < c.size {
      hide Throughout, Ruled, FitsInt32, C.Count;
      AnswerIsLive(c, s, last);
      CallEntry(c, s, last);
      assert Run(c, after).nodes[last.node].table == Served(c, s, last).0;
      EntryFits(c, after, rules, most, last.node, last.key);
      CallAgreesInt32(s, last);
    }
  }

  lemma CallEntry(c: Setup, s: State, call: Step)
    requires call.Call? && call.node < |s.nodes|
    ensures var (t, r) := Served(c, s, call); call.key in t && t[call.key].expires == r.expiry
  {
    hide C.GenExpiry;
  }

  lemma NextAgreesInt32Deliver(c: Setup, steps: seq<Step>, last: Step, rules: string -> KeyRule, most: nat)
    requires c.ar.Unbounded? && last.Deliver? && FitsInt32(c, rules, most) && Ruled(c, steps + [last], rules, most)
    ensures Next(Wrapping(c), Run(c, steps), last) == Next(c, Run(c, steps), last)
  {
    var after := steps + [last];
    assert after[..|steps|] == steps;
    var s := Run(c, steps);
    NetAlwaysOk(c, steps);
    if last.n < |s.net| {
      hide Throughout, Ruled, FitsInt32;
      var j, m := s.net[last.n].dst, s.net[last.n].batch;
      var t := s.nodes[j].table;
      assert Run(c, after).nodes[j].table == T.SyncBatch(Unbounded, t, s.now, m);
      forall key | key in m && s.now <= m[key].expiry
        ensures 0 <= C.Sync(Unbounded, T.Get(t, key), s.now, m[key].count, m[key].expiry).value.count <= INT32_MAX
      {
        T.SyncBatchAt(Unbounded, t, s.now, m, key);
        EntryFits(c, after, rules, most, j, key);
      }
      DeliverAgreesInt32(t, s.now, m);
    }
  }

  lemma MergeAgreesInt32(m: Batch, next: Command)
    requires next.key in m && m[next.key].expiry == next.expiry ==> 0 <= m[next.key].count + next.count <= INT32_MAX
    ensures W.Merge(Int32, m, next) == W.Merge(Unbounded, m, next)
  {
  }

  lemma HeadHolds(node: Node, f: Focus)
    requires node.queue != [] && NodeCounts(node, f.key)
    requires node.queue[0].key == f.key && node.queue[0].expiry == f.expiry
    ensures 0 <= node.queue[0].count <= Queued(node.queue, f)
  {
    var next, rest := node.queue[0], node.queue[1..];
    QueuedSplits([next], rest, f);
    assert [next] + rest == node.queue && [next][..0] == [];
    QueuedOk(rest, f);
  }

  /** Merging the next command cannot leave int32. */
  lemma HeadFits(c: Setup, steps: seq<Step>, i: nat, rule: KeyRule, most: nat)
    requires c.ar.Unbounded? && i < c.size && c.size * (rule.limit + most) <= INT32_MAX
    requires i < |Run(c, steps).nodes| && Run(c, steps).nodes[i].queue != []
    requires KeyRuled(c, steps, Run(c, steps).nodes[i].queue[0].key, rule, most)
    ensures var node := Run(c, steps).nodes[i];
            var next := node.queue[0];
            (next.key in node.pending && node.pending[next.key].expiry == next.expiry) ==>
              0 <= node.pending[next.key].count + next.count <= INT32_MAX
  {
    hide Run, Throughout;
    var node := Run(c, steps).nodes[i];
    var next := node.queue[0];
    var f := Focus(next.key, next.expiry);
    RunCountsOk(c, steps, next.key, rule.limit);
    BacklogBound(c, steps, f, rule, most, i);
    AcceptedBound(c, steps, f, rule, most, i);
    AtLeastOneShare(c.size, rule.limit + most);
    assert NodeCounts(node, next.key);
    HeadHolds(node, f);
  }

  lemma SameMergeSameStep(c: Setup, s: State, i: nat)
    requires c.ar.Unbounded?
    requires i < |s.nodes| && s.nodes[i].queue != [] ==>
               W.Merge(Int32, s.nodes[i].pending, s.nodes[i].queue[0])
               == W.Merge(Unbounded, s.nodes[i].pending, s.nodes[i].queue[0])
    ensures Next(Wrapping(c), s, Dequeue(i)) == Next(c, s, Dequeue(i))
  {
    hide W.Merge;
  }

  lemma NextAgreesInt32Dequeue(c: Setup, steps: seq<Step>, i: nat, rules: string -> KeyRule, most: nat)
    requires c.ar.Unbounded? && FitsInt32(c, rules, most) && Ruled(c, steps, rules, most)
    ensures Next(Wrapping(c), Run(c, steps), Dequeue(i)) == Next(c, Run(c, steps), Dequeue(i))
  {
    hide Run, KeyRuled, W.Merge, Next;
    var s := Run(c, steps);
    NetAlwaysOk(c, steps);
    if i < c.size && s.nodes[i].queue != [] {
      var next := s.nodes[i].queue[0];
      assert KeyRuled(c, steps, next.key, rules(next.key), most);
      HeadFits(c, steps, i, rules(next.key), most);
      MergeAgreesInt32(s.nodes[i].pending, next);
    }
    SameMergeSameStep(c, s, i);
  }

  lemma RuledPrefix(c: Setup, steps: seq<Step>, last: Step, rules: string -> KeyRule, most: nat)
    requires Ruled(c, steps + [last], rules, most)
    ensures Ruled(c, steps, rules, most)
  {
    forall key
      ensures KeyRuled(c, steps, key, rules(key), most)
    {
      var rule := rules(key);
      assert KeyRuled(c, steps + [last], key, rule, most);
      LastStep(c, steps, last, Windowed(key, rule.window));
      LastStep(c, steps, last, Apart(key, rule.window));
      LastStep(c, steps, last, Limited(key, rule.limit));
      LastStep(c, steps, last, AtMost(key, most));
    }
  }

  /** No counter, on any node or in any worker, wraps in any such run: with 32-bit arithmetic the cluster goes
      through exactly the states it goes through with unbounded arithmetic. */
  lemma {:induction false} NoWrapAnywhere(c: Setup, steps: seq<Step>, rules: string -> KeyRule, most: nat)
    requires c.ar.Unbounded? && FitsInt32(c, rules, most) && Ruled(c, steps, rules, most)
    ensures Run(Wrapping(c), steps) == Run(c, steps)
  {
    if steps != [] {
      var before, last := steps[..|steps| - 1], steps[|steps| - 1];
      assert steps == before + [last];
      hide Ruled, FitsInt32;
      RuledPrefix(c, before, last, rules, most);
      NoWrapAnywhere(c, before, rules, most);
      match last
      case Call(_, _, _, _, _) => NextAgreesInt32Call(c, before, last, rules, most);
      case Deliver(_) => NextAgreesInt32Deliver(c, before, last, rules, most);
      case Dequeue(i) => NextAgreesInt32Dequeue(c, before, i, rules, most);
      case _ =>
    }
  }
}
