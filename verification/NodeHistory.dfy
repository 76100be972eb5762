/** Each node of a cluster serves each key as that key's own history says. */
module NodeHistory {
  import opened Base
  import opened Cluster
  import C = Counter
  import H = History
  import T = Tables

  /** What one step means for a key on node i. */
  function EventsAt(s: State, step: Step, i: nat, key: string): seq<H.Event> {
    match step
    case Call(j, k, count, limit, window) => if j == i && k == key then [H.Call(s.now, count, limit, window)] else []
    case Deliver(n) =>
      if n < |s.net| && s.net[n].dst == i && key in s.net[n].batch
      then [H.Remote(s.now, s.net[n].batch[key].count, s.net[n].batch[key].expiry)] else []
    case Collect(j, visited, grace) => if j == i && key in visited then [H.Visit(s.now, grace)] else []
    case _ => []
  }

  /** The key's events on node i, in a run of the cluster. */
  function KeyEvents(c: Setup, steps: seq<Step>, i: nat, key: string): seq<H.Event> {
    if steps == [] then []
    else
      var before := steps[..|steps| - 1];
      KeyEvents(c, before, i, key) + EventsAt(Run(c, before), steps[|steps| - 1], i, key)
  }

  lemma NextServes(c: Setup, s: State, step: Step, i: nat, key: string)
    requires i < |s.nodes|
    ensures i < |Next(c, s, step).nodes|
    ensures T.Get(Next(c, s, step).nodes[i].table, key)
         == H.Run(c.ar, T.Get(s.nodes[i].table, key), EventsAt(s, step, i, key))
  {
    hide C.GenExpiry;
    var evs := EventsAt(s, step, i, key);
    assert evs != [] ==> evs[1..] == [];
    if step.Deliver? && step.n < |s.net| && s.net[step.n].dst == i {
      T.SyncBatchAt(c.ar, s.nodes[i].table, s.now, s.net[step.n].batch, key);
    }
  }

  /** In every run of a cluster, a node's entry for a key is what the key's own events there make of it: its calls, the
      commands delivered to it, and the collector's visits, each at the time it happened. */
  lemma {:induction false} NodeFollowsHistory(c: Setup, steps: seq<Step>, i: nat, key: string)
    requires i < c.size
    ensures i < |Run(c, steps).nodes|
    ensures T.Get(Run(c, steps).nodes[i].table, key) == H.Run(c.ar, None, KeyEvents(c, steps, i, key))
  {
    NetAlwaysOk(c, steps);
    if steps != [] {
      hide Next, EventsAt;
      var before, last := steps[..|steps| - 1], steps[|steps| - 1];
      NetAlwaysOk(c, before);
      NodeFollowsHistory(c, before, i, key);
      NextServes(c, Run(c, before), last, i, key);
      H.RunSplits(c.ar, None, KeyEvents(c, before, i, key), EventsAt(Run(c, before), last, i, key));
    }
  }

  /** And its answers are those of that history. */
  lemma NodeAnswersAsHistory(c: Setup, steps: seq<Step>, call: Step)
    requires call.Call? && call.node < c.size && call.node < |Run(c, steps).nodes|
    ensures Served(c, Run(c, steps), call).1
         == H.Answer(c.ar, H.Run(c.ar, None, KeyEvents(c, steps, call.node, call.key)),
                     H.Call(Run(c, steps).now, call.count, call.limit, call.window))
  {
    NodeFollowsHistory(c, steps, call.node, call.key);
    hide C.GenExpiry, KeyEvents, Run;
  }
}
