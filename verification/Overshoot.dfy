/** How far the calls a cluster allows in one window can exceed the limit. */
module Overshoot {
  import opened Base
  import opened Cluster
  import opened Replication
  import opened Bounds
  import C = Counter
  import T = Tables

  // ---- One node never exceeds the limit ------------------------------------------------------------------------

  /** Until the window is over, node i's entry holds at least what the node allowed in it. */
  ghost predicate Holds(s: State, f: Focus, i: nat, limit: int, granted: int)
    requires i < |s.nodes|
  {
    var o := T.Get(s.nodes[i].table, f.key);
    && 0 <= granted <= Max0(limit)
    && (s.now <= f.expiry ==>
          if o.Some? && o.value.expires == f.expiry then o.value.count >= granted else granted == 0)
  }

  lemma CallHolds(c: Setup, s: State, step: Step, f: Focus, i: nat, limit: int, granted: int)
    requires c.ar.Unbounded? && i < |s.nodes| && Holds(s, f, i, limit, granted) && step.Call? && step.node == i
    requires Meets(s, step, Limited(f.key, limit))
    ensures Holds(Next(c, s, step), f, i, limit, granted + AllowedAmount(c, s, step, f, i))
  {
    C.GenExpiryAhead(s.now, step.window);
    hide C.GenExpiry;
  }

  lemma DeliverHolds(c: Setup, s: State, step: Step, f: Focus, i: nat, limit: int, granted: int)
    requires c.ar.Unbounded? && i < |s.nodes| && Holds(s, f, i, limit, granted) && CountsOk(s, f.key)
    requires step.Deliver? && step.n < |s.net| && s.net[step.n].dst == i
    ensures Holds(Next(c, s, step), f, i, limit, granted)
  {
    T.SyncBatchAt(c.ar, s.nodes[i].table, s.now, s.net[step.n].batch, f.key);
    assert BatchCounts(s.net[step.n].batch, f.key);
  }

  lemma OthersHold(c: Setup, s: State, step: Step, f: Focus, i: nat, limit: int, granted: int)
    requires i < |s.nodes| && Holds(s, f, i, limit, granted)
    requires !(step.Call? && step.node == i) && !(step.Deliver? && step.n < |s.net| && s.net[step.n].dst == i)
    ensures i < |Next(c, s, step).nodes| && Holds(Next(c, s, step), f, i, limit, granted)
    ensures AllowedAmount(c, s, step, f, i) == 0
  {
    hide C.Incr;
  }

  lemma {:induction false} NodeHolds(c: Setup, steps: seq<Step>, f: Focus, limit: int, i: nat)
    requires c.ar.Unbounded? && i < c.size && Throughout(c, steps, Limited(f.key, limit))
    ensures i < |Run(c, steps).nodes| && Holds(Run(c, steps), f, i, limit, Total(c, steps, f, Allowed(i)))
  {
    NetAlwaysOk(c, steps);
    if steps != [] {
      var before, last := steps[..|steps| - 1], steps[|steps| - 1];
      var s := Run(c, before);
      hide Holds, Next, Served, AllowedAmount, Meets;
      NetAlwaysOk(c, before);
      RunCountsOk(c, before, f.key, limit);
      NodeHolds(c, before, f, limit, i);
      var granted := Total(c, before, f, Allowed(i));
      if last.Call? && last.node == i {
        CallHolds(c, s, last, f, i, limit, granted);
      } else if last.Deliver? && last.n < |s.net| && s.net[last.n].dst == i {
        DeliverHolds(c, s, last, f, i, limit, granted);
        DeliverAllowsNothing(c, s, last, f, i);
      } else {
        OthersHold(c, s, last, f, i, limit, granted);
      }
    } else {
      NothingHeld(c, f, i, limit);
    }
  }

  lemma DeliverAllowsNothing(c: Setup, s: State, step: Step, f: Focus, i: nat)
    requires step.Deliver?
    ensures AllowedAmount(c, s, step, f, i) == 0
  {
  }

  lemma NothingHeld(c: Setup, f: Focus, i: nat, limit: int)
    requires i < c.size
    ensures Holds(Init(c), f, i, limit, 0)
  {
  }

  /** Each node allows a key at most the limit in one window, whatever its peers send it and whatever is lost. */
  lemma NodeAllowance(c: Setup, steps: seq<Step>, f: Focus, limit: int, i: nat)
    requires c.ar.Unbounded? && i < c.size && Throughout(c, steps, Limited(f.key, limit))
    ensures 0 <= Total(c, steps, f, Allowed(i)) <= Max0(limit)
  {
    NodeHolds(c, steps, f, limit, i);
  }

  /** Whatever the network and the workers do, the cluster allows at most the limit times its size. */
  lemma ClusterAllowance(c: Setup, steps: seq<Step>, f: Focus, limit: int)
    requires c.ar.Unbounded? && Throughout(c, steps, Limited(f.key, limit))
    ensures TotalAllowed(c, steps, f) <= c.size * Max0(limit)
  {
    var g := (i: nat) => Total(c, steps, f, Allowed(i));
    forall i: nat | i < c.size
      ensures g(i) <= Max0(limit)
    {
      NodeAllowance(c, steps, f, limit, i);
    }
    SumAtMost(c.size, g, Max0(limit));
    SumEqual(c.size, g, (i: nat) => Total(c, steps, f, Allowed(i)));
  }

  // ---- Prompt workers and a lossless network --------------------------------------------------------------------

  lemma {:induction false} SettledQueue(cs: seq<Command>, f: Focus)
    requires forall p | 0 <= p < |cs| :: cs[p].key != f.key
    ensures Queued(cs, f) == 0
  {
    if cs != [] {
      SettledQueue(cs[..|cs| - 1], f);
    }
  }

  lemma {:induction false} SettledNet(net: seq<Message>, f: Focus, i: nat, j: nat)
    requires forall n | 0 <= n < |net| :: f.key !in net[n].batch
    ensures InFlight(net, f, i, j) == 0
  {
    if net != [] {
      SettledNet(net[..|net| - 1], f, i, j);
    }
  }

  /** When the key is settled, a node misses of each peer at most what that peer's worker may hold. */
  lemma MissingWhenSettled(c: Setup, steps: seq<Step>, call: Step, f: Focus, i: nat, j: nat)
    requires call.Call? && call.node == j < c.size && i < c.size && call.key == f.key
    requires Settled(Run(c, steps), f.key) && Throughout(c, steps, Lossless(f.key))
    ensures Missing(c, steps + [call], f, i, j) <= if i == j then 0 else Max0(c.ctrLimit)
  {
    var after := steps + [call];
    assert after[..|steps|] == steps;
    NetAlwaysOk(c, steps);
    StreamAlwaysOk(c, steps, i);
    var s := Run(c, steps);
    NothingLost(c, steps, f, i, j);
    SettledQueue(s.nodes[i].queue, f);
    SettledNet(s.net, f, i, j);
    hide C.Incr;
    if i != j {
      assert Run(c, after).nodes[i] == s.nodes[i] && Run(c, after).net == s.net;
      assert Throughout(c, after, Lossless(f.key));
      NothingLost(c, after, f, i, j);
    }
  }

  lemma AllowedBumps(c: Setup, steps: seq<Step>, last: Step, f: Focus)
    requires |Run(c, steps).nodes| == c.size
    ensures TotalAllowed(c, steps + [last], f)
         == TotalAllowed(c, steps, f)
            + if last.Call? && last.node < c.size then AllowedAmount(c, Run(c, steps), last, f, last.node) else 0
  {
    var after := steps + [last];
    assert after[..|steps|] == steps;
    hide C.Incr;
    var g0 := (i: nat) => Total(c, steps, f, Allowed(i));
    var g := (i: nat) => Total(c, after, f, Allowed(i));
    if last.Call? && last.node < c.size {
      SumBump(c.size, g0, g, last.node, AllowedAmount(c, Run(c, steps), last, f, last.node));
    } else {
      SumEqual(c.size, g0, g);
    }
    SumEqual(c.size, g0, (i: nat) => Total(c, steps, f, Allowed(i)));
    SumEqual(c.size, g, (i: nat) => Total(c, after, f, Allowed(i)));
  }

  lemma CallMeets(s: State, call: Step, key: string, limit: int)
    requires call.Call? && call.key == key
    requires Meets(s, call, Limited(key, limit)) && Meets(s, call, Prompt(key))
    ensures call.limit == limit && call.count >= 0 && Settled(s, key)
  {
  }

  function Min(a: nat, b: nat): nat { if a < b then a else b }

  /** What one node can hold back from the others. */
  function HeldBack(c: Setup, limit: int): nat { Min(Max0(limit), Max0(c.ctrLimit)) }

  /** What a peer allowed and did not tell. */
  lemma UntoldWhenSettled(c: Setup, steps: seq<Step>, call: Step, f: Focus, limit: int, i: nat)
    requires c.ar.Unbounded? && call.Call? && call.node < c.size && i < c.size && call.key == f.key
    requires Settled(Run(c, steps), f.key) && Throughout(c, steps, Lossless(f.key))
    requires Throughout(c, steps + [call], Limited(f.key, limit)) && Run(c, steps + [call]).now <= f.expiry
    ensures Total(c, steps + [call], f, Allowed(i)) - Contribution(c, steps + [call], f, i, call.node)
         <= if i == call.node then 0 else HeldBack(c, limit)
  {
    hide Run, Throughout, Settled, Total, Outstanding;
    var after := steps + [call];
    AllowedIsAccepted(c, after, f, limit, i);
    if i != call.node {
      NodeAllowance(c, after, f, limit, i);
      LostOk(c, after, f, limit, i, call.node);
      NetAlwaysOk(c, after);
      MissingWhenSettled(c, steps, call, f, i, call.node);
      Conservation(c, after, f, i, call.node);
    }
  }

  lemma PromptCallBound(c: Setup, steps: seq<Step>, call: Step, f: Focus, window: int, limit: int)
    requires c.ar.Unbounded? && window > 0 && call.Call? && call.node < c.size && call.key == f.key
    requires |Run(c, steps).nodes| == c.size
    requires Throughout(c, steps + [call], Windowed(f.key, window))
    requires Throughout(c, steps + [call], Apart(f.key, window))
    requires Throughout(c, steps + [call], Limited(f.key, limit)) && Throughout(c, steps + [call], Prompt(f.key))
    requires Throughout(c, steps + [call], Lossless(f.key))
    requires var r := Served(c, Run(c, steps), call).1; !r.blocked && r.expiry == f.expiry
    ensures TotalAllowed(c, steps + [call], f) <= limit + (c.size - 1) * HeldBack(c, limit)
  {
    hide Throughout, Meets, Total, Contribution, C.Incr, Sum, HeldBack;
    var after, j := steps + [call], call.node;
    assert after[..|steps|] == steps;
    var s := Run(c, steps);
    LastStep(c, steps, call, Limited(f.key, limit));
    LastStep(c, steps, call, Prompt(f.key));
    LastStep(c, steps, call, Lossless(f.key));
    CallMeets(s, call, f.key, limit);
    AnswerIsLive(c, s, call);
    AllowedFits(c, s, call);
    assert Run(c, after).nodes[j].table == Served(c, s, call).0 && Run(c, after).now == s.now;
    CountsReach(c, after, f, j, window);
    IntoIsSum(c, after, f, j);
    var allowed := (i: nat) => Total(c, after, f, Allowed(i));
    var told := (i: nat) => Contribution(c, after, f, i, j);
    var untold := (i: nat) => allowed(i) - told(i);
    forall i: nat | i < c.size
      ensures untold(i) <= if i == j then 0 else HeldBack(c, limit)
    {
      UntoldWhenSettled(c, steps, call, f, limit, i);
    }
    SumAtMostBut(c.size, untold, j, HeldBack(c, limit));
    SumMinus(c.size, allowed, told, untold);
    SumEqual(c.size, allowed, (i: nat) => Total(c, after, f, Allowed(i)));
    SumEqual(c.size, told, (i: nat) => Contribution(c, after, f, i, j));
  }

  /** When workers keep up and flushes reach every peer, the calls the whole cluster allows for a key in one window
      exceed the limit by at most what every node but one can hold back: its unsynced limit, or the limit itself if that
      is less. */
  lemma {:induction false} OvershootBound(c: Setup, steps: seq<Step>, f: Focus, window: int, limit: int)
    requires c.ar.Unbounded? && window > 0 && c.size > 0
    requires Throughout(c, steps, Windowed(f.key, window)) && Throughout(c, steps, Apart(f.key, window))
    requires Throughout(c, steps, Limited(f.key, limit)) && Throughout(c, steps, Prompt(f.key))
    requires Throughout(c, steps, Lossless(f.key))
    ensures TotalAllowed(c, steps, f) <= Max0(limit) + (c.size - 1) * HeldBack(c, limit)
  {
    if steps == [] {
      ClusterAllowance(c, [], f, 0);
      NonNegativeProduct(c.size - 1, HeldBack(c, limit));
    } else {
      var before, last := steps[..|steps| - 1], steps[|steps| - 1];
      var s := Run(c, before);
      hide Served, TotalAllowed;
      NetAlwaysOk(c, before);
      OvershootBound(c, before, f, window, limit);
      assert before + [last] == steps;
      AllowedBumps(c, before, last, f);
      if last.Call? && last.node < c.size && AllowedAmount(c, s, last, f, last.node) != 0 {
        PromptCallBound(c, before, last, f, window, limit);
      }
    }
  }

  lemma NonNegativeProduct(a: nat, b: nat)
    ensures a * b >= 0
  {
  }
}
