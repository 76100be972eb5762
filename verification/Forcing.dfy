/** What a node announces to its peers, and that the call that crosses the limit is announced at once. */
module Forcing {
  import opened Base
  import opened Cluster
  import opened Replication
  import opened Bounds
  import C = Counter
  import T = Tables
  import W = Worker

  // ---- What is queued --------------------------------------------------------------------------------------

  /** What an answered call puts on its node's channel: an allowed count, or, forced, the one that crossed the limit. */
  function Announcement(key: string, count: int, r: C.Response): seq<Command> {
    if !r.blocked then [T.Command(key, count, r.expiry, false)]
    else if r.dosync then [T.Command(key, count, r.expiry, true)]
    else []
  }

  /** All that calls at node i announced. */
  function Announcements(c: Setup, steps: seq<Step>, i: nat): seq<Command> {
    if steps == [] then []
    else
      var (before, last) := (steps[..|steps| - 1], steps[|steps| - 1]);
      var s := Run(c, before);
      Announcements(c, before, i)
      + if last.Call? && last.node == i < |s.nodes|
        then Announcement(last.key, last.count, Served(c, s, last).1) else []
  }

  /** All that node i's worker took. */
  function Taken(c: Setup, steps: seq<Step>, i: nat): seq<Command> {
    if steps == [] then []
    else
      var (before, last) := (steps[..|steps| - 1], steps[|steps| - 1]);
      var s := Run(c, before);
      Taken(c, before, i)
      + if last == Dequeue(i) && i < |s.nodes| && s.nodes[i].queue != [] then [s.nodes[i].queue[0]] else []
  }

  /** One step appends to the channel what it announces, or removes from its front what it takes. */
  lemma NextQueue(c: Setup, s: State, step: Step, i: nat)
    requires i < |s.nodes|
    ensures i < |Next(c, s, step).nodes|
    ensures var (q, q') := (s.nodes[i].queue, Next(c, s, step).nodes[i].queue);
            if step.Call? && step.node == i then q' == q + Announcement(step.key, step.count, Served(c, s, step).1)
            else if step == Dequeue(i) && q != [] then q' == q[1..]
            else q' == q
  {
    if step.Call? && step.node == i {
      hide C.GenExpiry;
      T.IncrInFull(c.ar, s.nodes[i].table, s.now, step.key, step.count, step.limit, step.window);
    }
  }

  /** The channel keeps order and loses nothing: what was announced was taken, oldest first, or is still queued. */
  lemma {:induction false} ChannelIsFifo(c: Setup, steps: seq<Step>, i: nat)
    requires i < c.size
    ensures i < |Run(c, steps).nodes|
    ensures Announcements(c, steps, i) == Taken(c, steps, i) + Run(c, steps).nodes[i].queue
  {
    hide Next, Served, Announcement;
    NetAlwaysOk(c, steps);
    if steps != [] {
      var (before, last) := (steps[..|steps| - 1], steps[|steps| - 1]);
      NetAlwaysOk(c, before);
      ChannelIsFifo(c, before, i);
      NextQueue(c, Run(c, before), last, i);
      var taken, queue := Taken(c, before, i), Run(c, before).nodes[i].queue;
      if last.Call? && last.node == i {
        var more := Announcement(last.key, last.count, Served(c, Run(c, before), last).1);
        assert (taken + queue) + more == taken + (queue + more);
      } else if last == Dequeue(i) && queue != [] {
        assert taken + queue == (taken + [queue[0]]) + queue[1..];
      }
    }
  }

  // ---- Forced commands ------------------------------------------------------------------------------------------

  /** Taking a forced command leaves the worker with nothing, and sends a batch that holds it. */
  lemma ForcedFlushes(c: Setup, node: Node, i: nat)
    requires node.queue != [] && node.queue[0].force
    ensures var (after, sent) := Worked(c, node, Dequeue(i));
            && after.pending == map[] && |sent| == 1
            && node.queue[0].key in sent[0] && sent[0][node.queue[0].key].expiry == node.queue[0].expiry
  {
  }

  predicate Names(cmd: Command, f: Focus) { cmd.key == f.key && cmd.expiry == f.expiry }

  /** Among these commands is the forced one of the focus. */
  ghost predicate Crossed(cs: seq<Command>, f: Focus) {
    exists p :: 0 <= p < |cs| && Names(cs[p], f) && cs[p].force
  }

  /** The forced command of the focus is its last. */
  ghost predicate ForcedLast(cs: seq<Command>, f: Focus) {
    forall p, q | 0 <= p < q < |cs| && Names(cs[p], f) && Names(cs[q], f) :: !cs[p].force
  }

  /** Until its window is over, the entry is past the limit once the limit was crossed. */
  ghost predicate OverLimit(s: State, i: nat, f: Focus, limit: int, crossed: bool)
    requires i < |s.nodes|
  {
    crossed && s.now <= f.expiry ==>
      var o := T.Get(s.nodes[i].table, f.key);
      o.Some? && o.value.expires == f.expiry && o.value.count > limit
  }

  lemma CallOverLimit(c: Setup, s: State, step: Step, i: nat, f: Focus, limit: int, crossed: bool)
    requires c.ar.Unbounded? && i < |s.nodes| && OverLimit(s, i, f, limit, crossed)
    requires step.Call? && step.node == i && Meets(s, step, Limited(f.key, limit))
    ensures var a := Announcement(step.key, step.count, Served(c, s, step).1);
            && (crossed ==> !Crossed(a, f) && forall p | 0 <= p < |a| :: !Names(a[p], f))
            && OverLimit(Next(c, s, step), i, f, limit, crossed || Crossed(a, f))
  {
    T.IncrInFull(c.ar, s.nodes[i].table, s.now, step.key, step.count, step.limit, step.window);
    C.GenExpiryAhead(s.now, step.window);
    hide C.Incr, C.GenExpiry;
  }

  lemma DeliverOverLimit(c: Setup, s: State, step: Step, i: nat, f: Focus, limit: int, crossed: bool)
    requires c.ar.Unbounded? && i < |s.nodes| && OverLimit(s, i, f, limit, crossed) && CountsOk(s, f.key)
    requires step.Deliver? && step.n < |s.net| && s.net[step.n].dst == i
    ensures OverLimit(Next(c, s, step), i, f, limit, crossed)
  {
    T.SyncBatchAt(c.ar, s.nodes[i].table, s.now, s.net[step.n].batch, f.key);
    assert BatchCounts(s.net[step.n].batch, f.key);
  }

  lemma OthersOverLimit(c: Setup, s: State, step: Step, i: nat, f: Focus, limit: int, crossed: bool)
    requires i < |s.nodes| && OverLimit(s, i, f, limit, crossed)
    requires !(step.Call? && step.node == i) && !(step.Deliver? && step.n < |s.net| && s.net[step.n].dst == i)
    ensures i < |Next(c, s, step).nodes| && OverLimit(Next(c, s, step), i, f, limit, crossed)
  {
    hide C.Incr;
  }

  lemma MoreAnnounced(cs: seq<Command>, a: seq<Command>, f: Focus)
    requires ForcedLast(cs, f) && |a| <= 1
    requires Crossed(cs, f) ==> forall p | 0 <= p < |a| :: !Names(a[p], f)
    ensures ForcedLast(cs + a, f) && (Crossed(cs + a, f) <==> Crossed(cs, f) || Crossed(a, f))
  {
    if Crossed(cs, f) {
      var p :| 0 <= p < |cs| && Names(cs[p], f) && cs[p].force;
      assert (cs + a)[p] == cs[p];
    }
    if Crossed(a, f) {
      var p :| 0 <= p < |a| && Names(a[p], f) && a[p].force;
      assert (cs + a)[|cs| + p] == a[p];
    }
  }

  lemma {:induction false} CrossingIsLast(c: Setup, steps: seq<Step>, i: nat, f: Focus, limit: int)
    requires c.ar.Unbounded? && i < c.size && Throughout(c, steps, Limited(f.key, limit))
    ensures i < |Run(c, steps).nodes|
    ensures ForcedLast(Announcements(c, steps, i), f)
    ensures OverLimit(Run(c, steps), i, f, limit, Crossed(Announcements(c, steps, i), f))
  {
    NetAlwaysOk(c, steps);
    if steps != [] {
      hide Next, Served, OverLimit, ForcedLast, Crossed, Meets, Announcement, CountsOk;
      var (before, last) := (steps[..|steps| - 1], steps[|steps| - 1]);
      var s, cs := Run(c, before), Announcements(c, before, i);
      NetAlwaysOk(c, before);
      CrossingIsLast(c, before, i, f, limit);
      RunCountsOk(c, before, f.key, limit);
      if last.Call? && last.node == i {
        CallOverLimit(c, s, last, i, f, limit, Crossed(cs, f));
        OneAnnouncement(last.key, last.count, Served(c, s, last).1);
        MoreAnnounced(cs, Announcement(last.key, last.count, Served(c, s, last).1), f);
      } else {
        assert Announcements(c, steps, i) == cs;
        if last.Deliver? && last.n < |s.net| && s.net[last.n].dst == i {
          DeliverOverLimit(c, s, last, i, f, limit, Crossed(cs, f));
        } else {
          OthersOverLimit(c, s, last, i, f, limit, Crossed(cs, f));
        }
      }
    }
  }

  lemma OneAnnouncement(key: string, count: int, r: C.Response)
    ensures |Announcement(key, count, r)| <= 1
  {
  }

  /** What the worker holds is not of the focus. */
  ghost predicate HoldsNone(m: Batch, f: Focus) { f.key in m ==> m[f.key].expiry != f.expiry }

  /** Once a worker took the command of the call that crossed the limit, it never again holds anything of that key and
      window, and nothing of it is queued: all of it went out with that command. */
  lemma {:induction false} CrossingIsAnnouncedAtOnce(c: Setup, steps: seq<Step>, i: nat, f: Focus, limit: int)
    requires c.ar.Unbounded? && i < c.size && Throughout(c, steps, Limited(f.key, limit))
    requires Crossed(Taken(c, steps, i), f)
    ensures i < |Run(c, steps).nodes|
    ensures var node := Run(c, steps).nodes[i];
            HoldsNone(node.pending, f) && forall p | 0 <= p < |node.queue| :: !Names(node.queue[p], f)
  {
    NetAlwaysOk(c, steps);
    ChannelIsFifo(c, steps, i);
    CrossingIsLast(c, steps, i, f, limit);
    NothingAfter(Taken(c, steps, i), Run(c, steps).nodes[i].queue, f);
    var (before, last) := (steps[..|steps| - 1], steps[|steps| - 1]);
    var s := Run(c, before);
    NetAlwaysOk(c, before);
    hide Served, OverLimit, Announcement, Announcements, ForcedLast;
    if Crossed(Taken(c, before, i), f) {
      CrossingIsAnnouncedAtOnce(c, before, i, f, limit);
      StillNone(c, s, last, i, f);
    } else {
      assert last == Dequeue(i) && s.nodes[i].queue != [];
      assert Taken(c, steps, i) == Taken(c, before, i) + [s.nodes[i].queue[0]];
      ForcedFlushes(c, s.nodes[i], i);
    }
  }

  lemma NothingAfter(taken: seq<Command>, queue: seq<Command>, f: Focus)
    requires ForcedLast(taken + queue, f) && Crossed(taken, f)
    ensures forall p | 0 <= p < |queue| :: !Names(queue[p], f)
  {
    var p :| 0 <= p < |taken| && Names(taken[p], f) && taken[p].force;
    assert (taken + queue)[p] == taken[p];
    forall q | 0 <= q < |queue|
      ensures !Names(queue[q], f)
    {
      assert (taken + queue)[|taken| + q] == queue[q];
    }
  }

  lemma StillNone(c: Setup, s: State, step: Step, i: nat, f: Focus)
    requires i < |s.nodes| && HoldsNone(s.nodes[i].pending, f)
    requires forall p | 0 <= p < |s.nodes[i].queue| :: !Names(s.nodes[i].queue[p], f)
    ensures i < |Next(c, s, step).nodes| && HoldsNone(Next(c, s, step).nodes[i].pending, f)
  {
    hide C.Incr;
  }
}
