/** The sync worker: coalescing commands by key and expiry, and flushing them in batches. */
module Worker {
  import opened Base
  import C = Counter
  import T = Tables

  type Command = T.Command
  type Batch = T.Batch

  /** Folding one command into what is pending: added to a command of equal expiry, else replacing it. */
  function Merge(ar: Arith, m: Batch, c: Command): Batch {
    if c.key in m && c.expiry == m[c.key].expiry
    then m[c.key := m[c.key].(count := Plus(ar, m[c.key].count, c.count))]
    else m[c.key := c]
  }

  function MergeAll(ar: Arith, cs: seq<Command>): Batch {
    if cs == [] then map[] else Merge(ar, MergeAll(ar, cs[..|cs| - 1]), cs[|cs| - 1])
  }

  /** What is pending after a command arrives, and the batch sent, if any. */
  function Receive(ar: Arith, ctrLimit: int, m: Batch, c: Command): (Batch, seq<Batch>) {
    var m' := Merge(ar, m, c);
    if c.force || m'[c.key].count > ctrLimit then (map[], [m']) else (m', [])
  }

  function Timeout(m: Batch): (Batch, seq<Batch>) {
    if |m| > 0 then (map[], [m]) else (m, [])
  }

  // ---- Loop invariant ----------------------------------------------------------------------------

  /** Pending commands sit under their own key, within the unsynced limit, and are never forced. */
  ghost predicate Kept(m: Batch, ctrLimit: int) {
    forall k | k in m :: m[k].key == k && m[k].count <= ctrLimit && !m[k].force
  }

  lemma ReceiveKeeps(ar: Arith, ctrLimit: int, m: Batch, c: Command)
    requires Kept(m, ctrLimit)
    ensures Kept(Receive(ar, ctrLimit, m, c).0, ctrLimit)
    ensures forall b | b in Receive(ar, ctrLimit, m, c).1 :: T.Keyed(b)
  {
  }

  /** The commands of one key, oldest first. */
  function OfKey(cs: seq<Command>, k: string): seq<Command> {
    if cs == [] then []
    else
      var last := cs[|cs| - 1];
      OfKey(cs[..|cs| - 1], k) + if last.key == k then [last] else []
  }

  /** The sum of the counts in the latest run of equal expiries. */
  function LatestRun(xs: seq<Command>): int {
    if xs == [] then 0
    else if |xs| > 1 && xs[|xs| - 2].expiry == xs[|xs| - 1].expiry
    then LatestRun(xs[..|xs| - 1]) + xs[|xs| - 1].count
    else xs[|xs| - 1].count
  }

  /** Each pending count is the sum of its key's latest run of equal expiries. */
  lemma {:induction false} PendingIsLatestRun(cs: seq<Command>, k: string)
    ensures var m := MergeAll(Unbounded, cs);
            var xs := OfKey(cs, k);
            && (k in m <==> xs != [])
            && (k in m ==> m[k].count == LatestRun(xs) && m[k].expiry == xs[|xs| - 1].expiry)
  {
    if cs != [] {
      var last := cs[|cs| - 1];
      var before := OfKey(cs[..|cs| - 1], k);
      PendingIsLatestRun(cs[..|cs| - 1], k);
      if last.key == k {
        assert OfKey(cs, k)[..|before|] == before;
      } else {
        assert OfKey(cs, k) == before;
      }
    }
  }

  // ---- Coalescing preserves meaning ----------------------------------------------------------------

  /** Of two commands for one key, the older has the same expiry or has expired by `now`. */
  ghost predicate Superseded(cs: seq<Command>, now: C.Time) {
    forall p, q | 0 <= p < q < |cs| && cs[p].key == cs[q].key ::
      cs[p].expiry == cs[q].expiry || cs[p].expiry < now
  }

  lemma {:induction false} PendingComesFrom(ar: Arith, cs: seq<Command>, k: string) returns (p: nat)
    requires k in MergeAll(ar, cs)
    ensures p < |cs| && cs[p].key == k && cs[p].expiry == MergeAll(ar, cs)[k].expiry
  {
    if cs[|cs| - 1].key == k {
      p := |cs| - 1;
    } else {
      p := PendingComesFrom(ar, cs[..|cs| - 1], k);
    }
  }

  /** Delivering a batch grown by one command is delivering the batch, then the command. */
  lemma MergeThenDeliver(ar: Arith, t: T.Table, now: C.Time, m: Batch, c: Command)
    requires c.key in m ==> m[c.key].expiry == c.expiry || m[c.key].expiry < now
    ensures T.SyncBatch(ar, t, now, Merge(ar, m, c)) == T.Sync(ar, T.SyncBatch(ar, t, now, m), now, c)
  {
    var merged := Merge(ar, m, c);
    var once := T.SyncBatch(ar, t, now, merged);
    var before := T.SyncBatch(ar, t, now, m);
    T.SyncBatchAt(ar, t, now, m, c.key);
    T.SyncBatchAt(ar, t, now, merged, c.key);
    forall k
      ensures T.Get(once, k) == T.Get(T.Sync(ar, before, now, c), k)
    {
      if k != c.key {
        T.SyncBatchAt(ar, t, now, m, k);
        T.SyncBatchAt(ar, t, now, merged, k);
      } else if c.key in m && m[c.key].expiry == c.expiry {
        var e := C.Refresh(T.Get(t, k), now, c.expiry);
        PlusAssociative(ar, e.count, m[k].count, c.count);
      }
    }
    T.SameTable(once, T.Sync(ar, before, now, c));
  }

  /** One merged batch leaves any receiver exactly where the commands behind it, delivered one by one, would. */
  lemma {:induction false} CoalescingPreservesMeaning(ar: Arith, t: T.Table, now: C.Time, cs: seq<Command>)
    requires Superseded(cs, now)
    ensures T.SyncBatch(ar, t, now, MergeAll(ar, cs)) == T.SyncKeys(ar, t, now, cs)
  {
    if cs == [] {
      assert T.SyncBatch(ar, t, now, map[]) == t;
    } else {
      var init, c := cs[..|cs| - 1], cs[|cs| - 1];
      CoalescingPreservesMeaning(ar, t, now, init);
      if c.key in MergeAll(ar, init) {
        var p := PendingComesFrom(ar, init, c.key);
        assert init[p] == cs[p];
      }
      MergeThenDeliver(ar, t, now, MergeAll(ar, init), c);
    }
  }

  // ---- The worker's loop --------------------------------------------------------------------------------

  datatype Input = Received(c: Command) | TimedOut | Closed

  function OnInput(ctrLimit: int, m: Batch, i: Input): (Batch, seq<Batch>) {
    match i
    case Received(c) => Receive(Int32, ctrLimit, m, c)
    case TimedOut => Timeout(m)
    case Closed => Timeout(m)
  }

  /** All batches sent until the channel closes or the inputs end, and what is then pending. */
  function Work(ctrLimit: int, m: Batch, inputs: seq<Input>): (Batch, seq<Batch>)
    decreases |inputs|
  {
    if inputs == [] then (m, [])
    else
      var (m', sent) := OnInput(ctrLimit, m, inputs[0]);
      if inputs[0].Closed? then (m', sent) else Continue(sent, Work(ctrLimit, m', inputs[1..]))
  }

  function Continue(sent: seq<Batch>, rest: (Batch, seq<Batch>)): (Batch, seq<Batch>) { (rest.0, sent + rest.1) }

  lemma WorkNext(ctrLimit: int, m: Batch, inputs: seq<Input>, i: nat, sent: seq<Batch>)
    requires i < |inputs|
    ensures Continue(sent, Work(ctrLimit, m, inputs[i..]))
         == (var (m', more) := OnInput(ctrLimit, m, inputs[i]);
             if inputs[i].Closed? then (m', sent + more)
             else Continue(sent + more, Work(ctrLimit, m', inputs[i + 1..])))
  {
    assert inputs[i..][1..] == inputs[i + 1..];
    var (m', more) := OnInput(ctrLimit, m, inputs[i]);
    var later := Work(ctrLimit, m', inputs[i + 1..]).1;
    assert sent + (more + later) == (sent + more) + later;
  }

  lemma WorkStarts(ctrLimit: int, m: Batch, inputs: seq<Input>)
    ensures Work(ctrLimit, m, inputs) == Continue([], Work(ctrLimit, m, inputs[0..])) && AllList([], [])
  {
    assert inputs[0..] == inputs && [] + Work(ctrLimit, m, inputs).1 == Work(ctrLimit, m, inputs).1;
  }

  lemma WorkEnds(ctrLimit: int, m: Batch, inputs: seq<Input>, sent: seq<Batch>)
    ensures Continue(sent, Work(ctrLimit, m, inputs[|inputs|..])) == (m, sent)
  {
    assert sent + [] == sent;
  }

  lemma AllListAppend(a: seq<seq<Command>>, b: seq<Batch>, c: seq<seq<Command>>, d: seq<Batch>)
    requires AllList(a, b) && AllList(c, d)
    ensures AllList(a + c, b + d)
  {
  }

  /** Each slice lists the commands of its batch. */
  ghost predicate AllList(slices: seq<seq<Command>>, batches: seq<Batch>) {
    |slices| == |batches| && forall i | 0 <= i < |slices| :: T.Lists(slices[i], batches[i])
  }

  /** A flush sends all of m, or nothing when there is nothing. */
  ghost predicate Flushed(m: Batch, sent: seq<seq<Command>>) {
    if m == map[] then sent == [] else |sent| == 1 && T.Lists(sent[0], m)
  }

  /** The commands received until the channel closes. */
  function Taken(inputs: seq<Input>): seq<Command>
    decreases |inputs|
  {
    if inputs == [] || inputs[0].Closed? then []
    else (if inputs[0].Received? then [inputs[0].c] else []) + Taken(inputs[1..])
  }

  /** A receiver after it was sent the slices, one after the other. */
  function Deliver(t: T.Table, now: C.Time, slices: seq<seq<Command>>): T.Table {
    if slices == [] then t else T.SyncKeys(Int32, Deliver(t, now, slices[..|slices| - 1]), now, slices[|slices| - 1])
  }

  function DeliverBatches(t: T.Table, now: C.Time, batches: seq<Batch>): T.Table {
    if batches == [] then t
    else T.SyncBatch(Int32, DeliverBatches(t, now, batches[..|batches| - 1]), now, batches[|batches| - 1])
  }

  lemma {:induction false} SlicesAreBatches(t: T.Table, now: C.Time, slices: seq<seq<Command>>, batches: seq<Batch>)
    requires AllList(slices, batches)
    ensures Deliver(t, now, slices) == DeliverBatches(t, now, batches)
  {
    if slices != [] {
      var n := |slices| - 1;
      SlicesAreBatches(t, now, slices[..n], batches[..n]);
      T.DeliveryOrderIrrelevant(Int32, DeliverBatches(t, now, batches[..n]), now, batches[n], slices[n]);
    }
  }

  lemma SupersededParts(a: seq<Command>, b: seq<Command>, now: C.Time)
    requires Superseded(a + b, now)
    ensures Superseded(a, now) && Superseded(b, now)
  {
    assert forall p | 0 <= p < |a| :: a[p] == (a + b)[p];
    assert forall p | 0 <= p < |b| :: b[p] == (a + b)[|a| + p];
  }

  lemma {:induction false} SyncKeysSplits(t: T.Table, now: C.Time, a: seq<Command>, b: seq<Command>)
    ensures T.SyncKeys(Int32, t, now, a + b) == T.SyncKeys(Int32, T.SyncKeys(Int32, t, now, a), now, b)
    decreases |b|
  {
    if b == [] {
      assert a + b == a;
    } else {
      assert (a + b)[..|a + b| - 1] == a + b[..|b| - 1];
      SyncKeysSplits(t, now, a, b[..|b| - 1]);
    }
  }

  lemma DeliverFirst(t: T.Table, now: C.Time, first: Batch, rest: seq<Batch>)
    ensures DeliverBatches(t, now, [first] + rest) == DeliverBatches(T.SyncBatch(Int32, t, now, first), now, rest)
  {
    hide T.SyncBatch;
    if rest == [] {
      assert [first] + rest == [first] && [first][..0] == [];
    } else {
      assert ([first] + rest)[..|rest|] == [first] + rest[..|rest| - 1];
      DeliverFirst(t, now, first, rest[..|rest| - 1]);
    }
  }

  /** What the worker sends, and then what it holds, stands for the commands it holds already and all it receives. */
  lemma {:induction false} WorkDelivers(
    ctrLimit: int, inputs: seq<Input>, held: seq<Command>, t: T.Table, now: C.Time)
    requires Superseded(held + Taken(inputs), now)
    ensures var (m, sent) := Work(ctrLimit, MergeAll(Int32, held), inputs);
            T.SyncBatch(Int32, DeliverBatches(t, now, sent), now, m) == T.SyncKeys(Int32, t, now, held + Taken(inputs))
    decreases |inputs|, 0
  {
    hide T.SyncBatch, T.SyncKeys, Superseded;
    var pending := MergeAll(Int32, held);
    SupersededParts(held, Taken(inputs), now);
    CoalescingPreservesMeaning(Int32, t, now, held);
    if inputs == [] {
      assert held + [] == held;
    } else {
      var next, rest := inputs[0], inputs[1..];
      var (m', sent) := OnInput(ctrLimit, pending, next);
      var later := Taken(rest);
      match next
      case Closed =>
        assert held + [] == held;
        FlushDelivers(pending, t, now);
      case TimedOut =>
        assert [] + later == later;
        if sent == [] {
          WorkDelivers(ctrLimit, rest, held, t, now);
          assert sent + Work(ctrLimit, m', rest).1 == Work(ctrLimit, m', rest).1;
        } else {
          SentThenRest(ctrLimit, rest, pending, held, t, now);
        }
      case Received(c) =>
        var more := held + [c];
        assert more + later == held + ([c] + later);
        assert more[..|held|] == held;
        if sent == [] {
          WorkDelivers(ctrLimit, rest, more, t, now);
          assert sent + Work(ctrLimit, m', rest).1 == Work(ctrLimit, m', rest).1;
        } else {
          SupersededParts(more, later, now);
          CoalescingPreservesMeaning(Int32, t, now, more);
          SentThenRest(ctrLimit, rest, MergeAll(Int32, more), more, t, now);
        }
    }
  }

  lemma FlushDelivers(m: Batch, t: T.Table, now: C.Time)
    ensures var (m', sent) := Timeout(m);
            T.SyncBatch(Int32, DeliverBatches(t, now, sent), now, m') == T.SyncBatch(Int32, t, now, m)
  {
    if |m| > 0 {
      assert [m][..0] == [];
      T.NothingToSync(Int32, T.SyncBatch(Int32, t, now, m), now);
    }
  }

  /** A batch that stands for cs is sent, and the worker starts again with nothing. */
  lemma SentThenRest(ctrLimit: int, rest: seq<Input>, batch: Batch, cs: seq<Command>, t: T.Table, now: C.Time)
    requires Superseded(cs + Taken(rest), now)
    requires T.SyncBatch(Int32, t, now, batch) == T.SyncKeys(Int32, t, now, cs)
    ensures var (m, sent) := Work(ctrLimit, map[], rest);
            T.SyncBatch(Int32, DeliverBatches(t, now, [batch] + sent), now, m)
            == T.SyncKeys(Int32, t, now, cs + Taken(rest))
    decreases |rest|, 1
  {
    var t' := T.SyncBatch(Int32, t, now, batch);
    SupersededParts(cs, Taken(rest), now);
    assert [] + Taken(rest) == Taken(rest);
    assert MergeAll(Int32, []) == map[];
    WorkDelivers(ctrLimit, rest, [], t', now);
    DeliverFirst(t, now, batch, Work(ctrLimit, map[], rest).1);
    SyncKeysSplits(t, now, cs, Taken(rest));
  }

  lemma WorkFromNothing(ctrLimit: int, inputs: seq<Input>, t: T.Table, now: C.Time)
    requires Superseded(Taken(inputs), now)
    ensures var (m, sent) := Work(ctrLimit, map[], inputs);
            T.SyncBatch(Int32, DeliverBatches(t, now, sent), now, m) == T.SyncKeys(Int32, t, now, Taken(inputs))
  {
    assert [] + Taken(inputs) == Taken(inputs);
    assert MergeAll(Int32, []) == map[];
    WorkDelivers(ctrLimit, inputs, [], t, now);
  }

  class SyncWorker {
    var m: map<string, Command>
    const unsyncedCtrLimit: int32

    constructor (unsyncedCtrLimit: int32)
      ensures m == map[] && this.unsyncedCtrLimit == unsyncedCtrLimit
    {
      m := map[];
      this.unsyncedCtrLimit := unsyncedCtrLimit;
    }

    /** Moves every pending command into a slice, in whatever order the map is walked. */
    method Drain() returns (slice: seq<Command>)
      requires T.Keyed(m)
      modifies this
      ensures m == map[] && T.Lists(slice, old(m))
    {
      slice := [];
      while m != map[]
        invariant forall k | k in m :: k in old(m) && m[k] == old(m)[k]
        invariant forall i | 0 <= i < |slice| ::
                    slice[i].key in old(m) && slice[i].key !in m && old(m)[slice[i].key] == slice[i]
        invariant forall i, j | 0 <= i < j < |slice| :: slice[i].key != slice[j].key
        invariant forall k | k in old(m) && k !in m :: old(m)[k] in slice
        decreases |m|
      {
        assert m.Keys != {};
        var k :| k in m;
        slice := slice + [m[k]];
        m := m - {k};
      }
      forall k | k in old(m)
        ensures exists i :: 0 <= i < |slice| && slice[i].key == k
      {
        assert old(m)[k] in slice;
      }
    }

    /** One iteration: takes an input, and returns the slice to send, if any. */
    method Handle(i: Input) returns (sent: seq<seq<Command>>)
      requires Kept(m, unsyncedCtrLimit)
      modifies this
      ensures Kept(m, unsyncedCtrLimit)
      ensures m == OnInput(unsyncedCtrLimit, old(m), i).0
      ensures AllList(sent, OnInput(unsyncedCtrLimit, old(m), i).1)
      ensures !i.Received? ==> m == map[] && Flushed(old(m), sent)
      ensures i.Received? ==>
                var (was, c) := (old(m), i.c);
                var same := c.key in was && was[c.key].expiry == c.expiry;
                var merged := if same then was[c.key].(count := Plus(Int32, was[c.key].count, c.count)) else c;
                if c.force || merged.count > unsyncedCtrLimit then m == map[] && Flushed(was[c.key := merged], sent)
                else m == was[c.key := merged] && sent == []
    {
      var send := true;
      match i {
        case Received(c) =>
          send := c.force;
          if c.key !in m {
            m := m[c.key := c];
          } else if c.expiry == m[c.key].expiry {
            m := m[c.key := m[c.key].(count := Wrap32(m[c.key].count + c.count))];
          } else {
            m := m[c.key := c];
          }
          if m[c.key].count > unsyncedCtrLimit {
            send := true;
          }
          assert m == Merge(Int32, old(m), c);
        case TimedOut =>
        case Closed =>
      }
      sent := [];
      if send && |m| > 0 {
        var slice := Drain();
        sent := [slice];
      }
    }

    /** The worker's loop, until the channel closes. */
    method Run(inputs: seq<Input>) returns (sent: seq<seq<Command>>)
      requires Kept(m, unsyncedCtrLimit)
      modifies this
      ensures Kept(m, unsyncedCtrLimit)
      ensures m == Work(unsyncedCtrLimit, old(m), inputs).0
      ensures AllList(sent, Work(unsyncedCtrLimit, old(m), inputs).1)
      ensures old(m) == map[] ==> forall t: T.Table, now: C.Time | Superseded(Taken(inputs), now) ::
                T.SyncBatch(Int32, Deliver(t, now, sent), now, m) == T.SyncKeys(Int32, t, now, Taken(inputs))
    {
      hide *;
      sent := [];
      var i, close := 0, false;
      ghost var batches: seq<Batch> := [];
      WorkStarts(unsyncedCtrLimit, m, inputs);
      while i < |inputs| && !close
        invariant 0 <= i <= |inputs| && Kept(m, unsyncedCtrLimit) && AllList(sent, batches)
        invariant Work(unsyncedCtrLimit, old(m), inputs)
               == if close then (m, batches) else Continue(batches, Work(unsyncedCtrLimit, m, inputs[i..]))
      {
        ghost var step := OnInput(unsyncedCtrLimit, m, inputs[i]);
        WorkNext(unsyncedCtrLimit, m, inputs, i, batches);
        var more := Handle(inputs[i]);
        AllListAppend(sent, batches, more, step.1);
        sent, batches := sent + more, batches + step.1;
        close := inputs[i].Closed?;
        i := i + 1;
      }
      WorkEnds(unsyncedCtrLimit, m, inputs, batches);
      if old(m) == map[] {
        forall t: T.Table, now: C.Time | Superseded(Taken(inputs), now)
          ensures T.SyncBatch(Int32, Deliver(t, now, sent), now, m) == T.SyncKeys(Int32, t, now, Taken(inputs))
        {
          WorkFromNothing(unsyncedCtrLimit, inputs, t, now);
          SlicesAreBatches(t, now, sent, Work(unsyncedCtrLimit, map[], inputs).1);
        }
      }
    }
  }
}
