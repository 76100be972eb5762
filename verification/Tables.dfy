/** A node's whole state as one flat map from key to entry, and what each operation does to it. */
module Tables {
  import opened Base
  import C = Counter

  type Time = C.Time
  type Entry = C.Entry
  type Response = C.Response
  type Table = map<string, Entry>

  datatype Command = Command(key: string, count: int, expiry: int, force: bool)

  function Get(t: Table, key: string): Option<Entry> {
    if key in t then Some(t[key]) else None
  }

  function Put(t: Table, key: string, o: Option<Entry>): Table {
    if o.Some? then t[key := o.value] else t
  }

  function Incr(ar: Arith, t: Table, now: Time, key: string, count: int, limit: int, window: int): (Table, Response) {
    var (e, r) := C.Incr(ar, Get(t, key), now, count, limit, window);
    (t[key := e], r)
  }

  function Sync(ar: Arith, t: Table, now: Time, c: Command): Table {
    Put(t, c.key, C.Sync(ar, Get(t, c.key), now, c.count, c.expiry))
  }

  /** The command a call puts on the channel, if any. */
  function Announced(key: string, count: int, r: Response): seq<Command> {
    if C.Shared(r) then [Command(key, count, r.expiry, r.dosync)] else []
  }

  /** A call depends on, and changes, nothing but its key's entry. */
  lemma IncrLocal(ar: Arith, t: Table, u: Table, now: Time, key: string, count: int, limit: int, window: int)
    requires Get(t, key) == Get(u, key)
    ensures var (t', r) := Incr(ar, t, now, key, count, limit, window);
            var (u', q) := Incr(ar, u, now, key, count, limit, window);
            r == q && key in u' && t' == t[key := u'[key]] && u' == u[key := u'[key]]
  {
  }

  /** The force flag is for the sender's worker only. */
  lemma SyncForce(ar: Arith, t: Table, now: Time, c: Command)
    ensures Sync(ar, t, now, c) == Sync(ar, t, now, Command(c.key, c.count, c.expiry, false))
  {
  }

  lemma SyncLocal(ar: Arith, t: Table, u: Table, now: Time, c: Command)
    requires Get(t, c.key) == Get(u, c.key)
    ensures now > c.expiry ==> Sync(ar, t, now, c) == t && Sync(ar, u, now, c) == u
    ensures now <= c.expiry ==>
              var u' := Sync(ar, u, now, c);
              c.key in u' && Sync(ar, t, now, c) == t[c.key := u'[c.key]] && u' == u[c.key := u'[c.key]]
  {
  }

  /** A call in full: it works on the key's live entry or on a fresh one; it counts unless the total has passed the
      limit; it is blocked when the total has; and it asks for a sync when it is blocked but counted. */
  lemma IncrInFull(ar: Arith, t: Table, now: Time, key: string, count: int, limit: int, window: int)
    ensures var (t', r) := Incr(ar, t, now, key, count, limit, window);
            var o := Get(t, key);
            var live := o.Some? && now <= o.value.expires;
            var previous := if live then o.value.count else 0;
            var total := if previous <= limit then Plus(ar, previous, count) else previous;
            && r.expiry == (if live then o.value.expires else C.GenExpiry(now, window))
            && t' == t[key := C.Entry(r.expiry, total)]
            && (r.blocked <==> total > limit)
            && (r.dosync <==> r.blocked && previous < total)
  {
    hide C.GenExpiry;
  }

  /** A command in full: expired, it changes nothing; else it adds to the key's live entry or to a fresh one. */
  lemma SyncInFull(ar: Arith, t: Table, now: Time, c: Command)
    ensures var o := Get(t, c.key);
            var live := o.Some? && now <= o.value.expires;
            Sync(ar, t, now, c)
            == if now > c.expiry then t
               else if live then t[c.key := C.Entry(o.value.expires, Plus(ar, o.value.count, c.count))]
               else t[c.key := C.Entry(c.expiry, Plus(ar, 0, c.count))]
  {
  }

  /** The receiver of a batch applies its commands one after the other. */
  function SyncKeys(ar: Arith, t: Table, now: Time, cs: seq<Command>): Table {
    if cs == [] then t
    else Sync(ar, SyncKeys(ar, t, now, cs[..|cs| - 1]), now, cs[|cs| - 1])
  }

  lemma SyncKeysNext(ar: Arith, t: Table, now: Time, cs: seq<Command>, i: nat)
    requires i < |cs|
    ensures SyncKeys(ar, t, now, cs[..i + 1]) == Sync(ar, SyncKeys(ar, t, now, cs[..i]), now, cs[i])
  {
    assert cs[..i + 1][..i] == cs[..i];
  }

  /** The collector looks at some keys, at each of them with a clock reading of its own. */
  function Sweep(t: Table, at: map<string, Time>, grace: int): Table {
    map k | k in t && !(k in at && C.Collectable(t[k], at[k], grace)) :: t[k]
  }

  /** It looks at some keys at one moment. */
  function Collect(t: Table, now: Time, visited: set<string>, grace: int): Table {
    Sweep(t, map k | k in visited :: now, grace)
  }

  predicate Within(at: map<string, Time>, from: Time, to: Time) { forall k | k in at :: from <= at[k] <= to }

  /** A pass over the table during [from, to]: it looks at every key once. */
  predicate Pass(t: Table, at: map<string, Time>, from: Time, to: Time) {
    at.Keys == t.Keys && Within(at, from, to)
  }

  /** Of the keys left to look at, k moves to those looked at. */
  lemma LookedAt(at: map<string, Time>, left: set<string>, k: string, t: Time)
    requires k in left && at.Keys !! left
    ensures (at + map[k := t]).Keys + (left - {k}) == at.Keys + left
    ensures (at + map[k := t]).Keys !! left - {k}
    ensures at.Keys !! map[k := t].Keys
  {
  }

  lemma WithinNone(now: Time)
    ensures Within(map[], now, now)
  {
  }

  lemma WithinOne(k: string, t: Time, from: Time, to: Time)
    requires from <= t <= to
    ensures Within(map[k := t], from, to)
  {
  }

  lemma WholePass(t: Table, at: map<string, Time>, from: Time, to: Time)
    requires at.Keys == t.Keys && Within(at, from, to)
    ensures Pass(t, at, from, to)
  {
  }

  lemma WithinMore(at: map<string, Time>, more: map<string, Time>, from: Time, to: Time, later: Time)
    requires Within(at, from, to) && Within(more, to, later) && from <= to <= later
    ensures Within(at + more, from, later)
  {
  }

  /** A pass keeps every entry that was live when looked at, and of the expired ones only those within the grace
      period, if there is one, all of them unchanged. */
  lemma SweepIsExact(t: Table, at: map<string, Time>, from: Time, to: Time, grace: int, k: string)
    requires Pass(t, at, from, to)
    ensures k in Sweep(t, at, grace) <==> k in t && at[k] <= t[k].expires + Max0(grace)
    ensures k in Sweep(t, at, grace) ==> Sweep(t, at, grace)[k] == t[k]
    ensures k in t && to <= t[k].expires + Max0(grace) ==> k in Sweep(t, at, grace)
    ensures k in Sweep(t, at, grace) ==> from <= t[k].expires + Max0(grace)
  {
  }

  /** The same of the keys visited at one moment; the others stay. */
  lemma CollectIsExact(t: Table, now: Time, visited: set<string>, grace: int, k: string)
    ensures var kept := Collect(t, now, visited, grace);
            && (k in kept <==> k in t && (k in visited ==> now <= t[k].expires + Max0(grace)))
            && (k in kept ==> kept[k] == t[k])
  {
  }

  /** What a look leaves of one key's entry. */
  function Looked(o: Option<Entry>, at: map<string, Time>, grace: int, k: string): Option<Entry> {
    if o.Some? && k in at && C.Collectable(o.value, at[k], grace) then None else o
  }

  lemma SweepAt(t: Table, at: map<string, Time>, grace: int, k: string)
    ensures Get(Sweep(t, at, grace), k) == Looked(Get(t, k), at, grace, k)
  {
  }

  lemma SweepOne(t: Table, k: string, now: Time, grace: int)
    requires k in t
    ensures Sweep(t, map[k := now], grace) == if C.Collectable(t[k], now, grace) then t - {k} else t
  {
  }

  lemma SweepMore(t: Table, at: map<string, Time>, more: map<string, Time>, grace: int)
    requires at.Keys !! more.Keys
    ensures Sweep(Sweep(t, at, grace), more, grace) == Sweep(t, at + more, grace)
  {
  }

  lemma SweepNone(t: Table, grace: int)
    ensures Sweep(t, map[], grace) == t
  {
  }

  // ---- Order of delivery ------------------------------------------------------------------

  type Batch = map<string, Command>

  predicate Keyed(m: Batch) { forall k | k in m :: m[k].key == k }

  /** cs lists every command of m once, in some order. */
  ghost predicate Lists(cs: seq<Command>, m: Batch) {
    && (forall i | 0 <= i < |cs| :: cs[i].key in m && m[cs[i].key] == cs[i])
    && (forall i, j | 0 <= i < j < |cs| :: cs[i].key != cs[j].key)
    && (forall k | k in m :: exists i :: 0 <= i < |cs| && cs[i].key == k)
  }

  /** What a batch does to each key, with no order of delivery. */
  function SyncBatch(ar: Arith, t: Table, now: Time, m: Batch): Table {
    map k | k in t.Keys + (set k | k in m && now <= m[k].expiry) ::
      if k in m && now <= m[k].expiry then C.Sync(ar, Get(t, k), now, m[k].count, m[k].expiry).value else t[k]
  }

  lemma NothingToSync(ar: Arith, t: Table, now: Time)
    ensures SyncBatch(ar, t, now, map[]) == t
  {
  }

  lemma SyncBatchAt(ar: Arith, t: Table, now: Time, m: Batch, k: string)
    ensures Get(SyncBatch(ar, t, now, m), k)
         == if k in m then C.Sync(ar, Get(t, k), now, m[k].count, m[k].expiry) else Get(t, k)
  {
  }

  lemma SameTable(a: Table, b: Table)
    requires forall k :: Get(a, k) == Get(b, k)
    ensures a == b
  {
    forall k
      ensures k in a <==> k in b
      ensures k in a ==> a[k] == b[k]
    {
      assert Get(a, k) == Get(b, k);
    }
  }

  lemma ListsInit(cs: seq<Command>, m: Batch)
    requires Lists(cs, m) && cs != []
    ensures Lists(cs[..|cs| - 1], m - {cs[|cs| - 1].key})
  {
    var init := cs[..|cs| - 1];
    forall k | k in m && k != cs[|cs| - 1].key
      ensures exists i :: 0 <= i < |init| && init[i].key == k
    {
      var i :| 0 <= i < |cs| && cs[i].key == k;
      assert init[i] == cs[i];
    }
  }

  /** Delivering one more key's command after a batch is delivering the larger batch. */
  lemma SyncBatchExtends(ar: Arith, t: Table, now: Time, m: Batch, c: Command)
    requires c.key in m && m[c.key] == c
    ensures Sync(ar, SyncBatch(ar, t, now, m - {c.key}), now, c) == SyncBatch(ar, t, now, m)
  {
    var before := SyncBatch(ar, t, now, m - {c.key});
    SyncBatchAt(ar, t, now, m - {c.key}, c.key);
    SyncBatchAt(ar, t, now, m, c.key);
    forall k
      ensures Get(Sync(ar, before, now, c), k) == Get(SyncBatch(ar, t, now, m), k)
    {
      if k != c.key {
        SyncBatchAt(ar, t, now, m - {c.key}, k);
        SyncBatchAt(ar, t, now, m, k);
      }
    }
    SameTable(Sync(ar, before, now, c), SyncBatch(ar, t, now, m));
  }

  /** In whatever order a worker's map is walked, its receiver ends in the same state. */
  lemma {:induction false} DeliveryOrderIrrelevant(ar: Arith, t: Table, now: Time, m: Batch, cs: seq<Command>)
    requires Lists(cs, m)
    ensures SyncKeys(ar, t, now, cs) == SyncBatch(ar, t, now, m)
    decreases |cs|
  {
    if cs == [] {
      assert m == map[];
      assert SyncBatch(ar, t, now, m) == t;
    } else {
      var c := cs[|cs| - 1];
      ListsInit(cs, m);
      DeliveryOrderIrrelevant(ar, t, now, m - {c.key}, cs[..|cs| - 1]);
      SyncBatchExtends(ar, t, now, m, c);
    }
  }

  /** Two senders agree about a key when they and the receiver's live entry name one expiry. */
  predicate Agree(t: Table, now: Time, a: Batch, b: Batch, k: string) {
    k in a && k in b ==>
      && a[k].expiry == b[k].expiry
      && (C.Live(Get(t, k), now) ==> t[k].expires == a[k].expiry)
  }

  /** Batches of different senders commute. */
  lemma SendersCommute(ar: Arith, t: Table, now: Time, a: Batch, b: Batch)
    requires forall k :: Agree(t, now, a, b, k)
    ensures SyncBatch(ar, SyncBatch(ar, t, now, a), now, b) == SyncBatch(ar, SyncBatch(ar, t, now, b), now, a)
  {
    var ab := SyncBatch(ar, SyncBatch(ar, t, now, a), now, b);
    var ba := SyncBatch(ar, SyncBatch(ar, t, now, b), now, a);
    forall k
      ensures Get(ab, k) == Get(ba, k)
    {
      assert Agree(t, now, a, b, k);
      SyncBatchAt(ar, t, now, a, k);
      SyncBatchAt(ar, t, now, b, k);
      SyncBatchAt(ar, SyncBatch(ar, t, now, a), now, b, k);
      SyncBatchAt(ar, SyncBatch(ar, t, now, b), now, a, k);
      if k in a && k in b {
        var e := C.Refresh(Get(t, k), now, a[k].expiry);
        PlusAssociative(ar, e.count, a[k].count, b[k].count);
        PlusAssociative(ar, e.count, b[k].count, a[k].count);
      }
    }
    SameTable(ab, ba);
  }

  // ---- Collection is unobservable -----------------------------------------------------------

  datatype Event =
    | Call(now: Time, key: string, count: int, limit: int, window: int)
    | Remote(now: Time, batch: seq<Command>)
    | Visit(now: Time, visited: set<string>, grace: int)

  predicate Sorted(evs: seq<Event>, from: Time) {
    evs == [] || (from <= evs[0].now && Sorted(evs[1..], evs[0].now))
  }

  /** The state after one event, and the answer when the event is a call. */
  function Step(ar: Arith, t: Table, ev: Event): (Table, seq<Response>) {
    match ev
    case Call(now, key, count, limit, window) =>
      var (t', r) := Incr(ar, t, now, key, count, limit, window);
      (t', [r])
    case Remote(now, batch) => (SyncKeys(ar, t, now, batch), [])
    case Visit(now, visited, grace) => (Collect(t, now, visited, grace), [])
  }

  function Answers(ar: Arith, t: Table, evs: seq<Event>): seq<Response>
    decreases |evs|
  {
    if evs == [] then []
    else
      var (t', r) := Step(ar, t, evs[0]);
      r + Answers(ar, t', evs[1..])
  }

  function Uncollected(evs: seq<Event>): seq<Event> {
    if evs == [] then []
    else (if evs[0].Visit? then [] else [evs[0]]) + Uncollected(evs[1..])
  }

  /** Both tables hold the same entries, apart from expired ones. */
  ghost predicate SameLive(a: Table, b: Table, now: Time) {
    forall k :: C.Live(Get(a, k), now) || C.Live(Get(b, k), now) ==> Get(a, k) == Get(b, k)
  }

  lemma SyncSameLive(ar: Arith, a: Table, b: Table, now: Time, c: Command)
    requires SameLive(a, b, now)
    ensures SameLive(Sync(ar, a, now, c), Sync(ar, b, now, c), now)
  {
    assert C.Refresh(Get(a, c.key), now, c.expiry) == C.Refresh(Get(b, c.key), now, c.expiry);
    forall k | k != c.key
      ensures Get(Sync(ar, a, now, c), k) == Get(a, k)
      ensures Get(Sync(ar, b, now, c), k) == Get(b, k)
    {
    }
  }

  lemma {:induction false} SyncKeysSameLive(ar: Arith, a: Table, b: Table, now: Time, cs: seq<Command>)
    requires SameLive(a, b, now)
    ensures SameLive(SyncKeys(ar, a, now, cs), SyncKeys(ar, b, now, cs), now)
  {
    if cs != [] {
      SyncKeysSameLive(ar, a, b, now, cs[..|cs| - 1]);
      SyncSameLive(ar, SyncKeys(ar, a, now, cs[..|cs| - 1]), SyncKeys(ar, b, now, cs[..|cs| - 1]), now, cs[|cs| - 1]);
    }
  }

  lemma StepSameLive(ar: Arith, a: Table, b: Table, ev: Event)
    requires SameLive(a, b, ev.now)
    ensures ev.Visit? ==> SameLive(Step(ar, a, ev).0, b, ev.now)
    ensures !ev.Visit? ==> SameLive(Step(ar, a, ev).0, Step(ar, b, ev).0, ev.now)
    ensures !ev.Visit? ==> Step(ar, a, ev).1 == Step(ar, b, ev).1
  {
    match ev
    case Call(now, key, count, limit, window) =>
      var expiry := C.GenExpiry(now, window);
      assert C.Refresh(Get(a, key), now, expiry) == C.Refresh(Get(b, key), now, expiry);
      forall k | k != key
        ensures Get(Step(ar, a, ev).0, k) == Get(a, k)
        ensures Get(Step(ar, b, ev).0, k) == Get(b, k)
      {
      }
    case Remote(now, batch) => SyncKeysSameLive(ar, a, b, now, batch);
    case Visit(now, visited, grace) =>
      forall k
        ensures C.Live(Get(a, k), now) ==> Get(Collect(a, now, visited, grace), k) == Get(a, k)
        ensures C.Live(Get(Collect(a, now, visited, grace), k), now) ==> C.Live(Get(a, k), now)
      {
      }
  }

  /** A store collected at arbitrary moments, with any grace, answers every call as one never collected. */
  lemma {:induction false} CollectionUnobservable(ar: Arith, a: Table, b: Table, from: Time, evs: seq<Event>)
    requires Sorted(evs, from) && SameLive(a, b, from)
    ensures Answers(ar, a, evs) == Answers(ar, b, Uncollected(evs))
    decreases |evs|
  {
    if evs != [] {
      var now := evs[0].now;
      assert SameLive(a, b, now) by {
        forall k | C.Live(Get(a, k), now) || C.Live(Get(b, k), now)
          ensures Get(a, k) == Get(b, k)
        {
          assert C.Live(Get(a, k), from) || C.Live(Get(b, k), from);
        }
      }
      StepSameLive(ar, a, b, evs[0]);
      var a' := Step(ar, a, evs[0]).0;
      var rest := Uncollected(evs[1..]);
      if evs[0].Visit? {
        CollectionUnobservable(ar, a', b, now, evs[1..]);
        assert Uncollected(evs) == rest;
      } else {
        CollectionUnobservable(ar, a', Step(ar, b, evs[0]).0, now, evs[1..]);
        assert Uncollected(evs) == [evs[0]] + rest;
        assert Uncollected(evs)[1..] == rest;
      }
    }
  }

  /** After a pass, however its readings are spread, every later call is answered as if there had been none. */
  lemma PassUnobservable(ar: Arith, t: Table, at: map<string, Time>, from: Time, to: Time, grace: int, evs: seq<Event>)
    requires Pass(t, at, from, to) && Sorted(evs, to)
    ensures Answers(ar, Sweep(t, at, grace), evs) == Answers(ar, t, Uncollected(evs))
  {
    forall k
      ensures C.Live(Get(t, k), to) ==> Get(Sweep(t, at, grace), k) == Get(t, k)
      ensures C.Live(Get(Sweep(t, at, grace), k), to) ==> C.Live(Get(t, k), to)
    {
    }
    CollectionUnobservable(ar, Sweep(t, at, grace), t, to, evs);
  }
}
