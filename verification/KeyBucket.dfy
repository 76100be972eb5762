/** The bucket and its entries as the program keeps them: objects updated in place under locks. */
module KeyBuckets {
  import opened Base
  import C = Counter
  import T = Tables

  /** A clock. It never goes back; a call of one instant reads `current`, a pass that takes time reads it by Now. */
  class Clock {
    var current: C.Time

    constructor ()
      ensures current == 0
    {
      current := 0;
    }

    /** The next reading: any amount of time may have passed. */
    method Now() returns (now: C.Time)
      modifies this
      ensures old(current) <= current == now
    {
      var passed: int :| passed >= 0;
      current := current + passed;
      now := current;
    }
  }

  class KeyEntry {
    var expires: int
    var lastModified: int
    var count: int32
    var clock: Clock

    ghost function Value(): C.Entry reads this { C.Entry(expires, count) }

    constructor (count: int32, expires: int, clock: Clock)
      ensures Value() == C.Entry(expires, count) && this.clock == clock
    {
      this.count := count;
      this.expires := expires;
      this.lastModified := clock.current;
      this.clock := clock;
    }

    method ReInit(count: int32, expires: int, clock: Clock)
      modifies this
      ensures Value() == C.Entry(expires, count) && this.clock == clock
    {
      this.lastModified := this.clock.current;
      this.expires := expires;
      this.count := count;
      this.clock := clock;
    }

    predicate Expired()
      reads this, clock
    {
      expires < clock.current
    }

    method Incr(count: int32) returns (total: int32)
      modifies this
      ensures Value() == old(Value()).(count := total) && total == Plus(Int32, old(this.count), count)
      ensures clock == old(clock)
    {
      lastModified := clock.current;
      this.count := Wrap32(this.count + count);
      total := this.count;
    }

    method Sync(count: int32) returns (total: int32)
      modifies this
      ensures Value() == old(Value()).(count := total) && total == Plus(Int32, old(this.count), count)
      ensures clock == old(clock)
    {
      this.count := Wrap32(this.count + count);
      total := this.count;
    }
  }

  class KeyBucket {
    var lookup: map<string, KeyEntry>
    const clock: Clock

    ghost predicate Valid()
      reads this, lookup.Values
    {
      && (forall k | k in lookup :: lookup[k].clock == clock)
      && (forall j, k | j in lookup && k in lookup && j != k :: lookup[j] != lookup[k])
    }

    /** The objects the bucket's calls may change. */
    ghost function Repr(): set<object>
      reads this
    {
      {this} + set k | k in lookup :: lookup[k]
    }

    ghost function Contents(): T.Table
      reads this, lookup.Values
    {
      map k | k in lookup :: lookup[k].Value()
    }

    /** A bucket none of whose objects changed. */
    twostate lemma Untouched()
      requires old(Valid()) && unchanged(old(Repr()))
      ensures Valid() && lookup == old(lookup) && Repr() == old(Repr()) && Contents() == old(Contents())
    {
      assert this in old(Repr());
      forall k | k in lookup
        ensures lookup[k] in old(Repr())
      {
      }
    }

    lemma SameKeys()
      ensures Contents().Keys == lookup.Keys
    {
    }

    constructor (clock: Clock)
      ensures Valid() && this.clock == clock && Contents() == map[] && lookup == map[]
    {
      this.clock := clock;
      this.lookup := map[];
    }

    /** The entry a call works on: looked up or created, and restarted when it has expired. */
    method Obtain(key: string, expiry: int) returns (e: KeyEntry)
      requires Valid()
      modifies Repr()
      ensures Valid() && fresh(Repr() - old(Repr()))
      ensures key in lookup && lookup[key] == e && e in Repr()
      ensures e.Value() == C.Refresh(T.Get(old(Contents()), key), clock.current, expiry)
      ensures Contents() == old(Contents())[key := e.Value()]
      ensures clock.current == old(clock.current)
    {
      if key in lookup {
        e := lookup[key];
      } else {
        e := new KeyEntry(0, expiry, clock);
        lookup := lookup[key := e];
      }
      if e.Expired() {
        e.ReInit(0, expiry, clock);
      }
    }

    method Incr(key: string, count: int32, limit: int32, window: int32)
      returns (blocked: bool, expiry: int, dosync: bool)
      requires Valid()
      modifies Repr()
      ensures Valid() && fresh(Repr() - old(Repr()))
      ensures clock.current == old(clock.current)
      ensures (Contents(), C.Response(blocked, expiry, dosync))
           == T.Incr(Int32, old(Contents()), clock.current, key, count, limit, window)
      ensures var o := T.Get(old(Contents()), key);
              var live := o.Some? && clock.current <= o.value.expires;
              var previous := if live then o.value.count else 0;
              var total := if previous <= limit then Plus(Int32, previous, count) else previous;
              && expiry == (if live then o.value.expires else C.GenExpiry(clock.current, window))
              && Contents() == old(Contents())[key := C.Entry(expiry, total)]
              && (blocked <==> total > limit)
              && (dosync <==> blocked && previous < total)
    {
      hide C.GenExpiry, C.Refresh, C.Count, C.Reply;
      var t := clock.current;
      ghost var was := Contents();
      T.IncrInFull(Int32, was, t, key, count, limit, window);
      var e := Obtain(key, C.GenExpiry(t, window));
      blocked, expiry, dosync := CountOn(key, e, count, limit);
      assert Contents() == was[key := e.Value()];
    }

    /** The critical section of Incr, on the entry it obtained. */
    method CountOn(key: string, e: KeyEntry, count: int32, limit: int32)
      returns (blocked: bool, expiry: int, dosync: bool)
      requires Valid() && key in lookup && lookup[key] == e
      modifies e
      ensures Valid() && Repr() == old(Repr())
      ensures clock.current == old(clock.current)
      ensures e.Value() == C.Count(Int32, old(e.Value()), count, limit)
      ensures Contents() == old(Contents())[key := e.Value()]
      ensures C.Response(blocked, expiry, dosync) == C.Reply(old(e.Value()), e.Value(), limit)
      ensures expiry == old(e.expires) && (blocked <==> e.count > limit)
      ensures dosync <==> blocked && old(e.count) < e.count
    {
      var previousTotal := e.count;
      var newTotal := previousTotal;
      if previousTotal <= limit {
        newTotal := e.Incr(count);
      }
      if newTotal <= limit {
        return false, e.expires, false;
      } else {
        return true, e.expires, previousTotal < newTotal;
      }
    }

    method Sync(key: string, count: int32, expiry: int)
      requires Valid()
      modifies Repr()
      ensures Valid() && fresh(Repr() - old(Repr()))
      ensures clock.current == old(clock.current)
      ensures Contents() == T.Sync(Int32, old(Contents()), clock.current, T.Command(key, count, expiry, false))
    {
      if clock.current > expiry {
        return;
      }
      ghost var was := Contents();
      var e := Obtain(key, expiry);
      var _ := e.Sync(count);
      assert Contents() == was[key := e.Value()];
    }

    /** The collector's look at one entry. Of its two clock readings the one that decides is `at`. */
    method Visit(k: string, grace: int) returns (ghost at: C.Time)
      requires Valid() && k in lookup
      modifies this, clock
      ensures Valid() && Repr() <= old(Repr())
      ensures old(clock.current) <= at <= clock.current
      ensures old(lookup).Keys - {k} <= lookup.Keys
      ensures Contents() == T.Sweep(old(Contents()), map[k := at], grace)
    {
      hide T.Sweep;
      ghost var was := Contents();
      var e := lookup[k];
      var now := clock.Now();
      at := now;
      if e.expires + grace < now {
        at := clock.Now();
        if e.Expired() {
          lookup := lookup - {k};
          assert Contents() == was - {k};
        }
      }
      T.SweepOne(was, k, at, grace);
    }

    /** The collector's pass over one bucket, in whatever order the map is walked. */
    method Collect(grace: int) returns (ghost at: map<string, C.Time>)
      requires Valid()
      modifies this, clock
      ensures Valid() && Repr() <= old(Repr())
      ensures old(clock.current) <= clock.current
      ensures T.Pass(old(Contents()), at, old(clock.current), clock.current)
      ensures Contents() == T.Sweep(old(Contents()), at, grace)
    {
      hide T.Sweep, T.Within, Valid, Repr, Contents;
      ghost var was, from := Contents(), clock.current;
      at := map[];
      T.SweepNone(was, grace);
      T.WithinNone(from);
      var keys := lookup.Keys;
      assert keys == was.Keys by { SameKeys(); }
      while keys != {}
        invariant Valid() && Repr() <= old(Repr())
        invariant keys <= lookup.Keys && at.Keys + keys == was.Keys && at.Keys !! keys
        invariant from <= clock.current
        invariant T.Within(at, from, clock.current)
        invariant Contents() == T.Sweep(was, at, grace)
        decreases |keys|
      {
        var k :| k in keys;
        ghost var start := clock.current;
        ghost var t := Visit(k, grace);
        T.LookedAt(at, keys, k, t);
        T.SweepMore(was, at, map[k := t], grace);
        T.WithinOne(k, t, start, clock.current);
        T.WithinMore(at, map[k := t], from, start, clock.current);
        at := at + map[k := t];
        keys := keys - {k};
      }
    }
  }
}
