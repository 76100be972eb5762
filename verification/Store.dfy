/** The sharded store: which bucket a key goes to, and that the shards act as one flat map. */
module Sharding {
  import opened Base

  /** Bitwise and of two natural numbers. */
  function And(x: nat, y: nat): nat
    decreases x
  {
    if x == 0 || y == 0 then 0 else 2 * And(x / 2, y / 2) + (x % 2) * (y % 2)
  }

  /** And, with its last digit named. */
  lemma AndStep(x: nat, y: nat)
    requires x > 0 && y > 0
    ensures var low := if x % 2 == 1 && y % 2 == 1 then 1 else 0;
            And(x, y) == 2 * And(x / 2, y / 2) + low
  {
    if x % 2 == 1 && y % 2 == 1 {
      assert (x % 2) * (y % 2) == 1;
    } else if x % 2 == 0 {
      assert 0 * (y % 2) == 0;
    }
  }

  lemma {:induction false} MaskedHashInRange(x: nat, mask: nat)
    ensures And(x, mask) <= mask
    decreases x
  {
    if x > 0 && mask > 0 {
      MaskedHashInRange(x / 2, mask / 2);
      AndStep(x, mask);
    }
  }

  /** The binary digit of x at position b. */
  function Bit(x: nat, b: nat): nat
    decreases b
  {
    if b == 0 then x % 2 else Bit(x / 2, b - 1)
  }

  lemma {:induction false} BitOfZero(b: nat)
    ensures Bit(0, b) == 0
  {
    if b > 0 {
      BitOfZero(b - 1);
    }
  }

  lemma {:induction false} AndBit(x: nat, y: nat, b: nat)
    ensures Bit(And(x, y), b) == Bit(x, b) * Bit(y, b)
    decreases b
  {
    if x == 0 || y == 0 {
      BitOfZero(b);
    } else {
      AndStep(x, y);
      if b > 0 {
        AndBit(x / 2, y / 2, b - 1);
      }
    }
  }

  /** Masking keeps, of every digit of the hash, what the mask has there. */
  lemma MaskedHashBits(x: nat, mask: nat)
    ensures forall b: nat :: Bit(And(x, mask), b) == Bit(x, b) * Bit(mask, b)
  {
    forall b: nat
      ensures Bit(And(x, mask), b) == Bit(x, b) * Bit(mask, b)
    {
      AndBit(x, mask, b);
    }
  }

  lemma {:induction false} AndTwice(x: nat, mask: nat)
    ensures And(And(x, mask), mask) == And(x, mask)
    decreases x
  {
    if x > 0 && mask > 0 {
      var low := (x % 2) * (mask % 2);
      assert low == 0 || (low == 1 && mask % 2 == 1);
      AndTwice(x / 2, mask / 2);
      var a := And(x, mask);
      assert a / 2 == And(x / 2, mask / 2) && a % 2 == low;
    }
  }

  /** n is a power of two. */
  predicate PowerOfTwo(n: nat) { n == 1 || (n > 1 && n % 2 == 0 && PowerOfTwo(n / 2)) }

  /** Some hash value selects bucket i under this mask. */
  ghost predicate Reachable(i: nat, mask: nat) {
    exists x: nat :: And(x, mask) == i
  }

  lemma {:induction false} AndWithOnes(x: nat, n: nat)
    requires PowerOfTwo(n) && x < n
    ensures And(x, n - 1) == x
    decreases x
  {
    if x > 0 {
      assert (n - 1) / 2 == n / 2 - 1 && (n - 1) % 2 == 1;
      AndWithOnes(x / 2, n / 2);
    }
  }

  lemma {:induction false} MissedBucket(n: nat) returns (i: nat)
    requires n > 0 && !PowerOfTwo(n)
    ensures i < n && And(i, n - 1) != i
    decreases n
  {
    if n % 2 == 1 {
      i := 1;
      assert And(1, n - 1) == 0;
    } else {
      var j := MissedBucket(n / 2);
      i := 2 * j;
      assert (n - 1) / 2 == n / 2 - 1;
      assert i / 2 == j;
    }
  }

  /** The buckets some hash selects are those whose number the mask leaves alone. */
  lemma ReachableExactly(i: nat, mask: nat)
    ensures Reachable(i, mask) <==> And(i, mask) == i
  {
    if Reachable(i, mask) {
      var x: nat :| And(x, mask) == i;
      AndTwice(x, mask);
    }
  }

  /** Every bucket is in use exactly when the bucket count is a power of two. */
  lemma EveryBucketReachable(n: nat)
    requires n > 0
    ensures var mask := n - 1; (forall i: nat | i < n :: Reachable(i, mask)) <==> PowerOfTwo(n)
  {
    var mask := n - 1;
    if PowerOfTwo(n) {
      forall i: nat | i < n
        ensures Reachable(i, mask)
      {
        AndWithOnes(i, n);
      }
    } else {
      var i := MissedBucket(n);
      ReachableExactly(i, mask);
    }
  }

  const DEFAULT_BUCKETS := 1000

  /** The default bucket count is no power of two: no hash selects bucket 8, for one. */
  lemma DefaultMissesBuckets()
    ensures !PowerOfTwo(DEFAULT_BUCKETS) && !Reachable(8, DEFAULT_BUCKETS - 1)
  {
    assert !PowerOfTwo(125);
    assert !PowerOfTwo(250) && !PowerOfTwo(500);
    assert And(1, 124) == 0;
    assert And(2, 249) == 0 && And(4, 499) == 0;
    ReachableExactly(8, DEFAULT_BUCKETS - 1);
  }
}

module Stores {
  import opened Base
  import opened KeyBuckets
  import opened Sharding
  import C = Counter
  import H = History
  import Rounding
  import T = Tables

  class Store {
    const clock: Clock
    const hash: string -> nat
    const keyBucket: seq<KeyBucket>
    const bucketMask: nat
    var syncChannel: seq<T.Command>

    /** The bucket whose number has the bits of the key's hash that the mask leaves. */
    function BucketOf(key: string): (i: nat)
      ensures i <= bucketMask
      ensures forall b: nat :: Bit(i, b) == Bit(hash(key), b) * Bit(bucketMask, b)
    {
      MaskedHashInRange(hash(key), bucketMask);
      MaskedHashBits(hash(key), bucketMask);
      And(hash(key), bucketMask)
    }

    ghost predicate Valid()
      reads keyBucket, set i, k | 0 <= i < |keyBucket| && k in keyBucket[i].lookup :: keyBucket[i].lookup[k]
    {
      && |keyBucket| == bucketMask + 1
      && (forall i | 0 <= i < |keyBucket| :: keyBucket[i].Valid() && keyBucket[i].clock == clock)
      && (forall i, j | 0 <= i < j < |keyBucket| :: keyBucket[i].Repr() !! keyBucket[j].Repr())
      && (forall i, k | 0 <= i < |keyBucket| && k in keyBucket[i].lookup :: BucketOf(k) == i)
    }

    /** All entries of all buckets. */
    ghost function Flat(): T.Table
      requires Valid()
      reads keyBucket, set i, k | 0 <= i < |keyBucket| && k in keyBucket[i].lookup :: keyBucket[i].lookup[k]
    {
      map k | k in (set i, k | 0 <= i < |keyBucket| && k in keyBucket[i].lookup :: k) ::
        keyBucket[BucketOf(k)].lookup[k].Value()
    }

    /** Every object a call on some key may change. */
    ghost function Footprint(): set<object>
      reads keyBucket
    {
      set i, o | 0 <= i < |keyBucket| && o in keyBucket[i].Repr() :: o
    }

    lemma FlatAt(k: string)
      requires Valid()
      ensures T.Get(Flat(), k) == T.Get(keyBucket[BucketOf(k)].Contents(), k)
    {
    }

    constructor (clock: Clock, buckets: nat, hash: string -> nat)
      requires 0 < buckets < 0x1_0000_0000
      ensures Valid() && Flat() == map[] && syncChannel == []
      ensures this.clock == clock && this.hash == hash && |keyBucket| == buckets
    {
      this.clock := clock;
      this.hash := hash;
      this.bucketMask := buckets - 1;
      this.syncChannel := [];
      var made: seq<KeyBucket> := [];
      while |made| < buckets
        invariant |made| <= buckets
        invariant forall i | 0 <= i < |made| ::
                    made[i].Valid() && made[i].clock == clock && made[i].lookup == map[] && fresh(made[i])
        invariant forall i, j | 0 <= i < j < |made| :: made[i] != made[j]
      {
        var b := new KeyBucket(clock);
        made := made + [b];
      }
      this.keyBucket := made;
    }

    twostate lemma OldFlatAt(k: string)
      requires old(Valid())
      ensures T.Get(old(Flat()), k) == T.Get(old(keyBucket[BucketOf(k)].Contents()), k)
    {
    }

    /** Bucket `at` changed within its own objects. */
    twostate predicate OnlyBucket(at: nat)
      requires at < |keyBucket|
      reads *
    {
      && keyBucket[at].Valid()
      && fresh(keyBucket[at].Repr() - old(keyBucket[at].Repr()))
      && (forall i | 0 <= i < |keyBucket| && i != at :: unchanged(old(keyBucket[i].Repr())))
    }

    twostate lemma OtherBuckets(at: nat)
      requires old(Valid()) && at < |keyBucket| && OnlyBucket(at)
      requires forall k | k in keyBucket[at].Contents() :: BucketOf(k) == at
      ensures Valid() && fresh(Footprint() - old(Footprint()))
      ensures forall i | 0 <= i < |keyBucket| && i != at :: keyBucket[i].Contents() == old(keyBucket[i].Contents())
    {
      forall i | 0 <= i < |keyBucket| && i != at
        ensures keyBucket[i].Valid() && keyBucket[i].lookup == old(keyBucket[i].lookup)
        ensures keyBucket[i].Repr() == old(keyBucket[i].Repr())
        ensures keyBucket[i].Contents() == old(keyBucket[i].Contents())
      {
        keyBucket[i].Untouched();
      }
    }

    twostate lemma NothingChanged()
      requires old(Valid()) && forall i | 0 <= i < |keyBucket| :: unchanged(old(keyBucket[i].Repr()))
      ensures Valid() && Footprint() == old(Footprint()) && Flat() == old(Flat())
    {
      forall i | 0 <= i < |keyBucket|
        ensures keyBucket[i].Valid() && keyBucket[i].lookup == old(keyBucket[i].lookup)
        ensures keyBucket[i].Repr() == old(keyBucket[i].Repr())
        ensures keyBucket[i].Contents() == old(keyBucket[i].Contents())
      {
        keyBucket[i].Untouched();
      }
      forall k
        ensures T.Get(Flat(), k) == T.Get(old(Flat()), k)
      {
        FlatAt(k);
        OldFlatAt(k);
      }
      T.SameTable(Flat(), old(Flat()));
    }

    /** The flat table follows the bucket that changed. */
    twostate lemma BucketStep(at: nat, new after: T.Table)
      requires old(Valid()) && at < |keyBucket| && OnlyBucket(at)
      requires forall k | k in keyBucket[at].Contents() :: BucketOf(k) == at
      requires forall k | BucketOf(k) == at :: T.Get(after, k) == T.Get(keyBucket[at].Contents(), k)
      requires forall k | BucketOf(k) != at :: T.Get(after, k) == T.Get(old(Flat()), k)
      ensures Valid() && fresh(Footprint() - old(Footprint())) && Flat() == after
    {
      OtherBuckets(at);
      forall k
        ensures T.Get(Flat(), k) == T.Get(after, k)
      {
        FlatAt(k);
        OldFlatAt(k);
      }
      T.SameTable(Flat(), after);
    }

    twostate lemma BucketSame(key: string)
      requires old(Valid()) && OnlyBucket(BucketOf(key))
      requires keyBucket[BucketOf(key)].Contents() == old(keyBucket[BucketOf(key)].Contents())
      ensures Valid() && fresh(Footprint() - old(Footprint())) && Flat() == old(Flat())
    {
      var at := BucketOf(key);
      forall k | k in keyBucket[at].Contents()
        ensures BucketOf(k) == at
      {
        assert k in old(keyBucket[at].lookup);
      }
      forall k | BucketOf(k) == at
        ensures T.Get(old(Flat()), k) == T.Get(keyBucket[at].Contents(), k)
      {
        OldFlatAt(k);
      }
      BucketStep(at, old(Flat()));
    }

    /** A bucket stored e under a key of its own. */
    twostate lemma BucketPut(new key: string, new e: C.Entry)
      requires old(Valid())
      requires OnlyBucket(BucketOf(key))
      requires keyBucket[BucketOf(key)].Contents() == old(keyBucket[BucketOf(key)].Contents())[key := e]
      ensures Valid() && fresh(Footprint() - old(Footprint())) && Flat() == old(Flat())[key := e]
    {
      var at := BucketOf(key);
      forall k | k in keyBucket[at].Contents()
        ensures BucketOf(k) == at
      {
        assert k == key || k in old(keyBucket[at].lookup);
      }
      forall k | BucketOf(k) == at
        ensures T.Get(old(Flat())[key := e], k) == T.Get(keyBucket[at].Contents(), k)
      {
        OldFlatAt(k);
      }
      BucketStep(at, old(Flat())[key := e]);
    }

    /** Incr on the key's bucket, seen from the flat table. */
    method CallBucket(key: string, count: int32, limit: int32, window: int32)
      returns (blocked: bool, expires: int, dosync: bool)
      requires Valid()
      modifies Footprint()
      ensures Valid() && fresh(Footprint() - old(Footprint()))
      ensures clock.current == old(clock.current)
      ensures (Flat(), C.Response(blocked, expires, dosync))
           == T.Incr(Int32, old(Flat()), clock.current, key, count, limit, window)
    {
      hide C.GenExpiry, C.Incr;
      ghost var now := clock.current;
      FlatAt(key);
      T.IncrLocal(Int32, Flat(), keyBucket[BucketOf(key)].Contents(), now, key, count, limit, window);
      blocked, expires, dosync := keyBucket[BucketOf(key)].Incr(key, count, limit, window);
      BucketPut(key, keyBucket[BucketOf(key)].Contents()[key]);
    }

    method Send(c: T.Command)
      requires Valid()
      modifies `syncChannel
      ensures clock.current == old(clock.current)
      ensures Valid() && Footprint() == old(Footprint()) && Flat() == old(Flat())
      ensures syncChannel == old(syncChannel) + [c]
    {
      syncChannel := syncChannel + [c];
      forall i | 0 <= i < |keyBucket|
        ensures unchanged(old(keyBucket[i].Repr()))
      {
        assert this !in old(keyBucket[i].Repr());
      }
      NothingChanged();
    }

    /** Asks the key's bucket and announces the increment exactly when it was counted. `r` is the bucket's
        whole answer, of which the caller sees `blocked`. */
    method IncrBy(key: string, count: int32, limit: int32, window: int32) returns (blocked: bool, ghost r: C.Response)
      requires Valid()
      modifies `syncChannel, Footprint()
      ensures Valid() && fresh(Footprint() - old(Footprint()))
      ensures (Flat(), r) == T.Incr(Int32, old(Flat()), clock.current, key, count, limit, window)
      ensures blocked == r.blocked && syncChannel == old(syncChannel) + T.Announced(key, count, r)
      ensures !blocked ==> syncChannel == old(syncChannel) + [T.Command(key, count, r.expiry, false)]
      ensures blocked && r.dosync ==> syncChannel == old(syncChannel) + [T.Command(key, count, r.expiry, true)]
      ensures blocked && !r.dosync ==> syncChannel == old(syncChannel)
    {
      var expires, dosync;
      hide C.GenExpiry, C.Incr, Valid, Flat;
      T.IncrInFull(Int32, Flat(), clock.current, key, count, limit, window);
      blocked, expires, dosync := CallBucket(key, count, limit, window);
      r := C.Response(blocked, expires, dosync);
      if !blocked || dosync {
        Send(T.Command(key, count, expires, dosync));
      }
    }

    method Incr(key: string, count: int32, threshold: int32, window: int32, peakAveraged: bool)
      returns (blocked: bool, ghost r: C.Response)
      requires Valid() && (peakAveraged ==> window != 0 && !Rounding.Overflows(threshold, window))
      modifies `syncChannel, Footprint()
      ensures Valid() && fresh(Footprint() - old(Footprint()))
      ensures !peakAveraged ==>
                (Flat(), r) == T.Incr(Int32, old(Flat()), clock.current, key, count, threshold, window)
      ensures peakAveraged ==> forall x: real | Rounding.RoundedQuotient(x, threshold, window) ::
                (Flat(), r) == T.Incr(Int32, old(Flat()), clock.current, key, count, Rounding.Ceil(x), 1)
      ensures blocked == r.blocked
      ensures !blocked ==> syncChannel == old(syncChannel) + [T.Command(key, count, r.expiry, false)]
      ensures blocked && r.dosync ==> syncChannel == old(syncChannel) + [T.Command(key, count, r.expiry, true)]
      ensures blocked && !r.dosync ==> syncChannel == old(syncChannel)
    {
      hide C.GenExpiry, T.Incr, Valid, Flat, Footprint;
      var limit: int32, w: int32 := threshold, window;
      if peakAveraged && window != 1 {
        Rounding.CeilDivFits(threshold, window);
        limit, w := Rounding.CeilDiv(threshold, window), 1;
      }
      if peakAveraged {
        forall x: real | Rounding.RoundedQuotient(x, threshold, window)
          ensures Rounding.Ceil(x) == limit
        {
          Rounding.FloatCeilingIsExact(x, threshold, window);
          if window == 1 {
            Rounding.CeilingByOne(threshold);
          }
        }
      }
      blocked, r := IncrBy(key, count, limit, w);
    }

    /** The flat table receives what the key's bucket received. */
    twostate lemma BucketSynced(new now: C.Time, new c: T.Command)
      requires old(Valid()) && OnlyBucket(BucketOf(c.key))
      requires keyBucket[BucketOf(c.key)].Contents()
            == T.Sync(Int32, old(keyBucket[BucketOf(c.key)].Contents()), now, c)
      ensures Valid() && fresh(Footprint() - old(Footprint()))
      ensures Flat() == T.Sync(Int32, old(Flat()), now, c)
    {
      OldFlatAt(c.key);
      ghost var b := keyBucket[BucketOf(c.key)];
      T.SyncLocal(Int32, old(Flat()), old(b.Contents()), now, c);
      if now <= c.expiry {
        BucketPut(c.key, b.Contents()[c.key]);
      } else {
        BucketSame(c.key);
      }
    }

    /** One command of a received batch. */
    method SyncOne(c: T.Command)
      requires Valid() && -0x8000_0000 <= c.count <= 0x7fff_ffff
      modifies Footprint()
      ensures Valid() && fresh(Footprint() - old(Footprint()))
      ensures clock.current == old(clock.current)
      ensures Flat() == T.Sync(Int32, old(Flat()), clock.current, c)
    {
      var b := keyBucket[BucketOf(c.key)];
      T.SyncForce(Int32, b.Contents(), clock.current, c);
      b.Sync(c.key, c.count, c.expiry);
      BucketSynced(clock.current, c);
    }

    method SyncKeys(syncs: seq<T.Command>)
      requires Valid() && forall i | 0 <= i < |syncs| :: -0x8000_0000 <= syncs[i].count <= 0x7fff_ffff
      modifies Footprint()
      ensures Valid() && fresh(Footprint() - old(Footprint()))
      ensures Flat() == T.SyncKeys(Int32, old(Flat()), clock.current, syncs)
    {
      hide Valid, Flat, T.Sync;
      ghost var was := Flat();
      for i := 0 to |syncs|
        invariant Valid() && fresh(Footprint() - old(Footprint()))
        invariant clock.current == old(clock.current)
        invariant Flat() == T.SyncKeys(Int32, was, clock.current, syncs[..i])
      {
        T.SyncKeysNext(Int32, was, clock.current, syncs, i);
        SyncOne(syncs[i]);
      }
      assert syncs[..|syncs|] == syncs;
    }

    /** The flat table loses what its bucket lost. */
    twostate lemma BucketCollected(at: nat, new times: map<string, C.Time>, new grace: int)
      requires old(Valid()) && at < |keyBucket| && OnlyBucket(at)
      requires times.Keys == old(keyBucket[at].Contents()).Keys
      requires keyBucket[at].Contents() == T.Sweep(old(keyBucket[at].Contents()), times, grace)
      ensures Valid() && Flat() == T.Sweep(old(Flat()), times, grace)
    {
      hide T.Sweep;
      forall k
        ensures T.Get(old(Flat()), k) == T.Get(old(keyBucket[BucketOf(k)].Contents()), k)
      {
        OldFlatAt(k);
      }
      forall k
        ensures T.Get(T.Sweep(old(Flat()), times, grace), k) == T.Looked(T.Get(old(Flat()), k), times, grace, k)
        ensures T.Get(keyBucket[at].Contents(), k) == T.Looked(T.Get(old(keyBucket[at].Contents()), k), times, grace, k)
      {
        T.SweepAt(old(Flat()), times, grace, k);
        T.SweepAt(old(keyBucket[at].Contents()), times, grace, k);
      }
      BucketStep(at, T.Sweep(old(Flat()), times, grace));
    }

    twostate lemma FootprintShrinks(at: nat)
      requires old(Valid()) && at < |keyBucket| && OnlyBucket(at)
      requires keyBucket[at].Repr() <= old(keyBucket[at].Repr())
      ensures Footprint() <= old(Footprint())
    {
      forall i | 0 <= i < |keyBucket| && i != at
        ensures keyBucket[i].Repr() == old(keyBucket[i].Repr())
      {
        keyBucket[i].Untouched();
      }
    }

    /** The keys of t that go to bucket i. */
    ghost function Shard(t: T.Table, i: nat): set<string> { set k | k in t && BucketOf(k) == i }

    /** The keys of t that go to the first i buckets. */
    ghost function FirstShards(t: T.Table, i: nat): set<string> { set k | k in t && BucketOf(k) < i }

    lemma ShardIsBucket(i: nat)
      requires Valid() && i < |keyBucket|
      ensures keyBucket[i].Contents().Keys == Shard(Flat(), i)
    {
      forall k
        ensures k in keyBucket[i].Contents() <==> k in Shard(Flat(), i)
      {
        FlatAt(k);
      }
    }

    method CollectBucket(i: nat, grace: int) returns (ghost times: map<string, C.Time>)
      requires Valid() && i < |keyBucket|
      modifies Footprint(), clock
      ensures Valid() && Footprint() <= old(Footprint())
      ensures old(clock.current) <= clock.current && T.Within(times, old(clock.current), clock.current)
      ensures times.Keys == Shard(old(Flat()), i)
      ensures Flat() == T.Sweep(old(Flat()), times, grace)
    {
      assert keyBucket[i] in keyBucket[i].Repr();
      ShardIsBucket(i);
      times := keyBucket[i].Collect(grace);
      FootprintShrinks(i);
      BucketCollected(i, times, grace);
    }

    /** Sweeping the first buckets leaves the others' keys. */
    lemma LaterShard(t: T.Table, times: map<string, C.Time>, i: nat, grace: int)
      requires times.Keys == FirstShards(t, i)
      ensures Shard(T.Sweep(t, times, grace), i) == Shard(t, i)
      ensures times.Keys !! Shard(t, i) && FirstShards(t, i + 1) == times.Keys + Shard(t, i)
    {
    }

    lemma NoShards(t: T.Table)
      ensures FirstShards(t, 0) == {}
    {
    }

    lemma AllShards(t: T.Table)
      ensures FirstShards(t, bucketMask + 1) == t.Keys
    {
    }

    lemma BucketCount()
      requires Valid()
      ensures |keyBucket| == bucketMask + 1
    {
    }

    /** One pass of the collector over all buckets: it looks at every key once, at whatever moment it gets there. */
    method Gc(grace: int) returns (ghost times: map<string, C.Time>)
      requires Valid()
      modifies Footprint(), clock
      ensures Valid() && Footprint() <= old(Footprint())
      ensures T.Pass(old(Flat()), times, old(clock.current), clock.current)
      ensures Flat() == T.Sweep(old(Flat()), times, grace)
    {
      hide *;
      BucketCount();
      ghost var was, from := Flat(), clock.current;
      times := map[];
      NoShards(was);
      T.SweepNone(was, grace);
      T.WithinNone(from);
      for i := 0 to |keyBucket|
        invariant Valid() && Footprint() <= old(Footprint())
        invariant from <= clock.current && T.Within(times, from, clock.current)
        invariant times.Keys == FirstShards(was, i)
        invariant Flat() == T.Sweep(was, times, grace)
      {
        ghost var start := clock.current;
        LaterShard(was, times, i, grace);
        ghost var more := CollectBucket(i, grace);
        T.SweepMore(was, times, more, grace);
        T.WithinMore(times, more, from, start, clock.current);
        times := times + more;
      }
      AllShards(was);
      T.WholePass(was, times, from, clock.current);
    }
  }
}
