/** One key's counter: what the entry in a bucket's map does on each call. */
module Counter {
  import opened Base

  const SECOND := 1_000_000_000

  type Time = nat

  /** Length in nanoseconds of a window given in seconds. */
  function Span(window: int): int { window * SECOND }

  function GenExpiry(now: Time, window: int): int {
    if window <= 0 then now else now + Span(window) - now % Span(window)
  }

  /** Go's %, which takes the sign of the dividend. */
  function TruncatedMod(a: int, b: int): (r: int)
    requires b > 0
    ensures -b < r < b && (a >= 0 ==> r >= 0) && (a <= 0 ==> r <= 0)
  {
    if a >= 0 then a % b else -((-a) % b)
  }

  /** The same computation in the program's own int64 arithmetic. */
  function GenExpiry64(now: int, window: int32): int {
    if window <= 0 then now
    else
      Wrap64(Wrap64(now + Wrap64(window * SECOND)) - TruncatedMod(now, window * SECOND))
  }

  lemma ModBounds(a: int, m: int)
    requires m > 0
    ensures 0 <= a % m < m
  {
  }

  /** On every clock reading that leaves room for one window, int64 arithmetic is exact. */
  lemma GenExpiryFitsInt64(now: int, window: int32)
    requires 0 <= now <= INT64_MAX - INT32_MAX * SECOND
    ensures GenExpiry64(now, window) == GenExpiry(now, window)
    ensures now <= GenExpiry(now, window) <= INT64_MAX
  {
    if window > 0 {
      var span := Span(window);
      ModBounds(now, span);
      Wrap64Fits(span);
      Wrap64Fits(now + span);
      Wrap64Fits(now + span - now % span);
    }
  }

  /** x is a whole number of spans. */
  ghost predicate Aligned(x: int, span: int)
    requires span > 0
  {
    exists q: int :: x == q * span
  }

  /** What Go's % leaves out is a whole number of divisors. */
  lemma TruncatedModLeavesMultiple(a: int, b: int)
    requires b > 0
    ensures Aligned(a - TruncatedMod(a, b), b)
  {
    if a >= 0 {
      assert a - a % b == (a / b) * b;
    } else {
      var q := (-a) / b;
      assert -a == b * q + (-a) % b;
      assert a - TruncatedMod(a, b) == (-q) * b;
    }
  }

  lemma WholeSpans(d: nat, span: nat)
    ensures d > 0 ==> d * span >= span
  {
  }

  lemma Difference(p: int, q: int, span: nat)
    ensures p > q ==> p * span >= q * span + span
  {
    if p > q {
      WholeSpans(p - q, span);
      assert p * span == (p - q) * span + q * span;
    }
  }

  /** Two aligned instants are equal or at least a span apart. */
  lemma AlignedApart(x: int, y: int, span: int)
    requires span > 0 && Aligned(x, span) && Aligned(y, span)
    ensures x == y || x + span <= y || y + span <= x
  {
    var p: int :| x == p * span;
    var q: int :| y == q * span;
    Difference(p, q, span);
    Difference(q, p, span);
  }

  /** The expiry is the one aligned instant in (now, now + span]. */
  lemma GenExpiryIsNextBoundary(now: Time, window: int, e: int)
    requires window > 0
    ensures var x := GenExpiry(now, window);
            Aligned(x, Span(window)) && now < x <= now + Span(window)
    ensures Aligned(e, Span(window)) && now < e <= now + Span(window) ==> e == GenExpiry(now, window)
  {
    var span := Span(window);
    var x := GenExpiry(now, window);
    ModBounds(now, span);
    assert now == span * (now / span) + now % span;
    assert x == (now / span + 1) * span;
    if Aligned(e, span) && now < e <= now + span {
      AlignedApart(e, x, span);
    }
  }

  /** Without a window an entry lasts for the instant it is made in, and no longer. */
  lemma NoWindowLastsAnInstant(now: Time, window: int, later: Time)
    requires window <= 0
    ensures GenExpiry(now, window) == now
    ensures GenExpiry(now, window) < later <==> now < later
  {
  }

  /** No expiry is past when it is made. */
  lemma GenExpiryAhead(now: Time, window: int)
    ensures GenExpiry(now, window) >= now
  {
    if window > 0 {
      GenExpiryIsNextBoundary(now, window, 0);
    }
  }

  /** A later clock reading never makes an earlier expiry. */
  lemma GenExpiryMonotone(read: Time, now: Time, window: int)
    requires read <= now
    ensures GenExpiry(read, window) <= GenExpiry(now, window)
  {
    GenExpiryAhead(now, window);
    if window > 0 && now < GenExpiry(read, window) {
      GenExpiryIsNextBoundary(read, window, 0);
      GenExpiryIsNextBoundary(now, window, GenExpiry(read, window));
    }
  }

  // ------------------------------------------------------------------------------------------

  datatype Entry = Entry(expires: int, count: int)

  datatype Response = Response(blocked: bool, expiry: int, dosync: bool)

  predicate Expired(e: Entry, now: Time) { e.expires < now }

  predicate Live(o: Option<Entry>, now: Time) { o.Some? && !Expired(o.value, now) }

  /** The entry a call works on: a missing or expired one starts again at zero. */
  function Refresh(o: Option<Entry>, now: Time, expiry: int): Entry {
    if Live(o, now) then o.value else Entry(expiry, 0)
  }

  /** Counting happens only while the total has not passed the limit. */
  function Count(ar: Arith, e: Entry, count: int, limit: int): Entry {
    if e.count <= limit then e.(count := Plus(ar, e.count, count)) else e
  }

  function Reply(before: Entry, after: Entry, limit: int): Response {
    if after.count <= limit then Response(false, after.expires, false)
    else Response(true, after.expires, before.count < after.count)
  }

  function Incr(ar: Arith, o: Option<Entry>, now: Time, count: int, limit: int, window: int): (Entry, Response) {
    var before := Refresh(o, now, GenExpiry(now, window));
    var after := Count(ar, before, count, limit);
    (after, Reply(before, after, limit))
  }

  function Sync(ar: Arith, o: Option<Entry>, now: Time, count: int, expiry: int): Option<Entry> {
    if now > expiry then o
    else
      var e := Refresh(o, now, expiry);
      Some(e.(count := Plus(ar, e.count, count)))
  }

  /** The collector drops an entry that expired more than `grace` nanoseconds ago. */
  predicate Collectable(e: Entry, now: Time, grace: int) {
    e.expires + grace < now && Expired(e, now)
  }

  /** The answers after which the store passes the increment on to its peers. */
  predicate Shared(r: Response) { !r.blocked || r.dosync }

  /** An increment is passed on exactly when it reached the entry, for any counts and limits, and even
      when the counter wraps. */
  lemma SharedExactlyWhenCounted(ar: Arith, o: Option<Entry>, now: Time, count: int, limit: int, window: int)
    ensures var before := Refresh(o, now, GenExpiry(now, window));
            Shared(Incr(ar, o, now, count, limit, window).1) <==> before.count <= limit
  {
  }
}
