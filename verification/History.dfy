/** What one key's counter guarantees over a whole run on one node. */
module History {
  import opened Base
  import opened Counter
  import opened Rounding

  datatype Event =
    | Call(now: Time, count: int, limit: int, window: int)
    | Remote(now: Time, count: int, expiry: int)
    | Visit(now: Time, grace: int)

  predicate Sorted(evs: seq<Event>, from: Time) {
    evs == [] || (from <= evs[0].now && Sorted(evs[1..], evs[0].now))
  }

  /** Every call uses one limit. */
  predicate FixedLimit(evs: seq<Event>, limit: int) {
    forall i | 0 <= i < |evs| && evs[i].Call? :: evs[i].limit == limit
  }

  predicate NonNegative(evs: seq<Event>) {
    forall i | 0 <= i < |evs| && !evs[i].Visit? :: evs[i].count >= 0
  }

  predicate FixedWindow(evs: seq<Event>, window: int) {
    forall i | 0 <= i < |evs| && evs[i].Call? :: evs[i].window == window
  }

  predicate NoRemote(evs: seq<Event>) {
    forall i | 0 <= i < |evs| :: !evs[i].Remote?
  }

  function Step(ar: Arith, o: Option<Entry>, ev: Event): Option<Entry> {
    match ev
    case Call(now, count, limit, window) => Some(Incr(ar, o, now, count, limit, window).0)
    case Remote(now, count, expiry) => Sync(ar, o, now, count, expiry)
    case Visit(now, grace) => if o.Some? && Collectable(o.value, now, grace) then None else o
  }

  /** The answer to a call made in state o. */
  function Answer(ar: Arith, o: Option<Entry>, ev: Event): Response
    requires ev.Call?
  {
    Incr(ar, o, ev.now, ev.count, ev.limit, ev.window).1
  }

  function Run(ar: Arith, o: Option<Entry>, evs: seq<Event>): Option<Entry>
    decreases |evs|
  {
    if evs == [] then o else Run(ar, Step(ar, o, evs[0]), evs[1..])
  }

  function EndTime(from: Time, evs: seq<Event>): Time {
    if evs == [] then from else evs[|evs| - 1].now
  }

  lemma {:induction false} RunSplits(ar: Arith, o: Option<Entry>, a: seq<Event>, b: seq<Event>)
    ensures Run(ar, o, a + b) == Run(ar, Run(ar, o, a), b)
    decreases |a|
  {
    if a == [] {
      assert a + b == b;
    } else {
      assert (a + b)[1..] == a[1..] + b;
      RunSplits(ar, Step(ar, o, a[0]), a[1..], b);
    }
  }

  // ---- Expiry history ------------------------------------------------------------------------

  /** `later` is what an entry e may have become by `now`. */
  ghost predicate Descends(e: Entry, later: Option<Entry>, now: Time, counted: bool) {
    match later
    case None => e.expires < now
    case Some(f) =>
      || (f.expires == e.expires && (counted ==> e.count <= f.count))
      || (e.expires < f.expires && e.expires < now)
  }

  /** While live an entry keeps its expiry; each re-creation moves it strictly later; between them
      the count never falls. Windows, limits and remote expiries are arbitrary. */
  lemma {:induction false} ExpiryHistory(
    ar: Arith, e: Entry, o: Option<Entry>, from: Time, evs: seq<Event>, counted: bool)
    requires Sorted(evs, from) && Descends(e, o, from, counted)
    requires counted ==> ar.Unbounded? && NonNegative(evs)
    ensures Descends(e, Run(ar, o, evs), EndTime(from, evs), counted)
    decreases |evs|
  {
    if evs != [] {
      assert counted ==> NonNegative(evs[1..]);
      ExpiryHistory(ar, e, Step(ar, o, evs[0]), evs[0].now, evs[1..], counted);
    }
  }

  /** Two calls are in one lifetime of the entry when their answers carry the same expiry. Within it,
      nothing is allowed after a blocked call, and a forced sync is asked for once: by the first
      blocked call. */
  lemma {:induction false} BlockIsSticky(o: Option<Entry>, first: Event, mid: seq<Event>, second: Event, limit: int)
    requires first.Call? && second.Call?
    requires Sorted([first] + mid + [second], first.now)
    requires NonNegative([first] + mid + [second]) && FixedLimit([first] + mid + [second], limit)
    requires var o' := Run(Unbounded, o, [first] + mid);
             Answer(Unbounded, o, first).expiry == Answer(Unbounded, o', second).expiry
    ensures var r := Answer(Unbounded, o, first);
            var q := Answer(Unbounded, Run(Unbounded, o, [first] + mid), second);
            && (r.blocked ==> q.blocked)
            && (r.blocked ==> !q.dosync)
  {
    var evs := [first] + mid + [second];
    assert evs[0] == first && evs[|evs| - 1] == second;
    assert evs[1..] == mid + [second];
    assert ([first] + mid)[1..] == mid;
    var e := Incr(Unbounded, o, first.now, first.count, limit, first.window).0;
    var o' := Run(Unbounded, Some(e), mid);
    SortedSplits(mid, second, first.now);
    assert NonNegative(mid) by {
      forall i | 0 <= i < |mid| ensures mid[i] == evs[i + 1] {}
    }
    ExpiryHistory(Unbounded, e, Some(e), first.now, mid, true);
    assert o' == Run(Unbounded, o, [first] + mid);
  }

  lemma {:induction false} SortedSplits(evs: seq<Event>, last: Event, from: Time)
    requires Sorted(evs + [last], from)
    ensures Sorted(evs, from) && EndTime(from, evs) <= last.now
    decreases |evs|
  {
    if evs != [] {
      assert (evs + [last])[1..] == evs[1..] + [last];
      SortedSplits(evs[1..], last, evs[0].now);
    }
  }

  // ---- The decision against an offline log ------------------------------------------------------

  /** The event creates the entry, or restarts it. */
  predicate Starts(o: Option<Entry>, ev: Event) {
    !ev.Visit? && !Live(o, ev.now) && (ev.Remote? ==> ev.now <= ev.expiry)
  }

  ghost predicate StartsAt(evs: seq<Event>, p: nat)
    requires p < |evs|
  {
    Starts(Run(Unbounded, None, evs[..p]), evs[p])
  }

  /** `start` is where the entry's present lifetime began. */
  ghost predicate LastStart(evs: seq<Event>, start: nat) {
    start < |evs| && StartsAt(evs, start) && forall p | start < p < |evs| :: !StartsAt(evs, p)
  }

  /** What an event offers the counter, counted or not. */
  function Offered(ev: Event): int {
    if ev.Call? || (ev.Remote? && ev.now <= ev.expiry) then ev.count else 0
  }

  function TotalOffered(evs: seq<Event>): int {
    if evs == [] then 0 else TotalOffered(evs[..|evs| - 1]) + Offered(evs[|evs| - 1])
  }

  lemma RunLast(evs: seq<Event>)
    requires evs != []
    ensures Run(Unbounded, None, evs) == Step(Unbounded, Run(Unbounded, None, evs[..|evs| - 1]), evs[|evs| - 1])
  {
    var last := evs[|evs| - 1];
    assert evs == evs[..|evs| - 1] + [last] && [last][1..] == [];
    RunSplits(Unbounded, None, evs[..|evs| - 1], [last]);
  }

  lemma LastStartInit(evs: seq<Event>, start: nat)
    requires LastStart(evs, start) && start < |evs| - 1
    ensures LastStart(evs[..|evs| - 1], start)
  {
    var init := evs[..|evs| - 1];
    forall p | start <= p < |init|
      ensures StartsAt(init, p) <==> StartsAt(evs, p)
    {
      assert init[..p] == evs[..p];
    }
  }

  /** The counter is exact up to the limit and only known to be over it afterwards. */
  lemma {:induction false} CounterTracksOffers(evs: seq<Event>, start: nat, limit: int)
    requires LastStart(evs, start) && NonNegative(evs) && FixedLimit(evs, limit)
    ensures var o, total := Run(Unbounded, None, evs), TotalOffered(evs[start..]);
            o.Some? ==> o.value.count == total || limit < o.value.count <= total
    decreases |evs|
  {
    hide GenExpiry;
    var init, last := evs[..|evs| - 1], evs[|evs| - 1];
    RunLast(evs);
    assert evs[start..][..|evs| - start - 1] == init[start..];
    assert StartsAt(evs, |evs| - 1) <==> start == |evs| - 1;
    if start < |evs| - 1 {
      LastStartInit(evs, start);
      CounterTracksOffers(init, start, limit);
    }
  }

  /** A call is allowed exactly when the counts of all calls and unexpired remote commands since its entry last started,
      blocked calls and this call included, add up to no more than the limit. */
  lemma DecisionMatchesLog(evs: seq<Event>, call: Event, start: nat, limit: int)
    requires call.Call? && NonNegative(evs + [call]) && FixedLimit(evs + [call], limit)
    requires LastStart(evs + [call], start)
    ensures !Answer(Unbounded, Run(Unbounded, None, evs), call).blocked
       <==> TotalOffered((evs + [call])[start..]) <= limit
  {
    hide GenExpiry;
    var all := evs + [call];
    assert all[|evs|] == call && all[..|evs|] == evs;
    RunLast(all);
    CounterTracksOffers(all, start, limit);
  }

  /** A sync is forced exactly by the call that crosses the limit: what was offered before it since its entry last
      started fits the limit, and with it no more. */
  lemma ForcedExactlyAtCrossing(evs: seq<Event>, call: Event, start: nat, limit: int)
    requires call.Call? && NonNegative(evs + [call]) && FixedLimit(evs + [call], limit)
    requires LastStart(evs + [call], start)
    ensures Answer(Unbounded, Run(Unbounded, None, evs), call).dosync
       <==> TotalOffered(evs[start..]) <= limit < TotalOffered((evs + [call])[start..])
  {
    hide GenExpiry;
    var all := evs + [call];
    assert all[|evs|] == call && all[..|evs|] == evs;
    assert all[start..][..|evs| - start] == evs[start..];
    assert StartsAt(all, |evs|) <==> start == |evs|;
    if start < |evs| {
      LastStartInit(all, start);
      assert NonNegative(evs) && FixedLimit(evs, limit) by {
        assert forall i | 0 <= i < |evs| :: evs[i] == all[i];
      }
      CounterTracksOffers(evs, start, limit);
    }
  }

  /** Every call has an entry that started somewhere. */
  lemma {:induction false} EveryCallHasAStart(evs: seq<Event>) returns (start: nat)
    requires evs != [] && (evs[|evs| - 1].Call? || Run(Unbounded, None, evs).Some?)
    ensures LastStart(evs, start)
  {
    var init, last := evs[..|evs| - 1], evs[|evs| - 1];
    RunLast(evs);
    if StartsAt(evs, |evs| - 1) {
      start := |evs| - 1;
    } else {
      assert Run(Unbounded, None, init).Some?;
      start := EveryCallHasAStart(init);
      forall p | start <= p < |init|
        ensures StartsAt(init, p) <==> StartsAt(evs, p)
      {
        assert init[..p] == evs[..p];
      }
    }
  }

  // ---- How much is allowed -----------------------------------------------------------------------

  /** Calls counted by `Allowed`: those answered with one expiry, or made in a closed time interval. */
  datatype Scope = Lifetime(expiry: int) | Interval(lo: int, hi: int)

  predicate Includes(s: Scope, now: Time, r: Response) {
    match s
    case Lifetime(expiry) => r.expiry == expiry
    case Interval(lo, hi) => lo <= now <= hi
  }

  function Allowed(o: Option<Entry>, evs: seq<Event>, s: Scope): int
    decreases |evs|
  {
    if evs == [] then 0
    else
      var rest := Allowed(Step(Unbounded, o, evs[0]), evs[1..], s);
      if evs[0].Call? && !Answer(Unbounded, o, evs[0]).blocked && Includes(s, evs[0].now, Answer(Unbounded, o, evs[0]))
      then evs[0].count + rest else rest
  }

  /** What one entry can still admit. */
  function Room(o: Option<Entry>, limit: int): nat {
    Max0(if o.Some? then limit - o.value.count else limit)
  }

  /** One lifetime never admits more than the limit, whatever peers report meanwhile. */
  lemma {:induction false} LifetimeBound(o: Option<Entry>, from: Time, evs: seq<Event>, limit: int, expiry: int)
    requires Sorted(evs, from) && NonNegative(evs) && FixedLimit(evs, limit)
    ensures Allowed(o, evs, Lifetime(expiry))
         <= if expiry < from then 0
            else if o.Some? && o.value.expires == expiry then Room(o, limit)
            else Max0(limit)
    decreases |evs|
  {
    if evs != [] {
      assert NonNegative(evs[1..]) && FixedLimit(evs[1..], limit);
      LifetimeBound(Step(Unbounded, o, evs[0]), evs[0].now, evs[1..], limit, expiry);
    }
  }

  /** Nothing made after hi counts towards an interval that ends there. */
  lemma {:induction false} PastInterval(o: Option<Entry>, from: Time, evs: seq<Event>, lo: int, hi: int)
    requires Sorted(evs, from) && hi < from
    ensures Allowed(o, evs, Interval(lo, hi)) == 0
    decreases |evs|
  {
    if evs != [] {
      PastInterval(Step(Unbounded, o, evs[0]), evs[0].now, evs[1..], lo, hi);
    }
  }

  /** An entry that outlives the interval admits only its own room. */
  lemma {:induction false} OneLifetimeLeft(
    o: Option<Entry>, from: Time, evs: seq<Event>, limit: int, lo: int, hi: int)
    requires Sorted(evs, from) && NonNegative(evs) && FixedLimit(evs, limit) && NoRemote(evs)
    requires o.Some? && hi <= o.value.expires
    ensures Allowed(o, evs, Interval(lo, hi)) <= Room(o, limit)
    decreases |evs|
  {
    if evs != [] {
      var o' := Step(Unbounded, o, evs[0]);
      assert NonNegative(evs[1..]) && FixedLimit(evs[1..], limit) && NoRemote(evs[1..]);
      if evs[0].now <= hi {
        OneLifetimeLeft(o', evs[0].now, evs[1..], limit, lo, hi);
      } else {
        PastInterval(o', evs[0].now, evs[1..], lo, hi);
      }
    }
  }

  ghost predicate OnBoundary(o: Option<Entry>, window: int)
    requires window > 0
  {
    o.Some? ==> Aligned(o.value.expires, Span(window))
  }

  lemma CallKeepsBoundary(o: Option<Entry>, ev: Event, window: int)
    requires window > 0 && OnBoundary(o, window)
    requires !ev.Remote? && (ev.Call? ==> ev.window == window)
    ensures OnBoundary(Step(Unbounded, o, ev), window)
  {
    GenExpiryIsNextBoundary(ev.now, window, 0);
  }

  /** After a lifetime that ended inside the interval, one more can start there, and it outlives the interval. */
  lemma {:induction false} SecondLifetimeLeft(
    last: int, from: Time, evs: seq<Event>, limit: int, window: int, lo: int)
    requires window > 0 && Aligned(last, Span(window)) && lo <= last < from
    requires Sorted(evs, from) && NonNegative(evs) && NoRemote(evs)
    requires FixedLimit(evs, limit) && FixedWindow(evs, window)
    ensures Allowed(None, evs, Interval(lo, lo + Span(window))) <= Max0(limit)
    decreases |evs|
  {
    if evs != [] {
      var hi := lo + Span(window);
      var ev := evs[0];
      var o' := Step(Unbounded, None, ev);
      var rest := evs[1..];
      assert NonNegative(rest) && FixedLimit(rest, limit) && NoRemote(rest) && FixedWindow(rest, window);
      if ev.Visit? {
        SecondLifetimeLeft(last, ev.now, rest, limit, window, lo);
      } else {
        GenExpiryIsNextBoundary(ev.now, window, 0);
        AlignedApart(last, o'.value.expires, Span(window));
        OneLifetimeLeft(o', ev.now, rest, limit, lo, hi);
      }
    }
  }

  /** `o` may already belong to a lifetime that ends inside or after the interval. */
  lemma {:induction false} TwoLifetimesLeft(
    o: Option<Entry>, from: Time, evs: seq<Event>, limit: int, window: int, lo: int)
    requires window > 0 && OnBoundary(o, window)
    requires Sorted(evs, from) && NonNegative(evs) && NoRemote(evs)
    requires FixedLimit(evs, limit) && FixedWindow(evs, window)
    ensures Allowed(o, evs, Interval(lo, lo + Span(window)))
         <= if o.Some? && lo <= o.value.expires then Room(o, limit) + Max0(limit) else 2 * Max0(limit)
    decreases |evs|
  {
    if evs != [] {
      var hi := lo + Span(window);
      var ev := evs[0];
      var o' := Step(Unbounded, o, ev);
      var rest := evs[1..];
      assert NonNegative(rest) && FixedLimit(rest, limit) && NoRemote(rest) && FixedWindow(rest, window);
      CallKeepsBoundary(o, ev, window);
      TwoLifetimesLeft(o', ev.now, rest, limit, window, lo);
      if ev.now > hi {
        PastInterval(o', ev.now, rest, lo, hi);
      } else if o.Some? && lo <= o.value.expires && !Live(o, ev.now) && ev.Call? {
        // the second lifetime of the interval starts here, and ends no earlier than the interval
        AlignedApart(o.value.expires, o'.value.expires, Span(window));
        OneLifetimeLeft(o', ev.now, rest, limit, lo, hi);
      } else if o.Some? && lo <= o.value.expires && o'.None? {
        SecondLifetimeLeft(o.value.expires, ev.now, rest, limit, window, lo);
      }
    }
  }

  /** Calls allowed in any closed interval one window long total at most twice the limit, wherever the
      interval starts and whenever the collector runs. */
  lemma SlidingIntervalBound(from: Time, evs: seq<Event>, limit: int, window: int, lo: int)
    requires window > 0
    requires Sorted(evs, from) && NonNegative(evs) && NoRemote(evs)
    requires FixedLimit(evs, limit) && FixedWindow(evs, window)
    ensures Allowed(None, evs, Interval(lo, lo + Span(window))) <= 2 * Max0(limit)
  {
    TwoLifetimesLeft(None, from, evs, limit, window, lo);
  }

  /** For every window, an interval between two boundaries can indeed see a full limit at both ends. */
  lemma SlidingIntervalIsTight(limit: nat, window: int, lo: Time)
    requires window > 0 && lo > 0 && Aligned(lo, Span(window))
    ensures var start, full := Call(lo - 1, 0, limit, window), (now: Time) => Call(now, limit, limit, window);
            var evs := [start, full(lo), full(lo + 1)];
            Allowed(None, evs, Interval(lo, lo + Span(window))) == 2 * limit
  {
    var evs := [Call(lo - 1, 0, limit, window), Call(lo, limit, limit, window), Call(lo + 1, limit, limit, window)];
    assert Aligned(0, Span(window)) by {
      assert 0 == 0 * Span(window);
    }
    AlignedApart(lo, 0, Span(window));
    GenExpiryIsNextBoundary(lo - 1, window, lo);
    hide GenExpiry;
    var s := Interval(lo, lo + Span(window));
    var e1 := Some(Entry(lo, 0));
    var e2 := Some(Entry(lo, limit));
    assert Step(Unbounded, None, evs[0]) == e1;
    assert Step(Unbounded, e1, evs[1]) == e2;
    var e3 := Step(Unbounded, e2, evs[2]);
    assert Allowed(e3, [], s) == 0;
    assert evs[1..] == [evs[1], evs[2]] && evs[1..][1..] == [evs[2]] && evs[1..][1..][1..] == [];
    assert Allowed(e2, [evs[2]], s) == limit;
    assert Allowed(e1, evs[1..], s) == 2 * limit;
  }

  // ---- Peak averaging ------------------------------------------------------------------------------

  /** The limit and window a request is served with. */
  function Rule(threshold: int, window: int, peakAveraged: bool): (int, int)
    requires peakAveraged ==> window != 0
  {
    if peakAveraged && window != 1 then (CeilDiv(threshold, window), 1) else (threshold, window)
  }

  /** An ordinary request is served as it asks; a peak-averaged one by the second, with the ceiling of its average. */
  lemma RuleIsExact(threshold: int, window: int, peakAveraged: bool)
    requires peakAveraged ==> window != 0
    ensures !peakAveraged ==> Rule(threshold, window, peakAveraged) == (threshold, window)
    ensures peakAveraged ==>
              var (limit, w) := Rule(threshold, window, peakAveraged);
              w == 1 && IsCeiling(threshold as real / window as real, limit)
  {
    if peakAveraged {
      CeilDivIsCeiling(threshold, window);
      if window == 1 {
        CeilingByOne(threshold);
      }
    }
  }

  /** Over any w consecutive one-second expiries, peak-averaged calls are allowed less than t + w in all. */
  lemma {:induction false} PeakAveragedBound(from: Time, evs: seq<Event>, t: nat, w: nat, first: int)
    requires w > 0 && Sorted(evs, from) && NonNegative(evs)
    requires FixedLimit(evs, Rule(t, w, true).0) && FixedWindow(evs, 1)
    ensures Sum(w, (j: nat) => Allowed(None, evs, Lifetime(first + j * SECOND))) <= w * CeilDiv(t, w) < t + w
  {
    hide GenExpiry, Allowed;
    var limit := Rule(t, w, true).0;
    var f := (j: nat) => Allowed(None, evs, Lifetime(first + j * SECOND));
    CeilDivBounds(t, w);
    if w == 1 {
      assert CeilDiv(t, 1) == t;
    }
    assert limit == CeilDiv(t, w) >= 0;
    forall j: nat | j < w
      ensures f(j) <= limit
    {
      LifetimeBound(None, from, evs, limit, first + j * SECOND);
    }
    SumAtMost(w, f, limit);
  }
}
