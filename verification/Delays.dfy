/** What callers delayed between their clock reading and their critical section, or between that and reading the
    expiry they answer with, are given. */
module Delays {
  import opened Base
  import opened Locks
  import opened Linearization
  import opened Grants
  import C = Counter

  // ---- Callers delayed past the end of their window --------------------------------------------------------------

  /** A caller whose reading's window is over by the time it finds an expired entry restarts the entry under an expiry
      that is past already. It is granted whatever does not exceed the limit by itself, and leaves the entry as
      expired as it found it: the next such caller fares the same. */
  lemma DelayedCallerAlone(e: Entry, op: Op, read: Time, now: Time)
    requires op.DoIncr? && op.limit >= 0 && C.Expired(e, now) && C.GenExpiry(read, op.window) < now
    ensures var (before, after) := InSection(Unbounded, e, op, read, now);
            && (!C.Reply(before, after, op.limit).blocked <==> op.count <= op.limit)
            && C.Expired(after, now)
  {
    hide C.GenExpiry;
  }

  /** What the delayed callers have in common: each asks for the whole limit, having read the clock at `read`. */
  datatype Delay = Delay(limit: nat, window: int, read: Time, now: Time) {
    function Expiry(): int { C.GenExpiry(read, window) }

    ghost predicate PastWindow() { read <= now && Expiry() < now }

    function Caller(pc: Pc): Thread { Thread("k", DoIncr(limit, limit, window), pc) }

    function Admitted(at: nat): Pc { Answered(C.Response(false, Expiry(), false), Expiry(), at, at + 1) }

    function Found(at: nat): Entry { C.Entry(Expiry(), if at == 0 then 0 else limit) }
  }

  /** n callers; the first k have read the clock. */
  function Reading(d: Delay, n: nat, k: nat): State {
    State(d.read, map[], [], seq(n, i => d.Caller(if i < k then Look(d.read) else Begin)), [])
  }

  /** Time has passed; the first k callers have gone through. */
  function Passing(d: Delay, n: nat, k: nat): State {
    State(d.now,
          if k == 0 then map[] else map["k" := 0],
          if k == 0 then [] else [C.Entry(d.Expiry(), d.limit)],
          seq(n, i requires i >= 0 => d.Caller(if i < k then d.Admitted(i) else Look(d.read))),
          seq(k, i requires i >= 0 => Section(i, d.read, d.Found(i), d.now)))
  }

  function Readings(k: nat): seq<Step> { if k == 0 then [] else Readings(k - 1) + [Move(k - 1)] }

  function Passes(before: seq<Step>, k: nat): seq<Step> {
    if k == 0 then before
    else Passes(before, k - 1) + [Move(k - 1)] + [Move(k - 1)] + [Move(k - 1)] + [Move(k - 1)]
  }

  /** Every caller reads the clock, time passes, and the callers go through one after the other. */
  function Delayed(d: Delay, n: nat): seq<Step>
    requires d.read <= d.now
  {
    Passes(Readings(n) + [Tick(d.now - d.read)], n)
  }

  lemma RunNext(ar: Arith, s: State, steps: seq<Step>, last: Step)
    ensures Run(ar, s, steps + [last]) == Next(ar, Run(ar, s, steps), last)
  {
    assert (steps + [last])[..|steps|] == steps;
  }

  lemma Then(s0: State, steps: seq<Step>, s: State, last: Step, s': State)
    requires Run(Unbounded, s0, steps) == s && Next(Unbounded, s, last) == s'
    ensures Run(Unbounded, s0, steps + [last]) == s'
  {
    RunNext(Unbounded, s0, steps, last);
  }

  lemma NoSteps(s: State)
    ensures Run(Unbounded, s, []) == s
  {
  }

  lemma ReadsClock(d: Delay, n: nat, k: nat)
    requires k < n
    ensures Next(Unbounded, Reading(d, n, k), Move(k)) == Reading(d, n, k + 1)
  {
    hide C.GenExpiry;
    var s := Reading(d, n, k);
    assert s.threads[k] == d.Caller(Begin);
    assert s.threads[k := d.Caller(Look(d.read))] == Reading(d, n, k + 1).threads;
    assert Next(Unbounded, s, Move(k)) == At(s, k, Look(d.read));
  }

  lemma {:induction false} ReadingsRun(d: Delay, n: nat, k: nat)
    requires k <= n
    ensures Run(Unbounded, Reading(d, n, 0), Readings(k)) == Reading(d, n, k)
  {
    hide Run, Next, Reading;
    if k == 0 {
      NoSteps(Reading(d, n, 0));
    } else {
      ReadingsRun(d, n, k - 1);
      ReadsClock(d, n, k - 1);
      Then(Reading(d, n, 0), Readings(k - 1), Reading(d, n, k - 1), Move(k - 1), Reading(d, n, k));
    }
  }

  /** The first caller creates the entry. */
  lemma FirstPasses(d: Delay, n: nat, s0: State, before: seq<Step>)
    requires n > 0 && d.PastWindow() && Run(Unbounded, s0, before) == Passing(d, n, 0)
    ensures Run(Unbounded, s0, before + [Move(0)] + [Move(0)] + [Move(0)] + [Move(0)]) == Passing(d, n, 1)
  {
    hide Run, C.GenExpiry;
    var s, m, x := Passing(d, n, 0), Move(0), d.Expiry();
    var zero, full := C.Entry(x, 0), C.Entry(x, d.limit);
    assert s.threads[0] == d.Caller(Look(d.read));
    var s1 := At(s, 0, Create(d.read));
    var s2 := At(s.(lookup := map["k" := 0], heap := [zero]), 0, Enter(d.read, 0));
    var s3 := At(s2.(heap := [full], log := [Section(0, d.read, zero, d.now)]), 0, Leave(0, zero, full, 0));
    assert s1.threads[0] == d.Caller(Create(d.read)) && s2.threads[0] == d.Caller(Enter(d.read, 0));
    assert s3.threads[0] == d.Caller(Leave(0, zero, full, 0));
    assert s1.heap + [zero] == [zero] && s2.heap[0 := full] == [full];
    assert s2.log + [Section(0, d.read, zero, d.now)] == s3.log;
    assert InSection(Unbounded, zero, DoIncr(d.limit, d.limit, d.window), d.read, d.now) == (zero, full);
    Then(s0, before, s, m, s1);
    Then(s0, before + [m], s1, m, s2);
    Then(s0, before + [m] + [m], s2, m, s3);
    assert At(s3, 0, d.Admitted(0)).threads == Passing(d, n, 1).threads;
    Then(s0, before + [m] + [m] + [m], s3, m, Passing(d, n, 1));
  }

  /** Every other one finds it, expired. */
  lemma NextPasses(d: Delay, n: nat, k: nat, s0: State, before: seq<Step>)
    requires 0 < k < n && d.PastWindow() && Run(Unbounded, s0, before) == Passing(d, n, k)
    ensures Run(Unbounded, s0, before + [Move(k)] + [Move(k)] + [Move(k)] + [Move(k)]) == Passing(d, n, k + 1)
  {
    hide Run, C.GenExpiry;
    var s, m, x := Passing(d, n, k), Move(k), d.Expiry();
    var zero, full := C.Entry(x, 0), C.Entry(x, d.limit);
    assert s.threads[k] == d.Caller(Look(d.read));
    var s1 := At(s, k, Enter(d.read, 0));
    var s2 := At(s.(log := s.log + [Section(k, d.read, full, d.now)]), k, Leave(0, zero, full, k));
    assert s1.threads[k] == d.Caller(Enter(d.read, 0)) && s2.threads[k] == d.Caller(Leave(0, zero, full, k));
    assert InSection(Unbounded, full, DoIncr(d.limit, d.limit, d.window), d.read, d.now) == (zero, full);
    Then(s0, before, s, m, s1);
    assert s1.heap[0 := full] == s1.heap;
    Then(s0, before + [m], s1, m, s2);
    assert At(s2, k, d.Admitted(k)).threads == Passing(d, n, k + 1).threads;
    assert s2.log == Passing(d, n, k + 1).log;
    Then(s0, before + [m] + [m], s2, m, Passing(d, n, k + 1));
    Then(s0, before + [m] + [m] + [m], Passing(d, n, k + 1), m, Passing(d, n, k + 1));
  }

  lemma {:induction false} PassesRun(d: Delay, n: nat, k: nat, s0: State, before: seq<Step>)
    requires k <= n && d.PastWindow() && Run(Unbounded, s0, before) == Passing(d, n, 0)
    ensures Run(Unbounded, s0, Passes(before, k)) == Passing(d, n, k)
  {
    hide Run, C.GenExpiry, Passing, Delay.PastWindow;
    if k > 0 {
      PassesRun(d, n, k - 1, s0, before);
      if k == 1 {
        FirstPasses(d, n, s0, before);
      } else {
        NextPasses(d, n, k - 1, s0, Passes(before, k - 1));
      }
    }
  }

  lemma DelayedRun(d: Delay, n: nat)
    requires d.PastWindow()
    ensures Run(Unbounded, Reading(d, n, 0), Delayed(d, n)) == Passing(d, n, n)
  {
    hide Run, C.GenExpiry;
    ReadingsRun(d, n, n);
    assert Reading(d, n, n).(now := d.now) == Passing(d, n, 0);
    Then(Reading(d, n, 0), Readings(n), Reading(d, n, n), Tick(d.now - d.read), Passing(d, n, 0));
    PassesRun(d, n, n, Reading(d, n, 0), Readings(n) + [Tick(d.now - d.read)]);
  }

  lemma {:induction false} SumConstant(n: nat, f: nat -> int, each: int)
    requires forall i: nat | i < n :: f(i) == each
    ensures Sum(n, f) == n * each
  {
    if n > 0 {
      SumConstant(n - 1, f, each);
    }
  }

  /** For every number of callers, every limit and window, and every delay that outlasts the window: a schedule in which
      all of them are granted the whole limit at one instant, and answered with one expiry. */
  lemma DelayedCallersAllGranted(d: Delay, n: nat)
    requires d.PastWindow()
    ensures var s0, s := Reading(d, n, 0), Run(Unbounded, Reading(d, n, 0), Delayed(d, n));
            && Initial(s0) && Limited(s0, "k", d.limit)
            && (forall i | 0 <= i < n ::
                  s.threads[i].pc.Answered? && s.threads[i].pc.r == C.Response(false, d.Expiry(), false))
            && |s.log| == n && (forall p | 0 <= p < n :: s.log[p].now == d.now)
            && TotalGranted(s, "k", d.Expiry()) == n * d.limit
  {
    hide C.GenExpiry, Run;
    DelayedRun(d, n);
    assert forall i | 0 <= i < n :: Reading(d, n, 0).threads[i] == d.Caller(Begin);
    var s := Passing(d, n, n);
    SumConstant(n, (i: nat) => if i < |s.threads| then Granted(s.threads[i], "k", d.Expiry()) else 0,
                d.limit);
  }

  /** Up to time d.now, some number of such callers are granted more than the limit in some window. */
  ghost predicate Exceeds(d: Delay, n: nat, steps: seq<Step>, expiry: int) {
    var s := Run(Unbounded, Reading(d, n, 0), steps);
    s.now <= d.now && TotalGranted(s, "k", expiry) > d.limit
  }

  lemma InTimeRestartsAhead(d: Delay, n: nat, steps: seq<Step>)
    requires d.now <= d.Expiry() && Run(Unbounded, Reading(d, n, 0), steps).now <= d.now
    ensures Initial(Reading(d, n, 0)) && Limited(Reading(d, n, 0), "k", d.limit)
    ensures RestartsAhead(Reading(d, n, 0), Run(Unbounded, Reading(d, n, 0), steps).log, "k")
  {
    hide Run, C.GenExpiry;
    var s0 := Reading(d, n, 0);
    var s := Run(Unbounded, s0, steps);
    assert forall i | 0 <= i < n :: s0.threads[i] == d.Caller(Begin);
    RunShape(Unbounded, s0, steps);
    forall p | 0 <= p < |s.log| && Mine(s0.threads, s.log[p], "k") && s0.threads[s.log[p].thread].op.DoIncr?
      ensures RestartAhead(s0.threads[s.log[p].thread].op, s.log[p])
    {
      C.GenExpiryMonotone(d.read, s.log[p].read, d.window);
    }
  }

  /** Callers who start at d.read can be granted more than the limit by d.now exactly when the window of that reading is
      over by then: it takes two of them. */
  lemma LimitFailsExactly(d: Delay)
    requires d.limit > 0 && d.read <= d.now
    ensures (exists n, steps, expiry :: Exceeds(d, n, steps, expiry)) <==> d.Expiry() < d.now
  {
    if n, steps, expiry :| Exceeds(d, n, steps, expiry) {
      if d.now <= d.Expiry() {
        InTimeRestartsAhead(d, n, steps);
        ConcurrentCallsWithinLimit(Reading(d, n, 0), "k", d.limit, steps, expiry);
        assert false;
      }
    }
    if d.Expiry() < d.now {
      DelayedCallersAllGranted(d, 2);
      DelayedRun(d, 2);
      assert Exceeds(d, 2, Delayed(d, 2), d.Expiry());
    }
  }

  // ---- A caller delayed before it reads the expiry it answers with -----------------------------------------

  /** The first caller counts in its own window; before it reads the entry's expiry, the second one restarts the
      entry for a later window. */
  function Overtaken(d: Delay): seq<Step>
    requires d.read <= d.now
  {
    CountFirst() + [Tick(d.now - d.read)] + [Move(1)] + [Move(1)] + [Move(1)] + [Move(0)]
  }

  function CountFirst(): seq<Step> { [] + [Move(0)] + [Move(0)] + [Move(0)] + [Move(0)] }

  function Zero(expiry: int): Entry { C.Entry(expiry, 0) }

  function Full(d: Delay, expiry: int): Entry { C.Entry(expiry, d.limit) }

  function FirstSection(d: Delay): Section { Section(0, d.read, Zero(d.Expiry()), d.read) }

  function FirstCounted(d: Delay): State {
    State(d.read, map["k" := 0], [Full(d, d.Expiry())],
          [d.Caller(Leave(0, Zero(d.Expiry()), Full(d, d.Expiry()), 0)), d.Caller(Begin)], [FirstSection(d)])
  }

  lemma CountFirstRuns(d: Delay)
    ensures Run(Unbounded, Reading(d, 2, 0), CountFirst()) == FirstCounted(d)
  {
    hide Run, C.GenExpiry;
    var s0, m, x := Reading(d, 2, 0), Move(0), d.Expiry();
    var other := d.Caller(Begin);
    assert s0.threads == [d.Caller(Begin), other];
    var s1 := s0.(threads := [d.Caller(Look(d.read)), other]);
    var s2 := s0.(threads := [d.Caller(Create(d.read)), other]);
    var s3 := State(d.read, map["k" := 0], [Zero(x)], [d.Caller(Enter(d.read, 0)), other], []);
    assert Run(Unbounded, s0, []) == s0 by { NoSteps(s0); }
    Then(s0, [], s0, m, s1);
    Then(s0, [] + [m], s1, m, s2);
    Then(s0, [] + [m] + [m], s2, m, s3);
    SectionOn(d, Zero(x), d.read);
    Then(s0, [] + [m] + [m] + [m], s3, m, FirstCounted(d));
  }

  /** A section brings a fresh or expired entry to the full limit. */
  lemma SectionOn(d: Delay, e: Entry, now: Time)
    requires e == Zero(C.GenExpiry(now, d.window)) || C.Expired(e, now)
    ensures InSection(Unbounded, e, DoIncr(d.limit, d.limit, d.window), now, now)
         == (Zero(C.GenExpiry(now, d.window)), Full(d, C.GenExpiry(now, d.window)))
  {
    hide C.GenExpiry;
  }

  function BothCounted(d: Delay, pc: Pc): State {
    var x := C.GenExpiry(d.now, d.window);
    State(d.now, map["k" := 0], [Full(d, x)],
          [d.Caller(pc), d.Caller(Leave(0, Zero(x), Full(d, x), 1))],
          [FirstSection(d), Section(1, d.now, Full(d, d.Expiry()), d.now)])
  }

  lemma OvertakenRuns(d: Delay)
    requires d.PastWindow()
    ensures Run(Unbounded, Reading(d, 2, 0), Overtaken(d))
         == BothCounted(d, Answered(C.Response(false, C.GenExpiry(d.now, d.window), false), d.Expiry(), 0, 2))
  {
    hide Run, C.GenExpiry;
    CountFirstRuns(d);
    var s0, m, x := Reading(d, 2, 0), Move(1), C.GenExpiry(d.now, d.window);
    var s4 := FirstCounted(d);
    var first, before := s4.threads[0], CountFirst() + [Tick(d.now - d.read)];
    var s5 := s4.(now := d.now);
    var s6 := s5.(threads := [first, d.Caller(Look(d.now))]);
    var s7 := s5.(threads := [first, d.Caller(Enter(d.now, 0))]);
    Then(s0, CountFirst(), s4, Tick(d.now - d.read), s5);
    Then(s0, before, s5, m, s6);
    Then(s0, before + [m], s6, m, s7);
    SectionOn(d, Full(d, d.Expiry()), d.now);
    Then(s0, before + [m] + [m], s7, m, BothCounted(d, first.pc));
    Then(s0, before + [m] + [m] + [m], BothCounted(d, first.pc), Move(0),
         BothCounted(d, Answered(C.Response(false, x, false), d.Expiry(), 0, 2)));
  }

  /** For every limit and window: a run with every section on time in which a call is counted in one window and
      answered with the expiry of a later one, under which the store then announces it. */
  lemma OvertakenCallNamesLaterWindow(d: Delay)
    requires d.PastWindow()
    ensures var s0, s := Reading(d, 2, 0), Run(Unbounded, Reading(d, 2, 0), Overtaken(d));
            && Initial(s0) && Limited(s0, "k", d.limit) && Punctual(Unbounded, s0, s.log, "k")
            && s.threads[0].pc.Answered? && s.threads[0].pc.own == d.Expiry() < d.now <= s.threads[0].pc.r.expiry
  {
    hide Run, Before;
    OvertakenRuns(d);
    var s0, s := Reading(d, 2, 0), Run(Unbounded, Reading(d, 2, 0), Overtaken(d));
    assert d.now <= C.GenExpiry(d.now, d.window) by {
      if d.window > 0 {
        C.GenExpiryIsNextBoundary(d.now, d.window, 0);
      }
    }
    hide C.GenExpiry;
    assert forall i | 0 <= i < 2 :: s0.threads[i] == d.Caller(Begin);
    assert OnTimeAt(Unbounded, s0, s.log, "k", 0) && OnTimeAt(Unbounded, s0, s.log, "k", 1);
  }
}
