/** Runs whose sections are on time: those that keep up with the clock, and those inside one window. */
module Punctuality {
  import opened Base
  import opened Locks
  import opened Linearization
  import opened ExpiryReads
  import opened Grants
  import C = Counter
  import H = History

  // ---- Keeping up with the clock ---------------------------------------------------------------------------

  /** A key and the window length its calls use. */
  datatype KeyWindow = KeyWindow(key: string, window: int)

  /** A caller's expiry is that of the window its clock reading lies in. */
  predicate Names(f: KeyWindow, op: Op, read: Time) { NewExpiry(op, read) == C.GenExpiry(read, f.window) }

  /** A section of the focus key runs in the window its reading lies in, and not at the instant a window ends. */
  ghost predicate KeepsPace(f: KeyWindow, s0: State, op: Op, sec: Section)
    requires f.window > 0
  {
    && Names(f, op, sec.read)
    && C.GenExpiry(sec.read, f.window) == C.GenExpiry(sec.now, f.window)
    && (C.Aligned(sec.now, C.Span(f.window)) ==> sec.now == s0.now)
  }

  /** Calls use the key's window length, remote commands name the window they were received in, and every section
      runs in the window its caller read the clock in. The run may go through any number of windows. */
  ghost predicate Timely(s0: State, s: State, f: KeyWindow)
    requires f.window > 0
  {
    && (forall i | 0 <= i < |s.threads| && s.threads[i].key == f.key && HasReading(s.threads[i].pc) ::
          Names(f, s.threads[i].op, s.threads[i].pc.read))
    && (forall p | 0 <= p < |s.log| && Mine(s.threads, s.log[p], f.key) ::
          KeepsPace(f, s0, s.threads[s.log[p].thread].op, s.log[p]))
  }

  lemma TimelyBefore(ar: Arith, s0: State, s: State, f: KeyWindow, step: Step)
    requires f.window > 0 && LookupOk(s) && Timely(s0, Next(ar, s, step), f) && LogOk(s0, s)
    ensures Timely(s0, s, f)
  {
    match step
    case Tick(d) =>
    case Move(i) =>
      if i < |s.threads| {
        hide MoveThread, Names, KeepsPace;
        var s' := MoveThread(ar, s, i);
        if s.threads[i].pc.Enter? {
          SectionLog(ar, s, i);
          assert Mine(s'.threads, s'.log[|s.log|], s.threads[i].key);
          if s.threads[i].key == f.key {
            PaceNames(f, s0, s.threads[i].op, s'.log[|s.log|]);
          }
          assert forall p | 0 <= p < |s.log| :: s'.log[p] == s.log[p];
        } else {
          WalkLog(ar, s, i);
        }
      }
  }

  lemma PaceNames(f: KeyWindow, s0: State, op: Op, sec: Section)
    requires f.window > 0 && KeepsPace(f, s0, op, sec)
    ensures Names(f, op, sec.read)
  {
  }

  /** An entry nobody has counted on yet was made from some clock reading of this run. */
  ghost predicate FreshOk(ar: Arith, s0: State, s: State, f: KeyWindow) {
    Before(ar, s0, s.log, f.key, |s.log|) == None && Current(s, f.key).Some? ==>
      exists r: Time :: s0.now <= r <= s.now && C.GenExpiry(r, f.window) == Current(s, f.key).value.expires
  }

  lemma WalkFresh(ar: Arith, s0: State, s: State, f: KeyWindow, i: nat)
    requires f.window > 0 && Shape(s0, s) && Timely(s0, s, f) && FreshOk(ar, s0, s, f)
    requires i < |s.threads| && !s.threads[i].pc.Enter?
    ensures FreshOk(ar, s0, MoveThread(ar, s, i), f)
  {
    hide MoveThread, C.GenExpiry, Before, NewExpiry;
    WalkLog(ar, s, i);
    WalkCurrent(ar, s, i, f.key);
  }

  /** A window boundary no later than one window after some reading, and not before now, is the current expiry. */
  lemma EarlierReading(window: int, r: Time, now: Time, from: Time)
    requires window > 0 && from <= r <= now <= C.GenExpiry(r, window)
    requires C.Aligned(now, C.Span(window)) ==> now == from
    ensures C.GenExpiry(r, window) == C.GenExpiry(now, window)
  {
    C.GenExpiryIsNextBoundary(r, window, 0);
    C.GenExpiryIsNextBoundary(now, window, C.GenExpiry(r, window));
  }

  /** A section that keeps pace is on time. */
  lemma PaceOnTime(ar: Arith, s0: State, s: State, f: KeyWindow, op: Op, sec: Section)
    requires f.window > 0 && KeepsPace(f, s0, op, sec) && FreshOk(ar, s0, s, f) && Mirrors(ar, s0, s, f.key)
    requires Current(s, f.key) == Some(sec.found) && sec.now == s.now
    requires op.DoIncr? ==> op.window == f.window
    ensures OnTime(ar, Before(ar, s0, s.log, f.key, |s.log|), op, sec) && !Late(op, sec)
  {
    hide Before, C.GenExpiry;
    var o := Before(ar, s0, s.log, f.key, |s.log|);
    C.GenExpiryIsNextBoundary(sec.now, f.window, 0);
    if o == None && !C.Expired(sec.found, sec.now) {
      var r: Time :| s0.now <= r <= s.now && C.GenExpiry(r, f.window) == sec.found.expires;
      EarlierReading(f.window, r, sec.now, s0.now);
    }
  }

  /** Calls on the key use one window length. */
  ghost predicate Windowed(s: State, f: KeyWindow) {
    forall i | 0 <= i < |s.threads| && s.threads[i].key == f.key && s.threads[i].op.DoIncr? ::
      s.threads[i].op.window == f.window
  }

  lemma SectionTimely(ar: Arith, s0: State, s: State, f: KeyWindow, i: nat)
    requires f.window > 0 && Inv(ar, s0, s, f.key) && FreshOk(ar, s0, s, f) && Windowed(s0, f)
    requires Punctual(ar, s0, s.log, f.key)
    requires i < |s.threads| && s.threads[i].pc.Enter? && Timely(s0, MoveThread(ar, s, i), f)
    ensures Punctual(ar, s0, MoveThread(ar, s, i).log, f.key) && FreshOk(ar, s0, MoveThread(ar, s, i), f)
  {
    hide Before, KeepsPace, OnTime, LogOk, ReadingsOk, C.GenExpiry;
    var s' := MoveThread(ar, s, i);
    SectionLog(ar, s, i);
    var sec := s'.log[|s.log|];
    BeforeStable(ar, s0, s.log, s'.log, f.key, |s.log|);
    SequentialNext(ar, s0, s'.log, f.key, |s.log|);
    if s.threads[i].key == f.key {
      assert Mine(s'.threads, sec, f.key);
      PaceOnTime(ar, s0, s, f, s.threads[i].op, sec);
      OwnSection(ar, s0, s, f.key, i);
    } else {
      assert Current(s', f.key) == Current(s, f.key);
    }
    PunctualNext(ar, s0, s.log, sec, f.key);
  }

  /** Keeping up with the clock makes every section on time, over any number of windows. */
  lemma {:induction false} TimelyIsPunctual(ar: Arith, s0: State, f: KeyWindow, steps: seq<Step>)
    requires Initial(s0) && f.window > 0 && Windowed(s0, f) && Timely(s0, Run(ar, s0, steps), f)
    ensures Punctual(ar, s0, Run(ar, s0, steps).log, f.key)
    ensures FreshOk(ar, s0, Run(ar, s0, steps), f)
  {
    if steps == [] {
      assert Before(ar, s0, [], f.key, 0) == Current(s0, f.key);
    } else {
      hide Timely, Punctual, Initial, Before, KeepsPace;
      var init, last := steps[..|steps| - 1], steps[|steps| - 1];
      var s := Run(ar, s0, init);
      RunShape(ar, s0, init);
      TimelyBefore(ar, s0, s, f, last);
      TimelyIsPunctual(ar, s0, f, init);
      RunKeeps(ar, s0, f.key, init);
      match last
      case Tick(d) =>
      case Move(i) =>
        if i < |s.threads| {
          if s.threads[i].pc.Enter? {
            SectionTimely(ar, s0, s, f, i);
          } else {
            WalkFresh(ar, s0, s, f, i);
            WalkLog(ar, s, i);
          }
        }
    }
  }

  /** In a run on time no call restarts the entry under a past expiry. */
  lemma {:induction false} PunctualRestartsAhead(ar: Arith, s0: State, key: string, steps: seq<Step>)
    requires Initial(s0) && Punctual(ar, s0, Run(ar, s0, steps).log, key)
    ensures RestartsAhead(s0, Run(ar, s0, steps).log, key)
  {
    if steps != [] {
      hide Inv, Initial, Punctual, RestartAhead, Before;
      var init, last := steps[..|steps| - 1], steps[|steps| - 1];
      var s := Run(ar, s0, init);
      NextExtends(ar, s, last);
      PunctualPrefix(ar, s0, s.log, Next(ar, s, last).log, key);
      RunKeeps(ar, s0, key, init);
      PunctualRestartsAhead(ar, s0, key, init);
      if last.Move? && last.thread < |s.threads| {
        LastRestartsAhead(ar, s0, s, key, last.thread);
      }
    }
  }

  lemma LastRestartsAhead(ar: Arith, s0: State, s: State, key: string, i: nat)
    requires Inv(ar, s0, s, key) && RestartsAhead(s0, s.log, key) && i < |s.threads|
    requires Punctual(ar, s0, MoveThread(ar, s, i).log, key)
    ensures RestartsAhead(s0, MoveThread(ar, s, i).log, key)
  {
    hide MoveThread, Before, C.GenExpiry, LogOk, ReadingsOk;
    var s' := MoveThread(ar, s, i);
    if !s.threads[i].pc.Enter? {
      WalkLog(ar, s, i);
    } else {
      SectionLog(ar, s, i);
      SectionEntry(ar, s, i, key);
      BeforeStable(ar, s0, s.log, s'.log, key, |s.log|);
      assert OnTimeAt(ar, s0, s'.log, key, |s.log|);
      if s.threads[i].key == key && s.threads[i].op.DoIncr? {
        C.GenExpiryAhead(s.now, s.threads[i].op.window);
        assert RestartAhead(s.threads[i].op, s'.log[|s.log|]);
      }
      assert forall p | 0 <= p < |s.log| :: s'.log[p] == s.log[p];
    }
  }

  // ---- A run inside one window ----------------------------------------------------------------------------------

  /** The run stays in the window that ends at `expiry`; the key's entry at the start is of that window, expired, or
      missing; remote commands name that window, or one that is already over. */
  ghost predicate InsideWindow(s0: State, s: State, f: KeyWindow, expiry: int) {
    && f.window > 0 && C.Aligned(expiry, C.Span(f.window))
    && expiry - C.Span(f.window) <= s0.now && s.now < expiry
    && Windowed(s0, f)
    && (var o := Current(s0, f.key); o.Some? ==> o.value.expires == expiry || o.value.expires < s0.now)
    && (forall i | 0 <= i < |s0.threads| && s0.threads[i].key == f.key && s0.threads[i].op.DoSync? ::
          s0.threads[i].op.expiry == expiry || s0.threads[i].op.expiry < s0.now)
  }

  lemma WindowExpiry(f: KeyWindow, from: Time, now: Time, expiry: int)
    requires f.window > 0 && C.Aligned(expiry, C.Span(f.window)) && expiry - C.Span(f.window) <= from <= now < expiry
    ensures C.GenExpiry(now, f.window) == expiry
    ensures C.Aligned(now, C.Span(f.window)) ==> now == from
  {
    C.GenExpiryIsNextBoundary(now, f.window, expiry);
    if C.Aligned(now, C.Span(f.window)) {
      C.AlignedApart(now, expiry, C.Span(f.window));
    }
  }

  lemma InsideIsTimely(ar: Arith, s0: State, f: KeyWindow, expiry: int, steps: seq<Step>)
    requires Initial(s0) && InsideWindow(s0, Run(ar, s0, steps), f, expiry)
    ensures Timely(s0, Run(ar, s0, steps), f)
  {
    var s := Run(ar, s0, steps);
    RunShape(ar, s0, steps);
    hide C.GenExpiry, C.Aligned, Run;
    forall now: Time | s0.now <= now <= s.now
      ensures C.GenExpiry(now, f.window) == expiry
      ensures C.Aligned(now, C.Span(f.window)) ==> now == s0.now
    {
      WindowExpiry(f, s0.now, now, expiry);
    }
  }

  /** All through the run the sequential counter's entry is of this window, or has expired. */
  lemma {:induction false} EntriesInside(ar: Arith, s0: State, s: State, f: KeyWindow, expiry: int, p: nat)
    requires Shape(s0, s) && InsideWindow(s0, s, f, expiry) && Timely(s0, s, f) && p <= |s.log|
    ensures var o := Before(ar, s0, s.log, f.key, p);
            o.Some? ==> o.value.expires == expiry || o.value.expires < s0.now
  {
    hide C.GenExpiry, C.Aligned, H.Run, Sequential, LookupOk;
    if p == 0 {
      assert s.log[..0] == [];
      NoEvents(ar, s0, f.key);
    } else {
      EntriesInside(ar, s0, s, f, expiry, p - 1);
      SequentialNext(ar, s0, s.log, f.key, p - 1);
      WindowExpiry(f, s0.now, s.log[p - 1].now, expiry);
      assert Mine(s.threads, s.log[p - 1], f.key) <==> Mine(s0.threads, s.log[p - 1], f.key);
    }
  }

  lemma NoEvents(ar: Arith, s0: State, key: string)
    ensures H.Run(ar, Current(s0, key), Sequential(s0.threads, [], key)) == Current(s0, key)
  {
  }

  /** Inside the window every call is answered with the window's expiry. */
  lemma AnswerInside(ar: Arith, s0: State, s: State, f: KeyWindow, expiry: int, i: nat, p: nat, r: C.Response)
    requires Shape(s0, s) && InsideWindow(s0, s, f, expiry) && Timely(s0, s, f)
    requires i < |s0.threads| && s0.threads[i].key == f.key && AnswersAs(ar, s0, s.log, i, f.key, p, r)
    ensures r.expiry == expiry
    ensures var o := Before(ar, s0, s.log, f.key, p + 1); o.Some? && o.value.expires == expiry
  {
    hide C.GenExpiry, C.Aligned, Before, LookupOk, H.Answer, H.Step;
    EntriesInside(ar, s0, s, f, expiry, p);
    SequentialNext(ar, s0, s.log, f.key, p);
    EntriesInside(ar, s0, s, f, expiry, p + 1);
    CallLeavesLive(ar, Before(ar, s0, s.log, f.key, p), s0.threads[i].op, s.log[p].now);
  }

  /** In a run inside one window whole answers, expiry included, are the sequential ones, however the steps of the
      calls interleave. */
  lemma AnswersInsideWindow(ar: Arith, s0: State, f: KeyWindow, expiry: int, steps: seq<Step>, i: nat)
    requires Initial(s0) && InsideWindow(s0, Run(ar, s0, steps), f, expiry)
    requires i < |s0.threads| && s0.threads[i].key == f.key
    ensures Mirrors(ar, s0, Run(ar, s0, steps), f.key)
    ensures var s := Run(ar, s0, steps);
            s.threads[i].pc.Answered? ==>
              && s.threads[i].pc.r.expiry == expiry
              && AnswersAs(ar, s0, s.log, i, f.key, s.threads[i].pc.at, s.threads[i].pc.r)
  {
    var s := Run(ar, s0, steps);
    hide Before, EntryAt, Run, InsideWindow, Timely, Inv, Initial;
    RunShape(ar, s0, steps);
    InsideIsTimely(ar, s0, f, expiry, steps);
    InsidePunctual(ar, s0, f, expiry, steps);
    Linearizable(ar, s0, f.key, steps, i);
    if s.threads[i].pc.Answered? {
      var pc := s.threads[i].pc;
      AnswerInside(ar, s0, s, f, expiry, i, pc.at, pc.r.(expiry := pc.own));
      RunChained(ar, s0, f.key, steps);
      assert ExpiryOk(ar, s0, s, f.key, s.threads[i]);
      assert s.now < expiry by { Inside(s0, s, f, expiry); }
      LiveKeepsExpiry(ar, s0, s, f.key, pc.at + 1, pc.seen);
      assert pc.r.(expiry := pc.own) == pc.r;
    }
  }

  lemma Inside(s0: State, s: State, f: KeyWindow, expiry: int)
    requires InsideWindow(s0, s, f, expiry)
    ensures s.now < expiry
  {
  }

  lemma InsideRestartsAhead(s0: State, s: State, f: KeyWindow, expiry: int)
    requires Shape(s0, s) && InsideWindow(s0, s, f, expiry)
    ensures RestartsAhead(s0, s.log, f.key)
  {
    hide C.GenExpiry, C.Aligned;
    forall p | 0 <= p < |s.log| && Mine(s0.threads, s.log[p], f.key) && s0.threads[s.log[p].thread].op.DoIncr?
      ensures RestartAhead(s0.threads[s.log[p].thread].op, s.log[p])
    {
      WindowExpiry(f, s0.now, s.log[p].read, expiry);
    }
  }

  lemma InsidePunctual(ar: Arith, s0: State, f: KeyWindow, expiry: int, steps: seq<Step>)
    requires Initial(s0) && InsideWindow(s0, Run(ar, s0, steps), f, expiry) && Timely(s0, Run(ar, s0, steps), f)
    ensures Punctual(ar, s0, Run(ar, s0, steps).log, f.key)
  {
    TimelyIsPunctual(ar, s0, f, steps);
  }

  /** Inside one window all that concurrent callers are granted, they are granted in that window, and it is no more than
      the limit, or than the room its entry had left. */
  lemma ConcurrentCallsInsideWindow(s0: State, f: KeyWindow, expiry: int, limit: int, steps: seq<Step>, other: int)
    requires Initial(s0) && Limited(s0, f.key, limit) && InsideWindow(s0, Run(Unbounded, s0, steps), f, expiry)
    ensures other != expiry ==> TotalGranted(Run(Unbounded, s0, steps), f.key, other) == 0
    ensures TotalGranted(Run(Unbounded, s0, steps), f.key, expiry) <= Allowance(s0, f.key, limit, expiry)
  {
    var s := Run(Unbounded, s0, steps);
    RunShape(Unbounded, s0, steps);
    InsideRestartsAhead(s0, s, f, expiry);
    ConcurrentCallsWithinLimit(s0, f.key, limit, steps, expiry);
    if other != expiry {
      hide Before, Run, InsideWindow, Timely, Initial;
      InsideIsTimely(Unbounded, s0, f, expiry, steps);
      InsidePunctual(Unbounded, s0, f, expiry, steps);
      RunKeeps(Unbounded, s0, f.key, steps);
      forall i | 0 <= i < |s.threads|
        ensures Granted(s.threads[i], f.key, other) == 0
      {
        if s.threads[i].key == f.key {
          assert ThreadOk(Unbounded, s0, s, f.key, i);
          match s.threads[i].pc
          case Leave(_, before, after, at) =>
            AnswerInside(Unbounded, s0, s, f, expiry, i, at, C.Reply(before, after, s.threads[i].op.limit));
          case Answered(r, own, at, _) =>
            AnswerInside(Unbounded, s0, s, f, expiry, i, at, r.(expiry := own));
          case _ =>
        }
      }
      NothingGranted(s, f.key, other);
    }
  }
}
