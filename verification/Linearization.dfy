/** When concurrent callers of a bucket see the sequential counter: exactly when every critical section runs in the
    window its own clock reading names, or finds a live entry. */
module Linearization {
  import opened Base
  import opened Locks
  import C = Counter
  import H = History

  /** A critical section as one atomic event of the sequential counter. */
  function EventOf(op: Op, now: Time): H.Event {
    match op
    case DoIncr(count, limit, window) => H.Call(now, count, limit, window)
    case DoSync(count, expiry) => H.Remote(now, count, expiry)
  }

  // ---- One critical section ---------------------------------------------------------------------------------

  /** On an entry found at `now`, a call's critical section does what the atomic call does exactly when the entry is
      live, or the clock reading it would restart the entry from is of the current window. */
  lemma CallSectionExactly(ar: Arith, e: Entry, op: Op, read: Time, now: Time)
    requires op.DoIncr?
    ensures var (before, after) := InSection(ar, e, op, read, now);
            (&& H.Step(ar, Some(e), EventOf(op, now)) == Some(after)
             && H.Answer(ar, Some(e), EventOf(op, now)) == C.Reply(before, after, op.limit))
            <==> !C.Expired(e, now) || C.GenExpiry(read, op.window) == C.GenExpiry(now, op.window)
  {
    hide C.GenExpiry;
  }

  /** No later call or command can tell the two apart. */
  predicate SameView(a: Option<Entry>, b: Option<Entry>, now: Time) {
    a == b || (!C.Live(a, now) && !C.Live(b, now))
  }

  /** A remote count applied in a critical section has the effect of the atomic command exactly when it is still
      unexpired, or the entry is expired anyway, or there is nothing to add. */
  lemma SyncSectionExactly(ar: Arith, e: Entry, op: Op, read: Time, now: Time)
    requires op.DoSync?
    ensures SameView(Some(InSection(ar, e, op, read, now).1), H.Step(ar, Some(e), EventOf(op, now)), now)
       <==> now <= op.expiry || C.Expired(e, now) || Plus(ar, e.count, op.count) == e.count
  {
  }

  // ---- The sequential run -----------------------------------------------------------------------------------

  /** The key's critical sections, in the order they ran, each as one atomic event. */
  function Sequential(threads: seq<Thread>, log: seq<Section>, key: string): seq<H.Event> {
    if log == [] then []
    else
      var last := log[|log| - 1];
      Sequential(threads, log[..|log| - 1], key)
      + if Mine(threads, last, key) then [EventOf(threads[last.thread].op, last.now)] else []
  }

  /** The sequential counter's state when the critical section at position p begins. */
  function Before(ar: Arith, s0: State, log: seq<Section>, key: string, p: nat): Option<Entry>
    requires p <= |log|
  {
    H.Run(ar, Current(s0, key), Sequential(s0.threads, log[..p], key))
  }

  /** The answer the sequential counter gives at position p of the critical-section order. */
  ghost predicate AnswersAs(ar: Arith, s0: State, log: seq<Section>, i: nat, key: string, p: nat, r: C.Response) {
    && p < |log| && log[p].thread == i < |s0.threads| && s0.threads[i].op.DoIncr?
    && r == H.Answer(ar, Before(ar, s0, log, key, p), EventOf(s0.threads[i].op, log[p].now))
  }

  /** One critical section is one event of the sequential run, or none of it. */
  lemma SequentialNext(ar: Arith, s0: State, log: seq<Section>, key: string, p: nat)
    requires p < |log|
    ensures Before(ar, s0, log, key, p + 1)
         == var o := Before(ar, s0, log, key, p);
            if Mine(s0.threads, log[p], key)
            then H.Step(ar, o, EventOf(s0.threads[log[p].thread].op, log[p].now)) else o
  {
    assert log[..p + 1][..p] == log[..p];
    var evs := Sequential(s0.threads, log[..p], key);
    if Mine(s0.threads, log[p], key) {
      var ev := EventOf(s0.threads[log[p].thread].op, log[p].now);
      H.RunSplits(ar, Current(s0, key), evs, [ev]);
      assert [ev][1..] == [];
    } else {
      assert evs + [] == evs;
    }
  }

  /** What has run stays what it was. */
  lemma BeforeStable(ar: Arith, s0: State, log: seq<Section>, longer: seq<Section>, key: string, p: nat)
    requires log <= longer && p <= |log|
    ensures Before(ar, s0, longer, key, p) == Before(ar, s0, log, key, p)
  {
    assert longer[..p] == log[..p];
  }

  // ---- Sections on time -----------------------------------------------------------------------------------------

  /** The section applies a remote command that has expired since its receiver checked it. */
  predicate Late(op: Op, sec: Section) { op.DoSync? && sec.now > op.expiry }

  /** A section that does not work on the sequential counter's live entry starts a count, and the expiry it starts
      it under is the one current when it runs: that of the caller's reading, or of the one that created the entry. A
      late remote command finds its entry expired as well, or has nothing to add. */
  predicate OnTime(ar: Arith, o: Option<Entry>, op: Op, sec: Section) {
    if Late(op, sec) then C.Expired(sec.found, sec.now) || Plus(ar, sec.found.count, op.count) == sec.found.count
    else
      || C.Live(o, sec.now)
      || C.Refresh(Some(sec.found), sec.now, NewExpiry(op, sec.read)).expires == NewExpiry(op, sec.now)
  }

  ghost predicate OnTimeAt(ar: Arith, s0: State, log: seq<Section>, key: string, p: nat)
    requires p < |log|
  {
    Mine(s0.threads, log[p], key) ==> OnTime(ar, Before(ar, s0, log, key, p), s0.threads[log[p].thread].op, log[p])
  }

  ghost predicate Punctual(ar: Arith, s0: State, log: seq<Section>, key: string) {
    forall p | 0 <= p < |log| :: OnTimeAt(ar, s0, log, key, p)
  }

  lemma PunctualPrefix(ar: Arith, s0: State, log: seq<Section>, longer: seq<Section>, key: string)
    requires log <= longer && Punctual(ar, s0, longer, key)
    ensures Punctual(ar, s0, log, key)
  {
    forall p | 0 <= p < |log|
      ensures OnTimeAt(ar, s0, log, key, p)
    {
      assert OnTimeAt(ar, s0, longer, key, p);
      BeforeStable(ar, s0, log, longer, key, p);
    }
  }

  lemma PunctualNext(ar: Arith, s0: State, log: seq<Section>, sec: Section, key: string)
    requires Punctual(ar, s0, log, key)
    requires Mine(s0.threads, sec, key) ==>
               OnTime(ar, Before(ar, s0, log, key, |log|), s0.threads[sec.thread].op, sec)
    ensures Punctual(ar, s0, log + [sec], key)
  {
    forall p | 0 <= p < |log + [sec]|
      ensures OnTimeAt(ar, s0, log + [sec], key, p)
    {
      BeforeStable(ar, s0, log, log + [sec], key, if p < |log| then p else |log|);
      assert p < |log| ==> OnTimeAt(ar, s0, log, key, p);
    }
  }

  /** No later call or command can tell the entry from what the sequential counter holds: they are the same, or both
      expired; an entry nobody counted on yet may exist before the sequential counter has one. */
  predicate Agrees(o: Option<Entry>, e: Entry, now: Time) {
    if C.Live(o, now) then e == o.value else C.Expired(e, now) || (o == None && e.count == 0)
  }

  /** The key's entry agrees with the sequential counter. */
  ghost predicate Mirrors(ar: Arith, s0: State, s: State, key: string) {
    var o, cur := Before(ar, s0, s.log, key, |s.log|), Current(s, key);
    if cur.Some? then Agrees(o, cur.value, s.now) else o == None
  }

  /** A section on an entry that agrees with the sequential counter leaves it so exactly when it is on time. */
  lemma SectionExactly(ar: Arith, o: Option<Entry>, op: Op, sec: Section)
    requires Agrees(o, sec.found, sec.now)
    ensures var (before, after) := InSection(ar, sec.found, op, sec.read, sec.now);
            var o' := H.Step(ar, o, EventOf(op, sec.now));
            && (OnTime(ar, o, op, sec) <==> Agrees(o', after, sec.now))
            && (OnTime(ar, o, op, sec) && op.DoIncr? ==>
                  H.Answer(ar, o, EventOf(op, sec.now)) == C.Reply(before, after, op.limit))
            && (!Late(op, sec) ==> o'.Some?)
            && (!Late(op, sec) && !OnTime(ar, o, op, sec) ==> o'.value.expires != after.expires)
  {
    hide C.GenExpiry;
    if op.DoIncr? {
      C.GenExpiryAhead(sec.now, op.window);
    }
  }

  // ---- Every run ----------------------------------------------------------------------------------------------

  ghost predicate ThreadOk(ar: Arith, s0: State, s: State, key: string, i: nat)
    requires i < |s.threads|
  {
    var th := s.threads[i];
    match th.pc
    case Leave(id, before, after, at) =>
      && th.op.DoIncr?
      && AnswersAs(ar, s0, s.log, i, key, at, C.Reply(before, after, th.op.limit))
    case Answered(r, own, at, seen) =>
      && AnswersAs(ar, s0, s.log, i, key, at, r.(expiry := own))
      && at < seen <= |s.log|
    case _ => true
  }

  ghost predicate Inv(ar: Arith, s0: State, s: State, key: string) {
    && Shape(s0, s)
    && Mirrors(ar, s0, s, key)
    && (forall i | 0 <= i < |s.threads| && s.threads[i].key == key :: ThreadOk(ar, s0, s, key, i))
  }

  lemma WalkMirrors(ar: Arith, s0: State, s: State, key: string, i: nat)
    requires LookupOk(s) && Mirrors(ar, s0, s, key) && i < |s.threads| && !s.threads[i].pc.Enter?
    ensures Mirrors(ar, s0, MoveThread(ar, s, i), key)
  {
    hide MoveThread, H.Run, Sequential;
    WalkLog(ar, s, i);
    WalkCurrent(ar, s, i, key);
  }

  lemma WalkSelf(ar: Arith, s0: State, s: State, key: string, i: nat)
    requires Inv(ar, s0, s, key) && i < |s.threads| && !s.threads[i].pc.Enter? && s.threads[i].key == key
    ensures ThreadOk(ar, s0, MoveThread(ar, s, i), key, i)
  {
    hide Before, AnswersAs, NewExpiry, InSection;
    assert ThreadOk(ar, s0, s, key, i);
  }

  lemma WalkKept(ar: Arith, s0: State, s: State, key: string, i: nat)
    requires Inv(ar, s0, s, key) && i < |s.threads| && !s.threads[i].pc.Enter?
    ensures Inv(ar, s0, MoveThread(ar, s, i), key)
  {
    hide MoveThread, LookupOk, LogOk, SameThreads, ReadingsOk, Mirrors, Before;
    var s' := MoveThread(ar, s, i);
    ShapeKept(ar, s0, s, Move(i));
    WalkLog(ar, s, i);
    WalkMirrors(ar, s0, s, key, i);
    forall j | 0 <= j < |s'.threads| && s'.threads[j].key == key
      ensures ThreadOk(ar, s0, s', key, j)
    {
      assert s.threads[j].key == key;
      assert ThreadOk(ar, s0, s, key, j);
      if j == i {
        WalkSelf(ar, s0, s, key, i);
      }
    }
  }

  lemma ThreadStable(ar: Arith, s0: State, s: State, s': State, sec: Section, key: string, i: nat)
    requires i < |s.threads| && ThreadOk(ar, s0, s, key, i)
    requires i < |s'.threads| && s'.threads[i] == s.threads[i] && s'.log == s.log + [sec]
    ensures ThreadOk(ar, s0, s', key, i)
  {
    hide H.Run, Sequential, H.Answer;
    var th := s.threads[i];
    match th.pc
    case Leave(_, before, after, at) =>
      BeforeStable(ar, s0, s.log, s'.log, key, at);
    case Answered(r, own, at, seen) =>
      BeforeStable(ar, s0, s.log, s'.log, key, at);
    case _ =>
  }

  /** A section of another key. */
  lemma OtherSection(ar: Arith, s0: State, s: State, key: string, i: nat)
    requires Shape(s0, s) && Mirrors(ar, s0, s, key)
    requires i < |s.threads| && s.threads[i].pc.Enter? && s.threads[i].key != key
    ensures Mirrors(ar, s0, MoveThread(ar, s, i), key)
  {
    hide InSection, H.Run, Sequential;
    var s' := MoveThread(ar, s, i);
    SectionLog(ar, s, i);
    BeforeStable(ar, s0, s.log, s'.log, key, |s.log|);
    SequentialNext(ar, s0, s'.log, key, |s.log|);
    assert Current(s', key) == Current(s, key);
  }

  /** A section of the key, entered in a state that mirrors the sequential counter, leaves it so exactly when it is on
      time; otherwise the entry ends up under another expiry. */
  lemma OwnSection(ar: Arith, s0: State, s: State, key: string, i: nat)
    requires Shape(s0, s) && Mirrors(ar, s0, s, key)
    requires i < |s.threads| && s.threads[i].pc.Enter? && s.threads[i].key == key
    ensures var s' := MoveThread(ar, s, i);
            var o, o' := Before(ar, s0, s.log, key, |s.log|), Before(ar, s0, s'.log, key, |s'.log|);
            var op, sec := s.threads[i].op, s'.log[|s.log|];
            && s'.log == s.log + [sec] && Current(s', key).Some?
            && (OnTime(ar, o, op, sec) <==> Mirrors(ar, s0, s', key))
            && (OnTime(ar, o, op, sec) && op.DoIncr? ==>
                  s'.threads[i].pc.Leave? &&
                  var pc := s'.threads[i].pc;
                  H.Answer(ar, o, EventOf(op, s.now)) == C.Reply(pc.before, pc.after, op.limit))
            && (!Late(op, sec) ==> o'.Some?)
            && (!Late(op, sec) && !OnTime(ar, o, op, sec) ==> Current(s', key).value.expires != o'.value.expires)
  {
    hide InSection, H.Run, Sequential, H.Answer, OnTime, H.Step;
    var s' := MoveThread(ar, s, i);
    SectionLog(ar, s, i);
    BeforeStable(ar, s0, s.log, s'.log, key, |s.log|);
    SequentialNext(ar, s0, s'.log, key, |s.log|);
    var o := Before(ar, s0, s.log, key, |s.log|);
    var sec := Section(i, s.threads[i].pc.read, s.heap[s.threads[i].pc.id], s.now);
    assert Current(s, key) == Some(sec.found);
    SectionExactly(ar, o, s.threads[i].op, sec);
  }

  lemma SectionKept(ar: Arith, s0: State, s: State, key: string, i: nat)
    requires Inv(ar, s0, s, key) && i < |s.threads| && s.threads[i].pc.Enter?
    requires Punctual(ar, s0, MoveThread(ar, s, i).log, key)
    ensures Inv(ar, s0, MoveThread(ar, s, i), key)
  {
    var s' := MoveThread(ar, s, i);
    hide MoveThread, LookupOk, LogOk, ReadingsOk, Mirrors, Before, OnTime;
    ShapeKept(ar, s0, s, Move(i));
    assert LookupOk(s);
    SectionLog(ar, s, i);
    var sec := s'.log[|s.log|];
    if s.threads[i].key == key {
      assert OnTimeAt(ar, s0, s'.log, key, |s.log|);
      BeforeStable(ar, s0, s.log, s'.log, key, |s.log|);
      OwnSection(ar, s0, s, key, i);
    } else {
      OtherSection(ar, s0, s, key, i);
    }
    forall j | 0 <= j < |s'.threads| && s'.threads[j].key == key
      ensures ThreadOk(ar, s0, s', key, j)
    {
      if j != i {
        assert s.threads[j].key == key;
        assert ThreadOk(ar, s0, s, key, j);
        ThreadStable(ar, s0, s, s', sec, key, j);
      } else {
        assert s0.threads[i].op == s.threads[i].op;
      }
    }
  }

  lemma {:induction false} RunKeeps(ar: Arith, s0: State, key: string, steps: seq<Step>)
    requires Initial(s0) && Punctual(ar, s0, Run(ar, s0, steps).log, key)
    ensures Inv(ar, s0, Run(ar, s0, steps), key)
  {
    RunShape(ar, s0, steps);
    if steps == [] {
      assert Before(ar, s0, [], key, 0) == Current(s0, key);
    } else {
      hide Inv, Initial, Punctual;
      var init, last := steps[..|steps| - 1], steps[|steps| - 1];
      var s := Run(ar, s0, init);
      NextExtends(ar, s, last);
      PunctualPrefix(ar, s0, s.log, Next(ar, s, last).log, key);
      RunKeeps(ar, s0, key, init);
      match last
      case Tick(d) => TickKept(ar, s0, s, key, d);
      case Move(i) =>
        if i < |s.threads| {
          if s.threads[i].pc.Enter? {
            SectionKept(ar, s0, s, key, i);
          } else {
            WalkKept(ar, s0, s, key, i);
          }
        }
    }
  }

  lemma TickKept(ar: Arith, s0: State, s: State, key: string, d: nat)
    requires Inv(ar, s0, s, key)
    ensures Inv(ar, s0, Next(ar, s, Tick(d)), key)
  {
    var s' := Next(ar, s, Tick(d));
    ShapeKept(ar, s0, s, Tick(d));
    forall j | 0 <= j < |s'.threads| && s'.threads[j].key == key
      ensures ThreadOk(ar, s0, s', key, j)
    {
      assert ThreadOk(ar, s0, s, key, j);
    }
  }

  /** Responses equal those of a sequential run: whatever the schedule, windows, limits and counts, when every section
      on the key is on time, a call's blocking, its forced sync and the expiry it counted under are the ones the atomic
      counter gives when the calls run one after the other in section order. */
  lemma Linearizable(ar: Arith, s0: State, key: string, steps: seq<Step>, i: nat)
    requires Initial(s0) && Punctual(ar, s0, Run(ar, s0, steps).log, key)
    requires i < |s0.threads| && s0.threads[i].key == key
    ensures var s := Run(ar, s0, steps);
            && Mirrors(ar, s0, s, key)
            && (forall p, q | 0 <= p < q < |s.log| :: s.log[p].thread != s.log[q].thread)
            && (s.threads[i].pc.Answered? ==>
                  var pc := s.threads[i].pc;
                  AnswersAs(ar, s0, s.log, i, key, pc.at, pc.r.(expiry := pc.own)))
  {
    RunKeeps(ar, s0, key, steps);
    assert ThreadOk(ar, s0, Run(ar, s0, steps), key, i);
  }

  // ---- Exactly then ---------------------------------------------------------------------------------------------

  /** The entry follows the sequential counter all through a run. */
  ghost predicate AlwaysMirrors(ar: Arith, s0: State, steps: seq<Step>, key: string) {
    forall n | 0 <= n <= |steps| :: Mirrors(ar, s0, Run(ar, s0, steps[..n]), key)
  }

  /** It does exactly when every section is on time. */
  lemma MirrorsExactly(ar: Arith, s0: State, key: string, steps: seq<Step>)
    requires Initial(s0)
    ensures AlwaysMirrors(ar, s0, steps, key) <==> Punctual(ar, s0, Run(ar, s0, steps).log, key)
  {
    if Punctual(ar, s0, Run(ar, s0, steps).log, key) {
      forall n | 0 <= n <= |steps|
        ensures Mirrors(ar, s0, Run(ar, s0, steps[..n]), key)
      {
        assert steps[..n] + steps[n..] == steps;
        EntryNeverReplaced(ar, s0, steps[..n], steps[n..]);
        PunctualPrefix(ar, s0, Run(ar, s0, steps[..n]).log, Run(ar, s0, steps).log, key);
        RunKeeps(ar, s0, key, steps[..n]);
      }
    }
    if AlwaysMirrors(ar, s0, steps, key) {
      MirrorsOnlyOnTime(ar, s0, key, steps);
    }
  }

  lemma {:induction false} MirrorsOnlyOnTime(ar: Arith, s0: State, key: string, steps: seq<Step>)
    requires Initial(s0)
    requires forall n | 0 <= n <= |steps| :: Mirrors(ar, s0, Run(ar, s0, steps[..n]), key)
    ensures Punctual(ar, s0, Run(ar, s0, steps).log, key)
  {
    if steps != [] {
      hide Mirrors, Before, OnTime, MoveThread;
      var init, last := steps[..|steps| - 1], steps[|steps| - 1];
      var s, s' := Run(ar, s0, init), Run(ar, s0, steps);
      RunShape(ar, s0, init);
      NextExtends(ar, s, last);
      forall n | 0 <= n <= |init|
        ensures Mirrors(ar, s0, Run(ar, s0, init[..n]), key)
      {
        assert init[..n] == steps[..n];
      }
      MirrorsOnlyOnTime(ar, s0, key, init);
      assert steps[..|init|] == init && steps[..|steps|] == steps;
      if last.Move? && last.thread < |s.threads| {
        LastOnTime(ar, s0, s, key, last.thread);
      }
    }
  }

  lemma LastOnTime(ar: Arith, s0: State, s: State, key: string, i: nat)
    requires Shape(s0, s) && Mirrors(ar, s0, s, key) && Punctual(ar, s0, s.log, key) && i < |s.threads|
    requires Mirrors(ar, s0, MoveThread(ar, s, i), key)
    ensures Punctual(ar, s0, MoveThread(ar, s, i).log, key)
  {
    var s' := MoveThread(ar, s, i);
    hide MoveThread, LookupOk, Before, OnTime;
    assert LookupOk(s);
    if !s.threads[i].pc.Enter? {
      WalkLog(ar, s, i);
    } else {
      SectionLog(ar, s, i);
      var sec := s'.log[|s.log|];
      assert s'.log == s.log + [sec];
      if s.threads[i].key == key {
        OwnSection(ar, s0, s, key, i);
        assert Mine(s0.threads, sec, key);
      }
      PunctualNext(ar, s0, s.log, sec, key);
    }
  }

  /** After a run on time, the next call's section leaves the entry where the sequential counter is exactly when it is
      on time too; otherwise it has counted under another expiry. */
  lemma FirstLateSection(ar: Arith, s0: State, key: string, steps: seq<Step>, i: nat)
    requires Initial(s0) && Punctual(ar, s0, Run(ar, s0, steps).log, key)
    requires i < |s0.threads| && s0.threads[i].key == key && s0.threads[i].op.DoIncr?
    requires Run(ar, s0, steps).threads[i].pc.Enter?
    ensures var s, s' := Run(ar, s0, steps), Run(ar, s0, steps + [Move(i)]);
            var o' := Before(ar, s0, s'.log, key, |s'.log|);
            && |s'.log| == |s.log| + 1 && Current(s', key).Some? && o'.Some?
            && (OnTimeAt(ar, s0, s'.log, key, |s.log|) <==> Current(s', key) == o')
            && (!OnTimeAt(ar, s0, s'.log, key, |s.log|) ==> Current(s', key).value.expires != o'.value.expires)
  {
    hide Before, OnTime, MoveThread;
    RunKeeps(ar, s0, key, steps);
    assert (steps + [Move(i)])[..|steps|] == steps;
    var s, s' := Run(ar, s0, steps), MoveThread(ar, Run(ar, s0, steps), i);
    assert Run(ar, s0, steps + [Move(i)]) == s';
    SectionLog(ar, s, i);
    OwnSection(ar, s0, s, key, i);
    BeforeStable(ar, s0, s.log, s'.log, key, |s.log|);
    SequentialNext(ar, s0, s'.log, key, |s.log|);
    CallLeavesLive(ar, Before(ar, s0, s.log, key, |s.log|), s.threads[i].op, s.now);
  }

  lemma CallLeavesLive(ar: Arith, o: Option<Entry>, op: Op, now: Time)
    requires op.DoIncr?
    ensures var o' := H.Step(ar, o, EventOf(op, now));
            C.Live(o', now) && H.Answer(ar, o, EventOf(op, now)).expiry == o'.value.expires
  {
    C.GenExpiryAhead(now, op.window);
    hide C.GenExpiry;
  }
}
