/** Any number of threads inside a bucket's Incr and Sync at once, interleaved at lock granularity. */
module Locks {
  import opened Base
  import C = Counter

  type Time = C.Time
  type Entry = C.Entry

  datatype Op =
    | DoIncr(count: int, limit: int, window: int)
    | DoSync(count: int, expiry: int)

  /** Where a thread is. History variables: `at`, how many critical sections came before its own; `own`, the expiry
      of the entry its count went to; `seen`, how many sections had run when it read the expiry it answers with. */
  datatype Pc =
    | Begin
    | Look(read: Time)
    | Create(read: Time)
    | Enter(read: Time, id: nat)
    | Leave(id: nat, before: Entry, after: Entry, at: nat)
    | Answered(r: C.Response, own: int, at: nat, seen: nat)
    | Synced(at: nat)
    | Discarded

  datatype Thread = Thread(key: string, op: Op, pc: Pc)

  /** A critical section that ran: whose, the clock reading it brought along, the entry it found, and when. */
  datatype Section = Section(thread: nat, read: Time, found: Entry, now: Time)

  /** Entries live in `heap`; `lookup` maps keys to them, as the bucket's map does to pointers. `log` is a history
      variable: the critical sections in the order they ran. */
  datatype State = State(now: Time, lookup: map<string, nat>, heap: seq<Entry>, threads: seq<Thread>, log: seq<Section>)

  datatype Step = Move(thread: nat) | Tick(d: nat)

  function NewExpiry(op: Op, read: Time): int {
    match op
    case DoIncr(_, _, window) => C.GenExpiry(read, window)
    case DoSync(_, expiry) => expiry
  }

  function At(s: State, i: nat, pc: Pc): State
    requires i < |s.threads|
  {
    s.(threads := s.threads[i := s.threads[i].(pc := pc)])
  }

  /** The critical section: restart an expired entry, then count. */
  function InSection(ar: Arith, e: Entry, op: Op, read: Time, now: Time): (Entry, Entry) {
    var before := C.Refresh(Some(e), now, NewExpiry(op, read));
    match op
    case DoIncr(count, limit, _) => (before, C.Count(ar, before, count, limit))
    case DoSync(count, _) => (before, before.(count := Plus(ar, before.count, count)))
  }

  function MoveThread(ar: Arith, s: State, i: nat): (r: State)
    requires i < |s.threads|
    ensures |r.threads| == |s.threads|
  {
    var th := s.threads[i];
    match th.pc
    case Begin =>
      if th.op.DoSync? && s.now > th.op.expiry then At(s, i, Discarded) else At(s, i, Look(s.now))
    case Look(read) =>
      if th.key in s.lookup then At(s, i, Enter(read, s.lookup[th.key])) else At(s, i, Create(read))
    case Create(read) =>
      if th.key in s.lookup then At(s, i, Enter(read, s.lookup[th.key]))
      else
        var id := |s.heap|;
        var zero := C.Entry(NewExpiry(th.op, read), 0);
        At(s.(lookup := s.lookup[th.key := id], heap := s.heap + [zero]), i, Enter(read, id))
    case Enter(read, id) =>
      if id >= |s.heap| then s
      else
        var (before, after) := InSection(ar, s.heap[id], th.op, read, s.now);
        At(s.(heap := s.heap[id := after], log := s.log + [Section(i, read, s.heap[id], s.now)]), i,
           if th.op.DoIncr? then Leave(id, before, after, |s.log|) else Synced(|s.log|))
    case Leave(id, before, after, at) =>
      if id >= |s.heap| || th.op.DoSync? then s
      else
        var r := C.Reply(before, after, th.op.limit).(expiry := s.heap[id].expires);
        At(s, i, Answered(r, after.expires, at, |s.log|))
    case _ => s
  }

  function Next(ar: Arith, s: State, step: Step): (r: State)
    ensures |r.threads| == |s.threads|
  {
    match step
    case Move(i) => if i < |s.threads| then MoveThread(ar, s, i) else s
    case Tick(d) => s.(now := s.now + d)
  }

  function Run(ar: Arith, s: State, steps: seq<Step>): (r: State)
    ensures |r.threads| == |s.threads|
  {
    if steps == [] then s else Next(ar, Run(ar, s, steps[..|steps| - 1]), steps[|steps| - 1])
  }

  ghost predicate Initial(s: State) {
    && (forall k | k in s.lookup :: s.lookup[k] < |s.heap|)
    && (forall j, k | j in s.lookup && k in s.lookup && s.lookup[j] == s.lookup[k] :: j == k)
    && (forall i | 0 <= i < |s.threads| :: s.threads[i].pc == Begin)
    && s.log == []
  }

  // ---- Entries are created once and never replaced ----------------------------------------------------

  predicate Extends(a: State, b: State) {
    && a.now <= b.now
    && (forall k | k in a.lookup :: k in b.lookup && b.lookup[k] == a.lookup[k])
    && |a.heap| <= |b.heap|
    && |a.threads| == |b.threads|
    && a.log <= b.log
  }

  lemma NextExtends(ar: Arith, s: State, step: Step)
    ensures Extends(s, Next(ar, s, step))
  {
  }

  lemma ExtendsTrans(a: State, b: State, c: State)
    requires Extends(a, b) && Extends(b, c)
    ensures Extends(a, c)
  {
  }

  /** Whatever the schedule, a key keeps the entry it was first given. */
  lemma {:induction false} EntryNeverReplaced(ar: Arith, s: State, earlier: seq<Step>, later: seq<Step>)
    ensures Extends(Run(ar, s, earlier), Run(ar, s, earlier + later))
    decreases |later|
  {
    if later == [] {
      assert earlier + later == earlier;
    } else {
      var init := later[..|later| - 1];
      assert (earlier + later)[..|earlier + later| - 1] == earlier + init;
      EntryNeverReplaced(ar, s, earlier, init);
      NextExtends(ar, Run(ar, s, earlier + init), later[|later| - 1]);
      ExtendsTrans(Run(ar, s, earlier), Run(ar, s, earlier + init), Run(ar, s, earlier + later));
    }
  }

  // ---- What holds in every run --------------------------------------------------------------------------

  ghost predicate SameThreads(s0: State, s: State) {
    && |s.threads| == |s0.threads|
    && (forall i | 0 <= i < |s.threads| :: s.threads[i].key == s0.threads[i].key && s.threads[i].op == s0.threads[i].op)
  }

  /** Keys have entries of their own, and a thread about to enter holds its key's entry. */
  ghost predicate LookupOk(s: State) {
    && (forall k | k in s.lookup :: s.lookup[k] < |s.heap|)
    && (forall j, k | j in s.lookup && k in s.lookup && s.lookup[j] == s.lookup[k] :: j == k)
    && (forall i | 0 <= i < |s.threads| && (s.threads[i].pc.Enter? || s.threads[i].pc.Leave?) ::
          s.threads[i].key in s.lookup && s.lookup[s.threads[i].key] == s.threads[i].pc.id)
  }

  predicate HasReading(pc: Pc) { pc.Look? || pc.Create? || pc.Enter? }

  predicate Entered(pc: Pc) { pc.Leave? || pc.Answered? || pc.Synced? }

  /** A clock reading is from this run, and an expired remote command never gets past its own. */
  predicate ReadingOk(from: Time, now: Time, op: Op, read: Time) {
    from <= read <= now && (op.DoSync? ==> read <= op.expiry)
  }

  ghost predicate LogOk(s0: State, s: State) {
    && s0.now <= s.now
    && (forall p | 0 <= p < |s.log| :: s.log[p].now <= s.now && s.log[p].thread < |s.threads|)
    && (forall p, q | 0 <= p < q < |s.log| :: s.log[p].now <= s.log[q].now)
    // every thread runs at most one critical section, the one its counter names
    && (forall p | 0 <= p < |s.log| :: Entered(s.threads[s.log[p].thread].pc) && s.threads[s.log[p].thread].pc.at == p)
    && (forall i | 0 <= i < |s.threads| && Entered(s.threads[i].pc) ::
          s.threads[i].pc.at < |s.log| && s.log[s.threads[i].pc.at].thread == i)
  }

  ghost predicate ReadingsOk(s0: State, s: State) {
    && (forall i | 0 <= i < |s.threads| && HasReading(s.threads[i].pc) ::
          ReadingOk(s0.now, s.now, s.threads[i].op, s.threads[i].pc.read))
    && (forall p | 0 <= p < |s.log| :: s.log[p].thread < |s.threads|
          && ReadingOk(s0.now, s.log[p].now, s.threads[s.log[p].thread].op, s.log[p].read))
  }

  ghost predicate Shape(s0: State, s: State) {
    SameThreads(s0, s) && LookupOk(s) && LogOk(s0, s) && ReadingsOk(s0, s)
  }

  lemma LookupKept(ar: Arith, s: State, i: nat)
    requires LookupOk(s) && i < |s.threads|
    ensures LookupOk(MoveThread(ar, s, i))
  {
    hide NewExpiry, InSection;
  }

  /** A step outside critical sections. */
  lemma WalkLog(ar: Arith, s: State, i: nat)
    requires i < |s.threads| && !s.threads[i].pc.Enter?
    ensures var s' := MoveThread(ar, s, i);
            && s'.log == s.log && s'.now == s.now && |s'.threads| == |s.threads|
            && (forall j | 0 <= j < |s.threads| && j != i :: s'.threads[j] == s.threads[j])
            && s'.threads[i].op == s.threads[i].op && s'.threads[i].key == s.threads[i].key
            && (Entered(s'.threads[i].pc) <==> Entered(s.threads[i].pc))
            && (Entered(s.threads[i].pc) ==> s'.threads[i].pc.at == s.threads[i].pc.at)
            && (HasReading(s.threads[i].pc) ==> HasReading(s'.threads[i].pc))
            && (HasReading(s'.threads[i].pc) ==>
                  if HasReading(s.threads[i].pc) then s'.threads[i].pc.read == s.threads[i].pc.read
                  else s'.threads[i].pc.read == s.now && (s.threads[i].op.DoSync? ==> s.now <= s.threads[i].op.expiry))
  {
    hide InSection, NewExpiry;
  }

  lemma SectionLog(ar: Arith, s: State, i: nat)
    requires LookupOk(s) && i < |s.threads| && s.threads[i].pc.Enter?
    ensures var s' := MoveThread(ar, s, i);
            var pc := s.threads[i].pc;
            && pc.id < |s.heap|
            && s'.log == s.log + [Section(i, pc.read, s.heap[pc.id], s.now)] && s'.now == s.now
            && |s'.threads| == |s.threads| && s'.lookup == s.lookup
            && (forall j | 0 <= j < |s.threads| && j != i :: s'.threads[j] == s.threads[j])
            && s'.threads[i].op == s.threads[i].op && s'.threads[i].key == s.threads[i].key
            && Entered(s'.threads[i].pc) && s'.threads[i].pc.at == |s.log|
  {
    hide InSection;
  }

  lemma LogKept(ar: Arith, s0: State, s: State, i: nat)
    requires LookupOk(s) && LogOk(s0, s) && i < |s.threads|
    ensures LogOk(s0, MoveThread(ar, s, i))
  {
    hide MoveThread;
    if s.threads[i].pc.Enter? {
      SectionLog(ar, s, i);
    } else {
      WalkLog(ar, s, i);
    }
  }

  lemma ReadingsKept(ar: Arith, s0: State, s: State, i: nat)
    requires LookupOk(s) && LogOk(s0, s) && ReadingsOk(s0, s) && i < |s.threads|
    ensures ReadingsOk(s0, MoveThread(ar, s, i))
  {
    hide MoveThread;
    if s.threads[i].pc.Enter? {
      SectionLog(ar, s, i);
    } else {
      WalkLog(ar, s, i);
    }
  }

  lemma ThreadsKept(ar: Arith, s0: State, s: State, i: nat)
    requires SameThreads(s0, s) && i < |s.threads|
    ensures SameThreads(s0, MoveThread(ar, s, i))
  {
    hide InSection;
  }

  lemma ShapeKept(ar: Arith, s0: State, s: State, step: Step)
    requires Shape(s0, s)
    ensures Shape(s0, Next(ar, s, step))
  {
    hide MoveThread, LookupOk, LogOk, SameThreads, ReadingsOk;
    match step
    case Tick(d) => TickKeepsShape(s0, s, d);
    case Move(i) =>
      if i < |s.threads| {
        ThreadsKept(ar, s0, s, i);
        LookupKept(ar, s, i);
        LogKept(ar, s0, s, i);
        ReadingsKept(ar, s0, s, i);
      }
  }

  lemma TickKeepsShape(s0: State, s: State, d: nat)
    requires Shape(s0, s)
    ensures Shape(s0, s.(now := s.now + d))
  {
  }

  lemma {:induction false} RunShape(ar: Arith, s0: State, steps: seq<Step>)
    requires Initial(s0)
    ensures Shape(s0, Run(ar, s0, steps))
  {
    if steps != [] {
      hide Shape;
      RunShape(ar, s0, steps[..|steps| - 1]);
      ShapeKept(ar, s0, Run(ar, s0, steps[..|steps| - 1]), steps[|steps| - 1]);
    } else {
      assert Shape(s0, s0);
    }
  }

  // ---- One key's entry -----------------------------------------------------------------------------------

  function Current(s: State, key: string): Option<Entry> {
    if key in s.lookup && s.lookup[key] < |s.heap| then Some(s.heap[s.lookup[key]]) else None
  }

  /** A section of the key. */
  predicate Mine(threads: seq<Thread>, sec: Section, key: string) {
    sec.thread < |threads| && threads[sec.thread].key == key
  }

  /** Outside critical sections a key's entry stays what it is, or is created with nothing counted. */
  lemma WalkCurrent(ar: Arith, s: State, i: nat, key: string)
    requires LookupOk(s) && i < |s.threads| && !s.threads[i].pc.Enter?
    ensures var cur, cur' := Current(s, key), Current(MoveThread(ar, s, i), key);
            cur' == cur || (cur == None && s.threads[i].key == key && s.threads[i].pc.Create?
                            && cur' == Some(C.Entry(NewExpiry(s.threads[i].op, s.threads[i].pc.read), 0)))
  {
    hide NewExpiry, InSection;
  }

  /** The section leaves its thread's key with its outcome, and other keys alone. */
  lemma SectionEntry(ar: Arith, s: State, i: nat, key: string)
    requires LookupOk(s) && i < |s.threads| && s.threads[i].pc.Enter?
    ensures var s' := MoveThread(ar, s, i);
            var (th, pc) := (s.threads[i], s'.threads[i].pc);
            && th.pc.id < |s.heap|
            && (th.key != key ==> Current(s', key) == Current(s, key))
            && (th.key == key ==>
                  && Current(s, key) == Some(s.heap[th.pc.id])
                  && Current(s', key) == Some(InSection(ar, s.heap[th.pc.id], th.op, th.pc.read, s.now).1))
            && !pc.Answered?
            && (pc.Leave? ==> pc.after == InSection(ar, s.heap[th.pc.id], th.op, th.pc.read, s.now).1)
  {
    hide InSection;
  }

  // ---- No remote command is dropped before it expires --------------------------------------------------------

  ghost predicate DiscardsOk(s: State) {
    forall i | 0 <= i < |s.threads| && s.threads[i].pc.Discarded? ::
      s.threads[i].op.DoSync? && s.threads[i].op.expiry < s.now
  }

  lemma DiscardsKept(ar: Arith, s: State, step: Step)
    requires DiscardsOk(s)
    ensures DiscardsOk(Next(ar, s, step))
  {
    hide InSection, NewExpiry;
  }

  /** In every run, a discarded remote command has expired, and one that was let through had not when its receiver read
      the clock. */
  lemma {:induction false} OnlyExpiredDiscarded(ar: Arith, s0: State, steps: seq<Step>, i: nat)
    requires Initial(s0) && i < |s0.threads|
    ensures var th := Run(ar, s0, steps).threads[i];
            && (th.pc.Discarded? ==> th.op.DoSync? && th.op.expiry < Run(ar, s0, steps).now)
            && (HasReading(th.pc) && th.op.DoSync? ==> th.pc.read <= th.op.expiry)
  {
    RunShape(ar, s0, steps);
    RunDiscards(ar, s0, steps);
  }

  lemma {:induction false} RunDiscards(ar: Arith, s0: State, steps: seq<Step>)
    requires Initial(s0)
    ensures DiscardsOk(Run(ar, s0, steps))
  {
    if steps != [] {
      hide DiscardsOk;
      RunDiscards(ar, s0, steps[..|steps| - 1]);
      DiscardsKept(ar, Run(ar, s0, steps[..|steps| - 1]), steps[|steps| - 1]);
    } else {
      assert DiscardsOk(s0);
    }
  }

  // ---- A thread moved alone ----------------------------------------------------------------------------------------

  /** Thread i runs from its beginning to its end, undisturbed. It takes five moves when it creates the entry. */
  function Alone(ar: Arith, s: State, i: nat): State
    requires i < |s.threads|
  {
    var found := MoveThread(ar, MoveThread(ar, s, i), i);
    MoveThread(ar, MoveThread(ar, MoveThread(ar, found, i), i), i)
  }

  /** The first moves read the clock and find or create the entry. */
  lemma FindsEntry(ar: Arith, s: State, i: nat)
    requires LookupOk(s) && i < |s.threads| && s.threads[i].pc.Begin?
    requires s.threads[i].op.DoSync? ==> s.now <= s.threads[i].op.expiry
    ensures var th := s.threads[i];
            var a := MoveThread(ar, MoveThread(ar, s, i), i);
            if th.key in s.lookup then a == At(s, i, Enter(s.now, s.lookup[th.key]))
            else
              && a == At(s, i, Create(s.now))
              && MoveThread(ar, a, i)
                 == At(s.(lookup := s.lookup[th.key := |s.heap|],
                          heap := s.heap + [C.Entry(NewExpiry(th.op, s.now), 0)]), i, Enter(s.now, |s.heap|))
  {
    hide NewExpiry, InSection;
    var th := s.threads[i];
    var look := At(s, i, Look(s.now));
    assert MoveThread(ar, s, i) == look && look.threads[i] == th.(pc := Look(s.now));
    Overwrite(s, i, Look(s.now), Create(s.now));
    if th.key in s.lookup {
      Overwrite(s, i, Look(s.now), Enter(s.now, s.lookup[th.key]));
    } else {
      var made := s.(lookup := s.lookup[th.key := |s.heap|], heap := s.heap + [C.Entry(NewExpiry(th.op, s.now), 0)]);
      Overwrite(made, i, Create(s.now), Enter(s.now, |s.heap|));
    }
  }

  lemma Overwrite(s: State, i: nat, pc: Pc, later: Pc)
    requires i < |s.threads|
    ensures At(At(s, i, pc), i, later) == At(s, i, later) && At(s, i, pc).threads[i] == s.threads[i].(pc := pc)
  {
    var last := s.threads[i].(pc := later);
    assert s.threads[i := s.threads[i].(pc := pc)][i := last] == s.threads[i := last];
  }

  /** Where a thread ends that is about to enter. */
  function Finished(ar: Arith, s: State, i: nat, id: nat): State
    requires i < |s.threads| && id < |s.heap|
  {
    var op := s.threads[i].op;
    var (before, after) := InSection(ar, s.heap[id], op, s.now, s.now);
    var over := s.(heap := s.heap[id := after], log := s.log + [Section(i, s.now, s.heap[id], s.now)]);
    At(over, i,
       if op.DoIncr? then Answered(C.Reply(before, after, op.limit), after.expires, |s.log|, |s.log| + 1)
       else Synced(|s.log|))
  }

  lemma Finishes(ar: Arith, s: State, i: nat, id: nat)
    requires i < |s.threads| && id < |s.heap|
    ensures var b := At(s, i, Enter(s.now, id));
            && MoveThread(ar, MoveThread(ar, b, i), i) == Finished(ar, s, i, id)
            && MoveThread(ar, Finished(ar, s, i, id), i) == Finished(ar, s, i, id)
  {
    hide InSection;
    var op := s.threads[i].op;
    var (before, after) := InSection(ar, s.heap[id], op, s.now, s.now);
    var over := s.(heap := s.heap[id := after], log := s.log + [Section(i, s.now, s.heap[id], s.now)]);
    assert At(s, i, Enter(s.now, id)).threads[i] == s.threads[i].(pc := Enter(s.now, id));
    if op.DoIncr? {
      var leave := Leave(id, before, after, |s.log|);
      Overwrite(over, i, Enter(s.now, id), leave);
      Overwrite(over, i, leave, Answered(C.Reply(before, after, op.limit), after.expires, |s.log|, |s.log| + 1));
    } else {
      Overwrite(over, i, Enter(s.now, id), Synced(|s.log|));
    }
  }

  /** A section right after its clock reading is the atomic operation, on the entry found or on one just made. */
  lemma SectionAtOnce(ar: Arith, o: Option<Entry>, op: Op, now: Time)
    requires op.DoSync? ==> now <= op.expiry
    ensures var e := if o.Some? then o.value else C.Entry(NewExpiry(op, now), 0);
            var (before, after) := InSection(ar, e, op, now, now);
            match op
            case DoIncr(count, limit, window) =>
              C.Incr(ar, o, now, count, limit, window) == (after, C.Reply(before, after, limit))
              && C.Reply(before, after, limit).expiry == after.expires
            case DoSync(count, expiry) => C.Sync(ar, o, now, count, expiry) == Some(after)
  {
    if op.DoIncr? {
      C.GenExpiryAhead(now, op.window);
    }
    hide C.GenExpiry;
  }

  lemma AloneFinishes(ar: Arith, s: State, i: nat)
    requires LookupOk(s) && i < |s.threads| && s.threads[i].pc.Begin?
    requires s.threads[i].op.DoSync? ==> s.now <= s.threads[i].op.expiry
    ensures var th := s.threads[i];
            var made := if th.key in s.lookup then s
                        else s.(lookup := s.lookup[th.key := |s.heap|],
                                heap := s.heap + [C.Entry(NewExpiry(th.op, s.now), 0)]);
            made.lookup[th.key] < |made.heap| && Alone(ar, s, i) == Finished(ar, made, i, made.lookup[th.key])
  {
    hide MoveThread, Finished, NewExpiry;
    var th := s.threads[i];
    FindsEntry(ar, s, i);
    if th.key in s.lookup {
      Finishes(ar, s, i, s.lookup[th.key]);
    } else {
      var made := s.(lookup := s.lookup[th.key := |s.heap|], heap := s.heap + [C.Entry(NewExpiry(th.op, s.now), 0)]);
      Finishes(ar, made, i, |s.heap|);
    }
  }

  /** A call or a remote command that runs undisturbed is the atomic one: it ends answered, applied or, if expired,
      discarded; its key's entry is what the counter makes of it; and no other key's entry changes. */
  lemma AloneIsAtomic(ar: Arith, s: State, i: nat, other: string)
    requires LookupOk(s) && i < |s.threads| && s.threads[i].pc.Begin? && other != s.threads[i].key
    ensures var (th, s') := (s.threads[i], Alone(ar, s, i));
            && i < |s'.threads| && s'.now == s.now && Current(s', other) == Current(s, other)
            && match th.op
               case DoIncr(count, limit, window) =>
                 var (e, r) := C.Incr(ar, Current(s, th.key), s.now, count, limit, window);
                 && Current(s', th.key) == Some(e)
                 && s'.threads[i].pc.Answered? && s'.threads[i].pc.r == r
               case DoSync(count, expiry) =>
                 && Current(s', th.key) == C.Sync(ar, Current(s, th.key), s.now, count, expiry)
                 && if s.now > expiry then s'.threads[i].pc.Discarded? else s'.threads[i].pc.Synced?
  {
    var th := s.threads[i];
    if th.op.DoSync? && s.now > th.op.expiry {
      assert MoveThread(ar, s, i) == At(s, i, Discarded);
      assert MoveThread(ar, At(s, i, Discarded), i) == At(s, i, Discarded);
    } else {
      hide Alone, MoveThread, InSection, C.Incr, C.Sync, C.Reply, NewExpiry;
      AloneFinishes(ar, s, i);
      SectionAtOnce(ar, Current(s, th.key), th.op, s.now);
    }
  }

  // ---- Real time -----------------------------------------------------------------------------------------

  /** Critical sections run within their calls: one that was over before another began comes before it in the order. */
  lemma RealTimeOrder(ar: Arith, s0: State, earlier: seq<Step>, later: seq<Step>, i: nat, j: nat)
    requires Initial(s0) && i < |s0.threads| && j < |s0.threads|
    requires Entered(Run(ar, s0, earlier).threads[i].pc) && !Entered(Run(ar, s0, earlier).threads[j].pc)
    requires Entered(Run(ar, s0, earlier + later).threads[j].pc)
    ensures var s := Run(ar, s0, earlier + later);
            Entered(s.threads[i].pc) && s.threads[i].pc.at < s.threads[j].pc.at
  {
    var a, b := Run(ar, s0, earlier), Run(ar, s0, earlier + later);
    RunShape(ar, s0, earlier);
    RunShape(ar, s0, earlier + later);
    EntryNeverReplaced(ar, s0, earlier, later);
    assert b.log[a.threads[i].pc.at] == a.log[a.threads[i].pc.at];
  }
}
