/** How much concurrent callers are granted: the limit holds while no call restarts the entry under a past expiry. */
module Grants {
  import opened Base
  import opened Locks
  import C = Counter

  /** What a thread's call has been granted in the window that ends at `expiry`, once its critical section is over. */
  function Granted(th: Thread, key: string, expiry: int): int {
    if th.key != key || th.op.DoSync? then 0
    else match th.pc
      case Leave(_, before, after, _) =>
        if C.Reply(before, after, th.op.limit).blocked || after.expires != expiry then 0 else th.op.count
      case Answered(r, own, _, _) => if r.blocked || own != expiry then 0 else th.op.count
      case _ => 0
  }

  function TotalGranted(s: State, key: string, expiry: int): int {
    Sum(|s.threads|, (i: nat) => if i < |s.threads| then Granted(s.threads[i], key, expiry) else 0)
  }

  lemma GrantBumps(s: State, s': State, key: string, expiry: int, i: nat)
    requires i < |s.threads| && |s'.threads| == |s.threads|
    requires forall j | 0 <= j < |s.threads| && j != i :: s'.threads[j] == s.threads[j]
    ensures TotalGranted(s', key, expiry)
         == TotalGranted(s, key, expiry) + Granted(s'.threads[i], key, expiry) - Granted(s.threads[i], key, expiry)
  {
    SumBump(|s.threads|,
            (j: nat) => if j < |s.threads| then Granted(s.threads[j], key, expiry) else 0,
            (j: nat) => if j < |s'.threads| then Granted(s'.threads[j], key, expiry) else 0,
            i, Granted(s'.threads[i], key, expiry) - Granted(s.threads[i], key, expiry));
  }

  lemma NothingGranted(s: State, key: string, expiry: int)
    requires forall i | 0 <= i < |s.threads| :: Granted(s.threads[i], key, expiry) == 0
    ensures TotalGranted(s, key, expiry) == 0
  {
    SumZero(|s.threads|, (i: nat) => if i < |s.threads| then Granted(s.threads[i], key, expiry) else 0);
  }

  /** Calls on the key use one limit and count upwards. */
  ghost predicate Limited(s0: State, key: string, limit: int) {
    forall i | 0 <= i < |s0.threads| && s0.threads[i].key == key ::
      s0.threads[i].op.count >= 0 && (s0.threads[i].op.DoIncr? ==> s0.threads[i].op.limit == limit)
  }

  /** No call restarts the key's entry under an expiry that is past already. */
  ghost predicate RestartsAhead(s0: State, log: seq<Section>, key: string) {
    forall p | 0 <= p < |log| && Mine(s0.threads, log[p], key) && s0.threads[log[p].thread].op.DoIncr? ::
      RestartAhead(s0.threads[log[p].thread].op, log[p])
  }

  predicate RestartAhead(op: Op, sec: Section)
    requires op.DoIncr?
  {
    C.Expired(sec.found, sec.now) ==> C.GenExpiry(sec.read, op.window) >= sec.now
  }

  /** What the entry already held for the window that ends at `expiry`. */
  function Start(o: Option<Entry>, expiry: int): int {
    if o.Some? && o.value.expires == expiry then o.value.count else 0
  }

  /** The most that can be granted for that window. */
  function Allowance(s0: State, key: string, limit: int, expiry: int): nat {
    if expiry < s0.now then 0 else Max0(limit - Start(Current(s0, key), expiry))
  }

  /** Until its window is over, the entry holds at least what was granted in it. */
  ghost predicate Covered(s0: State, s: State, key: string, limit: int, expiry: int, granted: int) {
    var start, cur := Start(Current(s0, key), expiry), Current(s, key);
    && 0 <= granted <= Allowance(s0, key, limit, expiry)
    && (s.now <= expiry ==>
          if cur.Some? && cur.value.expires == expiry then cur.value.count >= start + granted
          else granted == 0 && start == 0)
  }

  /** What one section grants, for the entry it finds and leaves. */
  lemma SectionCovered(o: Option<Entry>, op: Op, sec: Section, limit: int, from: Time, granted: int, expiry: int)
    requires op.count >= 0 && (op.DoIncr? ==> op.limit == limit && RestartAhead(op, sec)) && from <= sec.now
    requires 0 <= granted <= if expiry < from then 0 else Max0(limit - Start(o, expiry))
    requires sec.now <= expiry ==>
               if sec.found.expires == expiry then sec.found.count >= Start(o, expiry) + granted
               else granted == 0 && Start(o, expiry) == 0
    ensures var (before, after) := InSection(Unbounded, sec.found, op, sec.read, sec.now);
            var g := granted + if op.DoIncr? && !C.Reply(before, after, limit).blocked && after.expires == expiry
                               then op.count else 0;
            && 0 <= g <= (if expiry < from then 0 else Max0(limit - Start(o, expiry)))
            && (sec.now <= expiry ==>
                  if after.expires == expiry then after.count >= Start(o, expiry) + g
                  else g == 0 && Start(o, expiry) == 0)
  {
    hide C.GenExpiry;
  }

  lemma SectionGrants(s0: State, s: State, key: string, limit: int, expiry: int, i: nat)
    requires Shape(s0, s) && Limited(s0, key, limit) && Covered(s0, s, key, limit, expiry, TotalGranted(s, key, expiry))
    requires i < |s.threads| && s.threads[i].pc.Enter?
    requires RestartsAhead(s0, MoveThread(Unbounded, s, i).log, key)
    ensures var s' := MoveThread(Unbounded, s, i);
            Covered(s0, s', key, limit, expiry, TotalGranted(s', key, expiry))
  {
    hide MoveThread, InSection, ReadingsOk, TotalGranted, RestartAhead, C.Reply;
    var s' := MoveThread(Unbounded, s, i);
    SectionLog(Unbounded, s, i);
    SectionEntry(Unbounded, s, i, key);
    GrantBumps(s, s', key, expiry, i);
    var sec := s'.log[|s.log|];
    if s.threads[i].key == key {
      assert Mine(s0.threads, sec, key);
      SectionPc(s, i);
      SectionCovered(Current(s0, key), s.threads[i].op, sec, limit, s0.now, TotalGranted(s, key, expiry), expiry);
    }
  }

  lemma SectionPc(s: State, i: nat)
    requires LookupOk(s) && i < |s.threads| && s.threads[i].pc.Enter?
    ensures var (th, pc) := (s.threads[i], MoveThread(Unbounded, s, i).threads[i].pc);
            && th.pc.id < |s.heap|
            && (pc.Leave? <==> th.op.DoIncr?)
            && (pc.Leave? ==> (pc.before, pc.after) == InSection(Unbounded, s.heap[th.pc.id], th.op, th.pc.read, s.now))
  {
    hide InSection;
  }

  lemma WalkGrants(s0: State, s: State, key: string, limit: int, expiry: int, i: nat)
    requires LookupOk(s) && Covered(s0, s, key, limit, expiry, TotalGranted(s, key, expiry))
    requires i < |s.threads| && !s.threads[i].pc.Enter?
    ensures var s' := MoveThread(Unbounded, s, i);
            Covered(s0, s', key, limit, expiry, TotalGranted(s', key, expiry))
  {
    hide MoveThread, TotalGranted;
    var s' := MoveThread(Unbounded, s, i);
    WalkLog(Unbounded, s, i);
    WalkCurrent(Unbounded, s, i, key);
    GrantBumps(s, s', key, expiry, i);
    WalkGrantsNothing(s, key, expiry, i);
  }

  lemma WalkGrantsNothing(s: State, key: string, expiry: int, i: nat)
    requires i < |s.threads| && !s.threads[i].pc.Enter?
    ensures Granted(MoveThread(Unbounded, s, i).threads[i], key, expiry) == Granted(s.threads[i], key, expiry)
  {
    hide C.GenExpiry, InSection, NewExpiry;
  }

  lemma TickGrants(s0: State, s: State, key: string, limit: int, expiry: int, d: nat)
    requires Covered(s0, s, key, limit, expiry, TotalGranted(s, key, expiry))
    ensures var s' := Next(Unbounded, s, Tick(d));
            Covered(s0, s', key, limit, expiry, TotalGranted(s', key, expiry))
  {
    var s' := Next(Unbounded, s, Tick(d));
    SumEqual(|s.threads|, (i: nat) => if i < |s.threads| then Granted(s.threads[i], key, expiry) else 0,
             (i: nat) => if i < |s'.threads| then Granted(s'.threads[i], key, expiry) else 0);
  }

  lemma {:induction false} RunGrants(s0: State, key: string, limit: int, steps: seq<Step>, expiry: int)
    requires Initial(s0) && Limited(s0, key, limit) && RestartsAhead(s0, Run(Unbounded, s0, steps).log, key)
    ensures var s := Run(Unbounded, s0, steps); Covered(s0, s, key, limit, expiry, TotalGranted(s, key, expiry))
  {
    if steps == [] {
      NothingGranted(s0, key, expiry);
    } else {
      hide Covered, Limited, TotalGranted, Initial;
      var init, last := steps[..|steps| - 1], steps[|steps| - 1];
      var s := Run(Unbounded, s0, init);
      NextExtends(Unbounded, s, last);
      assert forall p | 0 <= p < |s.log| :: s.log[p] == Next(Unbounded, s, last).log[p];
      RunShape(Unbounded, s0, init);
      RunGrants(s0, key, limit, init, expiry);
      match last
      case Tick(d) => TickGrants(s0, s, key, limit, expiry, d);
      case Move(i) =>
        if i < |s.threads| {
          if s.threads[i].pc.Enter? {
            SectionGrants(s0, s, key, limit, expiry, i);
          } else {
            WalkGrants(s0, s, key, limit, expiry, i);
          }
        }
    }
  }

  /** Any number of threads interleaved in any way, over any number of windows of any lengths and with remote commands
      at any time, are granted in each window no more than the limit, or than the room its entry had left at the
      start, as long as no call restarts the entry under an expiry that is past already. */
  lemma ConcurrentCallsWithinLimit(s0: State, key: string, limit: int, steps: seq<Step>, expiry: int)
    requires Initial(s0) && Limited(s0, key, limit)
    requires RestartsAhead(s0, Run(Unbounded, s0, steps).log, key)
    ensures 0 <= TotalGranted(Run(Unbounded, s0, steps), key, expiry) <= Allowance(s0, key, limit, expiry)
  {
    RunGrants(s0, key, limit, steps, expiry);
  }
}
