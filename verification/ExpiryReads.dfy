/** The expiry a call answers with, which it reads after leaving its critical section. */
module ExpiryReads {
  import opened Base
  import opened Locks
  import opened Linearization
  import C = Counter

  /** The key's entry after the first p critical sections, none while nobody has worked on it. */
  function EntryAt(ar: Arith, s0: State, log: seq<Section>, key: string, p: nat): Option<Entry>
    requires p <= |log|
  {
    if p == 0 then Current(s0, key)
    else
      var sec := log[p - 1];
      if Mine(s0.threads, sec, key)
      then Some(InSection(ar, sec.found, s0.threads[sec.thread].op, sec.read, sec.now).1)
      else EntryAt(ar, s0, log, key, p - 1)
  }

  lemma {:induction false} EntryAtStable(
    ar: Arith, s0: State, log: seq<Section>, longer: seq<Section>, key: string, p: nat)
    requires log <= longer && p <= |log|
    ensures EntryAt(ar, s0, longer, key, p) == EntryAt(ar, s0, log, key, p)
  {
    hide InSection;
    if p > 0 {
      EntryAtStable(ar, s0, log, longer, key, p - 1);
    }
  }

  lemma EntryAtNext(ar: Arith, s0: State, log: seq<Section>, sec: Section, key: string)
    ensures EntryAt(ar, s0, log + [sec], key, |log|) == EntryAt(ar, s0, log, key, |log|)
    ensures EntryAt(ar, s0, log + [sec], key, |log| + 1)
         == if Mine(s0.threads, sec, key)
            then Some(InSection(ar, sec.found, s0.threads[sec.thread].op, sec.read, sec.now).1)
            else EntryAt(ar, s0, log, key, |log|)
  {
    EntryAtStable(ar, s0, log, log + [sec], key, |log|);
  }

  ghost predicate ExpiryOk(ar: Arith, s0: State, s: State, key: string, th: Thread) {
    match th.pc
    case Leave(_, _, after, at) => at < |s.log| && EntryAt(ar, s0, s.log, key, at + 1) == Some(after)
    case Answered(r, own, at, seen) =>
      && at < seen <= |s.log|
      && EntryAt(ar, s0, s.log, key, at + 1).Some? && EntryAt(ar, s0, s.log, key, at + 1).value.expires == own
      && EntryAt(ar, s0, s.log, key, seen).Some? && EntryAt(ar, s0, s.log, key, seen).value.expires == r.expiry
    case _ => true
  }

  /** Every section finds the entry as the one before it left it, and calls answer with what they find. */
  ghost predicate Chained(ar: Arith, s0: State, s: State, key: string) {
    && Shape(s0, s)
    && (EntryAt(ar, s0, s.log, key, |s.log|).Some? ==> Current(s, key) == EntryAt(ar, s0, s.log, key, |s.log|))
    && (forall q | 0 <= q < |s.log| && Mine(s0.threads, s.log[q], key) && EntryAt(ar, s0, s.log, key, q).Some? ::
          s.log[q].found == EntryAt(ar, s0, s.log, key, q).value)
    && (forall i | 0 <= i < |s.threads| && s.threads[i].key == key :: ExpiryOk(ar, s0, s, key, s.threads[i]))
  }

  lemma {:induction false} StaysSome(ar: Arith, s0: State, log: seq<Section>, key: string, p: nat, q: nat)
    requires p <= q <= |log| && EntryAt(ar, s0, log, key, p).Some?
    ensures EntryAt(ar, s0, log, key, q).Some?
    decreases q - p
  {
    if p < q {
      StaysSome(ar, s0, log, key, p, q - 1);
    }
  }

  lemma WalkChained(ar: Arith, s0: State, s: State, key: string, i: nat)
    requires Chained(ar, s0, s, key) && i < |s.threads| && !s.threads[i].pc.Enter?
    ensures Chained(ar, s0, MoveThread(ar, s, i), key)
  {
    hide MoveThread, EntryAt, LogOk, ReadingsOk, SameThreads;
    var s' := MoveThread(ar, s, i);
    ShapeKept(ar, s0, s, Move(i));
    WalkLog(ar, s, i);
    WalkCurrent(ar, s, i, key);
    if s.threads[i].key == key {
      assert ExpiryOk(ar, s0, s, key, s.threads[i]);
      WalkExpiry(ar, s0, s, key, i);
    }
    forall j | 0 <= j < |s'.threads| && s'.threads[j].key == key
      ensures ExpiryOk(ar, s0, s', key, s'.threads[j])
    {
      assert s.threads[j].key == key;
      assert ExpiryOk(ar, s0, s, key, s.threads[j]);
    }
  }

  lemma WalkExpiry(ar: Arith, s0: State, s: State, key: string, i: nat)
    requires Chained(ar, s0, s, key) && i < |s.threads| && !s.threads[i].pc.Enter? && s.threads[i].key == key
    ensures ExpiryOk(ar, s0, MoveThread(ar, s, i), key, MoveThread(ar, s, i).threads[i])
  {
    hide EntryAt, InSection, NewExpiry, LogOk, ReadingsOk, SameThreads;
    assert ExpiryOk(ar, s0, s, key, s.threads[i]);
    if s.threads[i].pc.Leave? {
      StaysSome(ar, s0, s.log, key, s.threads[i].pc.at + 1, |s.log|);
    }
  }

  /** What the sections before found is still what they found; the new one finds what the last of the key left. */
  lemma FoundChained(ar: Arith, s0: State, log: seq<Section>, sec: Section, key: string)
    requires forall q | 0 <= q < |log| && Mine(s0.threads, log[q], key) && EntryAt(ar, s0, log, key, q).Some? ::
               log[q].found == EntryAt(ar, s0, log, key, q).value
    requires Mine(s0.threads, sec, key) && EntryAt(ar, s0, log, key, |log|).Some? ==>
               sec.found == EntryAt(ar, s0, log, key, |log|).value
    ensures var log' := log + [sec];
            forall q | 0 <= q < |log'| && Mine(s0.threads, log'[q], key) && EntryAt(ar, s0, log', key, q).Some? ::
              log'[q].found == EntryAt(ar, s0, log', key, q).value
  {
    hide EntryAt, Mine;
    var log' := log + [sec];
    forall q | 0 <= q < |log'| && Mine(s0.threads, log'[q], key) && EntryAt(ar, s0, log', key, q).Some?
      ensures log'[q].found == EntryAt(ar, s0, log', key, q).value
    {
      EntryAtStable(ar, s0, log, log', key, if q < |log| then q else |log|);
    }
  }

  lemma ThreadsChained(ar: Arith, s0: State, s: State, key: string, i: nat)
    requires Chained(ar, s0, s, key) && i < |s.threads| && s.threads[i].pc.Enter?
    ensures var s' := MoveThread(ar, s, i);
            forall j | 0 <= j < |s'.threads| && s'.threads[j].key == key :: ExpiryOk(ar, s0, s', key, s'.threads[j])
  {
    hide MoveThread, InSection, LogOk, ReadingsOk, LookupOk, EntryAt;
    var s' := MoveThread(ar, s, i);
    SectionLog(ar, s, i);
    forall j | 0 <= j < |s'.threads| && s'.threads[j].key == key
      ensures ExpiryOk(ar, s0, s', key, s'.threads[j])
    {
      assert ExpiryOk(ar, s0, s, key, s.threads[j]);
      if j == i {
        SectionEntry(ar, s, i, key);
        EntryAtNext(ar, s0, s.log, s'.log[|s.log|], key);
      } else {
        ExpiryStable(ar, s0, s, s', key, j);
      }
    }
  }

  lemma SectionChained(ar: Arith, s0: State, s: State, key: string, i: nat)
    requires Chained(ar, s0, s, key) && i < |s.threads| && s.threads[i].pc.Enter?
    ensures Chained(ar, s0, MoveThread(ar, s, i), key)
  {
    hide MoveThread, InSection, LogOk, ReadingsOk, LookupOk, EntryAt, ExpiryOk;
    ShapeKept(ar, s0, s, Move(i));
    SectionLog(ar, s, i);
    SectionEntry(ar, s, i, key);
    var sec := MoveThread(ar, s, i).log[|s.log|];
    EntryAtNext(ar, s0, s.log, sec, key);
    FoundChained(ar, s0, s.log, sec, key);
    ThreadsChained(ar, s0, s, key, i);
  }

  lemma ExpiryStable(ar: Arith, s0: State, s: State, s': State, key: string, j: nat)
    requires s.log <= s'.log && j < |s.threads| && ExpiryOk(ar, s0, s, key, s.threads[j])
    ensures ExpiryOk(ar, s0, s', key, s.threads[j])
  {
    hide EntryAt;
    match s.threads[j].pc
    case Leave(_, _, _, at) => EntryAtStable(ar, s0, s.log, s'.log, key, at + 1);
    case Answered(_, _, at, seen) =>
      EntryAtStable(ar, s0, s.log, s'.log, key, at + 1);
      EntryAtStable(ar, s0, s.log, s'.log, key, seen);
    case _ =>
  }

  lemma {:induction false} RunChained(ar: Arith, s0: State, key: string, steps: seq<Step>)
    requires Initial(s0)
    ensures Chained(ar, s0, Run(ar, s0, steps), key)
  {
    if steps == [] {
      RunShape(ar, s0, []);
    } else {
      hide Chained, Initial;
      var init, last := steps[..|steps| - 1], steps[|steps| - 1];
      var s := Run(ar, s0, init);
      RunChained(ar, s0, key, init);
      match last
      case Tick(d) => TickChained(ar, s0, s, key, d);
      case Move(i) =>
        if i < |s.threads| {
          if s.threads[i].pc.Enter? {
            SectionChained(ar, s0, s, key, i);
          } else {
            WalkChained(ar, s0, s, key, i);
          }
        }
    }
  }

  lemma TickChained(ar: Arith, s0: State, s: State, key: string, d: nat)
    requires Chained(ar, s0, s, key)
    ensures Chained(ar, s0, Next(ar, s, Tick(d)), key)
  {
    ShapeKept(ar, s0, s, Tick(d));
    var s' := Next(ar, s, Tick(d));
    forall j | 0 <= j < |s'.threads| && s'.threads[j].key == key
      ensures ExpiryOk(ar, s0, s', key, s'.threads[j])
    {
      assert ExpiryOk(ar, s0, s, key, s.threads[j]);
    }
  }

  /** The section of the key at position q restarts its entry under another expiry. */
  ghost predicate Moves(s0: State, log: seq<Section>, key: string, q: nat)
    requires q < |log|
  {
    && Mine(s0.threads, log[q], key) && C.Expired(log[q].found, log[q].now)
    && NewExpiry(s0.threads[log[q].thread].op, log[q].read) != log[q].found.expires
  }

  /** No section restarts the entry under an earlier expiry than it had. */
  ghost predicate Forward(s0: State, log: seq<Section>, key: string) {
    forall q | 0 <= q < |log| && Moves(s0, log, key, q) ::
      NewExpiry(s0.threads[log[q].thread].op, log[q].read) > log[q].found.expires
  }

  lemma OneSection(ar: Arith, s0: State, s: State, key: string, p: nat)
    requires Chained(ar, s0, s, key) && p < |s.log| && EntryAt(ar, s0, s.log, key, p).Some?
    ensures var o, o' := EntryAt(ar, s0, s.log, key, p), EntryAt(ar, s0, s.log, key, p + 1);
            && o'.Some?
            && (o'.value.expires == o.value.expires <==> !Moves(s0, s.log, key, p))
            && (Forward(s0, s.log, key) ==> o'.value.expires >= o.value.expires)
  {
    hide Shape, C.GenExpiry;
  }

  lemma {:induction false} ExpiryMoves(ar: Arith, s0: State, s: State, key: string, a: nat, b: nat)
    requires Chained(ar, s0, s, key)
    requires a <= b <= |s.log| && EntryAt(ar, s0, s.log, key, a).Some?
    ensures var o, o' := EntryAt(ar, s0, s.log, key, a), EntryAt(ar, s0, s.log, key, b);
            var kept := forall q | a <= q < b :: !Moves(s0, s.log, key, q);
            && o'.Some?
            && (kept ==> o'.value.expires == o.value.expires)
            && (Forward(s0, s.log, key) ==>
                  o'.value.expires >= o.value.expires && (o'.value.expires == o.value.expires ==> kept))
    decreases b - a
  {
    hide Chained, Forward, EntryAt, Moves;
    if a < b {
      ExpiryMoves(ar, s0, s, key, a, b - 1);
      OneSection(ar, s0, s, key, b - 1);
    }
  }

  lemma LiveSection(ar: Arith, s0: State, s: State, key: string, p: nat)
    requires Chained(ar, s0, s, key) && p < |s.log| && EntryAt(ar, s0, s.log, key, p).Some?
    requires s.now <= EntryAt(ar, s0, s.log, key, p).value.expires
    ensures var o := EntryAt(ar, s0, s.log, key, p + 1);
            o.Some? && o.value.expires == EntryAt(ar, s0, s.log, key, p).value.expires
  {
    hide LookupOk, ReadingsOk, SameThreads, NewExpiry, ExpiryOk;
  }

  /** An entry keeps its expiry until it is past. */
  lemma {:induction false} LiveKeepsExpiry(ar: Arith, s0: State, s: State, key: string, a: nat, b: nat)
    requires Chained(ar, s0, s, key) && a <= b <= |s.log|
    requires EntryAt(ar, s0, s.log, key, a).Some? && s.now <= EntryAt(ar, s0, s.log, key, a).value.expires
    ensures var o := EntryAt(ar, s0, s.log, key, b);
            o.Some? && o.value.expires == EntryAt(ar, s0, s.log, key, a).value.expires
    decreases b - a
  {
    hide Chained, EntryAt;
    if a < b {
      LiveKeepsExpiry(ar, s0, s, key, a, b - 1);
      LiveSection(ar, s0, s, key, b - 1);
    }
  }

  /** Nobody moved the entry's expiry between a call's section and the moment it read the expiry. */
  ghost predicate Undisturbed(s0: State, log: seq<Section>, key: string, pc: Pc)
    requires pc.Answered? && pc.seen <= |log|
  {
    forall q | pc.at < q < pc.seen :: !Moves(s0, log, key, q)
  }

  /** A call nobody disturbed answers with the expiry it counted under, and unless some section turns the entry's
      expiry back, only such a call does; the others name a strictly later one. The whole answer of a call on time is
      then the sequential one. */
  lemma AnswerExactly(ar: Arith, s0: State, key: string, steps: seq<Step>, i: nat)
    requires Initial(s0) && i < |s0.threads| && s0.threads[i].key == key && Run(ar, s0, steps).threads[i].pc.Answered?
    ensures var (log, pc) := (Run(ar, s0, steps).log, Run(ar, s0, steps).threads[i].pc);
            && pc.at < pc.seen <= |log|
            && (Undisturbed(s0, log, key, pc) ==> pc.own == pc.r.expiry)
            && (Forward(s0, log, key) ==>
                  pc.own <= pc.r.expiry && (pc.own == pc.r.expiry ==> Undisturbed(s0, log, key, pc)))
            && (Punctual(ar, s0, log, key) ==>
                  (AnswersAs(ar, s0, log, i, key, pc.at, pc.r) <==> pc.own == pc.r.expiry))
  {
    hide EntryAt, Before, Run, Forward, Moves;
    RunChained(ar, s0, key, steps);
    var s := Run(ar, s0, steps);
    var pc := s.threads[i].pc;
    assert ExpiryOk(ar, s0, s, key, s.threads[i]);
    ExpiryMoves(ar, s0, s, key, pc.at + 1, pc.seen);
    if Punctual(ar, s0, s.log, key) {
      Linearizable(ar, s0, key, steps, i);
    }
  }
}
