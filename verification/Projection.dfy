/** One key's part of a node's run: the flat table, hence the store, serves each key as its History says. */
module Projection {
  import opened Base
  import C = Counter
  import H = History
  import T = Tables

  /** What a received batch means for one key. */
  function Commands(batch: seq<T.Command>, now: C.Time, key: string): seq<H.Event> {
    if batch == [] then []
    else
      var last := batch[|batch| - 1];
      Commands(batch[..|batch| - 1], now, key)
      + if last.key == key then [H.Remote(now, last.count, last.expiry)] else []
  }

  function EventsOf(ev: T.Event, key: string): seq<H.Event> {
    match ev
    case Call(now, k, count, limit, window) => if k == key then [H.Call(now, count, limit, window)] else []
    case Remote(now, batch) => Commands(batch, now, key)
    case Visit(now, visited, grace) => if key in visited then [H.Visit(now, grace)] else []
  }

  /** The events of a node's run that concern one key. */
  function Project(evs: seq<T.Event>, key: string): seq<H.Event>
    decreases |evs|
  {
    if evs == [] then [] else EventsOf(evs[0], key) + Project(evs[1..], key)
  }

  function After(ar: Arith, t: T.Table, evs: seq<T.Event>): T.Table
    decreases |evs|
  {
    if evs == [] then t else After(ar, T.Step(ar, t, evs[0]).0, evs[1..])
  }

  // ---- The key's entry -------------------------------------------------------------------------------------

  lemma {:induction false} BatchProjects(ar: Arith, t: T.Table, now: C.Time, batch: seq<T.Command>, key: string)
    ensures T.Get(T.SyncKeys(ar, t, now, batch), key) == H.Run(ar, T.Get(t, key), Commands(batch, now, key))
  {
    if batch != [] {
      var init, last := batch[..|batch| - 1], batch[|batch| - 1];
      BatchProjects(ar, t, now, init, key);
      if last.key == key {
        var ev := H.Remote(now, last.count, last.expiry);
        H.RunSplits(ar, T.Get(t, key), Commands(init, now, key), [ev]);
        assert [ev][1..] == [];
      } else {
        assert Commands(init, now, key) + [] == Commands(init, now, key);
      }
    }
  }

  lemma StepProjects(ar: Arith, t: T.Table, ev: T.Event, key: string)
    ensures T.Get(T.Step(ar, t, ev).0, key) == H.Run(ar, T.Get(t, key), EventsOf(ev, key))
  {
    match ev
    case Call(now, k, count, limit, window) =>
      if k == key {
        assert [H.Call(now, count, limit, window)][1..] == [];
      }
    case Remote(now, batch) => BatchProjects(ar, t, now, batch, key);
    case Visit(now, visited, grace) =>
      if key in visited {
        assert [H.Visit(now, grace)][1..] == [];
      }
  }

  // ---- The key's answers -------------------------------------------------------------------------------------

  /** Of the answers given in a run, those to the key's calls. */
  function Pick(evs: seq<T.Event>, answers: seq<C.Response>, key: string): seq<C.Response>
    decreases |evs|
  {
    if evs == [] || answers == [] then []
    else if !evs[0].Call? then Pick(evs[1..], answers, key)
    else (if evs[0].key == key then [answers[0]] else []) + Pick(evs[1..], answers[1..], key)
  }

  /** The answers one key's counter gives along its own run. */
  function AnswersOf(ar: Arith, o: Option<C.Entry>, evs: seq<H.Event>): seq<C.Response>
    decreases |evs|
  {
    if evs == [] then []
    else
      (if evs[0].Call? then [H.Answer(ar, o, evs[0])] else []) + AnswersOf(ar, H.Step(ar, o, evs[0]), evs[1..])
  }

  lemma {:induction false} AnswersSplit(ar: Arith, o: Option<C.Entry>, a: seq<H.Event>, b: seq<H.Event>)
    ensures AnswersOf(ar, o, a + b) == AnswersOf(ar, o, a) + AnswersOf(ar, H.Run(ar, o, a), b)
    decreases |a|
  {
    if a == [] {
      assert a + b == b;
    } else {
      assert (a + b)[1..] == a[1..] + b;
      AnswersSplit(ar, H.Step(ar, o, a[0]), a[1..], b);
    }
  }

  lemma {:induction false} CommandsAnswerNothing(
    ar: Arith, o: Option<C.Entry>, batch: seq<T.Command>, now: C.Time, key: string)
    ensures AnswersOf(ar, o, Commands(batch, now, key)) == []
  {
    if batch != [] {
      var init, last := batch[..|batch| - 1], batch[|batch| - 1];
      CommandsAnswerNothing(ar, o, init, now, key);
      if last.key == key {
        var ev := H.Remote(now, last.count, last.expiry);
        AnswersSplit(ar, o, Commands(init, now, key), [ev]);
        assert [ev][1..] == [];
      } else {
        assert Commands(init, now, key) + [] == Commands(init, now, key);
      }
    }
  }

  lemma EventAnswers(ar: Arith, t: T.Table, ev: T.Event, key: string)
    ensures AnswersOf(ar, T.Get(t, key), EventsOf(ev, key))
         == if ev.Call? && ev.key == key then T.Step(ar, t, ev).1 else []
  {
    hide C.GenExpiry;
    match ev
    case Call(now, k, count, limit, window) =>
      if k == key {
        assert [H.Call(now, count, limit, window)][1..] == [];
      }
    case Remote(now, batch) => CommandsAnswerNothing(ar, T.Get(t, key), batch, now, key);
    case Visit(now, visited, grace) =>
      if key in visited {
        assert [H.Visit(now, grace)][1..] == [];
      }
  }

  /** Each key is served by a counter of its own: through any run of a node, the key's entry and the answers to its
      calls are those of the key's own run, whatever happens to other keys in between. */
  lemma {:induction false} KeysAreIndependent(ar: Arith, t: T.Table, evs: seq<T.Event>, key: string)
    ensures T.Get(After(ar, t, evs), key) == H.Run(ar, T.Get(t, key), Project(evs, key))
    ensures Pick(evs, T.Answers(ar, t, evs), key) == AnswersOf(ar, T.Get(t, key), Project(evs, key))
    decreases |evs|
  {
    if evs != [] {
      var ev, rest := evs[0], evs[1..];
      var (t', r) := T.Step(ar, t, ev);
      hide T.Step, EventsOf, H.Answer;
      StepProjects(ar, t, ev, key);
      EventAnswers(ar, t, ev, key);
      KeysAreIndependent(ar, t', rest, key);
      H.RunSplits(ar, T.Get(t, key), EventsOf(ev, key), Project(rest, key));
      AnswersSplit(ar, T.Get(t, key), EventsOf(ev, key), Project(rest, key));
      FirstAnswer(ar, t, ev);
      var later := T.Answers(ar, t', rest);
      assert T.Answers(ar, t, evs) == r + later;
      if ev.Call? {
        assert (r + later)[1..] == later && r == [(r + later)[0]];
      } else {
        assert r + later == later;
      }
    }
  }

  lemma FirstAnswer(ar: Arith, t: T.Table, ev: T.Event)
    ensures |T.Step(ar, t, ev).1| == if ev.Call? then 1 else 0
  {
  }

  // ---- What a node allows ------------------------------------------------------------------------------------

  /** What the calls on the key are allowed along a node's run, within a scope. */
  function Allowed(t: T.Table, evs: seq<T.Event>, key: string, scope: H.Scope): int
    decreases |evs|
  {
    if evs == [] then 0
    else
      var (t', r) := T.Step(Unbounded, t, evs[0]);
      Allowed(t', evs[1..], key, scope)
      + if evs[0].Call? && evs[0].key == key && !r[0].blocked && H.Includes(scope, evs[0].now, r[0])
        then evs[0].count else 0
  }

  lemma {:induction false} AllowedSplits(o: Option<C.Entry>, a: seq<H.Event>, b: seq<H.Event>, scope: H.Scope)
    ensures H.Allowed(o, a + b, scope) == H.Allowed(o, a, scope) + H.Allowed(H.Run(Unbounded, o, a), b, scope)
    decreases |a|
  {
    if a == [] {
      assert a + b == b;
    } else {
      assert (a + b)[1..] == a[1..] + b;
      AllowedSplits(H.Step(Unbounded, o, a[0]), a[1..], b, scope);
    }
  }

  lemma {:induction false} CommandsAllowNothing(
    o: Option<C.Entry>, batch: seq<T.Command>, now: C.Time, key: string, scope: H.Scope)
    ensures H.Allowed(o, Commands(batch, now, key), scope) == 0
  {
    if batch != [] {
      var init, last := batch[..|batch| - 1], batch[|batch| - 1];
      CommandsAllowNothing(o, init, now, key, scope);
      if last.key == key {
        var ev := H.Remote(now, last.count, last.expiry);
        AllowedSplits(o, Commands(init, now, key), [ev], scope);
        assert [ev][1..] == [];
      } else {
        assert Commands(init, now, key) + [] == Commands(init, now, key);
      }
    }
  }

  lemma EventAllows(t: T.Table, ev: T.Event, key: string, scope: H.Scope)
    ensures H.Allowed(T.Get(t, key), EventsOf(ev, key), scope)
         == var r := T.Step(Unbounded, t, ev).1;
            if ev.Call? && ev.key == key && !r[0].blocked && H.Includes(scope, ev.now, r[0]) then ev.count else 0
  {
    hide C.GenExpiry;
    match ev
    case Call(now, k, count, limit, window) =>
      if k == key {
        assert [H.Call(now, count, limit, window)][1..] == [];
      }
    case Remote(now, batch) => CommandsAllowNothing(T.Get(t, key), batch, now, key, scope);
    case Visit(now, visited, grace) =>
      if key in visited {
        assert [H.Visit(now, grace)][1..] == [];
      }
  }

  /** What a node allows a key is what the key's own run allows. */
  lemma {:induction false} AllowedProjects(t: T.Table, evs: seq<T.Event>, key: string, scope: H.Scope)
    ensures Allowed(t, evs, key, scope) == H.Allowed(T.Get(t, key), Project(evs, key), scope)
    decreases |evs|
  {
    if evs != [] {
      var ev, rest := evs[0], evs[1..];
      hide T.Step, EventsOf, H.Allowed, H.Includes;
      StepProjects(Unbounded, t, ev, key);
      EventAllows(t, ev, key, scope);
      AllowedProjects(T.Step(Unbounded, t, ev).0, rest, key, scope);
      AllowedSplits(T.Get(t, key), EventsOf(ev, key), Project(rest, key), scope);
    }
  }

  // ---- A node's sliding interval --------------------------------------------------------------------------------

  /** Calls on the key use one limit and window and count upwards, and no peer reports on it. */
  ghost predicate Steady(evs: seq<T.Event>, key: string, limit: int, window: int) {
    forall i | 0 <= i < |evs| :: SteadyEvent(evs[i], key, limit, window)
  }

  ghost predicate SteadyEvent(ev: T.Event, key: string, limit: int, window: int) {
    match ev
    case Call(_, k, count, l, w) => k == key ==> l == limit && w == window && count >= 0
    case Remote(_, batch) => forall i | 0 <= i < |batch| :: batch[i].key != key
    case Visit(_, _, _) => true
  }

  lemma {:induction false} NoCommands(batch: seq<T.Command>, now: C.Time, key: string)
    requires forall i | 0 <= i < |batch| :: batch[i].key != key
    ensures Commands(batch, now, key) == []
  {
    if batch != [] {
      NoCommands(batch[..|batch| - 1], now, key);
    }
  }

  lemma SortedLater(evs: seq<H.Event>, from: C.Time, later: C.Time)
    requires H.Sorted(evs, later) && from <= later
    ensures H.Sorted(evs, from)
  {
  }

  lemma {:induction false} SteadyProjects(evs: seq<T.Event>, key: string, limit: int, window: int, from: C.Time)
    requires T.Sorted(evs, from) && Steady(evs, key, limit, window)
    ensures var own := Project(evs, key);
            && H.Sorted(own, from) && H.NonNegative(own) && H.NoRemote(own)
            && H.FixedLimit(own, limit) && H.FixedWindow(own, window)
    decreases |evs|
  {
    if evs != [] {
      var ev, rest := evs[0], evs[1..];
      assert SteadyEvent(ev, key, limit, window);
      assert forall i | 0 <= i < |rest| :: rest[i] == evs[i + 1];
      SteadyProjects(rest, key, limit, window, ev.now);
      if ev.Remote? {
        NoCommands(ev.batch, ev.now, key);
      }
      var first, own := EventsOf(ev, key), Project(rest, key);
      if first == [] {
        assert first + own == own;
        SortedLater(own, from, ev.now);
      } else {
        OneMore(first[0], own, limit, window, from);
        assert first == [first[0]];
      }
    }
  }

  lemma OneMore(ev: H.Event, own: seq<H.Event>, limit: int, window: int, from: C.Time)
    requires H.Sorted(own, ev.now) && H.NonNegative(own) && H.NoRemote(own)
    requires H.FixedLimit(own, limit) && H.FixedWindow(own, window)
    requires from <= ev.now && !ev.Remote? && (ev.Call? ==> ev.count >= 0 && ev.limit == limit && ev.window == window)
    ensures var more := [ev] + own;
            && H.Sorted(more, from) && H.NonNegative(more) && H.NoRemote(more)
            && H.FixedLimit(more, limit) && H.FixedWindow(more, window)
  {
    assert ([ev] + own)[1..] == own;
  }

  /** On a node serving any number of keys, the calls on one key allowed in any closed interval one window long total at
      most twice the limit. */
  lemma NodeSlidingBound(evs: seq<T.Event>, key: string, from: C.Time, limit: int, window: int, lo: int)
    requires window > 0 && T.Sorted(evs, from) && Steady(evs, key, limit, window)
    ensures Allowed(map[], evs, key, H.Interval(lo, lo + C.Span(window))) <= 2 * Max0(limit)
  {
    AllowedProjects(map[], evs, key, H.Interval(lo, lo + C.Span(window)));
    SteadyProjects(evs, key, limit, window, from);
    H.SlidingIntervalBound(from, Project(evs, key), limit, window, lo);
  }
}
