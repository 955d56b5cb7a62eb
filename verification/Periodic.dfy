/** Periodic timers in exact arithmetic: the floor function, the next time of an interval, and the
    pass that makes expired periodics pending. */
module Periodic {
  import opened Heap
  import opened PendingQueues
  import opened EventLoop

  /** 2^64: what fits in an unsigned long. */
  const SHIFT: real := 18446744073709551616.0

  /** 1/8192. */
  const MIN_INTERVAL: real := 0.0001220703125

  lemma FloorBounds(v: real)
    ensures v.Floor as real <= v < v.Floor as real + 1.0
  {
  }

  lemma FloorUnique(v: real, n: int)
    requires n as real <= v < n as real + 1.0
    ensures v.Floor == n
  {
  }

  /** Splitting a large number into a multiple of SHIFT and a small rest. */
  lemma LargeSplits(v: real, q: real, f: real)
    requires v >= SHIFT && q == v * (1.0 / SHIFT) && f == SHIFT * (q.Floor as real)
    ensures q >= 0.0 && q.Floor < v.Floor
    ensures v - f >= 0.0 && (v - f).Floor < v.Floor
    ensures f + (v - f).Floor as real == v.Floor as real
  {
    assert v == SHIFT * q;
    var n, k := q.Floor, (v - f).Floor;
    FloorBounds(q);
    FloorBounds(v - f);
    assert f == (18446744073709551616 * n) as real;
    FloorUnique(v, 18446744073709551616 * n + k);
  }

  lemma NegativeFloor(v: real, f: real)
    requires v < 0.0 && f == -((-v).Floor as real)
    ensures v.Floor as real == f - (if f == v then 0.0 else 1.0)
  {
    var m := (-v).Floor;
    FloorBounds(-v);
    FloorUnique(v, if f == v then -m else -m - 1);
  }

  /** ev_floor.  The case for numbers so large that v == v - 1 does not arise in exact arithmetic. */
  function EvFloor(v: real): (r: real)
    ensures r == v.Floor as real
    decreases v < 0.0, if v < 0.0 then (-v).Floor else v.Floor
  {
    if v < 0.0 then
      var f := -EvFloor(-v);
      NegativeFloor(v, f);
      f - (if f == v then 0.0 else 1.0)
    else if v >= SHIFT then
      var q := v * (1.0 / SHIFT);
      LargeSplits(v, q, SHIFT * (q.Floor as real));
      var f := SHIFT * EvFloor(q);
      f + EvFloor(v - f)
    else v.Floor as real
  }

  // ---- Real arithmetic ----

  lemma QuotientTimes(x: real, d: real)
    requires d > 0.0
    ensures d * (x / d) == x
  {
  }

  lemma TimesStrict(d: real, a: real, b: real)
    requires d > 0.0 && a < b
    ensures d * a < d * b
  {
  }

  lemma TimesMonotone(d: real, a: real, b: real)
    requires d > 0.0 && a <= b
    ensures d * a <= d * b
  {
  }

  lemma BracketBelow(d: real, q: real, n: real, x: real)
    requires d > 0.0 && n <= q && d * q == x
    ensures d * n <= x
  {
    TimesMonotone(d, n, q);
  }

  lemma BracketAbove(d: real, q: real, n: real, x: real)
    requires d > 0.0 && q < n + 1.0 && d * q == x
    ensures x < d * n + d
  {
    TimesStrict(d, q, n + 1.0);
  }

  /** Flooring a quotient: the multiple of d just below x. */
  lemma FloorOfQuotient(x: real, d: real)
    requires d > 0.0
    ensures var n := (x / d).Floor as real; d * n <= x < d * n + d
  {
    var q := x / d;
    FloorBounds(q);
    QuotientTimes(x, d);
    BracketBelow(d, q, q.Floor as real, x);
    BracketAbove(d, q, q.Floor as real, x);
  }

  lemma Cancel(d: real, a: real, b: real)
    requires d > 0.0 && d * a == d * b
    ensures a == b
  {
  }

  /** How many whole steps of d fit in x. */
  function StepsIn(x: real, d: real): int
    requires d > 0.0
  {
    (x / d).Floor
  }

  /** One step of d takes one off. */
  lemma StepsLeft(x: real, d: real)
    requires d > 0.0 && x >= 0.0
    ensures StepsIn(x - d, d) == StepsIn(x, d) - 1 && StepsIn(x, d) >= 0
  {
    var a, b := x / d, (x - d) / d;
    QuotientTimes(x, d);
    QuotientTimes(x - d, d);
    assert d * (a - 1.0) == d * a - d;
    Cancel(d, b, a - 1.0);
    FloorBounds(a);
    FloorUnique(b, a.Floor - 1);
    QuotientNonNegative(x, d);
  }

  lemma QuotientNonNegative(x: real, d: real)
    requires d > 0.0 && x >= 0.0
    ensures x / d >= 0.0
  {
  }

  // ---- The next time of an interval ----

  /** offset + n * interval */
  function GridPoint(offset: real, interval: real, n: int): real
  {
    offset + interval * (n as real)
  }

  /** The start of periodic_recalc: the last point of the grid that is not after now. */
  method JustBelow(offset: real, step: real, now: real) returns (at: real, ghost n: int)
    requires step > 0.0
    ensures at == GridPoint(offset, step, n) && at <= now < at + step
  {
    at := offset + step * EvFloor((now - offset) / step);
    n := ((now - offset) / step).Floor;
    FloorOfQuotient(now - offset, step);
  }

  /** How far apart the points of the starting grid are: never less than MIN_INTERVAL. */
  function Step(interval: real): (r: real)
    ensures r >= interval && r >= MIN_INTERVAL && (r == interval || r == MIN_INTERVAL)
  {
    if interval > MIN_INTERVAL then interval else MIN_INTERVAL
  }

  /** at is k intervals after point b of the starting grid, the last one that is not after now. */
  ghost predicate FromGrid(at: real, offset: real, interval: real, now: real, b: int, k: int)
  {
    var base := GridPoint(offset, Step(interval), b);
    base <= now < base + Step(interval) && k >= 0 && at == GridPoint(base, interval, k)
  }

  /** at is the first time after now that is a whole number of intervals after the last point of the
      starting grid. */
  ghost predicate NextTime(at: real, offset: real, interval: real, now: real)
  {
    && at - interval <= now < at
    && exists b: int, k: int :: FromGrid(at, offset, interval, now, b, k)
  }

  /** periodic_recalc, for a periodic with a nonzero interval. */
  method PeriodicRecalc(offset: real, interval: real, now: real) returns (at: real, ghost n: int)
    requires interval > 0.0
    ensures at - interval <= now < at
    ensures interval >= MIN_INTERVAL ==> at == GridPoint(offset, interval, n)
    ensures NextTime(at, offset, interval, now)
  {
    var step := if interval > MIN_INTERVAL then interval else MIN_INTERVAL;
    at, n := JustBelow(offset, step, now);
    ghost var first, b, k := at, n, 0;
    NoSteps(first, interval);
    hide GridPoint, StepsIn;
    while at <= now
      invariant at == first || at - interval <= now
      invariant at >= first && (interval >= MIN_INTERVAL ==> at == GridPoint(offset, interval, n))
      invariant k >= 0 && at == GridPoint(first, interval, k)
      decreases StepsIn(now - at, interval)
    {
      StepsLeft(now - at, interval);
      assert now - at - interval == now - (at + interval);
      var following := at + interval;
      if following == at {
        at := now;
        break;
      }
      NextGridPoint(offset, interval, n);
      NextGridPoint(first, interval, k);
      at, n, k := following, n + 1, k + 1;
    }
    assert FromGrid(at, offset, interval, now, b, k);
  }

  lemma NoSteps(offset: real, interval: real)
    ensures GridPoint(offset, interval, 0) == offset
  {
  }

  lemma NextGridPoint(offset: real, interval: real, n: int)
    ensures GridPoint(offset, interval, n + 1) == GridPoint(offset, interval, n) + interval
  {
  }

  lemma GridMonotone(offset: real, interval: real, m: int, n: int)
    requires interval > 0.0 && m <= n
    ensures GridPoint(offset, interval, m) <= GridPoint(offset, interval, n)
  {
    TimesMonotone(interval, m as real, n as real);
  }

  /** at is the first point of the grid strictly after now. */
  ghost predicate FirstAfter(at: real, offset: real, interval: real, now: real)
  {
    && now < at
    && (exists n: int :: at == GridPoint(offset, interval, n))
    && (forall m: int :: GridPoint(offset, interval, m) > now ==> at <= GridPoint(offset, interval, m))
  }

  lemma RecalcIsFirst(offset: real, interval: real, now: real, at: real, n: int)
    requires interval > 0.0 && at == GridPoint(offset, interval, n) && at - interval <= now < at
    ensures FirstAfter(at, offset, interval, now)
  {
    forall m: int | GridPoint(offset, interval, m) > now
      ensures at <= GridPoint(offset, interval, m)
    {
      LeastAfterNow(offset, interval, now, at, n, m);
    }
  }

  /** What periodic_recalc promises for a large enough interval: the least point of the grid that is
      strictly after now. */
  lemma LeastAfterNow(offset: real, interval: real, now: real, at: real, n: int, m: int)
    requires interval > 0.0 && at == GridPoint(offset, interval, n) && at - interval <= now < at
    requires GridPoint(offset, interval, m) > now
    ensures at <= GridPoint(offset, interval, m)
  {
    if m < n {
      NextGridPoint(offset, interval, n - 1);
      GridMonotone(offset, interval, m, n - 1);
    } else {
      GridMonotone(offset, interval, n, m);
    }
  }

  // ---- Making periodics pending ----

  /** How a periodic is rescheduled: by its callback, by its interval, or not at all. */
  datatype Rule = Callback | Every(offset: real, interval: real) | Once

  predicate ValidRule(r: Rule)
  {
    r.Every? ==> r.interval > 0.0
  }

  /** What may follow an expired periodic. */
  ghost predicate Follows(rule: Rule, answer: real, now: real, s: map<Watcher, real>, w: Watcher)
  {
    match rule
    case Callback => w in s && s[w] == answer
    case Every(offset, interval) =>
      && w in s && NextTime(s[w], offset, interval, now)
      && (interval >= MIN_INTERVAL ==> FirstAfter(s[w], offset, interval, now))
    case Once => w !in s
  }

  /** The answer the callback of w gives, if it has one. */
  function Answer(rules: map<Watcher, Rule>, answers: map<Watcher, real>, now: real, w: Watcher): real
  {
    if w in rules && rules[w].Callback? && w in answers then answers[w] else now
  }

  /** Schedule s is s0 after the periodics in `fired` have fired once each, in the order of their
      times; each has moved to a time that is not before now, or is gone. */
  ghost predicate Passed(s0: map<Watcher, real>, s: map<Watcher, real>, fired: seq<Watcher>,
                         rules: map<Watcher, Rule>, answers: map<Watcher, real>, now: real)
  {
    && EarliestFirst(s0, fired, now) && s.Keys <= s0.Keys <= rules.Keys
    && (forall w :: w in s0 && w !in fired ==> w in s && s[w] == s0[w])
    && (forall w :: w in s0 && w in fired ==> Follows(rules[w], Answer(rules, answers, now, w), now, s, w))
  }

  predicate RulesInTime(rules: map<Watcher, Rule>, answers: map<Watcher, real>, now: real)
  {
    && (forall w :: w in rules ==> ValidRule(rules[w]))
    && (forall w :: w in rules && rules[w].Callback? ==> w in answers && answers[w] >= now)
  }

  /** What follows an expired periodic is not expired. */
  lemma NotExpired(rule: Rule, answer: real, now: real, s: map<Watcher, real>, w: Watcher)
    requires Follows(rule, answer, now, s, w) && (rule.Callback? ==> answer >= now)
    ensures w in s ==> s[w] >= now
  {
    hide FirstAfter;
  }

  lemma FollowsAlso(s0: map<Watcher, real>, s: map<Watcher, real>, s': map<Watcher, real>, fired: seq<Watcher>,
                    rules: map<Watcher, Rule>, answers: map<Watcher, real>, now: real, w: Watcher)
    requires Passed(s0, s, fired, rules, answers, now) && w in s
    requires s'.Keys <= s.Keys && forall v :: v in s && v != w ==> v in s' && s'[v] == s[v]
    requires Follows(rules[w], Answer(rules, answers, now, w), now, s', w)
    ensures forall v :: v in s0 && v in fired + [w] ==> Follows(rules[v], Answer(rules, answers, now, v), now, s', v)
  {
    hide FirstAfter, NextTime, EarliestFirst, Answer;
    forall v | v in s0 && v in fired + [w]
      ensures Follows(rules[v], Answer(rules, answers, now, v), now, s', v)
    {
      if v != w {
        assert v in fired && Follows(rules[v], Answer(rules, answers, now, v), now, s, v);
      }
    }
  }

  lemma {:induction false} PassStep(s0: map<Watcher, real>, s: map<Watcher, real>, s': map<Watcher, real>, fired: seq<Watcher>,
                                    rules: map<Watcher, Rule>, answers: map<Watcher, real>, now: real, w: Watcher)
    requires Passed(s0, s, fired, rules, answers, now) && RulesInTime(rules, answers, now)
    requires IsNext(s, w) && s[w] < now
    requires s'.Keys <= s.Keys && forall v :: v in s && v != w ==> v in s' && s'[v] == s[v]
    requires Follows(rules[w], Answer(rules, answers, now, w), now, s', w)
    ensures Passed(s0, s', fired + [w], rules, answers, now) && ExpiredIn(s', now) < ExpiredIn(s, now)
  {
    FollowsAlso(s0, s, s', fired, rules, answers, now, w);
    NotExpired(rules[w], Answer(rules, answers, now, w), now, s', w);
    if w in fired {
      NotExpired(rules[w], Answer(rules, answers, now, w), now, s, w);
    }
    hide Follows;
    assert w !in fired;
    assert forall v :: v in s0 && v !in fired ==> s[v] == s0[v] && s[w] <= s[v];
    EarliestStep(s0, fired, now, w);
    assert forall v :: v in fired + [w] <==> v in fired || v == w;
    assert w in ExpiredIn(s, now) && w !in ExpiredIn(s', now);
  }

  /** The rules of all watchers: whose callback answers, whose interval is set, and the rest. */
  ghost function Rules(ws: set<Watcher>, answers: map<Watcher, real>): map<Watcher, Rule>
    reads ws`offset, ws`interval
  {
    map w | w in ws :: if w in answers then Callback else if w.interval != 0.0 then Every(w.offset, w.interval) else Once
  }

  /** Callbacks answer with no time in the past, and no interval is negative. */
  ghost predicate AnswersInTime(ws: set<Watcher>, answers: map<Watcher, real>, now: real)
    reads ws`interval
  {
    && (forall w :: w in ws ==> w.interval >= 0.0)
    && (forall w :: w in ws && w in answers ==> answers[w] >= now)
  }

  /** A periodic that is not rescheduled is stopped, which clears it. */
  function ClearedIfOnce(w: Watcher, rule: Rule): History
  {
    if rule.Once? then [Cleared(w)] else []
  }

  ghost function ClearedBy(fired: seq<Watcher>, rules: map<Watcher, Rule>): History
    requires forall i :: 0 <= i < |fired| ==> fired[i] in rules
  {
    if fired == [] then []
    else
      var last := |fired| - 1;
      ClearedBy(fired[..last], rules) + ClearedIfOnce(fired[last], rules[fired[last]])
  }

  lemma ClearedStep(before: History, fired: seq<Watcher>, rules: map<Watcher, Rule>, w: Watcher)
    requires w in rules && forall i :: 0 <= i < |fired| ==> fired[i] in rules
    ensures before + ClearedBy(fired + [w], rules) == before + ClearedBy(fired, rules) + ClearedIfOnce(w, rules[w])
  {
    assert (fired + [w])[..|fired|] == fired;
    Reassociate(before, ClearedBy(fired, rules), ClearedIfOnce(w, rules[w]));
  }

  /** The loop invariant of periodics_reify. */
  ghost predicate Collected(s0: map<Watcher, real>, s: map<Watcher, real>, fired: seq<Watcher>, rules: map<Watcher, Rule>,
                            answers: map<Watcher, real>, now: real, before: History, history: History)
  {
    && Passed(s0, s, fired, rules, answers, now)
    && (forall i :: 0 <= i < |fired| ==> fired[i] in rules)
    && history == before + ClearedBy(fired, rules)
  }

  /** periodics_reify: exactly the expired periodics fire, once each and in the order of their times, and
      are fed in reverse.  The heap of periodics has the layout and the operations of the timer heap:
      it is the heap of a Loop here.  `answers` holds what the reschedule callbacks return. */
  method PeriodicsReify(periodics: Loop, answers: map<Watcher, real>, now: real) returns (ghost fired: seq<Watcher>)
    requires periodics.TimersValid() && periodics.QueuesValid() && AnswersInTime(periodics.watchers, answers, now)
    modifies periodics`timercnt, periodics`schedule, periodics.timers, periodics.watchers`active, periodics.watchers`at
    modifies periodics`pendings, periodics`pendingpri, periodics`history, periodics.watchers`pending
    ensures periodics.TimersValid() && periodics.QueuesValid() && ExpiredIn(periodics.schedule, now) == {}
    ensures Passed(old(periodics.schedule), periodics.schedule, fired, Rules(periodics.watchers, answers), answers, now)
    ensures forall w :: w in old(periodics.schedule) ==> (w in fired <==> old(periodics.schedule)[w] < now)
    ensures forall i :: 0 <= i < |fired| ==> fired[i] in Rules(periodics.watchers, answers)
    ensures forall w :: w in old(periodics.schedule) && w !in fired ==>
              w in periodics.schedule && periodics.schedule[w] == old(periodics.schedule)[w]
    // what becomes of each: the callback's answer, the next point of the grid, or nothing
    ensures forall w :: w in fired && w in answers ==> w in periodics.schedule && periodics.schedule[w] == answers[w]
    ensures forall w :: w in fired && w !in answers && w.interval > 0.0 ==>
              w in periodics.schedule && NextTime(periodics.schedule[w], w.offset, w.interval, now)
    ensures forall w :: w in fired && w !in answers && w.interval >= MIN_INTERVAL ==>
              w in periodics.schedule && FirstAfter(periodics.schedule[w], w.offset, w.interval, now)
    ensures forall w :: w in fired && w !in answers && w.interval == 0.0 ==> w !in periodics.schedule
    ensures periodics.history
            == old(periodics.history) + ClearedBy(fired, Rules(periodics.watchers, answers)) + Feeds(fired, {PERIODIC})
  {
    hide Loop.TimersValid, Loop.QueuesValid, ClearedBy, Feeds;
    ghost var s0, rules := periodics.schedule, Rules(periodics.watchers, answers);
    var rfeeds := CollectExpired(periodics, answers, now);
    fired := rfeeds;
    PassedAreTheExpired(s0, periodics.schedule, fired, rules, answers, now);
    PassedMoveOn(s0, periodics.schedule, fired, rules, answers, now);
    assert forall i :: 0 <= i < |rfeeds| ==> rfeeds[i] in periodics.watchers;
    periodics.FeedKeepingTimers(rfeeds, {PERIODIC});
  }

  method CollectExpired(periodics: Loop, answers: map<Watcher, real>, now: real) returns (rfeeds: seq<Watcher>)
    requires periodics.TimersValid() && periodics.QueuesValid() && AnswersInTime(periodics.watchers, answers, now)
    modifies periodics`timercnt, periodics`schedule, periodics.timers, periodics.watchers`active, periodics.watchers`at
    modifies periodics`pendings, periodics`history, periodics.watchers`pending
    ensures periodics.TimersValid() && periodics.QueuesValid() && ExpiredIn(periodics.schedule, now) == {}
    ensures Collected(old(periodics.schedule), periodics.schedule, rfeeds, Rules(periodics.watchers, answers),
                      answers, now, old(periodics.history), periodics.history)
  {
    hide *;
    rfeeds := [];
    ghost var s0, before := periodics.schedule, periodics.history;
    NothingCollected(periodics, answers, now);
    while periodics.timercnt > 0 && periodics.timers[HEAP0].at < now
      invariant Collecting(periodics, answers, now, s0, rfeeds, before)
      decreases ExpiredIn(periodics.schedule, now)
    {
      var w := FireNext(periodics, answers, now, s0, rfeeds, before);
      rfeeds := rfeeds + [w];
    }
    NothingBefore(periodics, now);
    EndOfCollecting(periodics, answers, now, s0, rfeeds, before);
  }

  /** Everything the loop keeps. */
  ghost predicate Collecting(periodics: Loop, answers: map<Watcher, real>, now: real, s0: map<Watcher, real>,
                             fired: seq<Watcher>, before: History)
    reads periodics, periodics.timers, periodics.watchers
    ensures Collecting(periodics, answers, now, s0, fired, before) ==> periodics.TimersValid()
    ensures Collecting(periodics, answers, now, s0, fired, before) ==>
              (periodics.timercnt > 0 ==> periodics.timers.Length > HEAP0)
  {
    && periodics.TimersValid() && periodics.QueuesValid() && AnswersInTime(periodics.watchers, answers, now)
    && Collected(s0, periodics.schedule, fired, Rules(periodics.watchers, answers), answers, now, before, periodics.history)
  }

  lemma NothingCollected(periodics: Loop, answers: map<Watcher, real>, now: real)
    requires periodics.TimersValid() && periodics.QueuesValid() && AnswersInTime(periodics.watchers, answers, now)
    ensures Collecting(periodics, answers, now, periodics.schedule, [], periodics.history)
  {
    hide Loop.HeapValid, Loop.QueuesValid, AnswersInTime;
    assert periodics.history + [] == periodics.history;
  }

  lemma EndOfCollecting(periodics: Loop, answers: map<Watcher, real>, now: real, s0: map<Watcher, real>,
                        fired: seq<Watcher>, before: History)
    requires Collecting(periodics, answers, now, s0, fired, before)
    ensures periodics.TimersValid() && periodics.QueuesValid()
    ensures Collected(s0, periodics.schedule, fired, Rules(periodics.watchers, answers), answers, now, before, periodics.history)
  {
  }

  /** Where a pass leaves every periodic. */
  lemma PassedMoveOn(s0: map<Watcher, real>, s: map<Watcher, real>, fired: seq<Watcher>,
                     rules: map<Watcher, Rule>, answers: map<Watcher, real>, now: real)
    requires Passed(s0, s, fired, rules, answers, now)
    ensures forall w :: w in s0 && w !in fired ==> w in s && s[w] == s0[w]
    ensures forall w :: w in fired ==> w in s0 && w in rules
    ensures forall w :: w in fired && rules[w].Callback? && w in answers ==> w in s && s[w] == answers[w]
    ensures forall w :: w in fired && rules[w].Every? ==>
              w in s && NextTime(s[w], rules[w].offset, rules[w].interval, now)
    ensures forall w :: w in fired && rules[w].Every? && rules[w].interval >= MIN_INTERVAL ==>
              w in s && FirstAfter(s[w], rules[w].offset, rules[w].interval, now)
    ensures forall w :: w in fired && rules[w].Once? ==> w !in s
  {
  }

  /** Once nothing is expired any more, the fired periodics are all that were expired. */
  lemma {:induction false} PassedAreTheExpired(s0: map<Watcher, real>, s: map<Watcher, real>, fired: seq<Watcher>,
                                               rules: map<Watcher, Rule>, answers: map<Watcher, real>, now: real)
    requires Passed(s0, s, fired, rules, answers, now) && ExpiredIn(s, now) == {}
    ensures forall w :: w in s0 ==> (w in fired <==> s0[w] < now)
  {
    forall w | w in s0 && w !in fired
      ensures s0[w] >= now
    {
      assert w !in ExpiredIn(s, now);
    }
  }

  /** One round of the loop of periodics_reify. */
  method FireNext(periodics: Loop, answers: map<Watcher, real>, now: real, ghost s0: map<Watcher, real>,
                  ghost fired: seq<Watcher>, ghost before: History)
      returns (w: Watcher)
    requires Collecting(periodics, answers, now, s0, fired, before)
    requires periodics.timercnt > 0 && periodics.timers[HEAP0].at < now
    modifies periodics`timercnt, periodics`schedule, periodics.timers, periodics.watchers`active, periodics.watchers`at
    modifies periodics`pendings, periodics`history, periodics.watchers`pending
    ensures Collecting(periodics, answers, now, s0, fired + [w], before)
    ensures ExpiredIn(periodics.schedule, now) < old(ExpiredIn(periodics.schedule, now))
  {
    hide Loop.TimersValid, Loop.QueuesValid, Passed, ClearedBy, Follows;
    ghost var s, rules := periodics.schedule, Rules(periodics.watchers, answers);
    w := Fire(periodics, answers, now);
    assert rules == Rules(periodics.watchers, answers);
    PassStep(s0, s, periodics.schedule, fired, rules, answers, now, w);
    ClearedStep(before, fired, rules, w);
  }

  lemma NothingBefore(periodics: Loop, now: real)
    requires periodics.TimersValid() && (periodics.timercnt == 0 || periodics.timers[HEAP0].at >= now)
    ensures ExpiredIn(periodics.schedule, now) == {}
  {
    if periodics.timercnt > 0 {
      periodics.TopIsNext();
    } else {
      assert forall w :: w in periodics.watchers && w.active > 0 ==> periodics.Holds(periodics.timers[..], 0, w);
      assert Active(periodics.watchers) == {};
    }
  }

  /** Stopping a periodic clears it and takes it off the heap. */
  method PeriodicStop(periodics: Loop, w: Watcher)
    requires periodics.TimersValid() && periodics.QueuesValid() && w in periodics.watchers && w.active > 0
    modifies periodics`timercnt, periodics`schedule, periodics.timers, periodics.watchers`active
    modifies periodics`pendings, periodics`history, w`pending
    ensures periodics.TimersValid() && periodics.QueuesValid() && periodics.schedule == old(periodics.schedule) - {w}
    ensures periodics.history == old(periodics.history) + [Cleared(w)]
  {
    periodics.ClearKeepingTimers(w);
    UnscheduleKeepingQueues(periodics, w);
  }

  method UnscheduleKeepingQueues(periodics: Loop, w: Watcher)
    requires periodics.TimersValid() && periodics.QueuesValid() && w in periodics.watchers && w.active > 0
    modifies periodics`timercnt, periodics`schedule, periodics.timers, periodics.watchers`active
    ensures periodics.TimersValid() && periodics.QueuesValid() && periodics.schedule == old(periodics.schedule) - {w}
  {
    periodics.Unschedule(w);
  }

  /** One round: reschedule or stop the periodic at the root. */
  method Fire(periodics: Loop, answers: map<Watcher, real>, now: real) returns (w: Watcher)
    requires periodics.TimersValid() && periodics.QueuesValid() && periodics.timercnt > 0
    requires AnswersInTime(periodics.watchers, answers, now)
    modifies periodics`timercnt, periodics`schedule, periodics.timers, periodics.watchers`active, periodics.watchers`at
    modifies periodics`pendings, periodics`history, periodics.watchers`pending
    ensures periodics.TimersValid() && periodics.QueuesValid() && IsNext(old(periodics.schedule), w)
    ensures w == old(periodics.timers[HEAP0].w) && old(periodics.schedule)[w] == old(periodics.timers[HEAP0].at)
    ensures w in periodics.watchers
    ensures periodics.history
            == old(periodics.history) + ClearedIfOnce(w, Rules(periodics.watchers, answers)[w])
    ensures var s := periodics.schedule;
            && s.Keys <= old(periodics.schedule).Keys
            && (forall v :: v in old(periodics.schedule) && v != w ==> v in s && s[v] == old(periodics.schedule)[v])
            && var rules := Rules(periodics.watchers, answers);
               Follows(rules[w], Answer(rules, answers, now, w), now, s, w)
  {
    hide Loop.TimersValid, Loop.QueuesValid, IsNext;
    TopIsActive(periodics);
    w := periodics.timers[HEAP0].w;
    if w in answers {
      periodics.RearmKeepingQueues(w, answers[w]);
    } else if w.interval != 0.0 {
      MoveOn(periodics, w, now);
    } else {
      PeriodicStop(periodics, w);
    }
  }

  /** A periodic with an interval at the root goes to its next time. */
  method MoveOn(periodics: Loop, w: Watcher, now: real)
    requires periodics.TimersValid() && periodics.QueuesValid() && periodics.timercnt > 0
    requires w == periodics.timers[HEAP0].w && w in periodics.watchers && w.interval > 0.0
    modifies periodics`schedule, periodics.timers, periodics.watchers`active, periodics.watchers`at
    ensures periodics.TimersValid() && periodics.QueuesValid() && w in periodics.schedule
    ensures periodics.schedule == old(periodics.schedule)[w := periodics.schedule[w]]
    ensures NextTime(periodics.schedule[w], w.offset, w.interval, now)
    ensures w.interval >= MIN_INTERVAL ==> FirstAfter(periodics.schedule[w], w.offset, w.interval, now)
  {
    hide Loop.TimersValid, Loop.QueuesValid, FirstAfter, NextTime;
    var at, n := PeriodicRecalc(w.offset, w.interval, now);
    if w.interval >= MIN_INTERVAL {
      RecalcIsFirst(w.offset, w.interval, now, at, n);
    }
    periodics.RearmKeepingQueues(w, at);
  }

  lemma TopIsActive(periodics: Loop)
    requires periodics.TimersValid() && periodics.timercnt > 0
    ensures periodics.timers.Length > HEAP0
    ensures periodics.timers[HEAP0].w in periodics.watchers && periodics.timers[HEAP0].w.active > 0
    ensures IsNext(periodics.schedule, periodics.timers[HEAP0].w) && periodics.timers[HEAP0].w in periodics.schedule
    ensures periodics.schedule[periodics.timers[HEAP0].w] == periodics.timers[HEAP0].at
  {
    periodics.TopIsNext();
    assert periodics.timers[..][HEAP0] == periodics.timers[HEAP0];
  }

  // ---- After a jump of the clock ----

  /** The new time of a periodic after periodics_reschedule. */
  ghost predicate NewTime(w: Watcher, answers: map<Watcher, real>, now: real, before: real, after: real)
    reads w`interval, w`offset
  {
    if w in answers then after == answers[w]
    else if w.interval != 0.0 then
      && NextTime(after, w.offset, w.interval, now)
      && (w.interval >= MIN_INTERVAL ==> FirstAfter(after, w.offset, w.interval, now))
    else after == before
  }

  /** The loop of periodics_reschedule over one heap entry. */
  method Retime(periodics: Loop, i: nat, answers: map<Watcher, real>, now: real)
    requires Fits(periodics.timers[..], periodics.timercnt) && InHeap(periodics.timercnt, i)
    requires Indexed(periodics.timers[..], periodics.timercnt, periodics.watchers)
    requires forall w :: w in periodics.watchers ==> w.interval >= 0.0
    modifies periodics.timers, periodics.watchers`at
    ensures var w := old(periodics.timers[i].w);
            && NewTime(w, answers, now, old(w.at), w.at)
            && periodics.timers[..] == old(periodics.timers[..])[i := ANHE(w.at, w)]
            && forall v :: v in periodics.watchers && v != w ==> v.at == old(v.at)
  {
    var w := periodics.timers[i].w;
    assert w in periodics.watchers by {
      assert periodics.timers[..][i].w == w;
    }
    if w in answers {
      w.at := answers[w];
    } else if w.interval != 0.0 {
      var at, n := PeriodicRecalc(w.offset, w.interval, now);
      if w.interval >= MIN_INTERVAL {
        RecalcIsFirst(w.offset, w.interval, now, at, n);
      }
      w.at := at;
    }
    periodics.timers[i] := periodics.timers[i].(at := w.at);
  }

  /** periodics_reschedule: every periodic gets a new time after the clock has jumped, and the heap is
      rebuilt; nobody is lost and nobody added. */
  method PeriodicsReschedule(periodics: Loop, answers: map<Watcher, real>, now: real)
    requires periodics.TimersValid() && forall w :: w in periodics.watchers ==> w.interval >= 0.0
    modifies periodics`schedule, periodics.timers, periodics.watchers`active, periodics.watchers`at
    ensures periodics.TimersValid() && periodics.schedule.Keys == old(periodics.schedule).Keys
    ensures forall w :: w in periodics.schedule ==>
              w in periodics.watchers
              && NewTime(w, answers, now, old(periodics.schedule)[w], periodics.schedule[w])
  {
    hide NewTime;
    RetimeAll(periodics, answers, now);
    Rebuild(periodics);
    periodics.schedule := map w | w in Active(periodics.watchers) :: w.at;
  }

  /** reheap, when all entries are known but maybe not in order. */
  method Rebuild(periodics: Loop)
    requires Fits(periodics.timers[..], periodics.timercnt)
    requires periodics.Known(periodics.timers[..], periodics.timercnt) && periodics.Located(periodics.timers[..], periodics.timercnt)
    modifies periodics.timers, periodics.watchers`active
    ensures periodics.HeapValid() && Active(periodics.watchers) == old(Active(periodics.watchers))
  {
    if periodics.timercnt > 0 {
      ReHeap(periodics.timers, periodics.timercnt, periodics.watchers);
      periodics.Tightened(HEAP0);
    }
  }

  method RetimeAll(periodics: Loop, answers: map<Watcher, real>, now: real)
    requires periodics.TimersValid() && forall w :: w in periodics.watchers ==> w.interval >= 0.0
    modifies periodics.timers, periodics.watchers`at
    ensures Fits(periodics.timers[..], periodics.timercnt)
    ensures periodics.Known(periodics.timers[..], periodics.timercnt) && periodics.Located(periodics.timers[..], periodics.timercnt)
    ensures forall w :: w in Active(periodics.watchers) ==> NewTime(w, answers, now, old(w.at), w.at)
  {
    var n := periodics.timercnt;
    ghost var h := periodics.timers[..];
    for i := 0 to n
      invariant Fits(periodics.timers[..], n) && Indexed(periodics.timers[..], n, periodics.watchers)
      invariant forall k :: HEAP0 <= k < HEAP0 + n ==>
                  periodics.timers[..][k].w == h[k].w && periodics.timers[..][k].at == h[k].w.at
      invariant |periodics.timers[..]| == |h|
      invariant forall k :: HEAP0 <= k < HEAP0 + i ==> NewTime(h[k].w, answers, now, old(h[k].w.at), h[k].w.at)
      invariant forall k :: HEAP0 + i <= k < HEAP0 + n ==> h[k].w.at == old(h[k].w.at)
    {
      Retime(periodics, HEAP0 + i, answers, now);
    }
    forall w | w in Active(periodics.watchers)
      ensures NewTime(w, answers, now, old(w.at), w.at) && periodics.Holds(periodics.timers[..], n, w)
    {
      assert periodics.Holds(h, n, w);
    }
  }
}
