/** The loop itself running its timers: timers_reify followed by ev_invoke_pending, once and in many
    passes, with what TimerOrder proves of histories and passes stated of the loop. */
module TimerRun {
  import opened Heap
  import opened PendingQueues
  import opened EventLoop
  import opened TimerOrder

  // ---- Callbacks that leave a watcher alone ----

  predicate NeverClears(script: seq<seq<Op>>, w: Watcher)
  {
    forall k, i :: 0 <= k < |script| && 0 <= i < |script[k]| ==> script[k][i] != ClearOp(w)
  }

  predicate NotCleared(h: History, w: Watcher)
  {
    forall i :: 0 <= i < |h| ==> h[i] != Cleared(w)
  }

  lemma {:induction false} OpsDoNotClear(ops: seq<Op>, w: Watcher)
    requires forall i :: 0 <= i < |ops| ==> ops[i] != ClearOp(w)
    ensures NotCleared(AllHappen(ops), w)
  {
    if ops == [] {
    } else {
      OpsDoNotClear(ops[..|ops| - 1], w);
    }
  }

  lemma {:induction false} InterleaveNeverClears(calls: seq<Happening>, script: seq<seq<Op>>, w: Watcher)
    requires NeverClears(script, w) && forall k :: 0 <= k < |calls| ==> calls[k].Called?
    ensures NotCleared(Interleave(calls, script), w)
  {
    if calls == [] {
    } else {
      var last := |calls| - 1;
      InterleaveNeverClears(calls[..last], script, w);
      OpsDoNotClear(Script(script, last), w);
    }
  }

  // ---- One pass ----

  /** Since `before`, timers that were expired in s0 and not pending are called, within one priority, in
      the order of their expiry times. */
  ghost predicate InExpiryOrder(before: History, h: History, s0: map<Watcher, real>, now: real)
  {
    forall i, j :: |before| <= i < j < |h| && h[i].Called? && h[j].Called?
      && h[i].w in ExpiredIn(s0, now) && h[j].w in ExpiredIn(s0, now) && h[i].w.priority == h[j].w.priority
      && Owed(before, h[i].w).NoDebt? && Owed(before, h[j].w).NoDebt?
      ==> s0[h[i].w] <= s0[h[j].w]
  }

  /** Since `before`, w is called once, for the timer event and nothing else. */
  ghost predicate CalledOnce(before: History, h: History, w: Watcher)
  {
    exists i ::
      && |before| <= i < |h| && h[i] == Called(w, {TIMER})
      && forall x :: |before| <= x < |h| && h[x].Called? && h[x].w == w ==> x == i
  }

  lemma {:induction false} FeedsAreFeeds(ws: seq<Watcher>, revents: Events)
    ensures forall i :: 0 <= i < |Feeds(ws, revents)| ==> Feeds(ws, revents)[i].Fed?
  {
    if ws == [] {
    } else {
      FeedsAreFeeds(ws[1..], revents);
    }
  }

  /** timers_reify itself calls nothing. */
  lemma NoCallsBefore(before: History, fired: seq<Watcher>, repeats: map<Watcher, real>, h: History)
    requires forall i :: 0 <= i < |fired| ==> fired[i] in repeats
    requires before + Stops(fired, repeats) + Feeds(fired, {TIMER}) <= h
    ensures forall i :: |before| <= i < FedAt(before, fired, repeats) ==> !h[i].Called?
  {
    FeedsAreFeeds(fired, {TIMER});
    var stops, feeds := Stops(fired, repeats), Feeds(fired, {TIMER});
    forall i | |before| <= i < FedAt(before, fired, repeats)
      ensures !h[i].Called?
    {
      assert h[i] == (before + stops + feeds)[i];
      assert h[i] == if i < |before| + |stops| then stops[i - |before|] else feeds[i - |before| - |stops|];
    }
  }

  lemma PassInOrder(before: History, fired: seq<Watcher>, s0: map<Watcher, real>, now: real,
                    repeats: map<Watcher, real>, h: History, ws: set<Watcher>)
    requires ReifyThenInvoke(before, fired, repeats, h, ws) && EarliestFirst(s0, fired, now)
    requires forall w :: w in s0 ==> (w in fired <==> s0[w] < now)
    ensures InExpiryOrder(before, h, s0, now)
  {
    hide ReifyThenInvoke, FedAt, Owed;
    BasicsOf(before, fired, repeats, h, ws);
    forall i, j | |before| <= i < j < |h| && h[i].Called? && h[j].Called?
                  && h[i].w in ExpiredIn(s0, now) && h[j].w in ExpiredIn(s0, now) && h[i].w.priority == h[j].w.priority
                  && Owed(before, h[i].w).NoDebt? && Owed(before, h[j].w).NoDebt?
      ensures s0[h[i].w] <= s0[h[j].w]
    {
      CalledInExpiryOrder(before, fired, s0, now, repeats, h, ws, i, j);
    }
  }

  lemma BasicsOf(before: History, fired: seq<Watcher>, repeats: map<Watcher, real>, h: History, ws: set<Watcher>)
    requires ReifyThenInvoke(before, fired, repeats, h, ws)
    ensures forall i :: 0 <= i < |fired| ==> fired[i] in repeats
    ensures |before| <= FedAt(before, fired, repeats) <= |h|
    ensures forall i :: |before| <= i < FedAt(before, fired, repeats) ==> !h[i].Called?
  {
    hide Feeds, Stops, Owed;
    NoCallsBefore(before, fired, repeats, h);
  }

  lemma PassCallsOnce(before: History, fired: seq<Watcher>, repeats: map<Watcher, real>, h: History,
                      ws: set<Watcher>, w: Watcher)
    requires ReifyThenInvoke(before, fired, repeats, h, ws) && w in fired && w in ws
    requires Owed(before, w).NoDebt? && Owed(h, w).NoDebt?
    requires FedAt(before, fired, repeats) <= |h| && NotCleared(h[FedAt(before, fired, repeats)..], w)
    ensures CalledOnce(before, h, w)
  {
    hide ReifyThenInvoke, FedAt, Owed;
    BasicsOf(before, fired, repeats, h, ws);
    var k :| 0 <= k < |fired| && fired[k] == w;
    var from := FedAt(before, fired, repeats);
    forall x | from <= x < |h| && h[x].w == w
      ensures !h[x].Cleared?
    {
      assert h[x] == h[from..][x - from];
    }
    var i := FiredCalledExactlyOnce(before, fired, repeats, h, ws, k);
  }

  /** What the two contracts of timers_reify and ev_invoke_pending say together. */
  lemma PassHistory(before: History, fired: seq<Watcher>, repeats: map<Watcher, real>, calls: seq<Happening>,
                    script: seq<seq<Op>>, h: History, ws: set<Watcher>)
    requires forall i :: 0 <= i < |fired| ==> fired[i] in repeats && fired[i] in ws
    requires forall i, j :: 0 <= i < j < |fired| ==> fired[i] != fired[j]
    requires NeverFeeds(script) && forall k :: 0 <= k < |calls| ==> calls[k].Called?
    requires h == before + Stops(fired, repeats) + Feeds(fired, {TIMER}) + Interleave(calls, script)
    requires CallsDue(h, FedAt(before, fired, repeats), ws)
    ensures ReifyThenInvoke(before, fired, repeats, h, ws)
    ensures h[FedAt(before, fired, repeats)..] == Interleave(calls, script)
  {
    hide CallsDue, Stops, Feeds, Interleave, NoFeeds;
    InterleaveNeverFeeds(calls, script);
    assert h[FedAt(before, fired, repeats)..] == Interleave(calls, script);
  }

  /** What one pass over the timers promises when no callback feeds. */
  ghost predicate PassPromises(before: History, s0: map<Watcher, real>, now: real, h: History, script: seq<seq<Op>>)
  {
    && InExpiryOrder(before, h, s0, now)
    && (forall w :: w in ExpiredIn(s0, now) && Owed(before, w).NoDebt? && NeverClears(script, w) ==> CalledOnce(before, h, w))
  }

  lemma PassKeepsPromises(before: History, fired: seq<Watcher>, s0: map<Watcher, real>, now: real,
                          repeats: map<Watcher, real>, calls: seq<Happening>, script: seq<seq<Op>>,
                          h: History, ws: set<Watcher>)
    requires EarliestFirst(s0, fired, now) && forall w :: w in s0 ==> (w in fired <==> s0[w] < now)
    requires s0.Keys <= repeats.Keys && s0.Keys <= ws
    requires NeverFeeds(script) && forall k :: 0 <= k < |calls| ==> calls[k].Called?
    requires forall i :: 0 <= i < |fired| ==> fired[i] in repeats
    requires h == before + Stops(fired, repeats) + Feeds(fired, {TIMER}) + Interleave(calls, script)
    requires CallsDue(h, FedAt(before, fired, repeats), ws)
    requires forall w :: w in ws ==> Owed(h, w).NoDebt?
    ensures PassPromises(before, s0, now, h, script)
  {
    hide Stops, Feeds, Interleave, FedAt, Owed, CallsDue, ReifyThenInvoke;
    PassHistory(before, fired, repeats, calls, script, h, ws);
    PassInOrder(before, fired, s0, now, repeats, h, ws);
    BasicsOf(before, fired, repeats, h, ws);
    forall w | w in ExpiredIn(s0, now) && Owed(before, w).NoDebt? && NeverClears(script, w)
      ensures CalledOnce(before, h, w)
    {
      InterleaveNeverClears(calls, script, w);
      PassCallsOnce(before, fired, repeats, h, ws, w);
    }
  }

  /** One iteration of the loop as far as timers go.  If no callback feeds anything, expired timers of
      equal priority that were not pending are called in the order of their expiry times, and each
      that no callback clears exactly once; whatever the callbacks do, nothing stays pending. */
  method RunTimers(loop: Loop, script: seq<seq<Op>>) returns (ghost fired: seq<Watcher>)
    requires loop.TimersValid() && loop.QueuesValid()
    requires forall w :: w in loop.watchers ==> w.repeat_ >= 0.0
    requires forall k :: 0 <= k < |script| ==> loop.OpsValid(script[k])
    modifies loop`timercnt, loop`activecnt, loop`pendings, loop`pendingpri, loop`history
    modifies loop`schedule, loop.timers, loop.watchers`active, loop.watchers`at, loop.watchers`pending
    ensures loop.TimersValid() && loop.QueuesValid()
    ensures Reified(old(loop.schedule), loop.schedule, fired, loop.Repeats(), loop.mn_now)
    ensures forall w :: w in old(loop.schedule) && w !in fired ==>
              w in loop.schedule && loop.schedule[w] == old(loop.schedule)[w]
    ensures forall w :: w in fired && w.repeat_ > 0.0 ==>
              && w in old(loop.schedule) && w in loop.schedule
              && (old(loop.schedule)[w] + w.repeat_ >= loop.mn_now ==>
                    loop.schedule[w] == old(loop.schedule)[w] + w.repeat_)
              && (old(loop.schedule)[w] + w.repeat_ < loop.mn_now ==> loop.schedule[w] == loop.mn_now)
    ensures forall w :: w in fired && w.repeat_ == 0.0 ==> w !in loop.schedule
    ensures ExpiredIn(loop.schedule, loop.mn_now) == {}
    ensures forall w :: w in old(loop.schedule) ==> (w in fired <==> old(loop.schedule)[w] < loop.mn_now)
    ensures old(loop.history) + Stops(fired, loop.Repeats()) + Feeds(fired, {TIMER}) <= loop.history
    ensures forall w :: w in loop.watchers ==> w.pending == 0
    ensures NeverFeeds(script) ==>
              PassPromises(old(loop.history), old(loop.schedule), loop.mn_now, loop.history, script)
  {
    hide Owed, Stops, Feeds, Interleave, CallsDue, PassPromises;
    ghost var before, s0, repeats := loop.history, loop.schedule, loop.Repeats();
    ScheduledAreKnown(loop);
    fired := loop.TimersReify();
    ghost var calls := InvokeKeepingTimers(loop, script);
    assert loop.Repeats() == repeats;
    if NeverFeeds(script) {
      PassKeepsPromises(before, fired, s0, loop.mn_now, repeats, calls, script, loop.history, loop.watchers);
    }
  }

  lemma ScheduledAreKnown(loop: Loop)
    requires loop.TimersValid()
    ensures loop.schedule.Keys <= loop.Repeats().Keys && loop.schedule.Keys <= loop.watchers
  {
  }

  /** Calling callbacks does not touch the timers. */
  method InvokeKeepingTimers(loop: Loop, script: seq<seq<Op>>) returns (ghost calls: seq<Happening>)
    requires loop.TimersValid() && loop.QueuesValid() && forall k :: 0 <= k < |script| ==> loop.OpsValid(script[k])
    modifies loop`pendings, loop`pendingpri, loop`history, loop.watchers`pending
    ensures loop.TimersValid() && loop.QueuesValid()
    ensures forall w :: w in loop.watchers ==> w.pending == 0 && Owed(loop.history, w).NoDebt?
    ensures forall k :: 0 <= k < |calls| ==> calls[k].Called?
    ensures loop.history == old(loop.history) + Interleave(calls, script)
    ensures CallsDue(loop.history, |old(loop.history)|, loop.watchers)
  {
    calls := loop.InvokePending(script);
  }

  // ---- Many passes ----

  /** What other code may do to other timers between two passes. */
  datatype TimerOp = Start(w: Watcher) | Stop(w: Watcher) | Again(w: Watcher)

  /** One iteration of the loop: its time, what happens to other timers before it, and what the
      callbacks it calls do. */
  datatype Round = Round(now: real, ops: seq<TimerOp>, script: seq<seq<Op>>)

  ghost predicate RoundValid(loop: Loop, w: Watcher, round: Round)
  {
    && (forall i :: 0 <= i < |round.ops| ==> round.ops[i].w in loop.watchers && round.ops[i].w != w)
    && (forall k :: 0 <= k < |round.script| ==> loop.OpsValid(round.script[k]))
  }

  /** A repeating timer is on its way. */
  ghost predicate Ready(loop: Loop, w: Watcher)
    reads loop, loop.timers, loop.watchers
  {
    && loop.TimersValid() && loop.QueuesValid() && w in loop.watchers && w in loop.schedule && w.repeat_ > 0.0
    && forall v :: v in loop.watchers ==> v.repeat_ >= 0.0
  }

  method DoTimerOp(loop: Loop, w: Watcher, op: TimerOp)
    requires Ready(loop, w) && w in loop.schedule && op.w in loop.watchers && op.w != w
    modifies loop`timers, loop`timercnt, loop`activecnt, loop`pendings, loop`history
    modifies loop`schedule, loop.timers, loop.watchers`active, loop.watchers`at, loop.watchers`pending
    ensures Ready(loop, w) && (loop.timers == old(loop.timers) || fresh(loop.timers))
    ensures w in loop.schedule && loop.schedule[w] == old(loop.schedule)[w] && old(loop.history) <= loop.history
  {
    match op {
      case Start(v) => StartKeepingQueues(loop, v);
      case Stop(v) => loop.TimerStop(v);
      case Again(v) => loop.TimerAgain(v);
    }
  }

  /** Starting does not touch the queues. */
  method StartKeepingQueues(loop: Loop, w: Watcher)
    requires loop.TimersValid() && loop.QueuesValid() && w in loop.watchers && w.repeat_ >= 0.0
    modifies loop`timers, loop`timercnt, loop`activecnt, loop`schedule, loop.timers, loop.watchers`active, w`at
    ensures loop.TimersValid() && loop.QueuesValid() && (loop.timers == old(loop.timers) || fresh(loop.timers))
    ensures w.active > 0 && loop.Remaining(w) == old(loop.Remaining(w))
    ensures loop.schedule == if old(w.active) > 0 then old(loop.schedule) else old(loop.schedule)[w := old(w.at) + loop.mn_now]
  {
    loop.TimerStart(w);
  }

  method DoTimerOps(loop: Loop, w: Watcher, ops: seq<TimerOp>)
    requires Ready(loop, w) && w in loop.schedule
    requires forall i :: 0 <= i < |ops| ==> ops[i].w in loop.watchers && ops[i].w != w
    modifies loop`timers, loop`timercnt, loop`activecnt, loop`pendings, loop`history
    modifies loop`schedule, loop.timers, loop.watchers`active, loop.watchers`at, loop.watchers`pending
    ensures Ready(loop, w) && (loop.timers == old(loop.timers) || fresh(loop.timers))
    ensures w in loop.schedule && loop.schedule[w] == old(loop.schedule)[w] && old(loop.history) <= loop.history
  {
    hide Ready;
    for i := 0 to |ops|
      invariant Ready(loop, w) && (loop.timers == old(loop.timers) || fresh(loop.timers))
      invariant w in loop.schedule && loop.schedule[w] == old(loop.schedule)[w] && old(loop.history) <= loop.history
    {
      DoTimerOp(loop, w, ops[i]);
    }
  }

  /** The history says, from position `at` on, that exactly these timers were stopped and fed. */
  ghost predicate FedThere(h: History, at: nat, fired: seq<Watcher>, repeats: map<Watcher, real>)
  {
    && (forall i :: 0 <= i < |fired| ==> fired[i] in repeats)
    && var added := Stops(fired, repeats) + Feeds(fired, {TIMER}); at + |added| <= |h| && h[at..at + |added|] == added
  }

  /** A pass in which every timer fires iff it is expired. */
  ghost predicate FiresExpired(p: Pass)
  {
    forall v :: v in p.before ==> (v in p.fired <==> p.before[v] < p.now)
  }

  method RunRound(loop: Loop, w: Watcher, round: Round) returns (ghost pass: Pass, ghost at: nat)
    requires Ready(loop, w) && w in loop.schedule && RoundValid(loop, w, round)
    modifies loop, loop.timers, loop.watchers`active, loop.watchers`at, loop.watchers`pending
    ensures Ready(loop, w) && (loop.timers == old(loop.timers) || fresh(loop.timers))
    ensures pass.now == round.now && pass.after == loop.schedule && w in loop.schedule
    ensures w in pass.before && pass.before[w] == old(loop.schedule)[w]
    ensures Reified(pass.before, pass.after, pass.fired, loop.Repeats(), pass.now) && FiresExpired(pass)
    ensures old(loop.history) <= loop.history
    ensures FedThere(loop.history, at, pass.fired, loop.Repeats())
  {
    hide Ready, Reified, FiresExpired, FedThere;
    SetNow(loop, w, round.now);
    DoTimerOps(loop, w, round.ops);
    pass, at := PassOverTimers(loop, w, round.script);
  }

  /** The loop looks at the clock. */
  method SetNow(loop: Loop, w: Watcher, now: real)
    requires Ready(loop, w)
    modifies loop`mn_now
    ensures Ready(loop, w) && loop.mn_now == now
  {
    loop.mn_now := now;
  }

  method PassOverTimers(loop: Loop, w: Watcher, script: seq<seq<Op>>) returns (ghost pass: Pass, ghost at: nat)
    requires Ready(loop, w) && w in loop.schedule && forall k :: 0 <= k < |script| ==> loop.OpsValid(script[k])
    modifies loop`timercnt, loop`activecnt, loop`pendings, loop`pendingpri, loop`history
    modifies loop`schedule, loop.timers, loop.watchers`active, loop.watchers`at, loop.watchers`pending
    ensures Ready(loop, w) && w in loop.schedule
    ensures pass.now == loop.mn_now && pass.before == old(loop.schedule) && pass.after == loop.schedule
    ensures Reified(pass.before, pass.after, pass.fired, loop.Repeats(), pass.now) && FiresExpired(pass)
    ensures old(loop.history) <= loop.history
    ensures FedThere(loop.history, at, pass.fired, loop.Repeats())
  {
    hide Stops, Feeds, PassPromises, FedThere, Owed;
    ghost var s0, before, repeats := loop.schedule, loop.history, loop.Repeats();
    ghost var fired := RunTimers(loop, script);
    pass, at := Pass(loop.mn_now, s0, loop.schedule, fired), |before|;
    assert loop.Repeats() == repeats;
    StaysScheduled(s0, loop.schedule, fired, repeats, loop.mn_now, w);
    FedHere(before, fired, repeats, loop.history);
  }

  lemma StaysScheduled(s0: map<Watcher, real>, s: map<Watcher, real>, fired: seq<Watcher>,
                       repeats: map<Watcher, real>, now: real, w: Watcher)
    requires Reified(s0, s, fired, repeats, now) && w in s0 && repeats[w] > 0.0
    ensures w in s
  {
  }

  lemma FedHere(before: History, fired: seq<Watcher>, repeats: map<Watcher, real>, h: History)
    requires forall i :: 0 <= i < |fired| ==> fired[i] in repeats
    requires before + Stops(fired, repeats) + Feeds(fired, {TIMER}) <= h
    ensures before <= h && FedThere(h, |before|, fired, repeats)
  {
    hide Stops, Feeds;
    var added := Stops(fired, repeats) + Feeds(fired, {TIMER});
    assert before + Stops(fired, repeats) + Feeds(fired, {TIMER}) == before + added;
    assert h[|before|..|before| + |added|] == (before + added)[|before|..];
  }

  /** What was fed stays in the history. */
  lemma FedStays(h: History, h': History, at: nat, fired: seq<Watcher>, repeats: map<Watcher, real>)
    requires FedThere(h, at, fired, repeats) && h <= h'
    ensures FedThere(h', at, fired, repeats)
  {
    hide Stops, Feeds;
  }

  // ---- A repeating timer over a whole run ----

  /** A run of passes that follows the rounds, with w untouched by anything else. */
  ghost predicate Follows(passes: seq<Pass>, rounds: seq<Round>, repeats: map<Watcher, real>, w: Watcher)
  {
    && |passes| <= |rounds| && Untouched(passes, repeats, w)
    && forall i :: 0 <= i < |passes| ==> passes[i].now == rounds[i].now && FiresExpired(passes[i])
  }

  /** Every pass left its feeds in the history. */
  ghost predicate Recorded(h: History, passes: seq<Pass>, marks: seq<nat>, repeats: map<Watcher, real>)
  {
    |marks| == |passes| && forall i :: 0 <= i < |passes| ==> FedThere(h, marks[i], passes[i].fired, repeats)
  }

  lemma FollowsStep(passes: seq<Pass>, rounds: seq<Round>, repeats: map<Watcher, real>, w: Watcher, p: Pass)
    requires Follows(passes, rounds, repeats, w) && |passes| < |rounds| && p.now == rounds[|passes|].now
    requires Reified(p.before, p.after, p.fired, repeats, p.now) && FiresExpired(p) && w in p.before
    requires passes != [] ==> var last := passes[|passes| - 1].after; w in last && p.before[w] == last[w]
    ensures Follows(passes + [p], rounds, repeats, w)
  {
    hide Moved, EarliestFirst, FiresExpired;
  }

  lemma RecordedStep(h: History, h': History, passes: seq<Pass>, marks: seq<nat>, repeats: map<Watcher, real>,
                     p: Pass, at: nat)
    requires Recorded(h, passes, marks, repeats) && h <= h' && FedThere(h', at, p.fired, repeats)
    ensures Recorded(h', passes + [p], marks + [at], repeats)
  {
    hide FedThere;
    forall i | 0 <= i < |passes|
      ensures FedThere(h', marks[i], passes[i].fired, repeats)
    {
      FedStays(h, h', marks[i], passes[i].fired, repeats);
    }
  }

  /** The timer w, which repeats every r and first expires at `first`: in every pass it fires iff it is
      expired; firing number k comes after first + k * r; while no pass was more than r late, its expiry
      times are exactly those; and when one was, the timer is due again as soon as time goes on. */
  ghost predicate KeepsTime(passes: seq<Pass>, rounds: seq<Round>, w: Watcher, first: real, r: real)
    requires |passes| <= |rounds|
  {
    && (forall i :: 0 <= i < |passes| ==>
          w in passes[i].before && (w in passes[i].fired <==> passes[i].before[w] < rounds[i].now))
    && (forall i :: 0 <= i < |passes| && w in passes[i].fired ==>
          rounds[i].now > first + Intervals(Firings(passes, i, w), r))
    && (forall i :: 0 <= i < |passes| && (forall j :: 0 <= j < i ==> rounds[j].now <= passes[j].before[w] + r) ==>
          passes[i].before[w] == first + Intervals(Firings(passes, i, w), r))
    && (forall i, j :: 0 <= i && j == i + 1 < |passes| ==>
          && (w !in passes[i].fired ==> passes[j].before[w] == passes[i].before[w])
          && (w in passes[i].fired && rounds[i].now <= passes[i].before[w] + r ==>
                passes[j].before[w] == passes[i].before[w] + r)
          && (w in passes[i].fired && rounds[i].now > passes[i].before[w] + r ==>
                passes[j].before[w] == rounds[i].now && (w in passes[j].fired <==> rounds[j].now > rounds[i].now)))
  }

  method Begin(loop: Loop, w: Watcher)
    requires loop.TimersValid() && loop.QueuesValid() && w in loop.watchers && w.active == 0 && w.repeat_ > 0.0
    requires forall v :: v in loop.watchers ==> v.repeat_ >= 0.0
    modifies loop`timers, loop`timercnt, loop`activecnt, loop`schedule, loop.timers, loop.watchers`active, w`at
    ensures Ready(loop, w) && (loop.timers == old(loop.timers) || fresh(loop.timers))
    ensures w in loop.schedule && loop.schedule[w] == old(loop.mn_now + w.at)
  {
    StartKeepingQueues(loop, w);
  }

  lemma NoPasses(rounds: seq<Round>, repeats: map<Watcher, real>, w: Watcher, h: History)
    ensures Follows([], rounds, repeats, w) && Recorded(h, [], [], repeats)
  {
  }

  lemma RunKeepsTime(passes: seq<Pass>, rounds: seq<Round>, repeats: map<Watcher, real>, w: Watcher, first: real)
    requires Follows(passes, rounds, repeats, w) && w in repeats && repeats[w] > 0.0
    requires passes != [] ==> w in passes[0].before && passes[0].before[w] == first
    ensures KeepsTime(passes, rounds, w, first, repeats[w])
  {
    hide Moved, EarliestFirst, Intervals, Firings;
    forall i, j | 0 <= i && j == i + 1 < |passes|
      ensures w in passes[i].before && w in passes[j].before
      ensures passes[j].before[w] == if w !in passes[i].fired then passes[i].before[w]
                                         else if rounds[i].now <= passes[i].before[w] + repeats[w] then passes[i].before[w] + repeats[w]
                                         else rounds[i].now
    {
      NextExpiry(passes, repeats, w, i);
    }
    forall i | 0 <= i < |passes| && w in passes[i].fired
      ensures rounds[i].now > first + Intervals(Firings(passes, i, w), repeats[w])
    {
      NeverEarly(passes, repeats, w, i);
    }
    forall i | 0 <= i < |passes| && (forall j :: 0 <= j < i ==> rounds[j].now <= passes[j].before[w] + repeats[w])
      ensures passes[i].before[w] == first + Intervals(Firings(passes, i, w), repeats[w])
    {
      NoDrift(passes, repeats, w, i);
    }
  }

  method RunRounds(loop: Loop, w: Watcher, rounds: seq<Round>) returns (ghost passes: seq<Pass>, ghost marks: seq<nat>)
    requires Ready(loop, w) && w in loop.schedule && forall i :: 0 <= i < |rounds| ==> RoundValid(loop, w, rounds[i])
    modifies loop, loop.timers, loop.watchers`active, loop.watchers`at, loop.watchers`pending
    ensures |passes| == |rounds| && Follows(passes, rounds, loop.Repeats(), w)
    ensures Recorded(loop.history, passes, marks, loop.Repeats())
    ensures passes != [] ==> w in passes[0].before && passes[0].before[w] == old(loop.schedule)[w]
  {
    hide Ready, Follows, Recorded, RoundValid;
    ghost var repeats := loop.Repeats();
    passes, marks := [], [];
    NoPasses(rounds, repeats, w, loop.history);
    for n := 0 to |rounds|
      invariant Ready(loop, w) && w in loop.schedule && (loop.timers == old(loop.timers) || fresh(loop.timers))
      invariant |passes| == n && Follows(passes, rounds, repeats, w) && Recorded(loop.history, passes, marks, repeats)
      invariant loop.Repeats() == repeats
      invariant n == 0 ==> loop.schedule[w] == old(loop.schedule)[w]
      invariant n > 0 ==> passes[n - 1].after == loop.schedule
      invariant n > 0 ==> w in passes[0].before && passes[0].before[w] == old(loop.schedule)[w]
    {
      ghost var h := loop.history;
      ghost var pass, at := RunRound(loop, w, rounds[n]);
      FollowsStep(passes, rounds, repeats, w, pass);
      RecordedStep(h, loop.history, passes, marks, repeats, pass, at);
      passes, marks := passes + [pass], marks + [at];
    }
  }

  /** Start a repeating timer and run the loop for any number of rounds, whatever their times and
      whatever happens to the other timers: it keeps its time, and whenever it fires it is fed. */
  method StartAndRun(loop: Loop, w: Watcher, rounds: seq<Round>) returns (ghost passes: seq<Pass>, ghost marks: seq<nat>)
    requires loop.TimersValid() && loop.QueuesValid() && w in loop.watchers && w.active == 0 && w.repeat_ > 0.0
    requires forall v :: v in loop.watchers ==> v.repeat_ >= 0.0
    requires forall i :: 0 <= i < |rounds| ==> RoundValid(loop, w, rounds[i])
    modifies loop, loop.timers, loop.watchers`active, loop.watchers`at, loop.watchers`pending
    ensures |passes| == |rounds| && Follows(passes, rounds, loop.Repeats(), w)
    ensures KeepsTime(passes, rounds, w, old(loop.mn_now + w.at), w.repeat_)
    ensures Recorded(loop.history, passes, marks, loop.Repeats())
  {
    hide Ready, Follows, Recorded, RoundValid, KeepsTime;
    ghost var first := loop.mn_now + w.at;
    Begin(loop, w);
    passes, marks := RunRounds(loop, w, rounds);
    assert w in loop.Repeats() && loop.Repeats()[w] == w.repeat_;
    RunKeepsTime(passes, rounds, loop.Repeats(), w, first);
  }
}
