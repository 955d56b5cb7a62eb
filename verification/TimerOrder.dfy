/** From expiry times to callbacks: what timers_reify feeds, ev_invoke_pending calls in the order
    of expiry, and a repeating timer never fires early however the passes fall. */
module TimerOrder {
  import opened Heap
  import opened PendingQueues
  import opened EventLoop

  // ---- Histories without feeds ----

  predicate NoFeeds(h: History)
  {
    forall i :: 0 <= i < |h| ==> !h[i].Fed?
  }

  /** Callbacks that only clear watchers, or do nothing. */
  predicate NeverFeeds(script: seq<seq<Op>>)
  {
    forall k, i :: 0 <= k < |script| && 0 <= i < |script[k]| ==> script[k][i].ClearOp?
  }

  lemma {:induction false} ClearsHappen(ops: seq<Op>)
    requires forall i :: 0 <= i < |ops| ==> ops[i].ClearOp?
    ensures NoFeeds(AllHappen(ops))
  {
    if ops == [] {
    } else {
      ClearsHappen(ops[..|ops| - 1]);
    }
  }

  lemma {:induction false} InterleaveNeverFeeds(calls: seq<Happening>, script: seq<seq<Op>>)
    requires NeverFeeds(script) && forall k :: 0 <= k < |calls| ==> calls[k].Called?
    ensures NoFeeds(Interleave(calls, script))
  {
    if calls == [] {
    } else {
      var last := |calls| - 1;
      InterleaveNeverFeeds(calls[..last], script);
      ClearsHappen(Script(script, last));
    }
  }

  /** Without feeds a debt can only be settled. */
  lemma {:induction false} DebtsOnlySettle(h: History, from: nat, hi: nat, w: Watcher)
    requires from <= hi <= |h| && NoFeeds(h[from..])
    ensures Owed(h[..hi], w) == Owed(h[..from], w) || Owed(h[..hi], w).NoDebt?
    decreases hi
  {
    if from == hi {
    } else {
      DebtsOnlySettle(h, from, hi - 1, w);
      assert h[..hi] == h[..hi - 1] + [h[hi - 1]];
      OwedStep(h[..hi - 1], h[hi - 1], w);
      assert h[hi - 1] == h[from..][hi - 1 - from];
    }
  }

  // ---- What the feeds owe ----

  lemma {:induction false} OthersDoNotMatter(h: History, rest: History, w: Watcher)
    requires forall i :: 0 <= i < |rest| ==> rest[i].w != w
    ensures Owed(h + rest, w) == Owed(h, w)
  {
    if rest == [] {
      assert h + rest == h;
    } else {
      var last := |rest| - 1;
      OthersDoNotMatter(h, rest[..last], w);
      assert h + rest == h + rest[..last] + [rest[last]];
      OwedStep(h + rest[..last], rest[last], w);
    }
  }

  lemma {:induction false} FeedsAreOf(ws: seq<Watcher>, revents: Events)
    ensures |Feeds(ws, revents)| == |ws|
    ensures forall i :: 0 <= i < |ws| ==> Feeds(ws, revents)[i].w in ws
  {
    if ws == [] {
    } else {
      FeedsAreOf(ws[1..], revents);
      forall i | 0 <= i < |ws|
        ensures Feeds(ws, revents)[i].w in ws
      {
        if i < |ws| - 1 {
          assert Feeds(ws, revents)[i] == Feeds(ws[1..], revents)[i];
        }
      }
    }
  }

  /** The first watcher of the list is fed last, so its debt is the youngest. */
  lemma {:induction false} FeedsReverse(h: History, ws: seq<Watcher>, revents: Events, k: nat)
    requires k < |ws| && Owed(h, ws[k]).NoDebt?
    requires forall i, j :: 0 <= i < j < |ws| ==> ws[i] != ws[j]
    ensures Owed(h + Feeds(ws, revents), ws[k]) == Debt(revents, |h| + |ws| - 1 - k)
  {
    var rest := Feeds(ws[1..], revents);
    FeedsAreOf(ws[1..], revents);
    assert h + Feeds(ws, revents) == h + rest + [Fed(ws[0], revents)];
    OwedStep(h + rest, Fed(ws[0], revents), ws[k]);
    if k == 0 {
      OthersDoNotMatter(h, rest, ws[0]);
    } else {
      FeedsReverse(h, ws[1..], revents, k - 1);
    }
  }

  lemma {:induction false} StopsOweNothing(h: History, fired: seq<Watcher>, repeats: map<Watcher, real>, w: Watcher)
    requires forall i :: 0 <= i < |fired| ==> fired[i] in repeats
    requires Owed(h, w).NoDebt?
    ensures Owed(h + Stops(fired, repeats), w).NoDebt?
  {
    var s := h + Stops(fired, repeats);
    assert s[..|h|] == h && s[..|s|] == s && s[|h|..] == Stops(fired, repeats);
    DebtsOnlySettle(s, |h|, |s|, w);
  }

  // ---- The two passes together ----

  /** The history of timers_reify followed by ev_invoke_pending with callbacks that never feed. */
  ghost predicate ReifyThenInvoke(before: History, fired: seq<Watcher>, repeats: map<Watcher, real>, after: History,
                                  ws: set<Watcher>)
  {
    && (forall i :: 0 <= i < |fired| ==> fired[i] in repeats && fired[i] in ws)
    && (forall i, j :: 0 <= i < j < |fired| ==> fired[i] != fired[j])
    && var fed := before + Stops(fired, repeats) + Feeds(fired, {TIMER});
       fed <= after && NoFeeds(after[|fed|..]) && CallsDue(after, |fed|, ws)
  }

  ghost function FedAt(before: History, fired: seq<Watcher>, repeats: map<Watcher, real>): nat
    requires forall i :: 0 <= i < |fired| ==> fired[i] in repeats
  {
    |before + Stops(fired, repeats) + Feeds(fired, {TIMER})|
  }

  /** A fired timer that was not pending before owes one TIMER call: the k-th to expire has the
      k-th youngest debt. */
  lemma {:induction false} FiredDebt(before: History, fired: seq<Watcher>, repeats: map<Watcher, real>, after: History,
                                     ws: set<Watcher>, k: nat)
    requires ReifyThenInvoke(before, fired, repeats, after, ws) && k < |fired| && Owed(before, fired[k]).NoDebt?
    ensures Owed(after[..FedAt(before, fired, repeats)], fired[k])
            == Debt({TIMER}, |before + Stops(fired, repeats)| + |fired| - 1 - k)
  {
    var fed := before + Stops(fired, repeats) + Feeds(fired, {TIMER});
    assert after[..|fed|] == fed;
    StopsOweNothing(before, fired, repeats, fired[k]);
    FeedsReverse(before + Stops(fired, repeats), fired, {TIMER}, k);
  }

  /** Of two calls of timers that were both owed when the invocation began, the earlier one settles
      the younger debt if the priorities are equal, and never has the lower priority. */
  lemma {:induction false} YoungerDebtFirst(h: History, from: nat, ws: set<Watcher>, i: nat, j: nat)
    requires from <= i < j < |h| && NoFeeds(h[from..]) && CallsDue(h, from, ws)
    requires h[i].Called? && h[j].Called? && h[i].w != h[j].w
    ensures h[j].w.priority <= h[i].w.priority
    ensures Owed(h[..from], h[i].w).Debt? && Owed(h[..from], h[j].w).Debt?
    ensures h[i].w.priority == h[j].w.priority ==> Owed(h[..from], h[j].w).since < Owed(h[..from], h[i].w).since
  {
    assert h[i..] == h[from..][i - from..];
    DebtsOnlySettle(h, from, i, h[i].w);
    DebtsOnlySettle(h, from, i, h[j].w);
    DebtsOnlySettle(h, i, j, h[j].w);
  }

  /** Timers of equal priority that expired are called in nondecreasing order of their expiry
      times, through the heap, the reversal and the stack. */
  lemma {:induction false} CalledInExpiryOrder(before: History, fired: seq<Watcher>, s0: map<Watcher, real>, now: real,
                                               repeats: map<Watcher, real>, after: History, ws: set<Watcher>,
                                               i: nat, j: nat)
    requires ReifyThenInvoke(before, fired, repeats, after, ws) && EarliestFirst(s0, fired, now)
    requires FedAt(before, fired, repeats) <= i < j < |after| && after[i].Called? && after[j].Called?
    requires after[i].w in fired && after[j].w in fired && after[i].w.priority == after[j].w.priority
    requires Owed(before, after[i].w).NoDebt? && Owed(before, after[j].w).NoDebt?
    ensures s0[after[i].w] <= s0[after[j].w]
  {
    var v, w := after[i].w, after[j].w;
    if v != w {
      YoungerDebtFirst(after, FedAt(before, fired, repeats), ws, i, j);
      var x :| 0 <= x < |fired| && fired[x] == v;
      var y :| 0 <= y < |fired| && fired[y] == w;
      FiredDebt(before, fired, repeats, after, ws, x);
      FiredDebt(before, fired, repeats, after, ws, y);
    }
  }

  /** A debt that is gone was called or cleared. */
  lemma {:induction false} SettledSomewhere(h: History, from: nat, hi: nat, w: Watcher) returns (i: nat)
    requires from <= hi <= |h| && Owed(h[..from], w).Debt? && Owed(h[..hi], w).NoDebt?
    ensures from <= i < hi && h[i].w == w && !h[i].Fed?
    decreases hi
  {
    assert h[..hi] == h[..hi - 1] + [h[hi - 1]];
    OwedStep(h[..hi - 1], h[hi - 1], w);
    if Owed(h[..hi - 1], w).Debt? {
      i := hi - 1;
    } else {
      i := SettledSomewhere(h, from, hi - 1, w);
    }
  }

  /** Once w has been called it is not called again. */
  lemma {:induction false} NotCalledAgain(h: History, from: nat, ws: set<Watcher>, a: nat, b: nat)
    requires from <= a < b < |h| && NoFeeds(h[from..]) && CallsDue(h, from, ws)
    requires h[a].Called? && h[a].w == h[b].w
    ensures !h[b].Called?
  {
    var w := h[a].w;
    assert h[..a + 1] == h[..a] + [h[a]];
    OwedStep(h[..a], h[a], w);
    assert h[a + 1..] == h[from..][a + 1 - from..];
    DebtsOnlySettle(h, a + 1, b, w);
  }

  /** A watcher owed at the start and never cleared is called exactly once, with all its events. */
  lemma {:induction false} CalledExactlyOnce(h: History, from: nat, ws: set<Watcher>, w: Watcher) returns (i: nat)
    requires from <= |h| && NoFeeds(h[from..]) && CallsDue(h, from, ws)
    requires Owed(h[..from], w).Debt? && Owed(h, w).NoDebt?
    requires forall x :: from <= x < |h| && h[x].w == w ==> !h[x].Cleared?
    ensures from <= i < |h| && h[i] == Called(w, Owed(h[..from], w).events)
    ensures forall x :: from <= x < |h| && h[x].w == w ==> x == i
  {
    assert h[..|h|] == h;
    i := SettledSomewhere(h, from, |h|, w);
    DebtsOnlySettle(h, from, i, w);
    forall x | from <= x < |h| && h[x].w == w
      ensures x == i
    {
      assert h[x] == h[from..][x - from];
      if x < i {
        NotCalledAgain(h, from, ws, x, i);
      } else if i < x {
        NotCalledAgain(h, from, ws, i, x);
      }
    }
  }

  /** Every timer that fired, was not pending before and is not cleared by a callback is called
      exactly once, with exactly the TIMER event, before ev_invoke_pending returns. */
  lemma {:induction false} FiredCalledExactlyOnce(before: History, fired: seq<Watcher>, repeats: map<Watcher, real>,
                                                  after: History, ws: set<Watcher>, k: nat)
      returns (i: nat)
    requires ReifyThenInvoke(before, fired, repeats, after, ws) && k < |fired| && Owed(before, fired[k]).NoDebt?
    requires Owed(after, fired[k]).NoDebt?
    requires forall x :: FedAt(before, fired, repeats) <= x < |after| && after[x].w == fired[k] ==> !after[x].Cleared?
    ensures FedAt(before, fired, repeats) <= i < |after| && after[i] == Called(fired[k], {TIMER})
    ensures forall x :: FedAt(before, fired, repeats) <= x < |after| && after[x].w == fired[k] ==> x == i
  {
    FiredDebt(before, fired, repeats, after, ws, k);
    i := CalledExactlyOnce(after, FedAt(before, fired, repeats), ws, fired[k]);
  }

  // ---- Never early ----

  /** One pass of timers_reify: the schedule before and after it and what fired. */
  datatype Pass = Pass(now: real, before: map<Watcher, real>, after: map<Watcher, real>, fired: seq<Watcher>)

  /** A run of passes through which w keeps its repeat interval and is touched by nothing else,
      while other timers may come and go between passes. */
  ghost predicate Untouched(passes: seq<Pass>, repeats: map<Watcher, real>, w: Watcher)
  {
    && (forall i :: 0 <= i < |passes| ==>
          w in passes[i].before
          && Moved(passes[i].before, passes[i].after, passes[i].fired, repeats, passes[i].now)
          && EarliestFirst(passes[i].before, passes[i].fired, passes[i].now))
    && (forall i :: 0 <= i < |passes| - 1 ==> w in passes[i].after && passes[i + 1].before[w] == passes[i].after[w])
  }

  /** In how many of the first n passes w fired. */
  ghost function Firings(passes: seq<Pass>, n: nat, w: Watcher): nat
    requires n <= |passes|
  {
    if n == 0 then 0 else Firings(passes, n - 1, w) + (if w in passes[n - 1].fired then 1 else 0)
  }

  /** k times the interval r. */
  ghost function Intervals(k: nat, r: real): real
  {
    if k == 0 then 0.0 else Intervals(k - 1, r) + r
  }

  lemma {:induction false} IntervalsIsProduct(k: nat, r: real)
    ensures Intervals(k, r) == k as real * r
  {
    if k == 0 {
    } else {
      IntervalsIsProduct(k - 1, r);
    }
  }

  lemma NextExpiry(passes: seq<Pass>, repeats: map<Watcher, real>, w: Watcher, i: nat)
    requires Untouched(passes, repeats, w) && i + 1 < |passes| && w in repeats && repeats[w] > 0.0
    ensures passes[i + 1].before[w] == if w in passes[i].fired then Rearm(passes[i].before[w], repeats[w], passes[i].now)
                                       else passes[i].before[w]
  {
    var p := passes[i];
    assert Moved(p.before, p.after, p.fired, repeats, p.now);
  }

  lemma {:induction false} ExpiryLowerBound(passes: seq<Pass>, repeats: map<Watcher, real>, w: Watcher, i: nat)
    requires Untouched(passes, repeats, w) && i < |passes| && w in repeats && repeats[w] > 0.0
    ensures passes[i].before[w] >= passes[0].before[w] + Intervals(Firings(passes, i, w), repeats[w])
  {
    if i == 0 {
    } else {
      hide Moved, EarliestFirst;
      ExpiryLowerBound(passes, repeats, w, i - 1);
      NextExpiry(passes, repeats, w, i - 1);
    }
  }

  /** Firing number k, counted from 0, of a timer that repeats every r and first expires at `at` comes
      in a pass whose time is strictly after at + k * r. */
  lemma {:induction false} NeverEarly(passes: seq<Pass>, repeats: map<Watcher, real>, w: Watcher, i: nat)
    requires Untouched(passes, repeats, w) && i < |passes| && w in repeats && repeats[w] > 0.0
    requires w in passes[i].fired
    ensures passes[i].now > passes[0].before[w] + Intervals(Firings(passes, i, w), repeats[w])
  {
    ExpiryLowerBound(passes, repeats, w, i);
    assert passes[i].before[w] < passes[i].now;
  }

  /** When no pass is late by more than an interval, the expiry times do not drift. */
  lemma {:induction false} NoDrift(passes: seq<Pass>, repeats: map<Watcher, real>, w: Watcher, i: nat)
    requires Untouched(passes, repeats, w) && i < |passes| && w in repeats && repeats[w] > 0.0
    requires forall j :: 0 <= j < i ==> passes[j].now <= passes[j].before[w] + repeats[w]
    ensures passes[i].before[w] == passes[0].before[w] + Intervals(Firings(passes, i, w), repeats[w])
  {
    if i == 0 {
    } else {
      hide Moved, EarliestFirst;
      NoDrift(passes, repeats, w, i - 1);
      NextExpiry(passes, repeats, w, i - 1);
    }
  }
}
