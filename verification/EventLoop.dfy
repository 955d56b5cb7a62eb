/** The event loop's own bookkeeping: feeding and invoking pending watchers, and the relative
    timers from ev_timer_start to the order in which their callbacks run. */
module EventLoop {
  import opened ArrayGrowth
  import opened Heap
  import opened PendingQueues

  /** What a callback may do to the queues. */
  datatype Op = FeedOp(w: Watcher, events: Events) | ClearOp(w: Watcher)

  function Happens(op: Op): Happening
  {
    match op
    case FeedOp(w, events) => Fed(w, events)
    case ClearOp(w) => Cleared(w)
  }

  function AllHappen(ops: seq<Op>): (h: History)
    ensures |h| == |ops| && forall i :: 0 <= i < |h| ==> !h[i].Called?
    ensures forall i :: 0 <= i < |h| ==>
              h[i] == if ops[i].FeedOp? then Fed(ops[i].w, ops[i].events) else Cleared(ops[i].w)
  {
    if ops == [] then [] else AllHappen(ops[..|ops| - 1]) + [Happens(ops[|ops| - 1])]
  }

  /** What the k-th callback of a script does; callbacks beyond the script do nothing. */
  function Script(script: seq<seq<Op>>, k: nat): seq<Op>
  {
    if k < |script| then script[k] else []
  }

  /** The history of a sequence of calls, each followed by what its callback does. */
  function Interleave(calls: seq<Happening>, script: seq<seq<Op>>): History
  {
    if calls == [] then []
    else
      var last := |calls| - 1;
      Interleave(calls[..last], script) + [calls[last]] + AllHappen(Script(script, last))
  }

  function OpsFrom(script: seq<seq<Op>>, k: nat): nat
    decreases |script| - k
  {
    if k >= |script| then 0 else |script[k]| + OpsFrom(script, k + 1)
  }

  predicate SameLengths(q: Queues, q': Queues)
  {
    |q| == |q'| && forall p :: 0 <= p < |q| ==> |q'[p]| == |q[p]|
  }

  function TotalPending(q: Queues): nat
    requires |q| == NUMPRI
  {
    |q[0]| + |q[1]| + |q[2]| + |q[3]| + |q[4]|
  }

  /** The calls made and what their callbacks did account for the history since `before`, and
      every one of those calls was due. */
  ghost predicate Accounted(history: History, before: History, calls: seq<Happening>, script: seq<seq<Op>>, ws: set<Watcher>)
  {
    && (forall k :: 0 <= k < |calls| ==> calls[k].Called?)
    && history == before + Interleave(calls, script)
    && CallsDue(history, |before|, ws)
  }

  lemma {:induction false} AccountedExtended(history: History, before: History, calls: seq<Happening>,
                                             script: seq<seq<Op>>, ws: set<Watcher>, call: Happening)
    requires Accounted(history, before, calls, script, ws)
    requires call.Called? && Due(history, ws, call.w, call.events)
    ensures Accounted(history + [call] + AllHappen(Script(script, |calls|)), before, calls + [call], script, ws)
  {
    var rest := AllHappen(Script(script, |calls|));
    assert (calls + [call])[..|calls|] == calls;
    assert Interleave(calls + [call], script) == Interleave(calls, script) + [call] + rest;
    assert before + (Interleave(calls, script) + [call] + rest) == before + Interleave(calls, script) + [call] + rest;
    DueExtended(history, |before|, ws, call, rest);
  }

  lemma {:induction false} DueExtended(history: History, from: nat, ws: set<Watcher>, call: Happening, rest: History)
    requires CallsDue(history, from, ws) && call.Called? && Due(history, ws, call.w, call.events)
    requires forall i :: 0 <= i < |rest| ==> !rest[i].Called?
    ensures CallsDue(history + [call] + rest, from, ws)
  {
    hide Due;
    var h := history + [call] + rest;
    forall i | from <= i < |h| && h[i].Called?
      ensures Due(h[..i], ws, h[i].w, h[i].events)
    {
      if i < |history| {
        assert h[..i] == history[..i];
      } else {
        assert h[..i] == history;
      }
    }
  }

  /** Popping takes away the top of one queue and leaves every other entry where it is. */
  lemma PoppedAt(q: Queues, p: nat)
    requires p < |q| && q[p] != []
    ensures forall x: nat, j: nat :: At(Popped(q, p), x, j) <==> At(q, x, j) && (x != p || j != |q[p]| - 1)
    ensures forall x: nat, j: nat :: At(Popped(q, p), x, j) ==> Popped(q, p)[x][j] == q[x][j]
  {
  }

  lemma PoppedCount(q: Queues, p: nat)
    requires |q| == NUMPRI && p < NUMPRI && q[p] != []
    ensures |Popped(q, p)| == NUMPRI && TotalPending(Popped(q, p)) == TotalPending(q) - 1
  {
  }

  class Loop {
    var mn_now: real
    var timers: array<ANHE>
    var timercnt: nat
    var pendings: Queues
    var pendingpri: nat
    var activecnt: int
    ghost var history: History
    /** The active timers with their expiry times. */
    ghost var schedule: map<Watcher, real>
    /** The watchers this loop ever sees. */
    ghost const watchers: set<Watcher>

    /** A new loop for the given idle watchers. */
    constructor (ghost watchers: set<Watcher>, now: real)
      requires forall w :: w in watchers ==> ValidPriority(w) && w.active == 0 && w.pending == 0
      ensures this.watchers == watchers && mn_now == now && fresh(timers)
      ensures QueuesValid() && TimersValid() && history == [] && schedule == map[]
    {
      this.watchers := watchers;
      mn_now, timercnt, activecnt, pendingpri := now, 0, 0, 0;
      timers := new ANHE[0];
      pendings := [[], [], [], [], []];
      history, schedule := [], map[];
      new;
      assert forall p: nat, i: nat :: !At(pendings, p, i);
    }

    /** The entry that w.pending points to is the one of w. */
    ghost predicate Slot(q: Queues, w: Watcher)
      reads w`pending
    {
      w.pending > 0 && At(q, w.priority, w.pending - 1) && q[w.priority][w.pending - 1].w == w
    }

    /** A watcher's `pending` is one more than its position in the queue of its priority. */
    ghost predicate SlotsValid()
      reads this`pendings, watchers`pending
    {
      && |pendings| == NUMPRI
      && (forall w :: w in watchers ==> ValidPriority(w))
      && (forall w {:trigger Slot(pendings, w)} :: w in watchers && w.pending > 0 ==> Slot(pendings, w))
      && (forall p: nat, i: nat :: At(pendings, p, i) && pendings[p][i].w != null ==>
            pendings[p][i].w in watchers && pendings[p][i].w.priority == p && pendings[p][i].w.pending == i + 1)
    }

    /** Queues, back-pointers and history agree. */
    ghost predicate QueuesValid()
      reads this`pendings, this`history, watchers`pending
    {
      SlotsValid() && Explains(history, pendings, watchers)
    }

    ghost predicate OpsValid(ops: seq<Op>)
    {
      forall i :: 0 <= i < |ops| ==> ops[i].w in watchers
    }

    lemma PendingIffOwed(w: Watcher)
      requires QueuesValid() && w in watchers
      ensures w.pending > 0 <==> Owed(history, w).Debt?
      ensures w.pending > 0 ==>
                At(pendings, w.priority, w.pending - 1) && pendings[w.priority][w.pending - 1].w == w
                && Owed(history, w).events == pendings[w.priority][w.pending - 1].events
    {
      assert w.pending > 0 ==> Slot(pendings, w);
    }

    method MergeEntry(w: Watcher, revents: Events)
      requires SlotsValid() && w in watchers && Slot(pendings, w)
      modifies this`pendings
      ensures var p, i := w.priority, w.pending - 1;
              pendings == old(pendings)[p := old(pendings)[p][i := ANPENDING(w, old(pendings)[p][i].events + revents)]]
      ensures SlotsValid() && TotalPending(pendings) == old(TotalPending(pendings))
    {
      var p, i := w.priority, w.pending - 1;
      pendings := pendings[p := pendings[p][i := ANPENDING(w, pendings[p][i].events + revents)]];
      assert forall x: nat, j: nat :: At(pendings, x, j) <==> old(At(pendings, x, j));
      assert forall x: nat, j: nat :: At(pendings, x, j) ==> pendings[x][j].w == old(pendings)[x][j].w;
      forall v | v in watchers && v.pending > 0
        ensures Slot(pendings, v)
      {
        assert old(Slot(pendings, v));
      }
    }

    method AppendEntry(w: Watcher, revents: Events)
      requires SlotsValid() && w in watchers && w.pending == 0
      modifies this`pendings, w`pending
      ensures pendings == old(pendings)[w.priority := old(pendings)[w.priority] + [ANPENDING(w, revents)]]
      ensures SlotsValid() && TotalPending(pendings) == old(TotalPending(pendings)) + 1
    {
      var p := w.priority;
      w.pending := |pendings[p]| + 1;
      pendings := pendings[p := pendings[p] + [ANPENDING(w, revents)]];
      assert forall x: nat, j: nat :: old(At(pendings, x, j)) ==> At(pendings, x, j) && pendings[x][j] == old(pendings)[x][j];
      assert forall x: nat, j: nat :: At(pendings, x, j) ==> old(At(pendings, x, j)) || (x == p && j == old(|pendings[p]|));
      forall v | v in watchers && v.pending > 0
        ensures Slot(pendings, v)
      {
        assert v != w ==> old(Slot(pendings, v));
      }
    }

    /** Put the dummy watcher in the place of w. */
    method DropEntry(w: Watcher)
      requires SlotsValid() && w in watchers && Slot(pendings, w)
      modifies this`pendings, w`pending
      ensures var p, i := w.priority, old(w.pending) - 1;
              pendings == old(pendings)[p := old(pendings)[p][i := old(pendings)[p][i].(w := null)]]
      ensures SlotsValid() && SameLengths(old(pendings), pendings) && w.pending == 0
    {
      var p, i := w.priority, w.pending - 1;
      pendings := pendings[p := pendings[p][i := pendings[p][i].(w := null)]];
      w.pending := 0;
      assert forall x: nat, j: nat :: At(pendings, x, j) <==> old(At(pendings, x, j));
      assert forall x: nat, j: nat :: At(pendings, x, j) && (x != p || j != i) ==> pendings[x][j] == old(pendings)[x][j];
      forall v | v in watchers && v.pending > 0
        ensures Slot(pendings, v)
      {
        assert v != w && old(Slot(pendings, v));
      }
    }

    method FeedEvent(w: Watcher, revents: Events)
      requires QueuesValid() && w in watchers
      modifies this`pendings, this`pendingpri, this`history, w`pending
      ensures QueuesValid() && history == old(history) + [Fed(w, revents)]
      ensures pendingpri == NUMPRI - 1
      ensures TotalPending(pendings) <= old(TotalPending(pendings)) + 1
    {
      PendingIffOwed(w);
      if w.pending > 0 {
        MergeExplained(history, pendings, watchers, w, revents, w.pending - 1);
        MergeEntry(w, revents);
      } else {
        AppendExplained(history, pendings, watchers, w, revents);
        AppendEntry(w, revents);
      }
      history := history + [Fed(w, revents)];
      pendingpri := NUMPRI - 1;
    }

    method ClearPending(w: Watcher)
      requires QueuesValid() && w in watchers
      modifies this`pendings, this`history, w`pending
      ensures QueuesValid() && history == old(history) + [Cleared(w)]
      ensures SameLengths(old(pendings), pendings)
    {
      PendingIffOwed(w);
      if w.pending > 0 {
        ClearExplained(history, pendings, watchers, w, w.pending - 1);
        DropEntry(w);
      } else {
        IdleClearExplained(history, pendings, watchers, w);
      }
      history := history + [Cleared(w)];
    }

    /** The public ev_clear_pending also returns the events that will not be delivered. */
    method EvClearPending(w: Watcher) returns (events: Events)
      requires QueuesValid() && w in watchers
      modifies this`pendings, this`history, w`pending
      ensures QueuesValid() && history == old(history) + [Cleared(w)]
      ensures events == match old(Owed(history, w)) case Debt(owed, _) => owed case NoDebt => {}
    {
      PendingIffOwed(w);
      events := if w.pending > 0 then pendings[w.priority][w.pending - 1].events else {};
      ClearPending(w);
    }

    /** Take the top entry off queue p; its watcher stops being pending. */
    method PopEntry(p: nat) returns (top: ANPENDING)
      requires SlotsValid() && p < NUMPRI && pendings[p] != []
      modifies this`pendings, watchers`pending
      ensures top == Top(old(pendings), p) && pendings == Popped(old(pendings), p)
      ensures top.w != null ==> top.w in watchers
      ensures SlotsValid() && TotalPending(pendings) == old(TotalPending(pendings)) - 1
    {
      var last := |pendings[p]| - 1;
      top := pendings[p][last];
      assert At(pendings, p, last);
      ghost var q := pendings;
      pendings := pendings[p := pendings[p][..last]];
      assert pendings == Popped(q, p);
      hide Popped, TotalPending;
      PoppedAt(q, p);
      PoppedCount(q, p);
      if top.w != null {
        top.w.pending := 0;
        assert forall x: nat, j: nat :: At(pendings, x, j) && pendings[x][j].w == top.w ==> At(q, x, j) && j == last && x == p;
      }
      forall v | v in watchers && v.pending > 0
        ensures Slot(pendings, v)
      {
        assert v != top.w && old(Slot(pendings, v));
      }
    }

    /** Run one callback that feeds and clears the given watchers. */
    method RunCallback(ops: seq<Op>)
      requires QueuesValid() && OpsValid(ops)
      modifies this`pendings, this`pendingpri, this`history, watchers`pending
      ensures QueuesValid() && history == old(history) + AllHappen(ops)
      ensures TotalPending(pendings) <= old(TotalPending(pendings)) + |ops|
      ensures pendingpri == NUMPRI - 1 || (pendingpri == old(pendingpri) && SameLengths(old(pendings), pendings))
    {
      for i := 0 to |ops|
        invariant QueuesValid() && history == old(history) + AllHappen(ops[..i])
        invariant TotalPending(pendings) <= old(TotalPending(pendings)) + i
        invariant pendingpri == NUMPRI - 1 || (pendingpri == old(pendingpri) && SameLengths(old(pendings), pendings))
      {
        assert ops[..i + 1][..i] == ops[..i];
        match ops[i]
        case FeedOp(w, events) => FeedEvent(w, events);
        case ClearOp(w) => ClearPending(w);
      }
      assert ops[..|ops|] == ops;
    }

    ghost predicate HigherEmpty(pri: nat)
      reads this`pendings
    {
      |pendings| == NUMPRI && forall x :: pri < x < NUMPRI ==> pendings[x] == []
    }

    ghost function Work(script: seq<seq<Op>>, next: nat): nat
      requires |pendings| == NUMPRI
      reads this`pendings
    {
      TotalPending(pendings) + OpsFrom(script, next)
    }

    /** Pop the top of the current queue and record its call, which is due. */
    method TakeTop() returns (top: ANPENDING)
      requires QueuesValid() && pendingpri < NUMPRI && HigherEmpty(pendingpri) && pendings[pendingpri] != []
      modifies this`pendings, this`history, watchers`pending
      ensures QueuesValid() && HigherEmpty(pendingpri)
      ensures TotalPending(pendings) == old(TotalPending(pendings)) - 1
      ensures top.w == null ==> history == old(history)
      ensures top.w != null ==> history == old(history) + [Called(top.w, top.events)]
      ensures top.w != null ==> Due(old(history), watchers, top.w, top.events)
    {
      ghost var q := pendings;
      top := PopEntry(pendingpri);
      if top.w == null {
        PopDummyExplained(history, q, watchers, pendingpri);
      } else {
        PopExplained(history, q, watchers, pendingpri);
        TopIsDue(history, q, watchers, pendingpri);
        history := history + [Called(top.w, top.events)];
      }
    }

    /** One round of the inner loop: pop the top of the current queue and call it. */
    method InvokeTop(script: seq<seq<Op>>, next: nat, ghost before: History, ghost calls: seq<Happening>)
        returns (next': nat, ghost calls': seq<Happening>)
      requires QueuesValid() && Accounted(history, before, calls, script, watchers) && |calls| == next
      requires forall k :: 0 <= k < |script| ==> OpsValid(script[k])
      requires pendingpri < NUMPRI && HigherEmpty(pendingpri) && pendings[pendingpri] != []
      modifies this`pendings, this`pendingpri, this`history, watchers`pending
      ensures QueuesValid() && Accounted(history, before, calls', script, watchers) && |calls'| == next'
      ensures pendingpri < NUMPRI && HigherEmpty(pendingpri)
      ensures Work(script, next') < old(Work(script, next))
    {
      calls', next' := calls, next;
      ghost var h := history;
      var top := TakeTop();
      if top.w != null {
        calls' := calls + [Called(top.w, top.events)];
        next' := next + 1;
        AccountedExtended(h, before, calls, script, watchers, Called(top.w, top.events));
        RunCallback(Script(script, next));
      }
    }

    /** ev_invoke_pending, with the behaviour of every callback given by the script: the k-th
        callback invoked performs script[k].  All queues are drained, every call is due when
        it is made, and nothing happens besides the calls and what their callbacks do. */
    method InvokePending(script: seq<seq<Op>>) returns (ghost calls: seq<Happening>)
      requires QueuesValid() && forall k :: 0 <= k < |script| ==> OpsValid(script[k])
      modifies this`pendings, this`pendingpri, this`history, watchers`pending
      ensures QueuesValid() && pendingpri == 0
      ensures forall p :: 0 <= p < NUMPRI ==> pendings[p] == []
      ensures forall w :: w in watchers ==> w.pending == 0 && Owed(history, w).NoDebt?
      ensures forall k :: 0 <= k < |calls| ==> calls[k].Called?
      ensures history == old(history) + Interleave(calls, script)
      ensures CallsDue(history, |old(history)|, watchers)
    {
      calls := [];
      pendingpri := NUMPRI;
      var next := 0;
      var again := true;
      while again
        invariant QueuesValid() && Accounted(history, old(history), calls, script, watchers) && |calls| == next
        invariant pendingpri <= NUMPRI && (again <==> pendingpri > 0)
        invariant forall x :: pendingpri <= x < NUMPRI ==> pendings[x] == []
        decreases Work(script, next), pendingpri
      {
        pendingpri := pendingpri - 1;
        ghost var work, pri := Work(script, next), pendingpri;
        while |pendings[pendingpri]| > 0
          invariant QueuesValid() && Accounted(history, old(history), calls, script, watchers) && |calls| == next
          invariant pendingpri < NUMPRI && HigherEmpty(pendingpri)
          invariant Work(script, next) < work || (Work(script, next) == work && pendingpri == pri)
          decreases Work(script, next)
        {
          next, calls := InvokeTop(script, next, old(history), calls);
        }
        again := pendingpri > 0;
      }
      EmptyQueuesOweNothing(history, pendings, watchers);
      forall w | w in watchers
        ensures w.pending == 0
      {
        assert w.pending > 0 ==> Slot(pendings, w);
      }
    }

    // ---- Relative timers ----

    /** Entries belong to watchers that know their index, and carry their time. */
    ghost predicate Known(h: seq<ANHE>, n: nat)
      requires Fits(h, n)
      reads watchers`at, watchers`active
    {
      Indexed(h, n, watchers) && forall i :: HEAP0 <= i < HEAP0 + n ==> h[i].w in watchers && h[i].w.at == h[i].at
    }

    /** Entry w.active is the one of w. */
    ghost predicate Holds(h: seq<ANHE>, n: nat, w: Watcher)
      requires Fits(h, n)
      reads w`active
    {
      InHeap(n, w.active) && h[w.active].w == w
    }

    /** Every active watcher has its entry. */
    ghost predicate Located(h: seq<ANHE>, n: nat)
      requires Fits(h, n)
      reads watchers`active
    {
      forall w {:trigger Holds(h, n, w)} :: w in watchers && w.active > 0 ==> Holds(h, n, w)
    }

    /** ev_verify's checks of the timer heap, and that no active watcher is missing from it. */
    ghost predicate HeapValid()
      reads this`timers, this`timercnt, timers, watchers`at, watchers`active
    {
      && Fits(timers[..], timercnt)
      && HeapOrder(timers[..], timercnt)
      && Known(timers[..], timercnt)
      && Located(timers[..], timercnt)
    }

    lemma HasEntry(w: Watcher)
      requires HeapValid() && w in watchers && w.active > 0
      ensures InHeap(timercnt, w.active) && timers[..][w.active].w == w
    {
      assert Holds(timers[..], timercnt, w);
    }

    /** The schedule is what the heap holds. */
    ghost predicate Synced()
      reads this`schedule, watchers`at, watchers`active
    {
      schedule.Keys == Active(watchers) && forall w :: w in schedule ==> w in watchers && w.at == schedule[w]
    }

    ghost predicate TimersValid()
      reads this`timers, this`timercnt, this`schedule, timers, watchers`at, watchers`active
    {
      HeapValid() && Synced()
    }

    /** HeapValid without heap order and without the index of the watcher of entry k. */
    ghost predicate Loose(h: seq<ANHE>, n: nat, k: nat)
      requires Fits(h, n) && InHeap(n, k)
      reads watchers`at, watchers`active
    {
      && IndexedExcept(h, n, k, watchers)
      && (forall i :: HEAP0 <= i < HEAP0 + n ==> h[i].w in watchers && h[i].w.at == h[i].at)
      && (forall w {:trigger Holds(h, n, w)} :: w in watchers && w.active > 0 && w != h[k].w ==> Holds(h, n, w))
    }

    /** What of Loose does not depend on the index of w. */
    ghost predicate LooseBut(h: seq<ANHE>, n: nat, w: Watcher)
      requires Fits(h, n)
      reads watchers`at, (watchers - {w})`active
    {
      && (forall i :: HEAP0 <= i < HEAP0 + n ==>
            h[i].w in watchers && h[i].w.at == h[i].at && (h[i].w != w ==> h[i].w.active == i))
      && (forall v {:trigger Holds(h, n, v)} :: v in watchers && v != w && v.active > 0 ==> Holds(h, n, v))
    }

    lemma LooseAppended(h: seq<ANHE>, h': seq<ANHE>, n: nat, w: Watcher)
      requires Fits(h, n) && Fits(h', n + 1) && LooseBut(h, n, w) && HeapOrder(h, n)
      requires forall i :: HEAP0 <= i < HEAP0 + n ==> h'[i] == h[i] && h[i].w != w
      requires w in watchers && w.active > 0 && h'[HEAP0 + n] == ANHE(w.at, w)
      ensures Loose(h', n + 1, HEAP0 + n) && OrderExceptUp(h', n + 1, HEAP0 + n)
    {
      forall v | v in watchers && v.active > 0 && v != w
        ensures Holds(h', n + 1, v)
      {
        assert Holds(h, n, v);
      }
    }

    lemma LooseRemoved(h: seq<ANHE>, n: nat, k: nat)
      requires Fits(h, n) && InHeap(n, k) && LooseBut(h, n, h[k].w) && HeapOrder(h, n) && h[k].w.active == 0
      requires forall i :: HEAP0 <= i < HEAP0 + n && i != k ==> h[i].w != h[k].w
      ensures var h' := h[k := h[HEAP0 + n - 1]];
              && (k < HEAP0 + n - 1 ==> Loose(h', n - 1, k) && OrderExcept(h', n - 1, k))
              && (k == HEAP0 + n - 1 ==> HeapOrder(h', n - 1) && Known(h', n - 1) && Located(h', n - 1))
    {
      var h' := h[k := h[HEAP0 + n - 1]];
      forall v | v in watchers && v.active > 0 && v != h'[k].w
        ensures Holds(h', n - 1, v)
      {
        assert Holds(h, n, v);
      }
      if k < HEAP0 + n - 1 {
        OverwriteKeepsRest(h, n, n - 1, k, h[HEAP0 + n - 1]);
      }
    }

    /** Everything of Known that does not depend on the time of w. */
    ghost predicate KnownBut(h: seq<ANHE>, n: nat, w: Watcher)
      requires Fits(h, n)
      reads watchers`active, (watchers - {w})`at
    {
      forall i :: HEAP0 <= i < HEAP0 + n ==>
        h[i].w in watchers && h[i].w.active == i && (h[i].w != w ==> h[i].w.at == h[i].at)
    }

    /** After the time of entry k and of its watcher has changed. */
    lemma LooseRetimed(h: seq<ANHE>, n: nat, k: nat)
      requires Fits(h, n) && InHeap(n, k) && KnownBut(h, n, h[k].w) && Located(h, n) && HeapOrder(h, n)
      ensures var h' := h[k := h[k].(at := h[k].w.at)];
              Loose(h', n, k) && OrderExcept(h', n, k) && (k == HEAP0 ==> OrderExceptDown(h', n, k))
    {
      var h' := h[k := h[k].(at := h[k].w.at)];
      forall v | v in watchers && v.active > 0 && v != h'[k].w
        ensures Holds(h', n, v)
      {
        assert Holds(h, n, v);
      }
      OverwriteKeepsRest(h, n, n, k, h'[k]);
    }

    /** ev_timer_remaining. */
    function Remaining(w: Watcher): real
      reads this`mn_now, w`at, w`active
    {
      w.at - (if w.active > 0 then mn_now else 0.0)
    }

    /** After the heap functions have rearranged the entries, the loose ends are tied up. */
    twostate lemma Tightened(k: nat)
      requires timers == old(timers) && timercnt == old(timercnt) && Fits(timers[..], timercnt)
      requires InHeap(timercnt, k) && old(Loose(timers[..], timercnt, k))
      requires multiset(timers[..]) == multiset(old(timers[..]))
      requires forall i :: 0 <= i < timers.Length && (i < HEAP0 || i >= HEAP0 + timercnt) ==> timers[..][i] == old(timers[..])[i]
      requires forall w :: w in watchers ==> w.at == old(w.at)
      requires Active(watchers) == old(Active(watchers))
      requires HeapOrder(timers[..], timercnt) && Indexed(timers[..], timercnt, watchers)
      ensures HeapValid()
    {
      var h, r := old(timers[..]), timers[..];
      forall i | HEAP0 <= i < HEAP0 + timercnt
        ensures r[i].w in watchers && r[i].w.at == r[i].at
      {
        var j := EntryKept(h, r, timercnt, i);
      }
      forall w | w in watchers && w.active > 0
        ensures Holds(r, timercnt, w)
      {
        assert w in Active(watchers) && (w != h[k].w ==> old(Holds(timers[..], timercnt, w)));
        var i := if w == h[k].w then k else old(w.active);
        assert h[i].w == w;
        var j := EntryKept(r, h, timercnt, i);
      }
    }

    method TightenUp(k: nat)
      requires Fits(timers[..], timercnt) && InHeap(timercnt, k)
      requires Loose(timers[..], timercnt, k) && OrderExceptUp(timers[..], timercnt, k)
      modifies timers, watchers`active
      ensures HeapValid() && Active(watchers) == old(Active(watchers))
    {
      UpRestoresOrder(timers[..], timercnt, k);
      UpHeap(timers, k, timercnt, watchers);
      Tightened(k);
    }

    method TightenDown(k: nat)
      requires Fits(timers[..], timercnt) && InHeap(timercnt, k)
      requires Loose(timers[..], timercnt, k) && OrderExceptDown(timers[..], timercnt, k)
      modifies timers, watchers`active
      ensures HeapValid() && Active(watchers) == old(Active(watchers))
    {
      DownRestoresOrder(timers[..], timercnt, k);
      DownHeap(timers, timercnt, k, watchers);
      Tightened(k);
    }

    method TightenBoth(k: nat)
      requires Fits(timers[..], timercnt) && InHeap(timercnt, k)
      requires Loose(timers[..], timercnt, k) && OrderExcept(timers[..], timercnt, k)
      modifies timers, watchers`active
      ensures HeapValid() && Active(watchers) == old(Active(watchers))
    {
      AdjustRestoresOrder(timers[..], timercnt, k);
      AdjustHeap(timers, timercnt, k, watchers);
      Tightened(k);
    }

    /** array_needsize for one more timer; growing the array does not touch the heap. */
    method NeedSize(w: Watcher)
      requires HeapValid()
      modifies this`timers
      ensures HeapValid() && (timers == old(timers) || fresh(timers)) && timers.Length > HEAP0 + timercnt
    {
      ghost var h := timers[..];
      if HEAP0 + timercnt + 1 > timers.Length {
        timers := Grow(timers, HEAP0 + timercnt + 1, ANHE(w.at, w));
        PrefixValid(h, timers[..]);
      }
    }

    lemma PrefixValid(h: seq<ANHE>, h': seq<ANHE>)
      requires Fits(h, timercnt) && HeapOrder(h, timercnt) && Known(h, timercnt) && Located(h, timercnt)
      requires h <= h'
      ensures HeapOrder(h', timercnt) && Known(h', timercnt) && Located(h', timercnt)
    {
      forall w | w in watchers && w.active > 0
        ensures Holds(h', timercnt, w)
      {
        assert Holds(h, timercnt, w);
      }
    }

    /** Store w in the first slot behind the heap. */
    method AppendTimer(w: Watcher)
      requires HeapValid() && w in watchers && w.active == 0 && timers.Length > HEAP0 + timercnt
      modifies this`timercnt, timers, w`active
      ensures timercnt == old(timercnt) + 1 && w.active == HEAP0 + timercnt - 1
      ensures Fits(timers[..], timercnt)
      ensures Loose(timers[..], timercnt, w.active) && OrderExceptUp(timers[..], timercnt, w.active)
      ensures Active(watchers) == old(Active(watchers)) + {w}
    {
      ghost var h, n := timers[..], timercnt;
      assert LooseBut(h, n, w);
      timercnt := timercnt + 1;
      w.active := timercnt + HEAP0 - 1;
      timers[w.active] := ANHE(w.at, w);
      LooseAppended(h, timers[..], n, w);
    }

    /** Insert w into the heap. */
    method InsertTimer(w: Watcher)
      requires HeapValid() && w in watchers && w.active == 0
      modifies this`timers, this`timercnt, timers, watchers`active
      ensures HeapValid() && (timers == old(timers) || fresh(timers)) && timercnt == old(timercnt) + 1
      ensures Active(watchers) == old(Active(watchers)) + {w}
    {
      NeedSize(w);
      AppendTimer(w);
      TightenUp(w.active);
    }

    /** The part of ev_timer_start for an inactive timer. */
    method Activate(w: Watcher)
      requires HeapValid() && w in watchers && w.active == 0
      modifies this`timers, this`timercnt, this`activecnt, timers, watchers`active, w`at
      ensures HeapValid() && (timers == old(timers) || fresh(timers))
      ensures Active(watchers) == old(Active(watchers)) + {w} && w.at == old(w.at) + mn_now
      ensures timercnt == old(timercnt) + 1 && activecnt == old(activecnt) + 1
    {
      w.at := w.at + mn_now;
      activecnt := activecnt + 1;
      InsertTimer(w);
    }

    /** Start w, whose `at` is relative to now; an active timer is left alone. */
    method TimerStart(w: Watcher)
      requires TimersValid() && w in watchers && w.repeat_ >= 0.0
      modifies this`timers, this`timercnt, this`activecnt, this`schedule, timers, watchers`active, w`at
      ensures TimersValid() && (timers == old(timers) || fresh(timers))
      ensures w.active > 0 && Remaining(w) == old(Remaining(w))
      ensures schedule == if old(w.active) > 0 then old(schedule) else old(schedule)[w := old(w.at) + mn_now]
      ensures w in schedule && w.at == schedule[w]
      ensures timercnt == old(timercnt) + (if old(w.active) > 0 then 0 else 1)
      ensures activecnt == old(activecnt) + (if old(w.active) > 0 then 0 else 1)
    {
      assert w.active > 0 <==> w in Active(watchers);
      if w.active == 0 {
        schedule := schedule[w := w.at + mn_now];
        Activate(w);
        assert w in Active(watchers);
      }
    }

    /** Take the entry of w out of the heap: the last entry fills the gap.  The index of w is
        reset before the repair, which no longer looks at it. */
    method RemoveTimer(w: Watcher)
      requires HeapValid() && w in watchers && w.active > 0
      modifies this`timercnt, timers, watchers`active
      ensures HeapValid() && timercnt == old(timercnt) - 1
      ensures Active(watchers) == old(Active(watchers)) - {w}
    {
      var k := w.active;
      var moved := FillGap(w);
      if moved {
        TightenBoth(k);
      }
    }

    method FillGap(w: Watcher) returns (moved: bool)
      requires HeapValid() && w in watchers && w.active > 0
      modifies this`timercnt, timers, w`active
      ensures timercnt == old(timercnt) - 1 && Fits(timers[..], timercnt)
      ensures Active(watchers) == old(Active(watchers)) - {w}
      ensures moved ==> InHeap(timercnt, old(w.active))
      ensures moved ==> Loose(timers[..], timercnt, old(w.active)) && OrderExcept(timers[..], timercnt, old(w.active))
      ensures !moved ==> HeapValid()
    {
      ghost var h, n := timers[..], timercnt;
      var k := w.active;
      HasEntry(w);
      assert LooseBut(h, n, w) && h[k].w == w;
      w.active := 0;
      LooseRemoved(h, n, k);
      moved := MoveLast(k);
    }

    /** Shrink the heap by one and move its last entry to k, unless k was the last. */
    method MoveLast(k: nat) returns (moved: bool)
      requires Fits(timers[..], timercnt) && InHeap(timercnt, k)
      modifies this`timercnt, timers
      ensures timercnt == old(timercnt) - 1 && moved == (k < HEAP0 + timercnt)
      ensures timers[..] == old(timers[..])[k := old(timers[..])[HEAP0 + timercnt]]
    {
      timercnt := timercnt - 1;
      moved := k < timercnt + HEAP0;
      if moved {
        timers[k] := timers[timercnt + HEAP0];
      }
    }

    /** Take w off the heap and the schedule. */
    method Unschedule(w: Watcher)
      requires TimersValid() && w in watchers && w.active > 0
      modifies this`timercnt, this`schedule, timers, watchers`active
      ensures TimersValid() && schedule == old(schedule) - {w}
    {
      assert w in Active(watchers);
      schedule := schedule - {w};
      RemoveTimer(w);
    }

    /** The part of ev_timer_stop for an active timer. */
    method Deactivate(w: Watcher)
      requires HeapValid() && w in watchers && w.active > 0
      modifies this`timercnt, this`activecnt, timers, watchers`active, w`at
      ensures HeapValid() && w.at == old(w.at) - mn_now
      ensures Active(watchers) == old(Active(watchers)) - {w}
      ensures timercnt == old(timercnt) - 1 && activecnt == old(activecnt) - 1
    {
      RemoveTimer(w);
      assert w !in Active(watchers);
      w.at := w.at - mn_now;
      activecnt := activecnt - 1;
    }

    method TimerStop(w: Watcher)
      requires TimersValid() && QueuesValid() && w in watchers
      modifies this`timercnt, this`activecnt, this`pendings, this`history
      modifies this`schedule, timers, watchers`active, w`at, w`pending
      ensures TimersValid() && QueuesValid() && history == old(history) + [Cleared(w)]
      ensures w.active == 0 && Remaining(w) == old(Remaining(w))
      ensures w.at == if old(w.active) > 0 then old(w.at) - mn_now else old(w.at)
      ensures schedule == old(schedule) - {w}
      ensures timercnt == old(timercnt) - (if old(w.active) > 0 then 1 else 0)
      ensures activecnt == old(activecnt) - (if old(w.active) > 0 then 1 else 0)
    {
      ClearKeepingTimers(w);
      StopKeepingQueues(w);
    }

    /** Clearing does not touch the timers. */
    method ClearKeepingTimers(w: Watcher)
      requires TimersValid() && QueuesValid() && w in watchers
      modifies this`pendings, this`history, w`pending
      ensures TimersValid() && QueuesValid() && history == old(history) + [Cleared(w)]
    {
      ClearPending(w);
    }

    /** Stopping does not touch the queues. */
    method StopKeepingQueues(w: Watcher)
      requires TimersValid() && QueuesValid() && w in watchers
      modifies this`timercnt, this`activecnt, this`schedule, timers, watchers`active, w`at
      ensures TimersValid() && QueuesValid()
      ensures w.active == 0 && Remaining(w) == old(Remaining(w))
      ensures schedule == old(schedule) - {w}
      ensures timercnt == old(timercnt) - (if old(w.active) > 0 then 1 else 0)
      ensures activecnt == old(activecnt) - (if old(w.active) > 0 then 1 else 0)
    {
      StopTimer(w);
    }

    method StopTimer(w: Watcher)
      requires TimersValid() && w in watchers
      modifies this`timercnt, this`activecnt, this`schedule, timers, watchers`active, w`at
      ensures TimersValid() && w.active == 0 && Remaining(w) == old(Remaining(w))
      ensures schedule == old(schedule) - {w}
      ensures timercnt == old(timercnt) - (if old(w.active) > 0 then 1 else 0)
      ensures activecnt == old(activecnt) - (if old(w.active) > 0 then 1 else 0)
    {
      assert w.active > 0 <==> w in Active(watchers);
      schedule := schedule - {w};
      if w.active > 0 {
        Deactivate(w);
        assert w !in Active(watchers);
      }
    }

    /** Change the expiry time of an active timer and move it to its place. */
    method Reschedule(w: Watcher, at: real)
      requires TimersValid() && w in watchers && w.active > 0
      modifies this`schedule, timers, watchers`active, w`at
      ensures TimersValid() && w.active > 0 && w.at == at
      ensures schedule == old(schedule)[w := at]
    {
      assert w in Active(watchers);
      schedule := schedule[w := at];
      Retime(w, at);
    }

    method Retime(w: Watcher, at: real)
      requires HeapValid() && w in watchers && w.active > 0
      modifies timers, watchers`active, w`at
      ensures HeapValid() && w.at == at && Active(watchers) == old(Active(watchers))
    {
      HasEntry(w);
      var k := w.active;
      SetTime(w, k, at);
      TightenBoth(k);
    }

    /** Change the time of entry k and of its watcher. */
    method SetTime(w: Watcher, k: nat, at: real)
      requires HeapValid() && InHeap(timercnt, k) && timers[..][k].w == w && w in watchers
      modifies timers, w`at
      ensures Fits(timers[..], timercnt) && w.at == at
      ensures Loose(timers[..], timercnt, k) && OrderExcept(timers[..], timercnt, k)
      ensures k == HEAP0 ==> OrderExceptDown(timers[..], timercnt, k)
    {
      ghost var h := timers[..];
      assert KnownBut(h, timercnt, w);
      w.at := at;
      LooseRetimed(h, timercnt, k);
      timers[k] := timers[k].(at := at);
      assert timers[..] == h[k := h[k].(at := at)];
    }

    /** Set w going again: from now for its repeat interval, or not at all. */
    method TimerAgain(w: Watcher)
      requires TimersValid() && QueuesValid() && w in watchers && w.repeat_ >= 0.0
      modifies this`timers, this`timercnt, this`activecnt, this`pendings, this`history
      modifies this`schedule, timers, watchers`active, w`at, w`pending
      ensures TimersValid() && QueuesValid() && (timers == old(timers) || fresh(timers))
      ensures history == old(history) + [Cleared(w)]
      ensures w.repeat_ != 0.0 ==> w.active > 0 && Remaining(w) == w.repeat_
      ensures w.repeat_ == 0.0 ==> w.active == 0 && Remaining(w) == old(Remaining(w))
      ensures schedule == if w.repeat_ != 0.0 then old(schedule)[w := mn_now + w.repeat_] else old(schedule) - {w}
    {
      ClearKeepingTimers(w);
      SetAgain(w);
    }

    /** The part of ev_timer_again after clearing w; stopping an already cleared timer
        does not touch the queues again. */
    method SetAgain(w: Watcher)
      requires TimersValid() && w in watchers && w.repeat_ >= 0.0
      modifies this`timers, this`timercnt, this`activecnt, this`schedule, timers, watchers`active, w`at
      ensures TimersValid() && (timers == old(timers) || fresh(timers))
      ensures w.repeat_ != 0.0 ==> w.active > 0 && Remaining(w) == w.repeat_
      ensures w.repeat_ == 0.0 ==> w.active == 0 && Remaining(w) == old(Remaining(w))
      ensures schedule == if w.repeat_ != 0.0 then old(schedule)[w := mn_now + w.repeat_] else old(schedule) - {w}
    {
      if w.active > 0 {
        if w.repeat_ != 0.0 {
          Reschedule(w, mn_now + w.repeat_);
        } else {
          StopTimer(w);
        }
      } else if w.repeat_ != 0.0 {
        StartAgain(w);
      } else {
        assert w !in Active(watchers);
        assert schedule == schedule - {w};
      }
    }

    method StartAgain(w: Watcher)
      requires TimersValid() && w in watchers && w.repeat_ > 0.0 && w.active == 0
      modifies this`timers, this`timercnt, this`activecnt, this`schedule, timers, watchers`active, w`at
      ensures TimersValid() && (timers == old(timers) || fresh(timers))
      ensures w.active > 0 && w.at == mn_now + w.repeat_
      ensures schedule == old(schedule)[w := mn_now + w.repeat_]
    {
      assert w !in Active(watchers);
      w.at := w.repeat_;
      TimerStart(w);
    }

    // ---- Making timers pending ----

    /** Move the root's expiry time forward and let it sink. */
    method RearmTop(w: Watcher, at: real)
      requires TimersValid() && timercnt > 0 && w == timers[HEAP0].w && w in watchers
      modifies this`schedule, timers, watchers`active, w`at
      ensures TimersValid() && schedule == old(schedule)[w := at]
    {
      assert timers[..][HEAP0].w in Active(watchers);
      schedule := schedule[w := at];
      SinkTop(w, at);
    }

    method SinkTop(w: Watcher, at: real)
      requires HeapValid() && timercnt > 0 && w == timers[HEAP0].w && w in watchers
      modifies timers, watchers`active, w`at
      ensures HeapValid() && w.at == at && Active(watchers) == old(Active(watchers))
    {
      SetTime(w, HEAP0, at);
      TightenDown(HEAP0);
    }

    /** Moving the root does not touch the queues. */
    method RearmKeepingQueues(w: Watcher, at: real)
      requires TimersValid() && QueuesValid() && timercnt > 0 && w == timers[HEAP0].w && w in watchers
      modifies this`schedule, timers, watchers`active, w`at
      ensures TimersValid() && QueuesValid() && schedule == old(schedule)[w := at]
    {
      RearmTop(w, at);
    }

    /** A repeating timer at the root moves on. */
    method RearmCase(w: Watcher)
      requires TimersValid() && QueuesValid() && timercnt > 0 && w == timers[HEAP0].w && w.repeat_ > 0.0
      modifies this`schedule, timers, watchers`active, w`at
      ensures TimersValid() && QueuesValid()
      ensures schedule == Rescheduled(old(schedule), w, w.repeat_, mn_now)
    {
      TopIsNext();
      RearmKeepingQueues(w, Rearm(w.at, w.repeat_, mn_now));
    }

    /** One round of timers_reify: reschedule or stop the timer at the root. */
    method RescheduleTop() returns (w: Watcher)
      requires TimersValid() && QueuesValid() && timercnt > 0 && timers[HEAP0].w.repeat_ >= 0.0
      modifies this`timercnt, this`activecnt, this`pendings, this`history
      modifies this`schedule, timers, watchers`active, timers[HEAP0].w`at, watchers`pending
      ensures TimersValid() && QueuesValid()
      ensures w == old(timers[HEAP0].w) && IsNext(old(schedule), w)
      ensures schedule == Rescheduled(old(schedule), w, w.repeat_, mn_now)
      // on time: one interval after the old expiry; late by more than an interval: now
      ensures w.repeat_ > 0.0 && old(schedule)[w] + w.repeat_ >= mn_now ==>
                schedule == old(schedule)[w := old(schedule)[w] + w.repeat_]
      ensures w.repeat_ > 0.0 && old(schedule)[w] + w.repeat_ < mn_now ==> schedule == old(schedule)[w := mn_now]
      ensures w.repeat_ == 0.0 ==> schedule == old(schedule) - {w}
      ensures history == old(history) + Stopped(w, w.repeat_)
    {
      TopIsNext();
      hide Loop.QueuesValid;
      w := timers[HEAP0].w;
      if w.repeat_ != 0.0 {
        RearmCase(w);
      } else {
        TimerStop(w);
      }
    }

    /** The root of the heap is a timer that expires first. */
    lemma TopIsNext()
      requires TimersValid() && timercnt > 0
      ensures IsNext(schedule, timers[HEAP0].w) && schedule[timers[HEAP0].w] == timers[HEAP0].at
    {
      var h := timers[..];
      var w := h[HEAP0].w;
      assert w in Active(watchers);
      forall v | v in schedule
        ensures h[HEAP0].at <= schedule[v]
      {
        HasEntry(v);
        RootIsSmallest(h, timercnt, v.active);
      }
    }

    /** feed_reverse_done: the collected watchers become pending, last one first. */
    method FeedReverseDone(rfeeds: seq<Watcher>, revents: Events)
      requires QueuesValid() && rfeeds != [] && forall i :: 0 <= i < |rfeeds| ==> rfeeds[i] in watchers
      modifies this`pendings, this`pendingpri, this`history, watchers`pending
      ensures QueuesValid() && history == old(history) + Feeds(rfeeds, revents)
    {
      var rfeedcnt: nat := |rfeeds|;
      var more := true;
      while more
        invariant QueuesValid() && rfeedcnt <= |rfeeds| && more == (rfeedcnt > 0)
        invariant history == old(history) + Feeds(rfeeds[rfeedcnt..], revents)
        decreases rfeedcnt
      {
        rfeedcnt := rfeedcnt - 1;
        FeedsStep(old(history), rfeeds, rfeedcnt, revents);
        FeedEvent(rfeeds[rfeedcnt], revents);
        more := rfeedcnt > 0;
      }
      assert rfeeds[0..] == rfeeds;
    }

    /** All expired timers become pending and are rescheduled or stopped; `fired` lists them in
        the order in which they expired. */
    method TimersReify() returns (ghost fired: seq<Watcher>)
      requires TimersValid() && QueuesValid()
      requires forall w :: w in watchers ==> w.repeat_ >= 0.0
      modifies this`timercnt, this`activecnt, this`pendings, this`pendingpri, this`history
      modifies this`schedule, timers, watchers`active, watchers`at, watchers`pending
      ensures TimersValid() && QueuesValid()
      ensures Reified(old(schedule), schedule, fired, Repeats(), mn_now)
      ensures forall w :: w in old(schedule) && w !in fired ==> w in schedule && schedule[w] == old(schedule)[w]
      // a fired timer expires again one interval later, or now if that is past, or not at all
      ensures forall w :: w in fired && w.repeat_ > 0.0 ==>
                && w in old(schedule) && w in schedule
                && (old(schedule)[w] + w.repeat_ >= mn_now ==> schedule[w] == old(schedule)[w] + w.repeat_)
                && (old(schedule)[w] + w.repeat_ < mn_now ==> schedule[w] == mn_now)
      ensures forall w :: w in fired && w.repeat_ == 0.0 ==> w !in schedule
      ensures ExpiredIn(schedule, mn_now) == {}
      ensures forall w :: w in old(schedule) ==> (w in fired <==> old(schedule)[w] < mn_now)
      ensures history == old(history) + Stops(fired, Repeats()) + Feeds(fired, {TIMER})
    {
      var rfeeds := CollectExpired();
      fired := rfeeds;
      FiredAreTheExpired(old(schedule), schedule, fired, Repeats(), mn_now);
      FiredMoveOn(old(schedule), schedule, fired, Repeats(), mn_now);
      FeedKeepingTimers(rfeeds, {TIMER});
    }

    /** Feeding does not touch the timers. */
    method FeedKeepingTimers(rfeeds: seq<Watcher>, revents: Events)
      requires TimersValid() && QueuesValid() && forall i :: 0 <= i < |rfeeds| ==> rfeeds[i] in watchers
      modifies this`pendings, this`pendingpri, this`history, watchers`pending
      ensures TimersValid() && QueuesValid() && history == old(history) + Feeds(rfeeds, revents)
    {
      if rfeeds != [] {
        FeedReverseDone(rfeeds, revents);
      }
    }

    /** One round of the loop of timers_reify. */
    method CollectTop(ghost s0: map<Watcher, real>, ghost fired: seq<Watcher>, ghost before: History) returns (w: Watcher)
      requires TimersValid() && QueuesValid() && timercnt > 0 && timers[HEAP0].at < mn_now
      requires forall v :: v in watchers ==> v.repeat_ >= 0.0
      requires Collected(s0, schedule, fired, Repeats(), mn_now, before, history)
      modifies this`timercnt, this`activecnt, this`pendings, this`history
      modifies this`schedule, timers, watchers`active, watchers`at, watchers`pending
      ensures TimersValid() && QueuesValid()
      ensures Collected(s0, schedule, fired + [w], Repeats(), mn_now, before, history)
      ensures ExpiredIn(schedule, mn_now) < old(ExpiredIn(schedule, mn_now))
    {
      TopIsNext();
      CollectedStep(s0, schedule, fired, Repeats(), mn_now, before, history, timers[HEAP0].w);
      w := RescheduleTop();
    }

    /** The loop of timers_reify: reschedule the root and collect it as long as it is expired.
        The collecting array is empty outside timers_reify, so it is a local variable here. */
    method CollectExpired() returns (rfeeds: seq<Watcher>)
      requires TimersValid() && QueuesValid()
      requires forall w :: w in watchers ==> w.repeat_ >= 0.0
      modifies this`timercnt, this`activecnt, this`pendings, this`history
      modifies this`schedule, timers, watchers`active, watchers`at, watchers`pending
      ensures TimersValid() && QueuesValid()
      ensures Collected(old(schedule), schedule, rfeeds, Repeats(), mn_now, old(history), history)
      ensures ExpiredIn(schedule, mn_now) == {}
    {
      rfeeds := [];
      ghost var s0, before := schedule, history;
      while timercnt > 0 && timers[HEAP0].at < mn_now
        invariant TimersValid() && QueuesValid()
        invariant Collected(s0, schedule, rfeeds, Repeats(), mn_now, before, history)
        decreases ExpiredIn(schedule, mn_now)
      {
        var w := CollectTop(s0, rfeeds, before);
        rfeeds := rfeeds + [w];
      }
      NothingExpired();
    }

    lemma NothingExpired()
      requires TimersValid() && (timercnt == 0 || timers[HEAP0].at >= mn_now)
      ensures ExpiredIn(schedule, mn_now) == {}
    {
      if timercnt > 0 {
        TopIsNext();
      } else {
        assert forall w :: w in watchers && w.active > 0 ==> Holds(timers[..], timercnt, w);
        assert Active(watchers) == {};
      }
    }

    ghost function Repeats(): map<Watcher, real>
      reads watchers`repeat_
    {
      map w | w in watchers :: w.repeat_
    }
  }

  /** No scheduled timer expires before w. */
  ghost predicate IsNext(s: map<Watcher, real>, w: Watcher)
  {
    w in s && forall v :: v in s ==> s[w] <= s[v]
  }

  ghost function ExpiredIn(s: map<Watcher, real>, now: real): set<Watcher>
  {
    set w | w in s && s[w] < now
  }

  /** The schedule after w has fired. */
  ghost function Rescheduled(s: map<Watcher, real>, w: Watcher, repeat_: real, now: real): map<Watcher, real>
    requires w in s
  {
    if repeat_ > 0.0 then s[w := Rearm(s[w], repeat_, now)] else s - {w}
  }

  /** The watchers in `fired` are the first to expire in s0, in the order of their expiry times. */
  ghost predicate EarliestFirst(s0: map<Watcher, real>, fired: seq<Watcher>, now: real)
  {
    && (forall i :: 0 <= i < |fired| ==> fired[i] in s0 && s0[fired[i]] < now)
    && (forall i, j :: 0 <= i < j < |fired| ==> fired[i] != fired[j] && s0[fired[i]] <= s0[fired[j]])
    && (forall i, w :: 0 <= i < |fired| && w in s0 && w !in fired ==> s0[fired[i]] <= s0[w])
  }

  /** Schedule s is s0 after the watchers in `fired` have fired once each. */
  ghost predicate Moved(s0: map<Watcher, real>, s: map<Watcher, real>, fired: seq<Watcher>,
                        repeats: map<Watcher, real>, now: real)
  {
    && s.Keys <= s0.Keys <= repeats.Keys
    && (forall w :: w in s0 && w !in fired ==> w in s && s[w] == s0[w])
    && (forall w :: w in s0 && w in fired ==>
          if repeats[w] > 0.0 then w in s && s[w] == Rearm(s0[w], repeats[w], now) else w !in s)
  }

  /** From schedule s0 the timers in `fired` have fired, once each, in the order of their expiry
      times and before any other timer; s is what is scheduled then. */
  ghost predicate Reified(s0: map<Watcher, real>, s: map<Watcher, real>, fired: seq<Watcher>,
                          repeats: map<Watcher, real>, now: real)
  {
    EarliestFirst(s0, fired, now) && Moved(s0, s, fired, repeats, now)
  }

  lemma {:induction false} EarliestStep(s0: map<Watcher, real>, fired: seq<Watcher>, now: real, w: Watcher)
    requires EarliestFirst(s0, fired, now) && w in s0 && w !in fired && s0[w] < now
    requires forall v :: v in s0 && v !in fired ==> s0[w] <= s0[v]
    ensures EarliestFirst(s0, fired + [w], now)
  {
    var fired' := fired + [w];
    assert forall v :: v in fired' <==> v in fired || v == w;
  }

  /** A fired timer either left the schedule or moved to a time that is not in the past. */
  lemma FiredNotExpired(s0: map<Watcher, real>, s: map<Watcher, real>, fired: seq<Watcher>,
                        repeats: map<Watcher, real>, now: real, w: Watcher)
    requires Moved(s0, s, fired, repeats, now) && w in s && s[w] < now
    ensures w in s0 && w !in fired && s[w] == s0[w]
  {
  }

  lemma {:induction false} MovedStep(s0: map<Watcher, real>, s: map<Watcher, real>, fired: seq<Watcher>,
                                     repeats: map<Watcher, real>, now: real, w: Watcher)
    requires Moved(s0, s, fired, repeats, now) && w in s && s[w] < now && w in repeats
    ensures Moved(s0, Rescheduled(s, w, repeats[w], now), fired + [w], repeats, now)
  {
    FiredNotExpired(s0, s, fired, repeats, now, w);
    assert forall v :: v in fired + [w] <==> v in fired || v == w;
  }

  lemma ExpiredShrinks(s: map<Watcher, real>, w: Watcher, repeat_: real, now: real)
    requires w in s && s[w] < now
    ensures ExpiredIn(Rescheduled(s, w, repeat_, now), now) < ExpiredIn(s, now)
  {
    assert w in ExpiredIn(s, now) && w !in ExpiredIn(Rescheduled(s, w, repeat_, now), now);
  }

  /** The loop invariant of timers_reify, on values. */
  ghost predicate Collected(s0: map<Watcher, real>, s: map<Watcher, real>, fired: seq<Watcher>,
                            repeats: map<Watcher, real>, now: real, before: History, history: History)
  {
    Reified(s0, s, fired, repeats, now) && history == before + Stops(fired, repeats)
  }

  lemma {:induction false} CollectedStep(s0: map<Watcher, real>, s: map<Watcher, real>, fired: seq<Watcher>,
                                         repeats: map<Watcher, real>, now: real, before: History, history: History,
                                         w: Watcher)
    requires Collected(s0, s, fired, repeats, now, before, history) && IsNext(s, w) && s[w] < now && w in repeats
    ensures Collected(s0, Rescheduled(s, w, repeats[w], now), fired + [w], repeats, now,
                      before, history + Stopped(w, repeats[w]))
    ensures ExpiredIn(Rescheduled(s, w, repeats[w], now), now) < ExpiredIn(s, now)
  {
    FiredNotExpired(s0, s, fired, repeats, now, w);
    forall v | v in s0 && v !in fired
      ensures s0[w] <= s0[v]
    {
      assert v in s;
    }
    EarliestStep(s0, fired, now, w);
    MovedStep(s0, s, fired, repeats, now, w);
    ExpiredShrinks(s, w, repeats[w], now);
    StopsStep(before, fired, repeats, w);
  }

  lemma {:induction false} StopsStep(before: History, fired: seq<Watcher>, repeats: map<Watcher, real>, w: Watcher)
    requires w in repeats && forall i :: 0 <= i < |fired| ==> fired[i] in repeats
    ensures before + Stops(fired + [w], repeats) == before + Stops(fired, repeats) + Stopped(w, repeats[w])
  {
    assert (fired + [w])[..|fired|] == fired;
    Reassociate(before, Stops(fired, repeats), Stopped(w, repeats[w]));
  }

  lemma {:induction false} FeedsStep(before: History, ws: seq<Watcher>, k: nat, revents: Events)
    requires k < |ws|
    ensures before + Feeds(ws[k..], revents) == before + Feeds(ws[k + 1..], revents) + [Fed(ws[k], revents)]
  {
    assert ws[k..][1..] == ws[k + 1..];
    Reassociate(before, Feeds(ws[k + 1..], revents), [Fed(ws[k], revents)]);
  }

  lemma {:induction false} Reassociate(a: History, b: History, c: History)
    ensures a + (b + c) == a + b + c
  {
  }

  /** Once nothing is expired any more, the fired timers are all that were expired. */
  lemma {:induction false} FiredAreTheExpired(s0: map<Watcher, real>, s: map<Watcher, real>, fired: seq<Watcher>,
                                              repeats: map<Watcher, real>, now: real)
    requires Reified(s0, s, fired, repeats, now) && ExpiredIn(s, now) == {}
    ensures forall w :: w in s0 ==> (w in fired <==> s0[w] < now)
  {
    forall w | w in s0 && w !in fired
      ensures s0[w] >= now
    {
      assert w !in ExpiredIn(s, now);
    }
  }

  /** Where a pass leaves every timer. */
  lemma FiredMoveOn(s0: map<Watcher, real>, s: map<Watcher, real>, fired: seq<Watcher>,
                    repeats: map<Watcher, real>, now: real)
    requires Reified(s0, s, fired, repeats, now)
    ensures forall w :: w in fired ==> w in s0 && w in repeats
    ensures forall w :: w in s0 && w !in fired ==> w in s && s[w] == s0[w]
    ensures forall w :: w in fired && repeats[w] > 0.0 ==>
              && w in s
              && (s0[w] + repeats[w] >= now ==> s[w] == s0[w] + repeats[w])
              && (s0[w] + repeats[w] < now ==> s[w] == now)
    ensures forall w :: w in fired && repeats[w] <= 0.0 ==> w !in s
  {
  }

  /** The next expiry time of a repeating timer: never in the past. */
  function Rearm(at: real, repeat_: real, now: real): real
  {
    if at + repeat_ < now then now else at + repeat_
  }

  /** A timer that does not repeat is stopped, which clears it. */
  function Stopped(w: Watcher, repeat_: real): History
  {
    if repeat_ > 0.0 then [] else [Cleared(w)]
  }

  ghost function Stops(fired: seq<Watcher>, repeats: map<Watcher, real>): (h: History)
    requires forall i :: 0 <= i < |fired| ==> fired[i] in repeats
    ensures forall i :: 0 <= i < |h| ==> h[i].Cleared? && h[i].w in fired
  {
    if fired == [] then []
    else
      var last := |fired| - 1;
      Stops(fired[..last], repeats) + Stopped(fired[last], repeats[fired[last]])
  }

  /** Feeding the watchers in reverse order. */
  function Feeds(ws: seq<Watcher>, revents: Events): History
  {
    if ws == [] then [] else Feeds(ws[1..], revents) + [Fed(ws[0], revents)]
  }

  /** array_needsize for the timer array; the new slots hold anything. */
  method Grow(base: array<ANHE>, cnt: nat, filler: ANHE) returns (r: array<ANHE>)
    ensures fresh(r) && r.Length >= cnt && r.Length >= base.Length
    ensures r[..base.Length] == base[..]
  {
    var max := ArrayNextSize(16, base.Length, cnt);
    r := new ANHE[max](i requires 0 <= i < max reads base => if i < base.Length then base[i] else filler);
  }

  lemma {:induction false} MiddleKept(a: seq<ANHE>, hs: seq<ANHE>, rs: seq<ANHE>, b: seq<ANHE>)
    requires multiset(a + hs + b) == multiset(a + rs + b)
    ensures multiset(hs) == multiset(rs)
  {
    assert multiset(hs) == multiset(a + hs + b) - (multiset(a) + multiset(b));
    assert multiset(rs) == multiset(a + rs + b) - (multiset(a) + multiset(b));
  }

  /** A rearrangement inside the heap keeps its entries: here is where entry i comes from. */
  lemma {:induction false} EntryKept(h: seq<ANHE>, r: seq<ANHE>, n: nat, i: nat) returns (j: nat)
    requires Fits(h, n) && InHeap(n, i) && |r| == |h| && multiset(r) == multiset(h)
    requires forall x :: 0 <= x < |h| && (x < HEAP0 || x >= HEAP0 + n) ==> r[x] == h[x]
    ensures InHeap(n, j) && h[j] == r[i]
  {
    var hs, rs := h[HEAP0..HEAP0 + n], r[HEAP0..HEAP0 + n];
    assert h == h[..HEAP0] + hs + h[HEAP0 + n..];
    assert r == h[..HEAP0] + rs + h[HEAP0 + n..];
    MiddleKept(h[..HEAP0], hs, rs, h[HEAP0 + n..]);
    assert rs[i - HEAP0] in multiset(rs);
    var x :| 0 <= x < n && hs[x] == rs[i - HEAP0];
    j := HEAP0 + x;
  }
}
