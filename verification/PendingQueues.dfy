/** The pending queues and the history that explains them.

    The loop keeps one stack of (watcher, events) entries per priority.  What the stacks
    hold is fixed by the history of feeds, clears and calls: a watcher owes one call with
    the union of all events fed since its last call or clear, and within a priority the
    entries stand in the order in which those debts began. */
module PendingQueues {
  import opened Heap

  const NUMPRI: nat := 5

  /** One bit of a C event mask; a mask is the set of its bits and `|` is union. */
  datatype Event = READ | WRITE | TIMER | PERIODIC | SIGNAL | ASYNC | CUSTOM | OTHER(bit: nat)

  type Events = set<Event>

  /** An entry of a queue; a null watcher stands for the loop's dummy watcher, which takes
      the place of a cleared one and whose callback does nothing. */
  datatype ANPENDING = ANPENDING(w: Watcher?, events: Events)

  datatype Happening = Fed(w: Watcher, events: Events) | Cleared(w: Watcher) | Called(w: Watcher, events: Events)

  type History = seq<Happening>

  datatype Debt = NoDebt | Debt(events: Events, since: nat)

  /** How one happening at the given position changes what w is owed. */
  function After(d: Debt, h: Happening, w: Watcher, position: nat): Debt
  {
    if h.w != w then d
    else
      match h
      case Fed(_, events) => if d.NoDebt? then Debt(events, position) else Debt(d.events + events, d.since)
      case Cleared(_) => NoDebt
      case Called(_, _) => NoDebt
  }

  /** What watcher w is owed after the history, and the position of the feed that began it. */
  function Owed(history: History, w: Watcher): (d: Debt)
    ensures d.Debt? ==> d.since < |history| && history[d.since].Fed? && history[d.since].w == w
  {
    if history == [] then NoDebt
    else
      var last := |history| - 1;
      After(Owed(history[..last], w), history[last], w, last)
  }

  lemma {:induction false} OwedStep(history: History, h: Happening, w: Watcher)
    ensures Owed(history + [h], w) == After(Owed(history, w), h, w, |history|)
  {
    assert (history + [h])[..|history|] == history;
  }

  /** Happening i fed w, and nothing but feeds happened to w since. */
  predicate FedSince(history: History, w: Watcher, i: nat)
  {
    && i < |history| && history[i].Fed? && history[i].w == w
    && forall j :: i < j < |history| && history[j].w == w ==> history[j].Fed?
  }

  lemma FedSinceStep(history: History, h: Happening, w: Watcher, i: nat)
    ensures FedSince(history + [h], w, i)
            <==> if i == |history| then h.Fed? && h.w == w else FedSince(history, w, i) && (h.w == w ==> h.Fed?)
  {
    var h' := history + [h];
    assert h'[|history|] == h;
    assert forall j :: 0 <= j < |history| ==> h'[j] == history[j];
  }

  /** Event e of the feed at i is still owed. */
  predicate Carries(history: History, w: Watcher, i: nat, e: Event)
  {
    FedSince(history, w, i) && e in history[i].events
  }

  /** The debt d of w, without recursion: the events of all feeds since the last clear or call, and when the
      first of them was. */
  ghost predicate IsDebt(history: History, w: Watcher, d: Debt)
  {
    && (d.NoDebt? ==> forall i: nat :: !FedSince(history, w, i))
    && (d.Debt? ==> FedSince(history, w, d.since) && forall i: nat :: FedSince(history, w, i) ==> d.since <= i)
    && (d.Debt? ==> forall e :: e in d.events <==> exists i: nat :: Carries(history, w, i, e))
  }

  /** What a watcher is owed are exactly the events fed to it since it was last cleared or called. */
  lemma {:induction false} OwedExactly(history: History, w: Watcher)
    ensures IsDebt(history, w, Owed(history, w))
  {
    if history == [] {
    } else {
      var last := |history| - 1;
      var init, h := history[..last], history[last];
      assert history == init + [h];
      OwedExactly(init, w);
      OwedStep(init, h, w);
      hide Owed, IsDebt;
      if h.w != w {
        OthersKeepDebt(init, h, w, Owed(init, w));
      } else if h.Fed? {
        FeedAddsDebt(init, h, w, Owed(init, w));
      } else {
        NoDebtLeft(init, h, w);
      }
    }
  }

  lemma OthersKeepDebt(history: History, h: Happening, w: Watcher, d: Debt)
    requires IsDebt(history, w, d) && h.w != w
    ensures IsDebt(history + [h], w, d)
  {
    hide FedSince;
    forall i: nat
      ensures FedSince(history + [h], w, i) == FedSince(history, w, i)
      ensures FedSince(history, w, i) ==> i < |history| && (history + [h])[i] == history[i]
    {
      FedSinceStep(history, h, w, i);
      FedSinceBound(history, w, i);
    }
    forall i: nat, e
      ensures Carries(history + [h], w, i, e) == Carries(history, w, i, e)
    {
    }
  }

  lemma FedSinceBound(history: History, w: Watcher, i: nat)
    ensures FedSince(history, w, i) ==> i < |history|
  {
  }

  lemma NoDebtLeft(history: History, h: Happening, w: Watcher)
    requires h.w == w && !h.Fed?
    ensures IsDebt(history + [h], w, NoDebt)
  {
    forall i: nat
      ensures !FedSince(history + [h], w, i)
    {
      FedSinceStep(history, h, w, i);
    }
  }

  lemma FeedAddsDebt(history: History, h: Happening, w: Watcher, d: Debt)
    requires IsDebt(history, w, d) && h.w == w && h.Fed?
    ensures IsDebt(history + [h], w, if d.NoDebt? then Debt(h.events, |history|) else Debt(d.events + h.events, d.since))
  {
    hide FedSince;
    var h', n := history + [h], |history|;
    forall i: nat
      ensures FedSince(h', w, i) == (i == n || FedSince(history, w, i))
      ensures FedSince(history, w, i) ==> i < n && h'[i] == history[i]
    {
      FedSinceStep(history, h, w, i);
      FedSinceBound(history, w, i);
    }
    assert h'[n] == h;
    forall i: nat, e
      ensures Carries(h', w, i, e) == if i == n then e in h.events else Carries(history, w, i, e)
    {
    }
    forall e
      ensures e in h.events || (d.Debt? && e in d.events) <==> exists i: nat :: Carries(h', w, i, e)
    {
      if e in h.events {
        assert Carries(h', w, n, e);
      }
      if d.Debt? && e in d.events {
        var i: nat :| Carries(history, w, i, e);
        assert Carries(h', w, i, e);
      }
    }
  }

  type Queues = seq<seq<ANPENDING>>

  predicate ValidPriority(w: Watcher)
  {
    w.priority < NUMPRI
  }

  /** Entry i of priority p. */
  predicate At(q: Queues, p: nat, i: nat)
  {
    p < |q| && i < |q[p]|
  }

  /** Every real entry is the debt of its watcher at its own priority. */
  ghost predicate EntriesOwed(q: Queues, history: History)
  {
    forall p: nat, i: nat :: At(q, p, i) && q[p][i].w != null ==>
      var w: Watcher := q[p][i].w;
      w.priority == p && Owed(history, w).Debt? && Owed(history, w).events == q[p][i].events
  }

  /** Within a queue debts stand in the order in which they began, so no watcher is queued twice. */
  ghost predicate OldestFirst(q: Queues, history: History)
  {
    forall p: nat, i: nat, j: nat :: At(q, p, i) && At(q, p, j) && i < j && q[p][i].w != null && q[p][j].w != null ==>
      var v: Watcher := q[p][i].w;
      var w: Watcher := q[p][j].w;
      Owed(history, v).Debt? && Owed(history, w).Debt? && Owed(history, v).since < Owed(history, w).since
  }

  /** The queues are explained by the history, for the watchers in ws. */
  ghost predicate Explains(history: History, q: Queues, ws: set<Watcher>)
  {
    && |q| == NUMPRI
    && EntriesOwed(q, history) && OldestFirst(q, history)
    && (forall w :: w in ws && Owed(history, w).Debt? ==>
          ValidPriority(w) && exists i: nat :: At(q, w.priority, i) && q[w.priority][i].w == w)
  }

  // ---- The three changes of a queue ----

  /** A watcher that is not queued is appended to the queue of its priority. */
  lemma {:induction false} AppendExplained(history: History, q: Queues, ws: set<Watcher>, w: Watcher, events: Events)
    requires Explains(history, q, ws) && ValidPriority(w) && Owed(history, w).NoDebt?
    ensures Explains(history + [Fed(w, events)], q[w.priority := q[w.priority] + [ANPENDING(w, events)]], ws)
  {
    var h' := history + [Fed(w, events)];
    var p := w.priority;
    var q' := q[p := q[p] + [ANPENDING(w, events)]];
    OwedStep(history, Fed(w, events), w);
    forall v: Watcher | v != w
      ensures Owed(h', v) == Owed(history, v)
    {
      OwedStep(history, Fed(w, events), v);
    }
    assert forall x: nat, i: nat :: At(q, x, i) ==> At(q', x, i) && q'[x][i] == q[x][i];
    assert forall x: nat, i: nat :: At(q', x, i) ==> At(q, x, i) || (x == p && i == |q[p]|);
    assert At(q', p, |q[p]|) && q'[p][|q[p]|].w == w;
  }

  lemma {:induction false} QueuedOnce(history: History, q: Queues, ws: set<Watcher>, p: nat, i: nat, p': nat, i': nat)
    requires Explains(history, q, ws) && At(q, p, i) && At(q, p', i')
    requires q[p][i].w != null && q[p][i].w == q[p'][i'].w
    ensures p == p' && i == i'
  {
  }

  lemma MergedDebt(d: Debt, w: Watcher, events: Events, position: nat)
    requires d.Debt?
    ensures After(d, Fed(w, events), w, position) == Debt(d.events + events, d.since)
  {
  }

  /** A queued watcher gets the new events added to its entry. */
  lemma {:induction false} MergeExplained(history: History, q: Queues, ws: set<Watcher>, w: Watcher, events: Events, i: nat)
    requires Explains(history, q, ws) && At(q, w.priority, i) && q[w.priority][i].w == w
    ensures Explains(history + [Fed(w, events)],
                     q[w.priority := q[w.priority][i := ANPENDING(w, q[w.priority][i].events + events)]], ws)
  {
    var h' := history + [Fed(w, events)];
    var p := w.priority;
    var merged := q[p][i].events + events;
    var q' := q[p := q[p][i := ANPENDING(w, merged)]];
    var d := Owed(history, w);
    assert d.Debt? && d.events == q[p][i].events;
    OwedStep(history, Fed(w, events), w);
    MergedDebt(d, w, events, |history|);
    forall v: Watcher | v != w
      ensures Owed(h', v) == Owed(history, v)
    {
      OwedStep(history, Fed(w, events), v);
    }
    assert forall x: nat, j: nat :: At(q', x, j) <==> At(q, x, j);
    SameWatchersExplained(history, q, ws, h', q', w, p, i);
  }

  lemma {:induction false} SameWatchersExplained(history: History, q: Queues, ws: set<Watcher>, h': History, q': Queues,
                                                 w: Watcher, p: nat, i: nat)
    requires Explains(history, q, ws) && At(q, p, i) && q[p][i].w == w && |q'| == |q|
    requires forall x: nat, j: nat :: At(q', x, j) <==> At(q, x, j)
    requires forall x: nat, j: nat :: At(q', x, j) ==> q'[x][j].w == q[x][j].w && ((x != p || j != i) ==> q'[x][j] == q[x][j])
    requires forall v: Watcher :: v != w ==> Owed(h', v) == Owed(history, v)
    requires At(q', p, i) && Owed(h', w).Debt? && Owed(h', w).since == Owed(history, w).since && Owed(h', w).events == q'[p][i].events
    ensures Explains(h', q', ws)
  {
    forall x: nat, j: nat | At(q', x, j) && q'[x][j].w != null
      ensures var v: Watcher := q'[x][j].w; v.priority == x && Owed(h', v).Debt? && Owed(h', v).events == q'[x][j].events
      ensures var v: Watcher := q'[x][j].w; Owed(h', v).since == Owed(history, v).since
    {
      assert At(q, x, j);
      if q[x][j].w == w {
        QueuedOnce(history, q, ws, x, j, p, i);
      }
    }
    forall v | v in ws && Owed(h', v).Debt?
      ensures ValidPriority(v) && exists j: nat :: At(q', v.priority, j) && q'[v.priority][j].w == v
    {
      assert Owed(history, v).Debt?;
      var j: nat :| At(q, v.priority, j) && q[v.priority][j].w == v;
      assert At(q', v.priority, j);
    }
  }

  /** Clearing a queued watcher puts the dummy in its place. */
  lemma {:induction false} ClearExplained(history: History, q: Queues, ws: set<Watcher>, w: Watcher, i: nat)
    requires Explains(history, q, ws) && At(q, w.priority, i) && q[w.priority][i].w == w
    ensures Explains(history + [Cleared(w)],
                     q[w.priority := q[w.priority][i := q[w.priority][i].(w := null)]], ws)
  {
    DropExplained(history, q, ws, w, i, Cleared(w));
  }

  lemma {:induction false} DropExplained(history: History, q: Queues, ws: set<Watcher>, w: Watcher, i: nat, h: Happening)
    requires Explains(history, q, ws) && At(q, w.priority, i) && q[w.priority][i].w == w
    requires h.w == w && !h.Fed?
    ensures Explains(history + [h], q[w.priority := q[w.priority][i := q[w.priority][i].(w := null)]], ws)
  {
    var p := w.priority;
    var q' := q[p := q[p][i := q[p][i].(w := null)]];
    OwedStep(history, h, w);
    forall v: Watcher | v != w
      ensures Owed(history + [h], v) == Owed(history, v)
    {
      OwedStep(history, h, v);
    }
    assert forall x: nat, j: nat :: At(q', x, j) <==> At(q, x, j);
    assert forall x: nat, j: nat :: At(q', x, j) && q'[x][j].w != null ==> q'[x][j] == q[x][j] && q[x][j].w != w;
    forall v | v in ws && Owed(history + [h], v).Debt?
      ensures exists j: nat :: At(q', v.priority, j) && q'[v.priority][j].w == v
    {
      var j: nat :| At(q, v.priority, j) && q[v.priority][j].w == v;
      assert At(q', v.priority, j) && q'[v.priority][j].w == v;
    }
  }

  /** Clearing a watcher that is not queued changes nothing. */
  lemma {:induction false} IdleClearExplained(history: History, q: Queues, ws: set<Watcher>, w: Watcher)
    requires Explains(history, q, ws) && Owed(history, w).NoDebt?
    ensures Explains(history + [Cleared(w)], q, ws)
  {
    forall v: Watcher
      ensures Owed(history + [Cleared(w)], v) == Owed(history, v)
    {
      OwedStep(history, Cleared(w), v);
    }
  }

  function Top(q: Queues, p: nat): ANPENDING
    requires p < |q| && q[p] != []
  {
    q[p][|q[p]| - 1]
  }

  function Popped(q: Queues, p: nat): Queues
    requires p < |q| && q[p] != []
  {
    q[p := q[p][..|q[p]| - 1]]
  }

  /** Popping the dummy changes nothing either. */
  lemma {:induction false} PopDummyExplained(history: History, q: Queues, ws: set<Watcher>, p: nat)
    requires Explains(history, q, ws) && p < NUMPRI && q[p] != [] && Top(q, p).w == null
    ensures Explains(history, Popped(q, p), ws)
  {
    var q' := Popped(q, p);
    assert forall x: nat, j: nat :: At(q', x, j) ==> At(q, x, j) && q'[x][j] == q[x][j];
    assert forall x: nat, j: nat :: At(q, x, j) && q[x][j].w != null ==> At(q', x, j);
  }

  lemma {:induction false} PopExplained(history: History, q: Queues, ws: set<Watcher>, p: nat)
    requires Explains(history, q, ws) && p < NUMPRI && q[p] != [] && Top(q, p).w != null
    ensures Explains(history + [Called(Top(q, p).w, Top(q, p).events)], Popped(q, p), ws)
  {
    var last := |q[p]| - 1;
    var w: Watcher := q[p][last].w;
    assert At(q, p, last);
    var h := Called(w, q[p][last].events);
    DropExplained(history, q, ws, w, last, h);
    var q1 := q[p := q[p][last := q[p][last].(w := null)]];
    PopDummyExplained(history + [h], q1, ws, p);
    assert Popped(q1, p) == Popped(q, p);
  }

  // ---- What a well-behaved history looks like ----

  /** The call of w with the given events is due: w owes exactly these events, nobody owed has
      a higher priority, and nobody of the same priority has a younger debt. */
  ghost predicate Due(history: History, ws: set<Watcher>, w: Watcher, events: Events)
  {
    && w in ws && Owed(history, w).Debt? && Owed(history, w).events == events
    && forall v :: v in ws && v != w && Owed(history, v).Debt? ==>
         v.priority < w.priority || (v.priority == w.priority && Owed(history, v).since < Owed(history, w).since)
  }

  /** From position `from` on every call is due when it is made. */
  ghost predicate CallsDue(history: History, from: nat, ws: set<Watcher>)
  {
    forall i :: from <= i < |history| && history[i].Called? ==> Due(history[..i], ws, history[i].w, history[i].events)
  }

  /** The top of the highest nonempty queue is due. */
  lemma {:induction false} TopIsDue(history: History, q: Queues, ws: set<Watcher>, p: nat)
    requires Explains(history, q, ws) && p < NUMPRI && q[p] != [] && Top(q, p).w != null && Top(q, p).w in ws
    requires forall x :: p < x < NUMPRI ==> q[x] == []
    ensures Due(history, ws, Top(q, p).w, Top(q, p).events)
  {
    var last := |q[p]| - 1;
    assert At(q, p, last);
    var w: Watcher := q[p][last].w;
    forall v | v in ws && v != w && Owed(history, v).Debt?
      ensures v.priority < p || (v.priority == p && Owed(history, v).since < Owed(history, w).since)
    {
      var i: nat :| At(q, v.priority, i) && q[v.priority][i].w == v;
    }
  }

  lemma {:induction false} EmptyQueuesOweNothing(history: History, q: Queues, ws: set<Watcher>)
    requires Explains(history, q, ws) && forall p :: 0 <= p < NUMPRI ==> q[p] == []
    ensures forall w :: w in ws ==> Owed(history, w).NoDebt?
  {
  }
}
