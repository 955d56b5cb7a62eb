/** The C variant of the engine: a transition between states exits up to their deepest common
    ancestor-or-self and enters through a path array; a transition to the current state exits and
    re-enters just that state; there are no initial children. */
module HsmPointers {
  import opened Hsm

  /** An entry of a state's own transition table. */
  datatype Transition<!C> = Transition(id: nat, internal: bool, target: int, guard: C -> bool, action: C -> C)

  type Entries<!C> = seq<Transition<C>>

  predicate Handles<C>(tran: Transition<C>, ctx: C, id: nat)
  {
    tran.id == id && tran.guard(ctx)
  }

  /** t is the first entry that handles the event, or the table's length if there is none. */
  ghost predicate FirstMatch<C>(table: Entries<C>, ctx: C, id: nat, t: nat)
  {
    && t <= |table|
    && (forall i :: 0 <= i < t ==> !Handles(table[i], ctx, id))
    && (t < |table| ==> Handles(table[t], ctx, id))
  }

  /** What exits and entries do to the context. */
  ghost function Walked<C>(states: States<C>, ctx: C, events: seq<Event>): C
  {
    Effect(states, [], 0, ctx, events)
  }

  /** What a transition between two states adds to the trace. */
  ghost predicate Performed<C>(states: States<C>, before: int, target: int, events: seq<Event>)
    requires Forest(states) && IsState(states, before) && 0 <= target < |states|
  {
    if before == target then events == [Exited(target), Entered(target)]
    else
      exists lca :: IsState(states, lca) && Above(states, lca, before) && Above(states, lca, target)
        && (forall q :: IsState(states, q) && Above(states, q, before) && Above(states, q, target) ==> Above(states, q, lca))
        && events == ExitsTo(states, lca, before) + EntersFrom(states, lca, target)
  }

  /** Nobody less than k hops above s has an entry for the event. */
  ghost predicate Unhandled<C>(states: States<C>, tables: seq<Entries<C>>, ctx: C, id: nat, s: int, k: nat)
    requires Forest(states) && IsState(states, s) && k <= Depth(states, s)
  {
    forall h :: 0 <= h < k ==>
      var a := Ancestor(states, s, h); 0 <= a < |tables| && FirstMatch(tables[a], ctx, id, |tables[a]|)
  }

  // ---- What the methods rest on ----

  /** Leaving and re-entering the top of a chain changes nothing. */
  lemma ReplayReentry<C>(states: States<C>, s: int)
    requires Forest(states) && 0 <= s < |states|
    ensures Replay(states, Chain(states, s), [Exited(s), Entered(s)]) == Some(Chain(states, s))
  {
    ChainStep(states, s);
    var p := states[s].parent;
    TopIsState(states, p);
    assert Chain(states, s)[..Depth(states, p)] == Chain(states, p);
    assert [Exited(s), Entered(s)][1..] == [Entered(s)];
    assert Replay(states, Chain(states, p), [Entered(s)]) == Some(Chain(states, s));
  }

  /** Every transition takes the chain of the old state to that of the new one. */
  lemma PerformedReplays<C>(states: States<C>, before: int, target: int, events: seq<Event>)
    requires Forest(states) && IsState(states, before) && 0 <= target < |states|
    requires Performed(states, before, target, events)
    ensures Replay(states, Chain(states, before), events) == Some(Chain(states, target))
  {
    if before == target {
      ReplayReentry(states, target);
    } else {
      var lca :| IsState(states, lca) && Above(states, lca, before) && Above(states, lca, target)
                 && events == ExitsTo(states, lca, before) + EntersFrom(states, lca, target);
      ReplayExitsTo(states, lca, before);
      ReplayEntersFrom(states, lca, target);
      hide Replay, ExitsTo, EntersFrom;
      ReplayConcat(states, Chain(states, before), ExitsTo(states, lca, before), EntersFrom(states, lca, target));
    }
  }

  /** What a transition does to the context, on the actions the states were declared with: a transition to
      the current state runs that state's exit and entry actions, any other the exit actions from the current
      state up to the deepest common ancestor-or-self and the entry actions from there down to the target. */
  lemma PerformedActs<C>(states: States<C>, ctx: C, before: int, target: int, events: seq<Event>)
    requires Forest(states) && IsState(states, before) && 0 <= target < |states|
    requires Performed(states, before, target, events)
    ensures before == target ==> Walked(states, ctx, events) == states[target].entry(states[target].exit(ctx))
    ensures before != target ==>
              exists lca :: IsState(states, lca) && Above(states, lca, before) && Above(states, lca, target)
                && (forall q :: IsState(states, q) && Above(states, q, before) && Above(states, q, target) ==>
                      Above(states, q, lca))
                && Walked(states, ctx, events)
                   == EntryActions(states, Below(states, lca, target), ExitActions(states, Below(states, lca, before), ctx))
  {
    hide Walked, Chain, Ends, Placed, ExitsTo, EntersFrom, EntryActions, ExitActions;
    if before == target {
      WalkedNothing(states, ctx);
      WalkedStep(states, ctx, [], Exited(target));
      WalkedStep(states, ctx, [Exited(target)], Entered(target));
      assert [] + [Exited(target)] == [Exited(target)];
      assert [Exited(target)] + [Entered(target)] == events;
    } else {
      var lca :| IsState(states, lca) && Above(states, lca, before) && Above(states, lca, target)
                 && (forall q :: IsState(states, q) && Above(states, q, before) && Above(states, q, target) ==>
                       Above(states, q, lca))
                 && events == ExitsTo(states, lca, before) + EntersFrom(states, lca, target);
      WalkActs(states, ctx, before, target, lca);
    }
  }

  lemma WalkActs<C>(states: States<C>, ctx: C, before: int, target: int, lca: int)
    requires Forest(states) && IsState(states, before) && IsState(states, target) && IsState(states, lca)
    requires Above(states, lca, before) && Above(states, lca, target)
    ensures Walked(states, ctx, ExitsTo(states, lca, before) + EntersFrom(states, lca, target))
            == EntryActions(states, Below(states, lca, target), ExitActions(states, Below(states, lca, before), ctx))
  {
    hide Effect, Chain, Ends, Placed, ExitsTo, EntersFrom, EntryActions, ExitActions;
    WalkedBoth(states, ctx, ExitsTo(states, lca, before), EntersFrom(states, lca, target));
    ExitsAct(states, [], 0, ctx, lca, before);
    EntersAct(states, [], 0, Walked(states, ctx, ExitsTo(states, lca, before)), lca, target);
  }

  /** Exits and entries through the end of the longest common prefix are what a transition performs. */
  lemma ThroughLca<C>(states: States<C>, before: int, target: int, lca: int)
    requires Forest(states) && IsState(states, before) && 0 <= target < |states| && before != target
    requires IsState(states, lca)
    requires Chain(states, lca) == Chain(states, before)[..Common(Chain(states, before), Chain(states, target))]
    ensures Above(states, lca, before) && Above(states, lca, target)
    ensures Performed(states, before, target, ExitsTo(states, lca, before) + EntersFrom(states, lca, target))
  {
    hide Chain, Common, ExitsTo, EntersFrom;
    LcaIsDeepest(states, before, target, lca);
  }

  lemma WalkedNothing<C>(states: States<C>, ctx: C)
    ensures Walked(states, ctx, []) == ctx
  {
  }

  lemma WalkedStep<C>(states: States<C>, ctx: C, events: seq<Event>, e: Event)
    ensures Walked(states, ctx, events + [e]) == Apply(states, [], 0, Walked(states, ctx, events), e)
  {
    EffectSnoc(states, [], 0, ctx, events, e);
  }

  lemma WalkedBoth<C>(states: States<C>, ctx: C, down: seq<Event>, up: seq<Event>)
    ensures Walked(states, ctx, down + up) == Walked(states, Walked(states, ctx, down), up)
  {
    EffectConcat(states, [], 0, ctx, down, up);
  }

  /** The number of states a transition enters below lca. */
  lemma {:induction false} EntriesCounted<C>(states: States<C>, lca: int, s: int)
    requires Forest(states) && IsState(states, lca) && IsState(states, s) && Above(states, lca, s)
    ensures |EntersFrom(states, lca, s)| == Depth(states, s) - Depth(states, lca)
    decreases Depth(states, s)
  {
    if s == lca {
    } else {
      NotTheLca(states, lca, s);
      EntriesCounted(states, lca, states[s].parent);
    }
  }

  /** A path array of n entries suffices for every transition, from nowhere too, iff no chain is longer. */
  lemma PathSuffices<C>(states: States<C>, n: nat)
    requires Forest(states)
    ensures (forall lca, s :: IsState(states, lca) && IsState(states, s) && Above(states, lca, s) ==>
               |EntersFrom(states, lca, s)| <= n)
            <==> (forall s :: IsState(states, s) ==> Depth(states, s) <= n)
  {
    hide EntersFrom;
    forall lca, s | IsState(states, lca) && IsState(states, s) && Above(states, lca, s)
      ensures |EntersFrom(states, lca, s)| == Depth(states, s) - Depth(states, lca)
    {
      EntriesCounted(states, lca, s);
    }
    if s :| IsState(states, s) && Depth(states, s) > n {
      NothingAbove(states, s);
      assert |EntersFrom(states, -1, s)| > n;
    }
  }

  /** The last n elements of a chain, from its end on. */
  ghost function Upwards(c: seq<int>, n: nat): (p: seq<int>)
    requires n <= |c|
    ensures |p| == n
  {
    if n == 0 then [] else Upwards(c, n - 1) + [c[|c| - n]]
  }

  lemma UpwardsStart(c: seq<int>)
    ensures Upwards(c, 0) == []
  {
  }

  lemma UpwardsStep(c: seq<int>, n: nat)
    requires n < |c|
    ensures Upwards(c, n + 1) == Upwards(c, n) + [c[|c| - n - 1]]
  {
  }

  lemma {:induction false} UpwardsAt(c: seq<int>, n: nat, i: nat)
    requires i < n <= |c|
    ensures Upwards(c, n)[i] == c[|c| - 1 - i]
  {
    if i == n - 1 {
    } else {
      UpwardsAt(c, n - 1, i);
    }
  }

  /** One hop on the way from target up to lca. */
  lemma PathStep<C>(states: States<C>, lca: int, target: int, it: int)
    requires Forest(states) && IsState(states, lca) && IsState(states, target) && IsState(states, it)
    requires Above(states, lca, it) && Above(states, it, target) && it != lca
    ensures it >= 0 && IsState(states, states[it].parent)
    ensures Above(states, lca, states[it].parent) && Above(states, states[it].parent, target)
    ensures 0 < Depth(states, it) <= Depth(states, target) && Depth(states, states[it].parent) == Depth(states, it) - 1
    ensures Chain(states, target)[Depth(states, it) - 1] == it
  {
    NotTheLca(states, lca, it);
    ChainStep(states, it);
  }

  /** The way up ends at lca, also if it leads out of the forest. */
  lemma PathEnds<C>(states: States<C>, lca: int, it: int)
    requires Forest(states) && IsState(states, lca) && IsState(states, it) && Above(states, lca, it)
    requires it < 0 || it == lca
    ensures it == lca
  {
    NothingAbove(states, lca);
    ChainIsInjective(states, lca, it);
  }

  class Machine<C> {
    const states: States<C>
    /** Scratch space for the entry path. */
    const path: array<int>
    /** -1 stands for the null pointer. */
    var current: int
    var trace: seq<Event>
    /** Where the last init begins in the trace. */
    ghost var since: nat

    /** The forest is no deeper than the path array is long. */
    ghost predicate Topology()
    {
      Forest(states) && forall s :: IsState(states, s) ==> Depth(states, s) <= path.Length
    }

    ghost predicate Valid()
      reads this
    {
      && Topology() && IsState(states, current) && since <= |trace|
      && Replay(states, [], trace[since..]) == Some(Chain(states, current))
    }

    constructor (states: States<C>, maxDepth: nat)
      requires Forest(states) && forall s :: IsState(states, s) ==> Depth(states, s) <= maxDepth
      ensures Valid() && this.states == states && current == -1 && trace == [] && fresh(path)
    {
      this.states := states;
      path := new int[maxDepth];
      current, trace, since := -1, [], 0;
    }

    /** hsm_lca: both climb to equal depth and then together; the two loops meet at -1 at the latest. */
    method Lca(s: int, t: int) returns (lca: int)
      requires Topology() && IsState(states, s) && IsState(states, t)
      ensures IsState(states, lca)
      ensures Chain(states, lca) == Chain(states, s)[..Common(Chain(states, s), Chain(states, t))]
    {
      hide Common, Ends, Placed, Chain;
      var da := ChainDepth(states, s);
      var db := ChainDepth(states, t);
      var a := Climb(states, s, da, if da > db then db else da);
      var b := Climb(states, t, db, if db > da then da else db);
      while a != b
        invariant IsState(states, a) && IsState(states, b) && Above(states, a, s) && Above(states, b, t)
        invariant Common(Chain(states, s), Chain(states, t)) <= Depth(states, a) == Depth(states, b)
        decreases Depth(states, a)
      {
        BothUp(states, s, t, a, b);
        a := states[a].parent;
        b := states[b].parent;
      }
      lca := a;
      CommonIsLongest(Chain(states, s), Chain(states, t), Depth(states, a));
    }

    method ExitTo(ctx: C, lca: int) returns (ctx': C)
      requires Topology() && IsState(states, current) && IsState(states, lca) && Above(states, lca, current)
      modifies this`trace
      ensures trace == old(trace) + ExitsTo(states, lca, current)
      ensures ctx' == Walked(states, ctx, ExitsTo(states, lca, current))
    {
      hide Walked, Replay, Ends, Placed;
      ctx' := ctx;
      var it := current;
      ghost var done: seq<Event> := [];
      WalkedNothing(states, ctx);
      while it >= 0 && it != lca
        invariant IsState(states, it) && Above(states, lca, it)
        invariant ExitsTo(states, lca, current) == done + ExitsTo(states, lca, it)
        invariant trace == old(trace) + done && ctx' == Walked(states, ctx, done)
        decreases Depth(states, it)
      {
        NotTheLca(states, lca, it);
        Reassociate(done, [Exited(it)], ExitsTo(states, lca, states[it].parent));
        WalkedStep(states, ctx, done, Exited(it));
        ctx' := states[it].exit(ctx');
        trace := trace + [Exited(it)];
        done := done + [Exited(it)];
        it := states[it].parent;
      }
      ChainIsInjective(states, lca, it);
      assert ExitsTo(states, lca, current) == done;
    }

    /** Collect the states from target up to lca, target first. */
    method BuildPath(lca: int, target: int) returns (n: nat)
      requires Topology() && IsState(states, lca) && IsState(states, target) && Above(states, lca, target)
      modifies path
      ensures n == Depth(states, target) - Depth(states, lca) <= path.Length
      ensures path[..n] == Upwards(Chain(states, target), n)
    {
      AtStart(states, target);
      hide Chain, Ends, Placed, Replay, Above, Upwards;
      n := 0;
      var it := target;
      ghost var c := Chain(states, target);
      assert path[..0] == Upwards(c, 0) by { UpwardsStart(c); }
      while it >= 0 && it != lca
        invariant IsState(states, it) && Above(states, lca, it) && Above(states, it, target)
        invariant n == |c| - Depth(states, it) && n <= path.Length
        invariant path[..n] == Upwards(c, n)
        decreases Depth(states, it)
      {
        PathStep(states, lca, target, it);
        UpwardsStep(c, n);
        path[n] := it;
        assert path[..n + 1] == path[..n] + [it];
        n := n + 1;
        it := states[it].parent;
      }
      PathEnds(states, lca, it);
    }

    /** Enter the collected states, outermost first. */
    method EnterBackwards(ctx: C, lca: int, target: int, count: nat) returns (ctx': C)
      requires Topology() && IsState(states, lca) && IsState(states, target) && Above(states, lca, target)
      requires count == Depth(states, target) - Depth(states, lca) <= path.Length
      requires path[..count] == Upwards(Chain(states, target), count)
      modifies this`trace
      ensures trace == old(trace) + EntersFrom(states, lca, target)
      ensures ctx' == Walked(states, ctx, EntersFrom(states, lca, target))
    {
      hide Walked, Replay, Ends, Placed, EntersFrom;
      ctx' := ctx;
      var n := count;
      ghost var at := lca;
      AtStart(states, lca);
      WalkedNothing(states, ctx);
      while n > 0
        invariant n <= count && IsState(states, at) && Above(states, lca, at) && Above(states, at, target)
        invariant n == Depth(states, target) - Depth(states, at)
        invariant trace == old(trace) + EntersFrom(states, lca, at)
        invariant ctx' == Walked(states, ctx, EntersFrom(states, lca, at))
      {
        n := n - 1;
        UpwardsAt(Chain(states, target), count, n);
        assert path[n] == path[..count][n];
        ChainElements(states, target, Depth(states, at));
        NextOnPath(states, lca, at, path[n], target);
        WalkedStep(states, ctx, EntersFrom(states, lca, at), Entered(path[n]));
        ctx' := states[path[n]].entry(ctx');
        trace := trace + [Entered(path[n])];
        at := path[n];
      }
      ChainIsInjective(states, at, target);
    }

    /** hsm_perform_transition. */
    method PerformTransition(ctx: C, target: int) returns (ctx': C, ghost events: seq<Event>)
      requires Valid() && 0 <= target < |states|
      modifies this, path
      ensures Valid() && current == target && since == old(since)
      ensures trace == old(trace) + events && Performed(states, old(current), target, events)
      ensures ctx' == Walked(states, ctx, events)
    {
      hide Replay, Chain, Ends, Placed, ExitsTo, EntersFrom, Walked, Performed;
      ghost var before, run := current, trace[since..];
      if current == target {
        ctx', events := Reenter(ctx, target);
      } else {
        ctx', events := ExitAndEnter(ctx, target);
        current := target;
      }
      PerformedReplays(states, before, target, events);
      ReplayConcat(states, [], run, events);
      assert trace[since..] == run + events;
    }

    /** The external self-transition. */
    method Reenter(ctx: C, target: int) returns (ctx': C, ghost events: seq<Event>)
      requires Topology() && current == target && 0 <= target < |states|
      modifies this`trace
      ensures trace == old(trace) + events && Performed(states, current, target, events)
      ensures ctx' == Walked(states, ctx, events)
    {
      hide Walked;
      events := [Exited(target), Entered(target)];
      WalkedNothing(states, ctx);
      WalkedStep(states, ctx, [], Exited(target));
      WalkedStep(states, ctx, [Exited(target)], Entered(target));
      assert [] + [Exited(target)] == [Exited(target)];
      assert [Exited(target)] + [Entered(target)] == events;
      ctx' := states[target].exit(ctx);
      trace := trace + [Exited(target)];
      ctx' := states[target].entry(ctx');
      trace := trace + [Entered(target)];
      assert trace == old(trace) + events;
    }

    method ExitAndEnter(ctx: C, target: int) returns (ctx': C, ghost events: seq<Event>)
      requires Topology() && IsState(states, current) && 0 <= target < |states| && current != target
      modifies this`trace, path
      ensures trace == old(trace) + events && Performed(states, current, target, events)
      ensures ctx' == Walked(states, ctx, events)
    {
      hide Replay, Chain, Common, Ends, Placed, ExitsTo, EntersFrom, Walked, Performed;
      var lca := Lca(current, target);
      ThroughLca(states, current, target, lca);
      ghost var down, up := ExitsTo(states, lca, current), EntersFrom(states, lca, target);
      events := down + up;
      ctx' := ExitTo(ctx, lca);
      var n := BuildPath(lca, target);
      ctx' := EnterBackwards(ctx', lca, target, n);
      WalkedBoth(states, ctx, down, up);
      Reassociate(old(trace), down, up);
    }

    /** hsm_init forgets the current state without exiting it, so that the trace from the previous init on
        no longer replays. */
    method Init(ctx: C, initial: int) returns (ctx': C, ghost events: seq<Event>)
      requires Valid() && 0 <= initial < |states|
      modifies this, path
      ensures Valid() && current == initial && since == |old(trace)|
      ensures trace == old(trace) + events && events == EntersFrom(states, -1, initial)
      ensures ctx' == Walked(states, ctx, events)
      ensures old(current) >= 0 ==> Replay(states, [], trace[old(since)..]) == None
    {
      hide Replay, Chain, Ends, Placed, Walked, Performed, EntersFrom;
      ghost var run, before, trace0, since0 := trace[since..], current, trace, since;
      NothingAbove(states, initial);
      NothingReplayed(states);
      since := |trace|;
      current := -1;
      assert trace[since..] == [];
      ctx', events := PerformTransition(ctx, initial);
      FromNowhere(states, initial, events);
      RunBegins(states, run, before, initial);
      assert trace[since0..] == run + events;
    }

    /** Scan the table of one state. */
    method Find(table: Entries<C>, ctx: C, id: nat) returns (t: nat)
      ensures FirstMatch(table, ctx, id, t)
    {
      t := 0;
      while t < |table|
        invariant t <= |table| && forall i :: 0 <= i < t ==> !Handles(table[i], ctx, id)
      {
        if table[t].id == id {
          if table[t].guard(ctx) {
            return;
          }
        }
        t := t + 1;
      }
    }

    /** Run an action and then the transition. */
    method Take(ctx: C, tran: Transition<C>, t: nat) returns (ctx': C, ghost events: seq<Event>)
      requires Valid() && (!tran.internal ==> 0 <= tran.target < |states|)
      modifies this, path
      ensures Valid() && trace == old(trace) + [Acted(t)] + events && since == old(since)
      ensures tran.internal ==> events == [] && current == old(current)
      ensures !tran.internal ==> current == tran.target && Performed(states, old(current), tran.target, events)
      ensures ctx' == Walked(states, tran.action(ctx), events)
    {
      hide Chain, Ends, Placed, Walked, Performed;
      ghost var run := trace[since..];
      ActReplays(states, run, current, t);
      ctx' := tran.action(ctx);
      trace := trace + [Acted(t)];
      assert trace[since..] == run + [Acted(t)];
      events := [];
      WalkedNothing(states, ctx');
      if !tran.internal {
        ctx', events := PerformTransition(ctx', tran.target);
      }
    }

    /** hsm_dispatch: bubble up from the current state to the first table that handles the event. */
    method Dispatch(ctx: C, tables: seq<Entries<C>>, id: nat)
        returns (handled: bool, ctx': C, ghost k: nat, ghost t: nat, ghost events: seq<Event>)
      requires Valid() && |tables| == |states|
      requires forall s, i :: 0 <= s < |tables| && 0 <= i < |tables[s]| && !tables[s][i].internal ==>
                 0 <= tables[s][i].target < |states|
      modifies this, path
      ensures Valid() && since == old(since)
      ensures handled ==>
                && k < old(Depth(states, current)) && Unhandled(states, tables, ctx, id, old(current), k)
                && var s := Ancestor(states, old(current), k);
                   && 0 <= s < |tables| && t < |tables[s]| && FirstMatch(tables[s], ctx, id, t)
                   && trace == old(trace) + [Acted(t)] + events
                   && ctx' == Walked(states, tables[s][t].action(ctx), events)
                   && (if tables[s][t].internal then events == [] && current == old(current)
                       else current == tables[s][t].target && Performed(states, old(current), tables[s][t].target, events))
      ensures !handled ==>
                && current == old(current) && trace == old(trace) && ctx' == ctx
                && Unhandled(states, tables, ctx, id, current, Depth(states, current))
    {
      hide Replay, Chain, Ends, Placed, Walked, Performed;
      k, t, events, ctx' := 0, 0, [], ctx;
      var s := current;
      while s >= 0
        invariant current == old(current) && trace == old(trace) && since == old(since) && Valid()
        invariant IsState(states, s) && Above(states, s, current) && k + Depth(states, s) == Depth(states, current)
        invariant Unhandled(states, tables, ctx, id, current, k)
        decreases Depth(states, s)
      {
        AncestorIs(states, current, s);
        var i := Find(tables[s], ctx, id);
        if i < |tables[s]| {
          t := i;
          ctx', events := Take(ctx, tables[s][i], i);
          handled := true;
          return;
        }
        ChainStep(states, s);
        s := states[s].parent;
        k := k + 1;
      }
      NothingAbove(states, s);
      handled := false;
    }

    /** hsm_is_in: is the state active? */
    method IsIn(state: int) returns (yes: bool)
      requires Valid() && 0 <= state < |states|
      ensures yes <==> state in Chain(states, current)
    {
      var it := current;
      while it >= 0
        invariant IsState(states, it) && Above(states, it, current)
        invariant state in Chain(states, current) ==> state in Chain(states, it)
        decreases Depth(states, it)
      {
        ChainStep(states, it);
        if it == state {
          assert Chain(states, current)[Depth(states, it) - 1] == it;
          return true;
        }
        it := states[it].parent;
      }
      yes := false;
    }
  }

  lemma NothingReplayed<C>(states: States<C>)
    ensures Replay(states, [], []) == Some([])
  {
  }

  lemma ActReplays<C>(states: States<C>, run: seq<Event>, current: int, t: nat)
    requires Forest(states) && IsState(states, current) && Replay(states, [], run) == Some(Chain(states, current))
    ensures Replay(states, [], run + [Acted(t)]) == Some(Chain(states, current))
  {
    ReplayConcat(states, [], run, [Acted(t)]);
    assert Replay(states, Chain(states, current), [Acted(t)]) == Some(Chain(states, current));
  }

  /** From no current state a transition only enters. */
  lemma FromNowhere<C>(states: States<C>, initial: int, events: seq<Event>)
    requires Forest(states) && 0 <= initial < |states| && Performed(states, -1, initial, events)
    ensures Above(states, -1, initial) && events == EntersFrom(states, -1, initial)
  {
    var lca :| IsState(states, lca) && Above(states, lca, -1) && Above(states, lca, initial)
               && events == ExitsTo(states, lca, -1) + EntersFrom(states, lca, initial);
    NothingAbove(states, lca);
    ChainIsInjective(states, lca, -1);
    assert ExitsTo(states, -1, -1) == [];
  }
}
