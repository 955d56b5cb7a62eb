/** The hierarchical state machine engine: a forest of states, a table of guarded transitions, and
    the trace of exits, actions and entries that each operation produces.

    The configuration of the machine is the chain from a root to the current leaf.  Replaying the
    trace since the last init as pops and pushes of a stack always reproduces it. */
module Hsm {

  datatype Kind = External | Internal | Self

  /** parent and initialChild are state indices or -1; a missing entry or exit action is the identity. */
  datatype StateDef<!C> = StateDef(parent: int, initialChild: int, entry: C -> C, exit: C -> C)

  /** A missing guard is always true, a missing action the identity. */
  datatype TransitionDef<!C> =
    TransitionDef(source: int, signal: nat, target: int, kind: Kind, guard: (C, nat) -> bool, action: (C, nat) -> C)

  type States<!C> = seq<StateDef<C>>
  type Table<!C> = seq<TransitionDef<C>>

  // ---- The forest ----

  /** The parent chain of s leaves the forest within the given number of hops. */
  predicate Ends<C>(states: States<C>, s: int, hops: nat)
    decreases hops
  {
    s < 0 || (s < |states| && hops > 0 && Ends(states, states[s].parent, hops - 1))
  }

  /** What validate_topology asserts of one state. */
  predicate Placed<C>(states: States<C>, s: int)
    requires 0 <= s < |states|
  {
    && states[s].parent >= -1
    && Ends(states, s, |states|)
    && -1 <= states[s].initialChild < |states|
    && (states[s].initialChild >= 0 ==> states[states[s].initialChild].parent == s)
  }

  ghost predicate Forest<C>(states: States<C>)
  {
    forall s {:trigger Placed(states, s)} :: 0 <= s < |states| ==> Placed(states, s)
  }

  predicate IsState<C>(states: States<C>, s: int)
  {
    -1 <= s < |states|
  }

  /** The chain from a root down to s, computed within the given number of hops. */
  ghost function ChainWithin<C>(states: States<C>, s: int, hops: nat): (c: seq<int>)
    requires Ends(states, s, hops)
    ensures |c| <= hops
    decreases hops
  {
    if s < 0 then [] else ChainWithin(states, states[s].parent, hops - 1) + [s]
  }

  lemma {:induction false} HopsDoNotMatter<C>(states: States<C>, s: int, hops: nat, hops': nat)
    requires Ends(states, s, hops) && hops <= hops'
    ensures Ends(states, s, hops') && ChainWithin(states, s, hops') == ChainWithin(states, s, hops)
    decreases hops
  {
    if s < 0 {
    } else {
      HopsDoNotMatter(states, states[s].parent, hops - 1, hops' - 1);
    }
  }

  /** The chain of states from a root to s; empty for -1. */
  ghost function Chain<C>(states: States<C>, s: int): (c: seq<int>)
    requires Forest(states) && IsState(states, s)
    ensures |c| <= |states|
  {
    if s < 0 then []
    else
      assert Placed(states, s);
      ChainWithin(states, s, |states|)
  }

  ghost function Depth<C>(states: States<C>, s: int): nat
    requires Forest(states) && IsState(states, s)
  {
    |Chain(states, s)|
  }

  lemma ParentIsState<C>(states: States<C>, s: int)
    requires Forest(states) && 0 <= s < |states|
    ensures IsState(states, states[s].parent)
  {
    assert Placed(states, s) && Ends(states, states[s].parent, |states| - 1);
  }

  /** A chain is the parent's chain and the state itself. */
  lemma ChainStep<C>(states: States<C>, s: int)
    requires Forest(states) && 0 <= s < |states|
    ensures IsState(states, states[s].parent)
    ensures Chain(states, s) == Chain(states, states[s].parent) + [s]
  {
    ParentIsState(states, s);
    var p := states[s].parent;
    assert Placed(states, s);
    assert Chain(states, s) == ChainWithin(states, p, |states| - 1) + [s];
    if p >= 0 {
      HopsDoNotMatter(states, p, |states| - 1, |states|);
    } else {
      assert ChainWithin(states, p, |states| - 1) == [] && Chain(states, p) == [];
    }
  }

  /** a is s or one of its ancestors, -1 being everybody's. */
  ghost predicate Above<C>(states: States<C>, a: int, s: int)
    requires Forest(states) && IsState(states, a) && IsState(states, s)
  {
    Chain(states, a) <= Chain(states, s)
  }

  lemma {:induction false} ChainElements<C>(states: States<C>, s: int, i: nat)
    requires Forest(states) && IsState(states, s) && i < Depth(states, s)
    ensures 0 <= Chain(states, s)[i] < |states|
    ensures Chain(states, Chain(states, s)[i]) == Chain(states, s)[..i + 1]
    decreases Depth(states, s)
  {
    ChainStep(states, s);
    var c := Chain(states, s);
    var p := states[s].parent;
    if i == |c| - 1 {
      assert c[..i + 1] == c;
    } else {
      ChainElements(states, p, i);
      assert c[..i + 1] == Chain(states, p)[..i + 1];
    }
  }

  lemma ChainIsInjective<C>(states: States<C>, a: int, b: int)
    requires Forest(states) && IsState(states, a) && IsState(states, b)
    requires Chain(states, a) == Chain(states, b)
    ensures a == b
  {
    TopIsState(states, a);
    TopIsState(states, b);
  }

  // ---- Traces and their replay ----

  datatype Event = Exited(state: int) | Acted(transition: nat) | Entered(state: int)

  datatype Maybe<T> = None | Some(value: T)

  /** Replay one event on the stack of active states: an exit pops the top, an entry pushes a child
      of the top; anything else is an error. */
  function ReplayOne<C>(states: States<C>, stack: seq<int>, e: Event): Maybe<seq<int>>
  {
    match e
    case Exited(s) => if stack != [] && stack[|stack| - 1] == s then Some(stack[..|stack| - 1]) else None
    case Acted(_) => Some(stack)
    case Entered(s) =>
      if 0 <= s < |states| && states[s].parent == (if stack == [] then -1 else stack[|stack| - 1]) then Some(stack + [s])
      else None
  }

  function Replay<C>(states: States<C>, stack: seq<int>, trace: seq<Event>): Maybe<seq<int>>
    decreases |trace|
  {
    if trace == [] then Some(stack)
    else
      match ReplayOne(states, stack, trace[0])
      case None => None
      case Some(next) => Replay(states, next, trace[1..])
  }

  lemma {:induction false} ReplayConcat<C>(states: States<C>, stack: seq<int>, t: seq<Event>, t': seq<Event>)
    requires Replay(states, stack, t).Some?
    ensures Replay(states, stack, t + t') == Replay(states, Replay(states, stack, t).value, t')
    decreases |t|
  {
    if t == [] {
      assert t + t' == t';
    } else {
      assert (t + t')[1..] == t[1..] + t';
      ReplayConcat(states, ReplayOne(states, stack, t[0]).value, t[1..], t');
    }
  }

  /** What one event does to the context. */
  function Apply<C>(states: States<C>, table: Table<C>, signal: nat, ctx: C, e: Event): C
  {
    match e
    case Exited(s) => if 0 <= s < |states| then states[s].exit(ctx) else ctx
    case Acted(t) => if t < |table| then table[t].action(ctx, signal) else ctx
    case Entered(s) => if 0 <= s < |states| then states[s].entry(ctx) else ctx
  }

  /** What a trace does to the context: the exit, transition and entry actions in order. */
  function Effect<C>(states: States<C>, table: Table<C>, signal: nat, ctx: C, trace: seq<Event>): C
  {
    if trace == [] then ctx
    else
      Apply(states, table, signal, Effect(states, table, signal, ctx, trace[..|trace| - 1]), trace[|trace| - 1])
  }

  lemma EffectOfNothing<C>(states: States<C>, table: Table<C>, signal: nat, ctx: C)
    ensures Effect(states, table, signal, ctx, []) == ctx
  {
  }

  lemma EffectSnoc<C>(states: States<C>, table: Table<C>, signal: nat, ctx: C, trace: seq<Event>, e: Event)
    ensures Effect(states, table, signal, ctx, trace + [e])
            == Apply(states, table, signal, Effect(states, table, signal, ctx, trace), e)
  {
    assert (trace + [e])[..|trace|] == trace;
  }

  lemma TopIsState<C>(states: States<C>, s: int)
    requires Forest(states) && IsState(states, s)
    ensures var c := Chain(states, s); s == if c == [] then -1 else c[|c| - 1]
  {
    if s >= 0 {
      ChainStep(states, s);
    }
  }

  // ---- The paths between a state and one of its ancestors ----

  lemma NotTheLca<C>(states: States<C>, lca: int, s: int)
    requires Forest(states) && IsState(states, lca) && IsState(states, s) && Above(states, lca, s) && s != lca
    ensures s >= 0 && IsState(states, states[s].parent) && Above(states, lca, states[s].parent)
    ensures Depth(states, states[s].parent) == Depth(states, s) - 1
  {
    if Depth(states, lca) == Depth(states, s) {
      ChainIsInjective(states, lca, s);
    }
    ChainStep(states, s);
  }

  /** Exiting s and its ancestors up to, not including, top. */
  ghost function ExitsTo<C>(states: States<C>, top: int, s: int): (t: seq<Event>)
    requires Forest(states) && IsState(states, top) && IsState(states, s) && Above(states, top, s)
    decreases Depth(states, s)
  {
    if s == top then []
    else
      NotTheLca(states, top, s);
      [Exited(s)] + ExitsTo(states, top, states[s].parent)
  }

  /** Entering the states below top down to s. */
  ghost function EntersFrom<C>(states: States<C>, top: int, s: int): (t: seq<Event>)
    requires Forest(states) && IsState(states, top) && IsState(states, s) && Above(states, top, s)
    decreases Depth(states, s)
  {
    if s == top then []
    else
      NotTheLca(states, top, s);
      EntersFrom(states, top, states[s].parent) + [Entered(s)]
  }

  lemma {:induction false} ReplayExitsTo<C>(states: States<C>, top: int, s: int)
    requires Forest(states) && IsState(states, top) && IsState(states, s) && Above(states, top, s)
    ensures Replay(states, Chain(states, s), ExitsTo(states, top, s)) == Some(Chain(states, top))
    decreases Depth(states, s)
  {
    if s == top {
    } else {
      NotTheLca(states, top, s);
      var p := states[s].parent;
      ChainStep(states, s);
      ReplayExitsTo(states, top, p);
      var t := ExitsTo(states, top, s);
      assert t[0] == Exited(s) && t[1..] == ExitsTo(states, top, p);
      assert Chain(states, s)[..Depth(states, p)] == Chain(states, p);
    }
  }

  lemma {:induction false} ReplayEntersFrom<C>(states: States<C>, top: int, s: int)
    requires Forest(states) && IsState(states, top) && IsState(states, s) && Above(states, top, s)
    ensures Replay(states, Chain(states, top), EntersFrom(states, top, s)) == Some(Chain(states, s))
    decreases Depth(states, s)
  {
    if s == top {
    } else {
      NotTheLca(states, top, s);
      var p := states[s].parent;
      ChainStep(states, s);
      ReplayEntersFrom(states, top, p);
      ReplayConcat(states, Chain(states, top), EntersFrom(states, top, p), [Entered(s)]);
      TopIsState(states, p);
      assert Replay(states, Chain(states, p), [Entered(s)]) == Some(Chain(states, s));
    }
  }

  /** Every way down from nowhere begins with a root. */
  lemma {:induction false} EntersBeginAtRoot<C>(states: States<C>, s: int)
    requires Forest(states) && 0 <= s < |states| && Above(states, -1, s)
    ensures var t := EntersFrom(states, -1, s);
            t != [] && t[0].Entered? && 0 <= t[0].state < |states| && states[t[0].state].parent == -1
    decreases Depth(states, s)
  {
    NotTheLca(states, -1, s);
    var p := states[s].parent;
    if p < 0 {
      assert EntersFrom(states, -1, p) == [];
    } else {
      EntersBeginAtRoot(states, p);
    }
  }

  lemma NothingAbove<C>(states: States<C>, s: int)
    requires Forest(states) && IsState(states, s)
    ensures Chain(states, -1) == [] && Above(states, -1, s)
  {
  }

  /** So entering from nowhere while something is active does not replay. */
  lemma EnterTwice<C>(states: States<C>, current: int, s: int)
    requires Forest(states) && 0 <= current < |states| && 0 <= s < |states| && Above(states, -1, s)
    ensures Replay(states, Chain(states, current), EntersFrom(states, -1, s)) == None
  {
    EntersBeginAtRoot(states, s);
    TopIsState(states, current);
    ChainStep(states, current);
  }

  /** What an init makes of a run so far, and the run it begins. */
  lemma RunBegins<C>(states: States<C>, run: seq<Event>, before: int, leaf: int)
    requires Forest(states) && IsState(states, before) && 0 <= leaf < |states| && Above(states, -1, leaf)
    requires Replay(states, [], run) == Some(Chain(states, before))
    ensures Replay(states, [], EntersFrom(states, -1, leaf)) == Some(Chain(states, leaf))
    ensures before >= 0 ==> Replay(states, [], run + EntersFrom(states, -1, leaf)) == None
  {
    hide Replay, EntersFrom;
    NothingAbove(states, leaf);
    ReplayEntersFrom(states, -1, leaf);
    if before >= 0 {
      EnterTwice(states, before, leaf);
      ReplayConcat(states, [], run, EntersFrom(states, -1, leaf));
    }
  }

  /** Going down in two stages. */
  lemma {:induction false} EntersThrough<C>(states: States<C>, top: int, mid: int, s: int)
    requires Forest(states) && IsState(states, top) && IsState(states, mid) && IsState(states, s)
    requires Above(states, top, mid) && Above(states, mid, s)
    ensures EntersFrom(states, top, s) == EntersFrom(states, top, mid) + EntersFrom(states, mid, s)
    decreases Depth(states, s)
  {
    if s == mid {
    } else {
      NotTheLca(states, mid, s);
      EntersThrough(states, top, mid, states[s].parent);
      if s == top {
        ChainIsInjective(states, s, mid);
      }
    }
  }

  // ---- Common ancestors, initial leaves, and the trace of a transition ----

  /** Length of the longest common prefix. */
  ghost function Common(x: seq<int>, y: seq<int>): (k: nat)
    ensures k <= |x| && k <= |y|
  {
    if x == [] || y == [] || x[0] != y[0] then 0 else 1 + Common(x[1..], y[1..])
  }

  lemma {:induction false} CommonIsLongest(x: seq<int>, y: seq<int>, n: nat)
    requires n <= |x| && n <= |y|
    ensures x[..n] == y[..n] <==> n <= Common(x, y)
  {
    if n == 0 {
    } else {
      assert x[..n] == [x[0]] + x[1..][..n - 1];
      assert y[..n] == [y[0]] + y[1..][..n - 1];
      CommonIsLongest(x[1..], y[1..], n - 1);
    }
  }

  /** Where entering s ends: the chain of initial children. */
  ghost function InitialLeaf<C>(states: States<C>, s: int): (leaf: int)
    requires Forest(states) && 0 <= s < |states|
    ensures 0 <= leaf < |states| && Above(states, s, leaf)
    decreases |states| - Depth(states, s)
  {
    assert Placed(states, s);
    var child := states[s].initialChild;
    if child < 0 then s
    else
      ChainStep(states, child);
      InitialLeaf(states, child)
  }

  /** The number of hops on that chain. */
  ghost function Descent<C>(states: States<C>, s: int): nat
    requires Forest(states) && 0 <= s < |states|
  {
    Depth(states, InitialLeaf(states, s)) - Depth(states, s)
  }

  lemma LeafStays<C>(states: States<C>, s: int)
    requires Forest(states) && 0 <= s < |states| && states[s].initialChild < 0
    ensures InitialLeaf(states, s) == s && Descent(states, s) == 0
  {
  }

  lemma AtStart<C>(states: States<C>, s: int)
    requires Forest(states) && IsState(states, s)
    ensures Above(states, s, s) && EntersFrom(states, s, s) == []
  {
  }

  /** One hop to the initial child. */
  lemma ChildStep<C>(states: States<C>, top: int, s: int)
    requires Forest(states) && IsState(states, top) && 0 <= s < |states| && Above(states, top, s)
    requires states[s].initialChild >= 0
    ensures var child := states[s].initialChild;
            && child < |states| && Above(states, top, child) && Above(states, s, child)
            && Depth(states, s) < Depth(states, child) <= |states|
            && InitialLeaf(states, child) == InitialLeaf(states, s)
            && Descent(states, s) == 1 + Descent(states, child)
            && EntersFrom(states, top, child) == EntersFrom(states, top, s) + [Entered(child)]
  {
    assert Placed(states, s);
    var child := states[s].initialChild;
    ChainStep(states, child);
  }

  predicate ValidTransition<C>(states: States<C>, tran: TransitionDef<C>)
  {
    0 <= tran.source < |states| && (tran.kind == External ==> 0 <= tran.target < |states|)
  }

  function Destination<C>(tran: TransitionDef<C>): int
  {
    if tran.kind == Self then tran.source else tran.target
  }

  /** The state that stays active in a transition: the deepest one that is a proper ancestor of both
      source and target; -1 if there is none. */
  ghost predicate Pivot<C>(states: States<C>, source: int, target: int, p: int)
    requires Forest(states) && 0 <= source < |states| && 0 <= target < |states|
  {
    && IsState(states, p) && Above(states, p, source) && Above(states, p, target) && p != source && p != target
    && forall q :: IsState(states, q) && Above(states, q, source) && Above(states, q, target) && q != source && q != target
         ==> Above(states, q, p)
  }

  /** An internal transition only acts; any other exits the active states below the pivot, acts,
      and enters the target's chain from there down to its initial leaf. */
  ghost predicate Performs<C>(states: States<C>, table: Table<C>, current: int, t: nat, events: seq<Event>, next: int)
    requires Forest(states) && IsState(states, current) && t < |table| && ValidTransition(states, table[t])
    requires Above(states, table[t].source, current)
  {
    if table[t].kind == Internal then events == [Acted(t)] && next == current
    else
      var target := Destination(table[t]);
      next == InitialLeaf(states, target)
      && exists p :: Pivot(states, table[t].source, target, p)
           && events == ExitsTo(states, p, current) + [Acted(t)] + EntersFrom(states, p, next)
  }

  lemma MoveReplays<C>(states: States<C>, current: int, p: int, t: nat, next: int)
    requires Forest(states) && IsState(states, current) && IsState(states, p) && IsState(states, next)
    requires Above(states, p, current) && Above(states, p, next)
    ensures Replay(states, Chain(states, current), ExitsTo(states, p, current) + [Acted(t)] + EntersFrom(states, p, next))
            == Some(Chain(states, next))
  {
    var c := Chain(states, current);
    ReplayExitsTo(states, p, current);
    assert Replay(states, Chain(states, p), [Acted(t)]) == Some(Chain(states, p));
    ReplayEntersFrom(states, p, next);
    hide Replay, ExitsTo, EntersFrom;
    ReplayConcat(states, c, ExitsTo(states, p, current), [Acted(t)]);
    ReplayConcat(states, c, ExitsTo(states, p, current) + [Acted(t)], EntersFrom(states, p, next));
  }

  /** Every transition takes the configuration of the old leaf to that of the new one. */
  lemma TransitionReplays<C>(states: States<C>, table: Table<C>, current: int, t: nat, events: seq<Event>, next: int)
    requires Forest(states) && IsState(states, current) && t < |table| && ValidTransition(states, table[t])
    requires Above(states, table[t].source, current) && Performs(states, table, current, t, events, next)
    ensures IsState(states, next) && Replay(states, Chain(states, current), events) == Some(Chain(states, next))
  {
    hide Chain, Ends, Placed, ExitsTo, EntersFrom, InitialLeaf;
    if table[t].kind == Internal {
      assert Replay(states, Chain(states, current), [Acted(t)]) == Some(Chain(states, current));
    } else {
      var p :| Pivot(states, table[t].source, Destination(table[t]), p)
               && events == ExitsTo(states, p, current) + [Acted(t)] + EntersFrom(states, p, next);
      MoveReplays(states, current, p, t, next);
    }
  }

  /** Exits to the pivot, the action and entries from there are what a transition performs. */
  lemma MovePerforms<C>(states: States<C>, table: Table<C>, current: int, t: nat, p: int, next: int)
    requires Forest(states) && IsState(states, current) && t < |table| && ValidTransition(states, table[t])
    requires Above(states, table[t].source, current) && table[t].kind != Internal
    requires Pivot(states, table[t].source, Destination(table[t]), p) && next == InitialLeaf(states, Destination(table[t]))
    requires Above(states, p, current) && Above(states, p, next)
    ensures Performs(states, table, current, t, ExitsTo(states, p, current) + ([Acted(t)] + EntersFrom(states, p, next)), next)
  {
    hide ExitsTo, EntersFrom, InitialLeaf, Chain;
    Reassociate(ExitsTo(states, p, current), [Acted(t)], EntersFrom(states, p, next));
  }

  /** A run that replays still does after a transition. */
  lemma RunGoesOn<C>(states: States<C>, table: Table<C>, run: seq<Event>, current: int, t: nat, events: seq<Event>, next: int)
    requires Forest(states) && IsState(states, current) && t < |table| && ValidTransition(states, table[t])
    requires Above(states, table[t].source, current) && Performs(states, table, current, t, events, next)
    requires Replay(states, [], run) == Some(Chain(states, current))
    ensures IsState(states, next) && Replay(states, [], run + events) == Some(Chain(states, next))
  {
    hide Replay, Performs, Chain;
    TransitionReplays(states, table, current, t, events, next);
    ReplayConcat(states, [], run, events);
  }

  // ---- Which transition is taken ----

  predicate Enabled<C>(table: Table<C>, ctx: C, signal: nat, source: int, i: nat)
    requires i < |table|
  {
    table[i].source == source && table[i].signal == signal && table[i].guard(ctx, signal)
  }

  /** i is the first enabled entry of the table for this source, or |table| if there is none. */
  ghost predicate First<C>(table: Table<C>, ctx: C, signal: nat, source: int, i: nat)
  {
    && i <= |table|
    && (forall j :: 0 <= j < i ==> !Enabled(table, ctx, signal, source, j))
    && (i < |table| ==> Enabled(table, ctx, signal, source, i))
  }

  /** The state k hops above s. */
  ghost function Ancestor<C>(states: States<C>, s: int, k: nat): int
    requires Forest(states) && IsState(states, s) && k < Depth(states, s)
  {
    Chain(states, s)[Depth(states, s) - 1 - k]
  }

  /** Nothing is enabled in the states less than k hops above s. */
  ghost predicate NoneBelow<C>(states: States<C>, table: Table<C>, ctx: C, signal: nat, s: int, k: nat)
    requires Forest(states) && IsState(states, s) && k <= Depth(states, s)
  {
    forall h :: 0 <= h < k ==> First(table, ctx, signal, Ancestor(states, s, h), |table|)
  }

  lemma {:induction false} EffectConcat<C>(states: States<C>, table: Table<C>, signal: nat, ctx: C, t: seq<Event>, t': seq<Event>)
    ensures Effect(states, table, signal, ctx, t + t')
            == Effect(states, table, signal, Effect(states, table, signal, ctx, t), t')
    decreases |t'|
  {
    if t' == [] {
      assert t + t' == t;
    } else {
      assert (t + t')[..|t + t'| - 1] == t + t'[..|t'| - 1];
      EffectConcat(states, table, signal, ctx, t, t'[..|t'| - 1]);
    }
  }

  // ---- What a transition does to the context, on the state definitions themselves ----

  ghost predicate AllStates<C>(states: States<C>, c: seq<int>)
  {
    forall i :: 0 <= i < |c| ==> 0 <= c[i] < |states|
  }

  /** The exit actions of the states of c, the last one first. */
  ghost function ExitActions<C>(states: States<C>, c: seq<int>, ctx: C): C
    requires AllStates(states, c)
  {
    if c == [] then ctx else ExitActions(states, c[..|c| - 1], states[c[|c| - 1]].exit(ctx))
  }

  /** The entry actions of the states of c, the first one first. */
  ghost function EntryActions<C>(states: States<C>, c: seq<int>, ctx: C): C
    requires AllStates(states, c)
  {
    if c == [] then ctx else EntryActions(states, c[1..], states[c[0]].entry(ctx))
  }

  /** The part of the chain of s that is below top. */
  ghost function Below<C>(states: States<C>, top: int, s: int): (c: seq<int>)
    requires Forest(states) && IsState(states, top) && IsState(states, s) && Above(states, top, s)
    ensures AllStates(states, c)
  {
    assert forall i :: Depth(states, top) <= i < Depth(states, s) ==> 0 <= Chain(states, s)[i] < |states| by {
      forall i | Depth(states, top) <= i < Depth(states, s)
        ensures 0 <= Chain(states, s)[i] < |states|
      {
        ChainElements(states, s, i);
      }
    }
    Chain(states, s)[Depth(states, top)..]
  }

  lemma BelowStep<C>(states: States<C>, top: int, s: int)
    requires Forest(states) && IsState(states, top) && IsState(states, s) && Above(states, top, s) && s != top
    ensures s >= 0 && IsState(states, states[s].parent) && Above(states, top, states[s].parent)
    ensures Below(states, top, s) == Below(states, top, states[s].parent) + [s]
  {
    NotTheLca(states, top, s);
    ChainStep(states, s);
  }

  lemma {:induction false} EntrySnoc<C>(states: States<C>, c: seq<int>, s: int, ctx: C)
    requires AllStates(states, c) && 0 <= s < |states|
    ensures AllStates(states, c + [s]) && EntryActions(states, c + [s], ctx) == states[s].entry(EntryActions(states, c, ctx))
    decreases |c|
  {
    if c == [] {
      assert c + [s] == [s] && [s][1..] == [];
    } else {
      assert (c + [s])[1..] == c[1..] + [s];
      EntrySnoc(states, c[1..], s, states[c[0]].entry(ctx));
    }
  }

  lemma {:induction false} ExitsAct<C>(states: States<C>, table: Table<C>, signal: nat, ctx: C, top: int, s: int)
    requires Forest(states) && IsState(states, top) && IsState(states, s) && Above(states, top, s)
    ensures Effect(states, table, signal, ctx, ExitsTo(states, top, s)) == ExitActions(states, Below(states, top, s), ctx)
    decreases Depth(states, s)
  {
    hide Chain, Ends, Placed, Effect;
    EffectOfNothing(states, table, signal, ctx);
    if s == top {
      assert Below(states, top, s) == [];
    } else {
      BelowStep(states, top, s);
      NotTheLca(states, top, s);
      var p, ctx1 := states[s].parent, states[s].exit(ctx);
      ExitsAct(states, table, signal, ctx1, top, p);
      EffectSnoc(states, table, signal, ctx, [], Exited(s));
      assert [] + [Exited(s)] == [Exited(s)];
      EffectConcat(states, table, signal, ctx, [Exited(s)], ExitsTo(states, top, p));
      assert (Below(states, top, p) + [s])[..|Below(states, top, p)|] == Below(states, top, p);
    }
  }

  lemma {:induction false} EntersAct<C>(states: States<C>, table: Table<C>, signal: nat, ctx: C, top: int, s: int)
    requires Forest(states) && IsState(states, top) && IsState(states, s) && Above(states, top, s)
    ensures Effect(states, table, signal, ctx, EntersFrom(states, top, s)) == EntryActions(states, Below(states, top, s), ctx)
    decreases Depth(states, s)
  {
    hide Chain, Ends, Placed, EntryActions, Effect;
    if s == top {
      assert Below(states, top, s) == [] && EntersFrom(states, top, s) == [];
      NoEntries(states, ctx);
      EffectOfNothing(states, table, signal, ctx);
    } else {
      BelowStep(states, top, s);
      NotTheLca(states, top, s);
      var p := states[s].parent;
      EntersAct(states, table, signal, ctx, top, p);
      EffectSnoc(states, table, signal, ctx, EntersFrom(states, top, p), Entered(s));
      EntrySnoc(states, Below(states, top, p), s, ctx);
    }
  }

  lemma NoEntries<C>(states: States<C>, ctx: C)
    ensures EntryActions(states, [], ctx) == ctx
  {
  }

  lemma MoveActs<C>(states: States<C>, table: Table<C>, signal: nat, ctx: C, current: int, t: nat, p: int, next: int)
    requires Forest(states) && IsState(states, p) && IsState(states, current) && IsState(states, next) && t < |table|
    requires Above(states, p, current) && Above(states, p, next)
    ensures Effect(states, table, signal, ctx, ExitsTo(states, p, current) + [Acted(t)] + EntersFrom(states, p, next))
            == EntryActions(states, Below(states, p, next),
                            table[t].action(ExitActions(states, Below(states, p, current), ctx), signal))
  {
    hide Effect, Chain, Ends, Placed, ExitsTo, EntersFrom, EntryActions, ExitActions;
    var exits := ExitsTo(states, p, current);
    ExitsAct(states, table, signal, ctx, p, current);
    EffectSnoc(states, table, signal, ctx, exits, Acted(t));
    EffectConcat(states, table, signal, ctx, exits + [Acted(t)], EntersFrom(states, p, next));
    EntersAct(states, table, signal, Effect(states, table, signal, ctx, exits + [Acted(t)]), p, next);
  }

  /** What a transition does to the context, on the actions the states were declared with: an internal one
      runs its own action only; any other runs the exit actions from the current state up to the pivot, its
      own action, and the entry actions from the pivot down to the new leaf. */
  lemma TransitionActs<C>(states: States<C>, table: Table<C>, signal: nat, ctx: C, current: int, t: nat,
                          events: seq<Event>, next: int)
    requires Forest(states) && IsState(states, current) && t < |table| && ValidTransition(states, table[t])
    requires Above(states, table[t].source, current) && Performs(states, table, current, t, events, next)
    ensures table[t].kind == Internal ==> Effect(states, table, signal, ctx, events) == table[t].action(ctx, signal)
    ensures table[t].kind != Internal ==>
              exists p :: Pivot(states, table[t].source, Destination(table[t]), p) && IsState(states, next)
                && Above(states, p, current) && Above(states, p, next)
                && Effect(states, table, signal, ctx, events)
                   == EntryActions(states, Below(states, p, next),
                                   table[t].action(ExitActions(states, Below(states, p, current), ctx), signal))
  {
    hide Chain, Ends, Placed, ExitsTo, EntersFrom, ExitActions, EntryActions;
    if table[t].kind == Internal {
      EffectSnoc(states, table, signal, ctx, [], Acted(t));
      assert [] + [Acted(t)] == [Acted(t)];
    } else {
      var p :| Pivot(states, table[t].source, Destination(table[t]), p)
               && events == ExitsTo(states, p, current) + [Acted(t)] + EntersFrom(states, p, next);
      MoveActs(states, table, signal, ctx, current, t, p, next);
    }
  }

  /** Entering a state ends in one without an initial child, and every state on the way from it is the initial
      child of the one before. */
  lemma {:induction false} DescendsByInitialChildren<C>(states: States<C>, s: int, i: nat)
    requires Forest(states) && 0 <= s < |states|
    ensures var leaf := InitialLeaf(states, s);
            && states[leaf].initialChild < 0
            && (Depth(states, s) <= i < Depth(states, leaf) ==>
                  var c := Chain(states, leaf);
                  i > 0 && 0 <= c[i - 1] < |states| && states[c[i - 1]].initialChild == c[i])
    decreases |states| - Depth(states, s)
  {
    if states[s].initialChild >= 0 {
      ChildStep(states, s, s);
      var child, leaf := states[s].initialChild, InitialLeaf(states, s);
      DescendsByInitialChildren(states, child, i);
      ChainStep(states, child);
      ChainStep(states, s);
      if i == Depth(states, s) {
        assert Chain(states, child) <= Chain(states, leaf);
        assert Chain(states, leaf)[i] == Chain(states, child)[i] && Chain(states, leaf)[i - 1] == Chain(states, child)[i - 1];
      }
    }
  }

  // ---- The engine ----

  method ChainDepth<C>(states: States<C>, s: int) returns (depth: nat)
    requires Forest(states) && IsState(states, s)
    ensures depth == Depth(states, s)
  {
    var state := s;
    depth := 0;
    while state >= 0
      invariant IsState(states, state) && depth + Depth(states, state) == Depth(states, s)
      decreases Depth(states, state)
    {
      ChainStep(states, state);
      depth := depth + 1;
      state := states[state].parent;
    }
  }

  /** Climb from s, whose depth is `from`, to a smaller depth. */
  method Climb<C>(states: States<C>, s: int, from: nat, depth: nat) returns (state: int)
    requires Forest(states) && IsState(states, s) && depth <= from == Depth(states, s)
    ensures IsState(states, state) && Depth(states, state) == depth && Above(states, state, s)
  {
    state := s;
    var d := from;
    while d > depth
      invariant IsState(states, state) && depth <= d == Depth(states, state) && Above(states, state, s)
    {
      ChainStep(states, state);
      state := states[state].parent;
      d := d - 1;
    }
  }

  class Engine<C> {
    const states: States<C>
    const table: Table<C>
    const initialState: int
    const maxDepth: nat
    var current: int
    /** Everything entered, exited and done so far. */
    var trace: seq<Event>
    /** Where the last init begins in it. */
    ghost var since: nat

    ghost predicate Topology()
    {
      Forest(states) && forall i :: 0 <= i < |table| ==> ValidTransition(states, table[i])
    }

    /** Replaying the trace since the last init leaves exactly the chain of the current state. */
    ghost predicate Valid()
      reads this
    {
      && Topology() && IsState(states, current) && since <= |trace|
      && Replay(states, [], trace[since..]) == Some(Chain(states, current))
    }

    constructor (states: States<C>, table: Table<C>, initialState: int, maxDepth: nat)
      requires Forest(states) && forall i :: 0 <= i < |table| ==> ValidTransition(states, table[i])
      ensures Valid() && current == -1 && trace == [] && since == 0
      ensures this.states == states && this.table == table
      ensures this.initialState == initialState && this.maxDepth == maxDepth
    {
      this.states, this.table, this.initialState, this.maxDepth := states, table, initialState, maxDepth;
      current, trace, since := -1, [], 0;
    }

    /** The ancestor-or-self of s that has the given depth. */
    method AncestorAtDepth(s: int, depth: nat) returns (state: int)
      requires Topology() && IsState(states, s) && depth <= Depth(states, s)
      ensures IsState(states, state) && Chain(states, state) == Chain(states, s)[..depth]
    {
      var currentDepth := ChainDepth(states, s);
      state := Climb(states, s, currentDepth, depth);
    }

    /** The deepest common ancestor-or-self. */
    method FindLca(s: int, t: int) returns (lca: int)
      requires Topology() && IsState(states, s) && IsState(states, t)
      ensures IsState(states, lca)
      ensures Chain(states, lca) == Chain(states, s)[..Common(Chain(states, s), Chain(states, t))]
    {
      hide Common, Ends, Placed, Chain;
      var da := ChainDepth(states, s);
      var db := ChainDepth(states, t);
      var a := Climb(states, s, da, if da > db then db else da);
      var b := Climb(states, t, db, if db > da then da else db);
      ghost var k := Common(Chain(states, s), Chain(states, t));
      while a != b
        invariant IsState(states, a) && IsState(states, b) && Above(states, a, s) && Above(states, b, t)
        invariant k <= Depth(states, a) == Depth(states, b)
        decreases Depth(states, a)
      {
        if a < 0 || b < 0 {
          NobodyElseAtTop(states, a, b);
          assert false;
          return -1;
        }
        BothUp(states, s, t, a, b);
        a := states[a].parent;
        b := states[b].parent;
      }
      lca := a;
      CommonIsLongest(Chain(states, s), Chain(states, t), Depth(states, a));
    }

    method FindTransition(ctx: C, signal: nat, source: int) returns (i: nat)
      ensures First(table, ctx, signal, source, i)
    {
      i := 0;
      while i < |table|
        invariant i <= |table| && forall j :: 0 <= j < i ==> !Enabled(table, ctx, signal, source, j)
      {
        if table[i].source == source && table[i].signal == signal {
          if table[i].guard(ctx, signal) {
            return;
          }
        }
        i := i + 1;
      }
    }

    method Exit(ctx: C, signal: nat, s: int) returns (ctx': C)
      requires 0 <= s < |states|
      modifies this`trace
      ensures trace == old(trace) + [Exited(s)] && ctx' == Apply(states, table, signal, ctx, Exited(s))
    {
      ctx' := states[s].exit(ctx);
      trace := trace + [Exited(s)];
    }

    method Enter(ctx: C, signal: nat, s: int) returns (ctx': C)
      requires 0 <= s < |states|
      modifies this`trace
      ensures trace == old(trace) + [Entered(s)] && ctx' == Apply(states, table, signal, ctx, Entered(s))
    {
      ctx' := states[s].entry(ctx);
      trace := trace + [Entered(s)];
    }

    /** Exit from the current state up to, not including, lca. */
    method ExitToLca(ctx: C, signal: nat, lca: int) returns (ctx': C)
      requires Topology() && IsState(states, current) && IsState(states, lca) && Above(states, lca, current)
      modifies this`trace
      ensures trace == old(trace) + ExitsTo(states, lca, current)
      ensures ctx' == Effect(states, table, signal, ctx, ExitsTo(states, lca, current))
    {
      ctx' := ctx;
      var state := current;
      ghost var done: seq<Event> := [];
      while state != lca
        invariant IsState(states, state) && Above(states, lca, state)
        invariant ExitsTo(states, lca, current) == done + ExitsTo(states, lca, state)
        invariant trace == old(trace) + done && ctx' == Effect(states, table, signal, ctx, done)
        decreases Depth(states, state)
      {
        NotTheLca(states, lca, state);
        EffectSnoc(states, table, signal, ctx, done, Exited(state));
        Reassociate(done, [Exited(state)], ExitsTo(states, lca, states[state].parent));
        ctx' := Exit(ctx', signal, state);
        done := done + [Exited(state)];
        state := states[state].parent;
      }
      assert ExitsTo(states, lca, current) == done;
    }

    /** The exit loop of a self transition: from the current state through the source. */
    method ExitThrough(ctx: C, signal: nat, source: int) returns (ctx': C)
      requires Topology() && IsState(states, current) && 0 <= source < |states| && Above(states, source, current)
      modifies this`trace
      ensures IsState(states, states[source].parent) && Above(states, states[source].parent, current)
      ensures trace == old(trace) + ExitsTo(states, states[source].parent, current)
      ensures ctx' == Effect(states, table, signal, ctx, ExitsTo(states, states[source].parent, current))
    {
      ctx' := ctx;
      var state := current;
      ChainStep(states, source);
      ghost var top := states[source].parent;
      ghost var done: seq<Event> := [];
      while true
        invariant 0 <= state < |states| && Above(states, source, state)
        invariant ExitsTo(states, top, current) == done + ExitsTo(states, top, state)
        invariant trace == old(trace) + done && ctx' == Effect(states, table, signal, ctx, done)
        decreases Depth(states, state)
      {
        NotTheLca(states, top, state);
        EffectSnoc(states, table, signal, ctx, done, Exited(state));
        Reassociate(done, [Exited(state)], ExitsTo(states, top, states[state].parent));
        ctx' := Exit(ctx', signal, state);
        done := done + [Exited(state)];
        if state == source {
          break;
        }
        NotTheLca(states, source, state);
        ChainStep(states, source);
        state := states[state].parent;
      }
      assert ExitsTo(states, top, current) == done;
    }

    /** Enter the chain of target below lca, outermost state first. */
    method EnterPath(ctx: C, signal: nat, lca: int, target: int) returns (ctx': C)
      requires Topology() && IsState(states, lca) && IsState(states, target) && Above(states, lca, target)
      modifies this`trace
      ensures trace == old(trace) + EntersFrom(states, lca, target)
      ensures ctx' == Effect(states, table, signal, ctx, EntersFrom(states, lca, target))
    {
      ctx' := ctx;
      var lcaDepth := ChainDepth(states, lca);
      var targetDepth := ChainDepth(states, target);
      ghost var at := lca;
      for level := lcaDepth to targetDepth
        invariant IsState(states, at) && Above(states, lca, at) && Depth(states, at) == level && Above(states, at, target)
        invariant trace == old(trace) + EntersFrom(states, lca, at)
        invariant ctx' == Effect(states, table, signal, ctx, EntersFrom(states, lca, at))
      {
        var state := AncestorAtDepth(target, level + 1);
        NextOnPath(states, lca, at, state, target);
        EffectSnoc(states, table, signal, ctx, EntersFrom(states, lca, at), Entered(state));
        ctx' := Enter(ctx', signal, state);
        at := state;
      }
      ChainIsInjective(states, at, target);
    }

    /** Descend to the initial leaf.  The assertion that fewer than maxDepth hops were made before each
        one held throughout iff there are at most maxDepth of them. */
    method EnterInitialDescendants(ctx: C, signal: nat, s: int) returns (ctx': C, state: int, ghost asserted: bool)
      requires Topology() && 0 <= s < |states|
      modifies this`trace
      ensures state == InitialLeaf(states, s)
      ensures asserted <==> Descent(states, s) <= maxDepth
      ensures trace == old(trace) + EntersFrom(states, s, state)
      ensures ctx' == Effect(states, table, signal, ctx, EntersFrom(states, s, state))
    {
      hide EntersFrom, Effect, Chain, InitialLeaf, Descent, Ends;
      ctx', state, asserted := ctx, s, true;
      ghost var hops := 0;
      AtStart(states, s);
      EffectOfNothing(states, table, signal, ctx);
      while states[state].initialChild >= 0
        invariant 0 <= state < |states| && Above(states, s, state) && InitialLeaf(states, state) == InitialLeaf(states, s)
        invariant hops + Descent(states, state) == Descent(states, s) && (asserted <==> hops <= maxDepth)
        invariant trace == old(trace) + EntersFrom(states, s, state)
        invariant ctx' == Effect(states, table, signal, ctx, EntersFrom(states, s, state))
        decreases |states| - Depth(states, state)
      {
        var child := states[state].initialChild;
        ChildStep(states, s, state);
        EffectSnoc(states, table, signal, ctx, EntersFrom(states, s, state), Entered(child));
        asserted := asserted && hops < maxDepth;
        ctx' := Enter(ctx', signal, child);
        state := child;
        hops := hops + 1;
      }
      LeafStays(states, state);
    }

    method Act(ctx: C, signal: nat, t: nat) returns (ctx': C)
      requires t < |table|
      modifies this`trace
      ensures trace == old(trace) + [Acted(t)] && ctx' == Apply(states, table, signal, ctx, Acted(t))
    {
      ctx' := table[t].action(ctx, signal);
      trace := trace + [Acted(t)];
    }

    /** Enter the initial state from nowhere.  A machine that already has a current state exits nothing
        first, so that the trace from the previous init on no longer replays. */
    method Init(ctx: C) returns (ctx': C)
      requires Valid()
      modifies this
      ensures Valid()
      ensures !(0 <= initialState < |states|) ==>
                current == old(current) && trace == old(trace) && since == old(since) && ctx' == ctx
      ensures 0 <= initialState < |states| ==>
                && current == InitialLeaf(states, initialState)
                && trace == old(trace) + EntersFrom(states, -1, current) && since == |old(trace)|
                && ctx' == Effect(states, table, 0, ctx, EntersFrom(states, -1, current))
                && (old(current) >= 0 ==> Replay(states, [], trace[old(since)..]) == None)
    {
      if initialState < 0 || initialState >= |states| {
        return ctx;
      }
      hide Replay, EntersFrom, Effect, Chain, InitialLeaf, Ends, Above, Placed;
      ghost var before, trace0 := current, trace;
      var leaf;
      ctx', leaf := EnterFromNowhere(ctx);
      NothingAbove(states, leaf);
      RunBegins(states, trace0[since..], before, leaf);
      Extended(trace0, since, EntersFrom(states, -1, leaf));
      current, since := leaf, |trace0|;
    }

    method EnterFromNowhere(ctx: C) returns (ctx': C, leaf: int)
      requires Topology() && 0 <= initialState < |states|
      modifies this`trace
      ensures leaf == InitialLeaf(states, initialState) && Above(states, -1, leaf)
      ensures trace == old(trace) + EntersFrom(states, -1, leaf)
      ensures ctx' == Effect(states, table, 0, ctx, EntersFrom(states, -1, leaf))
    {
      hide EntersFrom, Effect, Chain, InitialLeaf, Ends, Above, Placed;
      NothingAbove(states, initialState);
      var ctx1 := EnterPath(ctx, 0, -1, initialState);
      ghost var asserted;
      ctx', leaf, asserted := EnterInitialDescendants(ctx1, 0, initialState);
      NothingAbove(states, leaf);
      EntersThrough(states, -1, initialState, leaf);
      EffectConcat(states, table, 0, ctx, EntersFrom(states, -1, initialState), EntersFrom(states, initialState, leaf));
      Reassociate(old(trace), EntersFrom(states, -1, initialState), EntersFrom(states, initialState, leaf));
    }

    /** Exit down to the pivot, act, and enter the target: the common part of the two cases. */
    method Move(ctx: C, signal: nat, t: nat, pivot: int, target: int) returns (ctx': C, leaf: int)
      requires Topology() && t < |table| && IsState(states, pivot) && 0 <= target < |states| && Above(states, pivot, target)
      modifies this`trace
      ensures leaf == InitialLeaf(states, target) && Above(states, pivot, leaf)
      ensures trace == old(trace) + ([Acted(t)] + EntersFrom(states, pivot, leaf))
      ensures ctx' == Effect(states, table, signal, ctx, [Acted(t)] + EntersFrom(states, pivot, leaf))
    {
      var ctx1 := Act(ctx, signal, t);
      var ctx2 := EnterPath(ctx1, signal, pivot, target);
      ghost var asserted;
      ctx', leaf, asserted := EnterInitialDescendants(ctx2, signal, target);
      EntersThrough(states, pivot, target, leaf);
      var down, further := EntersFrom(states, pivot, target), EntersFrom(states, target, leaf);
      EffectSnoc(states, table, signal, ctx, [], Acted(t));
      assert [] + [Acted(t)] == [Acted(t)];
      EffectConcat(states, table, signal, ctx, [Acted(t)], down);
      EffectConcat(states, table, signal, ctx, [Acted(t)] + down, further);
      Reassociate([Acted(t)], down, further);
      Reassociate(old(trace), [Acted(t)], down);
      Reassociate(old(trace), [Acted(t)] + down, further);
    }

    /** The state an external transition exits to. */
    method FindPivot(source: int, target: int) returns (pivot: int)
      requires Topology() && 0 <= source < |states| && 0 <= target < |states|
      ensures Pivot(states, source, target, pivot)
    {
      var lca := FindLca(source, target);
      LcaIsDeepest(states, source, target, lca);
      pivot := lca;
      if lca == source || lca == target {
        ChainStep(states, lca);
        pivot := states[lca].parent;
      }
    }

    /** execute_transition, for a transition found at an ancestor-or-self of the current state. */
    method ExecuteTransition(ctx: C, signal: nat, source: int, t: nat) returns (ctx': C, ghost events: seq<Event>)
      requires Valid() && t < |table| && table[t].source == source && Above(states, source, current)
      modifies this
      ensures Valid()
      ensures Performs(states, table, old(current), t, events, current)
      ensures trace == old(trace) + events && since == old(since) && ctx' == Effect(states, table, signal, ctx, events)
    {
      hide Replay, Effect, ExitsTo, EntersFrom, Performs, InitialLeaf, Pivot, Chain, Ends;
      ghost var current0, trace0, run := current, trace, trace[since..];
      ctx', events := Execute(ctx, signal, source, t);
      RunGoesOn(states, table, run, current0, t, events, current);
      assert trace[since..] == run + events;
    }

    /** The three kinds of transition. */
    method Execute(ctx: C, signal: nat, source: int, t: nat) returns (ctx': C, ghost events: seq<Event>)
      requires Topology() && IsState(states, current) && t < |table| && table[t].source == source
      requires Above(states, source, current)
      modifies this`current, this`trace
      ensures Performs(states, table, old(current), t, events, current)
      ensures trace == old(trace) + events && ctx' == Effect(states, table, signal, ctx, events)
    {
      hide Replay, ExitsTo, EntersFrom, InitialLeaf, Pivot, Chain, Ends;
      ghost var current0, trace0 := current, trace;
      assert ValidTransition(states, table[t]);
      match table[t].kind {
        case Internal =>
          events := [Acted(t)];
          EffectSnoc(states, table, signal, ctx, [], Acted(t));
          assert [] + [Acted(t)] == [Acted(t)];
          ctx' := Act(ctx, signal, t);
        case Self =>
          hide Effect, Performs;
          var ctx1 := ExitThrough(ctx, signal, source);
          var pivot := states[source].parent;
          ParentIsPivot(states, source);
          ParentAbove(states, source);
          events := ExitsTo(states, pivot, current);
          ctx' := Arrive(ctx, ctx1, signal, t, pivot, source, trace0, events);
          events := events + ([Acted(t)] + EntersFrom(states, pivot, current));
          MovePerforms(states, table, current0, t, pivot, current);
        case External =>
          hide Effect, Performs;
          var pivot := FindPivot(source, table[t].target);
          PivotIsAbove(states, source, table[t].target, pivot, current);
          var ctx1 := ExitToLca(ctx, signal, pivot);
          events := ExitsTo(states, pivot, current);
          ctx' := Arrive(ctx, ctx1, signal, t, pivot, table[t].target, trace0, events);
          events := events + ([Acted(t)] + EntersFrom(states, pivot, current));
          MovePerforms(states, table, current0, t, pivot, current);
      }
    }

    /** Everything of a transition after its exits. */
    method Arrive(ghost ctx0: C, ctx: C, signal: nat, t: nat, pivot: int, target: int,
                  ghost trace0: seq<Event>, ghost exits: seq<Event>) returns (ctx': C)
      requires Topology() && t < |table| && IsState(states, pivot) && 0 <= target < |states| && Above(states, pivot, target)
      requires trace == trace0 + exits && ctx == Effect(states, table, signal, ctx0, exits)
      modifies this`current, this`trace
      ensures current == InitialLeaf(states, target) && Above(states, pivot, current)
      ensures var events := exits + ([Acted(t)] + EntersFrom(states, pivot, current));
              trace == trace0 + events && ctx' == Effect(states, table, signal, ctx0, events)
    {
      var leaf;
      ctx', leaf := Move(ctx, signal, t, pivot, target);
      ghost var rest := [Acted(t)] + EntersFrom(states, pivot, leaf);
      EffectConcat(states, table, signal, ctx0, exits, rest);
      Reassociate(trace0, exits, rest);
      current := leaf;
    }

    /** Resolve the signal from the current leaf upward, at most maxDepth hops. */
    method Dispatch(ctx: C, signal: nat)
        returns (handled: bool, ctx': C, ghost k: nat, ghost t: nat, ghost events: seq<Event>)
      requires Valid()
      modifies this
      ensures Valid()
      ensures handled ==>
                && k <= maxDepth && k < old(Depth(states, current))
                && NoneBelow(states, table, ctx, signal, old(current), k)
                && t < |table| && First(table, ctx, signal, Ancestor(states, old(current), k), t)
                && Above(states, table[t].source, old(current))
                && Performs(states, table, old(current), t, events, current)
                && trace == old(trace) + events && since == old(since)
                && ctx' == Effect(states, table, signal, ctx, events)
      ensures !handled ==>
                && current == old(current) && trace == old(trace) && since == old(since) && ctx' == ctx
                && NoneBelow(states, table, ctx, signal, current,
                             if maxDepth < Depth(states, current) then maxDepth + 1 else Depth(states, current))
    {
      hide Replay, Effect, Performs, Ends, Placed;
      k, t, events := 0, 0, [];
      if current < 0 {
        return false, ctx, k, t, events;
      }
      var state := current;
      var hops := 0;
      while true
        invariant current == old(current) && trace == old(trace) && since == old(since) && Valid()
        invariant 0 <= state < |states| && Above(states, state, current) && hops <= maxDepth
        invariant hops < Depth(states, current) && Depth(states, state) == Depth(states, current) - hops
        invariant NoneBelow(states, table, ctx, signal, current, hops)
        decreases Depth(states, state)
      {
        AncestorIs(states, current, state);
        var i := FindTransition(ctx, signal, state);
        if i < |table| {
          k, t := hops, i;
          ctx', events := ExecuteTransition(ctx, signal, state, i);
          return true, ctx', k, t, events;
        }
        ChainStep(states, state);
        var parent := states[state].parent;
        if parent < 0 {
          return false, ctx, k, t, events;
        }
        if hops >= maxDepth {
          return false, ctx, k, t, events;
        }
        state := parent;
        hops := hops + 1;
      }
    }
  }

  lemma AncestorIs<C>(states: States<C>, s: int, a: int)
    requires Forest(states) && IsState(states, s) && 0 <= a < |states| && Above(states, a, s)
    ensures Depth(states, a) > 0 && Ancestor(states, s, Depth(states, s) - Depth(states, a)) == a
  {
    TopIsState(states, a);
    ChainStep(states, a);
  }

  /** The state whose chain is the longest common prefix is below every common ancestor. */
  lemma LcaIsDeepest<C>(states: States<C>, s: int, t: int, lca: int)
    requires Forest(states) && IsState(states, s) && IsState(states, t) && IsState(states, lca)
    requires Chain(states, lca) == Chain(states, s)[..Common(Chain(states, s), Chain(states, t))]
    ensures Above(states, lca, s) && Above(states, lca, t)
    ensures forall q :: IsState(states, q) && Above(states, q, s) && Above(states, q, t) ==> Above(states, q, lca)
    ensures lca >= 0 && (lca == s || lca == t) ==>
              && IsState(states, states[lca].parent)
              && forall q :: IsState(states, q) && Above(states, q, s) && Above(states, q, t) && q != lca ==>
                   Above(states, q, states[lca].parent)
  {
    var cs, ct := Chain(states, s), Chain(states, t);
    CommonIsLongest(cs, ct, Common(cs, ct));
    forall q | IsState(states, q) && Above(states, q, s) && Above(states, q, t)
      ensures Above(states, q, lca)
    {
      CommonIsLongest(cs, ct, Depth(states, q));
    }
    if lca >= 0 && (lca == s || lca == t) {
      ChainStep(states, lca);
      forall q | IsState(states, q) && Above(states, q, s) && Above(states, q, t) && q != lca
        ensures Above(states, q, states[lca].parent)
      {
        NotTheLca(states, q, lca);
      }
    }
  }

  lemma ParentAbove<C>(states: States<C>, s: int)
    requires Forest(states) && 0 <= s < |states|
    ensures IsState(states, states[s].parent) && Above(states, states[s].parent, s)
  {
    ChainStep(states, s);
  }

  lemma PivotIsAbove<C>(states: States<C>, source: int, target: int, p: int, current: int)
    requires Forest(states) && 0 <= source < |states| && 0 <= target < |states| && IsState(states, current)
    requires Pivot(states, source, target, p) && Above(states, source, current)
    ensures IsState(states, p) && Above(states, p, target) && Above(states, p, current)
  {
    hide Chain;
  }

  lemma ParentIsPivot<C>(states: States<C>, s: int)
    requires Forest(states) && 0 <= s < |states|
    ensures Pivot(states, s, s, states[s].parent)
  {
    ChainStep(states, s);
    forall q | IsState(states, q) && Above(states, q, s) && q != s
      ensures Above(states, q, states[s].parent)
    {
      NotTheLca(states, q, s);
    }
  }

  lemma Extended(trace: seq<Event>, since: nat, more: seq<Event>)
    requires since <= |trace|
    ensures (trace + more)[since..] == trace[since..] + more && (trace + more)[|trace|..] == more
  {
  }

  lemma Reassociate(a: seq<Event>, b: seq<Event>, c: seq<Event>)
    ensures a + (b + c) == a + b + c
  {
  }

  /** The next state on the way down to target. */
  lemma NextOnPath<C>(states: States<C>, lca: int, at: int, state: int, target: int)
    requires Forest(states) && IsState(states, lca) && IsState(states, at) && IsState(states, state) && IsState(states, target)
    requires Above(states, lca, at) && Above(states, at, target) && Depth(states, at) < Depth(states, target)
    requires Chain(states, state) == Chain(states, target)[..Depth(states, at) + 1]
    ensures state >= 0 && states[state].parent == at && Above(states, lca, state) && Above(states, state, target)
    ensures EntersFrom(states, lca, state) == EntersFrom(states, lca, at) + [Entered(state)]
  {
    ChainStep(states, state);
    var p := states[state].parent;
    assert Chain(states, p) == Chain(states, state)[..Depth(states, at)] == Chain(states, at);
    ChainIsInjective(states, p, at);
  }

  lemma NobodyElseAtTop<C>(states: States<C>, a: int, b: int)
    requires Forest(states) && IsState(states, a) && IsState(states, b) && Depth(states, a) == Depth(states, b)
    requires a < 0 || b < 0
    ensures a == b
  {
    TopIsState(states, a);
    TopIsState(states, b);
  }

  /** Two different ancestors of equal depth both have a parent, and no common ancestor is lost by going there. */
  lemma BothUp<C>(states: States<C>, s: int, t: int, a: int, b: int)
    requires Forest(states) && IsState(states, s) && IsState(states, t) && IsState(states, a) && IsState(states, b)
    requires Above(states, a, s) && Above(states, b, t) && Depth(states, a) == Depth(states, b) && a != b
    ensures a >= 0 && b >= 0 && IsState(states, states[a].parent) && IsState(states, states[b].parent)
    ensures Above(states, states[a].parent, s) && Above(states, states[b].parent, t)
    ensures Common(Chain(states, s), Chain(states, t))
            <= Depth(states, states[a].parent) == Depth(states, states[b].parent) == Depth(states, a) - 1
  {
    hide Common, Ends, Placed;
    if a < 0 || b < 0 {
      NobodyElseAtTop(states, a, b);
      assert false;
    } else {
      hide Chain;
      DistinctIsBelow(states, s, t, a, b);
      ChainStep(states, a);
      ChainStep(states, b);
    }
  }

  /** Ancestors of equal depth that differ are below the common prefix. */
  lemma DistinctIsBelow<C>(states: States<C>, s: int, t: int, a: int, b: int)
    requires Forest(states) && IsState(states, s) && IsState(states, t) && IsState(states, a) && IsState(states, b)
    requires Above(states, a, s) && Above(states, b, t) && Depth(states, a) == Depth(states, b) && a != b
    ensures Common(Chain(states, s), Chain(states, t)) < Depth(states, a)
  {
    var n := Depth(states, a);
    if n <= Common(Chain(states, s), Chain(states, t)) {
      CommonIsLongest(Chain(states, s), Chain(states, t), n);
      assert Chain(states, a) == Chain(states, s)[..n] == Chain(states, t)[..n] == Chain(states, b);
      ChainIsInjective(states, a, b);
    }
  }
}
