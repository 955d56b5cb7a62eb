/** The parser built as a table: states and transitions run by the state machine engine, proved to do
    exactly what UartParser.PutByte says. */
module HsmParser {
  import opened Hsm
  import opened Crc
  import P = UartParser

  const BYTE: nat := 1
  const RESET: nat := 2
  const TIMEOUT: nat := 3

  const ROOT: int := 0
  const IDLE: int := 1
  const LENGTH1: int := 2
  const LENGTH2: int := 3
  const CMD_CLASS: int := 4
  const CMD: int := 5
  const DATA: int := 6
  const CRC1: int := 7
  const CRC2: int := 8
  const AWAIT_TAIL: int := 9

  function TimeoutError(ctx: P.Context): P.Context
  {
    ctx.(stats := ctx.stats.(timeoutErrors := ctx.stats.timeoutErrors + 1))
  }

  function Plain(parent: int): StateDef<P.Context>
  {
    StateDef(parent, -1, c => c, c => c)
  }

  /** kParserStates: nine flat states under the root. */
  const STATES: States<P.Context> :=
    [Plain(-1), Plain(ROOT), Plain(ROOT), Plain(ROOT), Plain(ROOT), Plain(ROOT), Plain(ROOT), Plain(ROOT), Plain(ROOT),
     Plain(ROOT)]

  /** kParserTransitions. */
  const TRANSITIONS: Table<P.Context> :=
    [
      TransitionDef(IDLE, BYTE, LENGTH1, External, (c, s) => P.IsHeader(c), (c, s) => P.ResetContext(c)),
      TransitionDef(IDLE, BYTE, IDLE, External, (c, s) => !P.IsHeader(c), (c, s) => P.SyncError(c)),
      TransitionDef(IDLE, RESET, IDLE, External, (c, s) => true, (c, s) => P.ResetContext(c)),
      TransitionDef(LENGTH1, BYTE, LENGTH2, External, (c, s) => true, (c, s) => P.StoreLength1(c)),
      TransitionDef(LENGTH1, TIMEOUT, IDLE, External, (c, s) => true, (c, s) => TimeoutError(c)),
      TransitionDef(LENGTH2, BYTE, CMD_CLASS, External, (c, s) => P.LengthValid(c), (c, s) => P.StoreLength2(c)),
      TransitionDef(LENGTH2, BYTE, IDLE, External, (c, s) => !P.LengthValid(c), (c, s) => P.LengthError(c)),
      TransitionDef(LENGTH2, TIMEOUT, IDLE, External, (c, s) => true, (c, s) => TimeoutError(c)),
      TransitionDef(CMD_CLASS, BYTE, CMD, External, (c, s) => true, (c, s) => P.StoreCmdClass(c)),
      TransitionDef(CMD_CLASS, TIMEOUT, IDLE, External, (c, s) => true, (c, s) => TimeoutError(c)),
      TransitionDef(CMD, BYTE, DATA, External, (c, s) => P.HasData(c), (c, s) => P.StoreCmd(c)),
      TransitionDef(CMD, BYTE, CRC1, External, (c, s) => P.NoData(c), (c, s) => P.StoreCmd(c)),
      TransitionDef(CMD, TIMEOUT, IDLE, External, (c, s) => true, (c, s) => TimeoutError(c)),
      TransitionDef(DATA, BYTE, DATA, External, (c, s) => !P.DataComplete(c), (c, s) => P.StoreData(c)),
      TransitionDef(DATA, BYTE, CRC1, External, (c, s) => P.DataComplete(c), (c, s) => P.StoreData(c)),
      TransitionDef(DATA, TIMEOUT, IDLE, External, (c, s) => true, (c, s) => TimeoutError(c)),
      TransitionDef(CRC1, BYTE, CRC2, External, (c, s) => true, (c, s) => P.StoreCrc1(c)),
      TransitionDef(CRC1, TIMEOUT, IDLE, External, (c, s) => true, (c, s) => TimeoutError(c)),
      TransitionDef(CRC2, BYTE, AWAIT_TAIL, External, (c, s) => true, (c, s) => P.StoreCrc2(c)),
      TransitionDef(CRC2, TIMEOUT, IDLE, External, (c, s) => true, (c, s) => TimeoutError(c)),
      TransitionDef(AWAIT_TAIL, BYTE, IDLE, External, (c, s) => P.IsTail(c), (c, s) => P.CompleteFrame(c)),
      TransitionDef(AWAIT_TAIL, BYTE, IDLE, External, (c, s) => true, (c, s) => P.TailError(c))
    ]

  function Code(s: P.State): int
  {
    match s
    case Idle => IDLE
    case Length1 => LENGTH1
    case Length2 => LENGTH2
    case CmdClass => CMD_CLASS
    case Cmd => CMD
    case Data => DATA
    case Crc1 => CRC1
    case Crc2 => CRC2
    case Tail => AWAIT_TAIL
  }

  function Named(code: int): P.State
    requires IDLE <= code <= AWAIT_TAIL
  {
    if code == IDLE then P.Idle
    else if code == LENGTH1 then P.Length1
    else if code == LENGTH2 then P.Length2
    else if code == CMD_CLASS then P.CmdClass
    else if code == CMD then P.Cmd
    else if code == DATA then P.Data
    else if code == CRC1 then P.Crc1
    else if code == CRC2 then P.Crc2
    else P.Tail
  }

  lemma ParserForest()
    ensures |STATES| == AWAIT_TAIL + 1
    ensures Forest(STATES) && forall i :: 0 <= i < |TRANSITIONS| ==> ValidTransition(STATES, TRANSITIONS[i])
    ensures forall s :: IDLE <= s <= AWAIT_TAIL ==> Chain(STATES, s) == [ROOT, s] && InitialLeaf(STATES, s) == s
  {
    forall s | 0 <= s < |STATES|
      ensures Placed(STATES, s)
    {
      assert STATES[s].parent == if s == ROOT then -1 else ROOT;
      assert STATES[ROOT].parent == -1;
      assert Ends(STATES, -1, |STATES| - 1) && Ends(STATES, -1, |STATES| - 2);
      assert Ends(STATES, ROOT, |STATES|) && Ends(STATES, ROOT, |STATES| - 1);
    }
    assert Chain(STATES, ROOT) == [ROOT] by {
      ChainStep(STATES, ROOT);
    }
    forall s | IDLE <= s <= AWAIT_TAIL
      ensures Chain(STATES, s) == [ROOT, s] && InitialLeaf(STATES, s) == s
    {
      ChainStep(STATES, s);
    }
  }

  // ---- Which row a byte takes, and what it does ----

  /** The row taken in state s for the byte already stored in c; |TRANSITIONS| if there is none. */
  function RowFor(s: P.State, c: P.Context): nat
  {
    match s
    case Idle => if P.IsHeader(c) then 0 else 1
    case Length1 => 3
    case Length2 => if P.LengthValid(c) then 5 else 6
    case CmdClass => 8
    case Cmd => if P.HasData(c) then 10 else if P.NoData(c) then 11 else |TRANSITIONS|
    case Data => if P.DataComplete(c) then 14 else 13
    case Crc1 => 16
    case Crc2 => 18
    case Tail => if P.IsTail(c) then 20 else 21
  }

  lemma FirstRow(s: P.State, c: P.Context)
    ensures First(TRANSITIONS, c, BYTE, Code(s), RowFor(s, c))
  {
  }

  lemma RootHasNoRow(c: P.Context)
    ensures First(TRANSITIONS, c, BYTE, ROOT, |TRANSITIONS|)
  {
  }

  lemma FirstIsUnique(c: P.Context, source: int, i: nat, k: nat)
    requires First(TRANSITIONS, c, BYTE, source, i) && First(TRANSITIONS, c, BYTE, source, k)
    ensures i == k
  {
    hide TRANSITIONS;
  }

  lemma RowDoes(m: P.Machine, b: Byte)
    ensures var c := P.Accept(m.ctx, b);
            var i := RowFor(m.state, c);
            if i < |TRANSITIONS| then
              && TRANSITIONS[i].kind == External && TRANSITIONS[i].source == Code(m.state)
              && IDLE <= TRANSITIONS[i].target <= AWAIT_TAIL
              && P.PutByte(m, b) == P.Machine(Named(TRANSITIONS[i].target), TRANSITIONS[i].action(c, BYTE))
            else P.PutByte(m, b) == P.Machine(m.state, c)
  {
    hide Crc16;
  }

  // ---- Where no entry or exit action does anything ----

  type ParserStates = States<P.Context>

  ghost predicate Silent(trace: seq<Event>)
  {
    forall i :: 0 <= i < |trace| ==> !trace[i].Acted?
  }

  ghost predicate Passive(states: ParserStates)
  {
    forall s, c :: 0 <= s < |states| ==> states[s].entry(c) == c && states[s].exit(c) == c
  }

  lemma {:induction false} ExitsAreSilent(states: ParserStates, top: int, s: int)
    requires Forest(states) && IsState(states, top) && IsState(states, s) && Above(states, top, s)
    ensures Silent(ExitsTo(states, top, s))
    decreases Depth(states, s)
  {
    if s == top {
    } else {
      NotTheLca(states, top, s);
      ExitsAreSilent(states, top, states[s].parent);
    }
  }

  lemma {:induction false} EntersAreSilent(states: ParserStates, top: int, s: int)
    requires Forest(states) && IsState(states, top) && IsState(states, s) && Above(states, top, s)
    ensures Silent(EntersFrom(states, top, s))
    decreases Depth(states, s)
  {
    if s == top {
    } else {
      NotTheLca(states, top, s);
      EntersAreSilent(states, top, states[s].parent);
    }
  }

  lemma {:induction false} SilentEffect(states: ParserStates, table: Table<P.Context>, signal: nat, trace: seq<Event>,
                                        c: P.Context)
    requires Passive(states) && Silent(trace)
    ensures Effect(states, table, signal, c, trace) == c
  {
    if trace == [] {
    } else {
      SilentEffect(states, table, signal, trace[..|trace| - 1], c);
      var e := trace[|trace| - 1];
      assert Apply(states, table, signal, c, e) == c;
    }
  }

  lemma InitialLeafIsBelow(states: ParserStates, target: int, p: int)
    requires Forest(states) && 0 <= target < |states| && IsState(states, p) && Above(states, p, target)
    ensures Above(states, p, InitialLeaf(states, target))
  {
  }

  /** Then a transition changes the context by its action alone. */
  lemma MoveEffect(states: ParserStates, table: Table<P.Context>, current: int, t: nat, events: seq<Event>, next: int,
                   c: P.Context)
    requires Forest(states) && IsState(states, current) && t < |table| && ValidTransition(states, table[t])
    requires Above(states, table[t].source, current) && table[t].kind == External && Passive(states)
    requires Performs(states, table, current, t, events, next)
    ensures Effect(states, table, BYTE, c, events) == table[t].action(c, BYTE)
  {
    var p :| Pivot(states, table[t].source, table[t].target, p)
             && events == ExitsTo(states, p, current) + [Acted(t)] + EntersFrom(states, p, next);
    PivotIsAbove(states, table[t].source, table[t].target, p, current);
    InitialLeafIsBelow(states, table[t].target, p);
    hide Pivot, Chain, InitialLeaf, Effect, ExitsTo, EntersFrom, Silent, Passive;
    var down, up := ExitsTo(states, p, current), EntersFrom(states, p, next);
    ExitsAreSilent(states, p, current);
    EntersAreSilent(states, p, next);
    SilentEffect(states, table, BYTE, down, c);
    EffectSnoc(states, table, BYTE, c, down, Acted(t));
    EffectConcat(states, table, BYTE, c, down + [Acted(t)], up);
    SilentEffect(states, table, BYTE, up, table[t].action(c, BYTE));
  }

  // ---- The facade ----

  class Parser {
    const hsm: Engine<P.Context>
    var ctx: P.Context

    ghost predicate Valid()
      reads this, hsm
    {
      && hsm.Valid() && hsm.states == STATES && hsm.table == TRANSITIONS
      && hsm.initialState == IDLE && hsm.maxDepth == 2
    }

    /** After init the parser is always in one of its nine states. */
    ghost predicate Running()
      reads this, hsm
    {
      Valid() && IDLE <= hsm.current <= AWAIT_TAIL
    }

    ghost function View(): P.Machine
      requires Running()
      reads this, hsm
    {
      P.Machine(Named(hsm.current), ctx)
    }

    constructor (ctx: P.Context)
      ensures Valid() && hsm.current == -1 && fresh(hsm) && this.ctx == ctx
    {
      ParserForest();
      hsm := new Engine(STATES, TRANSITIONS, IDLE, 2);
      this.ctx := ctx;
    }

    /** init, also of a running parser: statistics and frame are cleared and the machine enters Idle. */
    method Init()
      requires Valid()
      modifies this, hsm
      ensures Running()
      ensures View() == P.Machine(P.Idle, P.ResetContext(old(ctx).(stats := P.Stats(0, 0, 0, 0, 0, 0, 0))))
    {
      ctx := P.ResetContext(ctx.(stats := P.Stats(0, 0, 0, 0, 0, 0, 0)));
      ghost var c := ctx;
      ParserForest();
      ctx := hsm.Init(ctx);
      assert Passive(STATES);
      hide STATES, TRANSITIONS;
      EntersAreSilent(STATES, -1, hsm.current);
      SilentEffect(STATES, TRANSITIONS, 0, EntersFrom(STATES, -1, hsm.current), c);
    }

    /** put_byte does what the transition table says. */
    method PutByte(b: Byte)
      requires Running()
      modifies this, hsm
      ensures Running() && View() == P.PutByte(old(View()), b)
    {
      hide STATES, TRANSITIONS, P.PutByte, Chain, Ends, Placed, Replay, Performs, Effect, NoneBelow, First, Named;
      ghost var m, before := View(), hsm.current;
      ctx := P.Accept(ctx, b);
      ghost var c := ctx;
      var handled, ctx', k, t, events := hsm.Dispatch(ctx, BYTE);
      ctx := ctx';
      ParserForest();
      if handled {
        HandledIsStep(m, b, before, k, t, events, hsm.current, c);
      } else {
        UnhandledIsStep(m, b, before, c);
      }
    }

    lemma HandledIsStep(m: P.Machine, b: Byte, before: int, k: nat, t: nat, events: seq<Event>, next: int, c: P.Context)
      requires Forest(STATES) && IDLE <= before <= AWAIT_TAIL < |STATES| && m.state == Named(before) && c == P.Accept(m.ctx, b)
      requires k <= 2 && k < Depth(STATES, before) && NoneBelow(STATES, TRANSITIONS, c, BYTE, before, k)
      requires t < |TRANSITIONS| && First(TRANSITIONS, c, BYTE, Ancestor(STATES, before, k), t)
      requires ValidTransition(STATES, TRANSITIONS[t]) && Above(STATES, TRANSITIONS[t].source, before)
      requires Performs(STATES, TRANSITIONS, before, t, events, next)
      ensures IDLE <= next <= AWAIT_TAIL
      ensures P.PutByte(m, b) == P.Machine(Named(next), Effect(STATES, TRANSITIONS, BYTE, c, events))
    {
      hide STATES, TRANSITIONS, P.PutByte, Chain, Ends, Placed, Effect, NoneBelow, First;
      RowDoes(m, b);
      FirstRow(m.state, c);
      RootHasNoRow(c);
      ParserForest();
      ParserIsPassive();
      NamedCode(before);
      DispatchTakesRow(m.state, c, before, true, k, t);
      MoveEffect(STATES, TRANSITIONS, before, t, events, next, c);
    }

    lemma UnhandledIsStep(m: P.Machine, b: Byte, before: int, c: P.Context)
      requires Forest(STATES) && IDLE <= before <= AWAIT_TAIL < |STATES| && m.state == Named(before) && c == P.Accept(m.ctx, b)
      requires Depth(STATES, before) == 2 && NoneBelow(STATES, TRANSITIONS, c, BYTE, before, 2)
      ensures P.PutByte(m, b) == P.Machine(m.state, c)
    {
      hide STATES, TRANSITIONS, P.PutByte, Chain, Ends, Placed, NoneBelow, First;
      RowDoes(m, b);
      FirstRow(m.state, c);
      RootHasNoRow(c);
      ParserForest();
      NamedCode(before);
      DispatchTakesRow(m.state, c, before, false, 0, 0);
    }

    lemma ParserIsPassive()
      ensures Passive(STATES)
    {
    }

    lemma NamedCode(code: int)
      requires IDLE <= code <= AWAIT_TAIL
      ensures Code(Named(code)) == code
    {
    }

    /** The engine finds the expected row at the current state itself. */
    lemma DispatchTakesRow(s: P.State, c: P.Context, before: int, handled: bool, k: nat, t: nat)
      requires Forest(STATES) && IsState(STATES, before) && before == Code(s) && Chain(STATES, before) == [ROOT, before]
      requires First(TRANSITIONS, c, BYTE, before, RowFor(s, c)) && First(TRANSITIONS, c, BYTE, ROOT, |TRANSITIONS|)
      requires handled ==> k < 2 && NoneBelow(STATES, TRANSITIONS, c, BYTE, before, k)
                           && t < |TRANSITIONS| && First(TRANSITIONS, c, BYTE, Ancestor(STATES, before, k), t)
      requires !handled ==> NoneBelow(STATES, TRANSITIONS, c, BYTE, before, 2)
      ensures handled <==> RowFor(s, c) < |TRANSITIONS|
      ensures handled ==> k == 0 && t == RowFor(s, c)
    {
      hide STATES, TRANSITIONS, RowFor;
      assert Ancestor(STATES, before, 0) == before;
      if handled {
        assert Ancestor(STATES, before, 1) == ROOT && !Enabled(TRANSITIONS, c, BYTE, ROOT, t);
        FirstIsUnique(c, before, t, RowFor(s, c));
      } else {
        assert First(TRANSITIONS, c, BYTE, Ancestor(STATES, before, 0), |TRANSITIONS|);
        FirstIsUnique(c, before, RowFor(s, c), |TRANSITIONS|);
      }
    }

    /** put_data: a null pointer is ignored. */
    method PutData(data: array?<Byte>, len: nat)
      requires Running() && (data != null ==> len <= data.Length)
      modifies this, hsm
      ensures Running()
      ensures View() == if data == null then old(View()) else P.PutAll(old(View()), old(data[..len]))
    {
      if data != null && len > 0 {
        ghost var m, bytes := View(), data[..len];
        for i := 0 to len
          invariant Running() && data[..len] == bytes && View() == P.PutAll(m, bytes[..i])
        {
          hide P.PutByte;
          assert bytes[..i + 1][..i] == bytes[..i];
          PutByte(data[i]);
        }
        assert bytes[..len] == bytes;
      }
    }
  }
}
