/** What the calls of the two threads of the ring come to: which bytes a push publishes and a pop takes, over
    every interleaving and for a call that runs without interruption. */
module SpscRuns {
  import opened Bits
  import opened SpscRing

  /** A stream position as a 32-bit index. */
  function Wrapped(n: nat): Index
  {
    n % WRAP
  }

  // ---- The step that ends a call ----

  /** Once everything is copied, storing the tail publishes exactly the data of this push. */
  lemma StoreTailPublishes(s: State, actions: seq<Action>)
    requires Init(s)
    requires var r := Run(s, actions);
             r.producer.Writing? && forall i :: 0 <= i < |r.producer.data| ==> i in r.producer.done
    ensures var r := Run(s, actions);
            var r' := Next(r, StoreTail);
            && r'.log.pushed == r.log.pushed + r.producer.data && r'.log.popped == r.log.popped
            && r'.mem.tail == (|r.log.pushed| + |r.producer.data|) % WRAP && r'.mem.head == r.mem.head
            && r'.mem.buffer == r.mem.buffer && r'.producer == Idle && r'.consumer == r.consumer
  {
    InvAlways(s, actions);
    hide Rem, And, Slot, Run;
    var r := Run(s, actions);
    CopyFits(r);
    AdvanceIsExact(|r.log.pushed|, |r.producer.data|);
  }

  lemma CopyFits(s: State)
    requires Inv(s) && s.producer.Writing?
    ensures 0 < |s.producer.data| < WRAP && s.mem.tail == |s.log.pushed| % WRAP && |s.mem.buffer| > 0
    ensures |s.producer.data| <= |s.mem.buffer|
  {
    hide Rem, And;
  }

  /** Once everything is copied, storing the head takes exactly the next bytes of the stream. */
  lemma StoreHeadTakes(s: State, actions: seq<Action>)
    requires Init(s)
    requires var r := Run(s, actions);
             r.consumer.Reading? && forall i :: 0 <= i < r.consumer.len ==> i in r.consumer.out
    ensures var r := Run(s, actions);
            var r' := Next(r, StoreHead);
            && |r.log.popped| + r.consumer.len <= |r.log.pushed|
            && r'.log.popped == r.log.popped + r.log.pushed[|r.log.popped|..|r.log.popped| + r.consumer.len]
            && r'.log.pushed == r.log.pushed
            && r'.mem.head == (|r.log.popped| + r.consumer.len) % WRAP && r'.mem.tail == r.mem.tail
            && r'.mem.buffer == r.mem.buffer && r'.consumer == Waiting && r'.producer == r.producer
  {
    InvAlways(s, actions);
    hide Rem, And, Slot, Run;
    var r := Run(s, actions);
    TakesNext(r);
  }

  lemma TakesNext(s: State)
    requires Inv(s) && s.consumer.Reading? && forall i :: 0 <= i < s.consumer.len ==> i in s.consumer.out
    ensures var r' := ConsumerStep(s, StoreHead);
            && |s.mem.buffer| > 0 && |s.log.popped| + s.consumer.len <= |s.log.pushed|
            && r'.log.popped == s.log.popped + s.log.pushed[|s.log.popped|..|s.log.popped| + s.consumer.len]
            && r'.mem.head == (|s.log.popped| + s.consumer.len) % WRAP
  {
    hide Rem, And;
    var popped, len := s.log.popped, s.consumer.len;
    AdvanceIsExact(|popped|, len);
    assert Drained(s.consumer.out, len) == s.log.pushed[|popped|..|popped| + len];
  }

  // ---- Every push of a run ----

  /** What has become of a call of push. */
  datatype Fate = Pending | Refused | Completed

  datatype Call = Call(data: seq<Byte>, fate: Fate)

  predicate AllCopied(p: Producer)
  {
    p.Writing? && forall i :: 0 <= i < |p.data| ==> i in p.done
  }

  /** How an action in state r changes the list of calls: a call begins when the producer is idle; it is refused
      for what it asks, or when its bytes do not fit at the moment it looks, and completed when it stores
      the tail after copying everything. */
  function CallsAfter(calls: seq<Call>, r: State, a: Action): seq<Call>
  {
    match a
    case CallPush(data) =>
      if !r.producer.Idle? then calls
      else calls + [Call(data, if data == [] || |data| >= WRAP then Refused else Pending)]
    case CheckSpace =>
      if r.producer.TailRead? && |r.log.pushed| - |r.log.popped| + |r.producer.data| > |r.mem.buffer|
      then Settled(calls, Refused) else calls
    case StoreTail => if AllCopied(r.producer) then Settled(calls, Completed) else calls
    case _ => calls
  }

  /** The calls of push so far, oldest first. */
  ghost function Calls(s: State, actions: seq<Action>): seq<Call>
    requires |s.mem.buffer| > 0
  {
    if actions == [] then []
    else
      var init := actions[..|actions| - 1];
      CallsAfter(Calls(s, init), Run(s, init), actions[|actions| - 1])
  }

  /** The latest call gets its fate. */
  function Settled(calls: seq<Call>, fate: Fate): seq<Call>
  {
    if calls == [] then calls else calls[|calls| - 1 := calls[|calls| - 1].(fate := fate)]
  }

  /** The data of the completed calls, one after the other. */
  function CompletedData(calls: seq<Call>): seq<Byte>
  {
    if calls == [] then []
    else
      var last := calls[|calls| - 1];
      CompletedData(calls[..|calls| - 1]) + (if last.fate.Completed? then last.data else [])
  }

  lemma CompletedSnoc(calls: seq<Call>, call: Call)
    ensures CompletedData(calls + [call]) == CompletedData(calls) + (if call.fate.Completed? then call.data else [])
  {
    assert (calls + [call])[..|calls|] == calls;
  }

  /** Only the latest call is under way, and it is the one the producer works on. */
  ghost predicate Working(calls: seq<Call>, p: Producer)
  {
    if p.Idle? then calls == [] || calls[|calls| - 1].fate != Pending
    else calls != [] && calls[|calls| - 1] == Call(p.data, Pending)
  }

  lemma SettledLast(init: seq<Call>, last: Call, fate: Fate)
    ensures Settled(init + [last], fate) == init + [last.(fate := fate)]
  {
  }

  lemma SettledData(calls: seq<Call>, fate: Fate)
    requires calls != [] && calls[|calls| - 1].fate == Pending
    ensures CompletedData(Settled(calls, fate))
            == CompletedData(calls) + (if fate == Completed then calls[|calls| - 1].data else [])
    ensures Settled(calls, fate) != [] && Settled(calls, fate)[|Settled(calls, fate)| - 1].fate == fate
  {
    hide CompletedData, Settled;
    var init, last := calls[..|calls| - 1], calls[|calls| - 1];
    assert calls == init + [last];
    SettledLast(init, last, fate);
    NothingAdded(init, last);
    CompletedSnoc(init, last.(fate := fate));
  }

  lemma NothingAdded(init: seq<Call>, last: Call)
    requires last.fate == Pending
    ensures CompletedData(init + [last]) == CompletedData(init)
  {
    hide CompletedData;
    CompletedSnoc(init, last);
    assert CompletedData(init) + [] == CompletedData(init);
  }

  /** Over every interleaving: what has been pushed is the data of exactly the completed calls, in the order of
      the calls. */
  lemma {:induction false} PushedAreTheCompleted(s: State, actions: seq<Action>)
    requires Init(s)
    ensures Run(s, actions).log.pushed == CompletedData(Calls(s, actions))
    ensures Working(Calls(s, actions), Run(s, actions).producer)
  {
    if actions == [] {
    } else {
      hide Run, Next, Rem, And, Slot, Calls, CallsAfter, CompletedData, Working, Inv;
      var init, a := actions[..|actions| - 1], actions[|actions| - 1];
      assert actions == init + [a];
      PushedAreTheCompleted(s, init);
      InvAlways(s, init);
      CallsSnoc(s, init, a);
      CallsStep(Calls(s, init), Run(s, init), a);
    }
  }

  lemma CallsSnoc(s: State, actions: seq<Action>, a: Action)
    requires |s.mem.buffer| > 0
    ensures Calls(s, actions + [a]) == CallsAfter(Calls(s, actions), Run(s, actions), a)
    ensures Run(s, actions + [a]) == Next(Run(s, actions), a)
  {
    hide CallsAfter, Next;
    assert (actions + [a])[..|actions|] == actions;
  }

  lemma CallsStep(calls: seq<Call>, r: State, a: Action)
    requires Inv(r) && r.log.pushed == CompletedData(calls) && Working(calls, r.producer)
    ensures |r.mem.buffer| > 0 && Next(r, a).log.pushed == CompletedData(CallsAfter(calls, r, a))
    ensures Working(CallsAfter(calls, r, a), Next(r, a).producer)
  {
    Sizes(r);
    hide Inv, CompletedData, Settled, CallsAfter, Next, Working;
    match a {
      case CallPush(data) => BeginStep(calls, r, data);
      case CheckSpace => CheckStep(calls, r);
      case StoreTail => StoreStep(calls, r);
      case WriteByte(i) => OtherStep(calls, r, a);
      case CallPop(_) => OtherStep(calls, r, a);
      case CheckData => OtherStep(calls, r, a);
      case ReadByte(_) => OtherStep(calls, r, a);
      case StoreHead => OtherStep(calls, r, a);
    }
  }

  lemma BeginStep(calls: seq<Call>, r: State, data: seq<Byte>)
    requires |r.mem.buffer| > 0 && r.log.pushed == CompletedData(calls) && Working(calls, r.producer)
    ensures Next(r, CallPush(data)).log.pushed == CompletedData(CallsAfter(calls, r, CallPush(data)))
    ensures Working(CallsAfter(calls, r, CallPush(data)), Next(r, CallPush(data)).producer)
  {
    hide CompletedData;
    if r.producer.Idle? {
      var call := Call(data, if data == [] || |data| >= WRAP then Refused else Pending);
      CompletedSnoc(calls, call);
      assert CompletedData(calls) + [] == CompletedData(calls);
    }
  }

  lemma StoreStep(calls: seq<Call>, r: State)
    requires Inv(r) && |r.mem.buffer| > 0 && r.log.pushed == CompletedData(calls) && Working(calls, r.producer)
    ensures Next(r, StoreTail).log.pushed == CompletedData(CallsAfter(calls, r, StoreTail))
    ensures Working(CallsAfter(calls, r, StoreTail), Next(r, StoreTail).producer)
  {
    Sizes(r);
    hide Inv, CompletedData, Settled;
    if AllCopied(r.producer) {
      SettledData(calls, Completed);
    }
  }

  lemma OtherStep(calls: seq<Call>, r: State, a: Action)
    requires |r.mem.buffer| > 0 && r.log.pushed == CompletedData(calls) && Working(calls, r.producer)
    requires !a.CallPush? && !a.CheckSpace? && !a.StoreTail?
    ensures Next(r, a).log.pushed == CompletedData(CallsAfter(calls, r, a))
    ensures Working(CallsAfter(calls, r, a), Next(r, a).producer)
  {
    hide CompletedData, Slot;
  }

  lemma CheckStep(calls: seq<Call>, r: State)
    requires Inv(r) && |r.mem.buffer| > 0 && r.log.pushed == CompletedData(calls) && Working(calls, r.producer)
    ensures Next(r, CheckSpace).log.pushed == CompletedData(CallsAfter(calls, r, CheckSpace))
    ensures Working(CallsAfter(calls, r, CheckSpace), Next(r, CheckSpace).producer)
  {
    Sizes(r);
    hide Inv, CompletedData, Settled;
    if r.producer.TailRead? {
      SettledData(calls, Refused);
    }
  }

  /** What a state's counts say about its indices. */
  lemma Sizes(r: State)
    requires Inv(r)
    ensures 0 < |r.mem.buffer| < WRAP && |r.log.popped| <= |r.log.pushed| <= |r.log.popped| + |r.mem.buffer|
    ensures r.producer.TailRead? ==>
              Sub32(|r.mem.buffer| % WRAP, Sub32(r.producer.tail, r.mem.head))
              == |r.mem.buffer| - (|r.log.pushed| - |r.log.popped|)
    ensures r.producer.Writing? ==> 0 < |r.producer.data| < WRAP
  {
    hide Rem, And;
    DifferenceIsExact(|r.log.pushed|, |r.log.popped|);
  }

  // ---- A call that runs without interruption ----

  lemma {:induction false} RunConcat(s: State, actions: seq<Action>, more: seq<Action>)
    requires |s.mem.buffer| > 0
    ensures Run(s, actions + more) == Run(Run(s, actions), more)
    decreases |more|
  {
    hide Next;
    if more == [] {
      assert actions + more == actions;
    } else {
      var last := |more| - 1;
      assert (actions + more)[..|actions| + last] == actions + more[..last];
      RunConcat(s, actions, more[..last]);
    }
  }

  /** WriteByte(0), ..., WriteByte(n - 1). */
  function Writes(n: nat): (w: seq<Action>)
    ensures |w| == n
  {
    if n == 0 then [] else Writes(n - 1) + [WriteByte(n - 1)]
  }

  /** 0, ..., n - 1 */
  function FirstNats(n: nat): (r: set<nat>)
    ensures forall i: nat :: i in r <==> i < n
  {
    if n == 0 then {} else FirstNats(n - 1) + {n - 1}
  }

  function Reads(n: nat): (w: seq<Action>)
    ensures |w| == n
  {
    if n == 0 then [] else Reads(n - 1) + [ReadByte(n - 1)]
  }

  /** The whole body of push, and of pop. */
  function PushAlone(data: seq<Byte>): seq<Action>
  {
    [CallPush(data), CheckSpace] + Writes(|data|) + [StoreTail]
  }

  function PopAlone(len: Index, n: nat): seq<Action>
  {
    [CallPop(len), CheckData] + Reads(n) + [StoreHead]
  }

  lemma {:induction false} InvKept(s: State, actions: seq<Action>)
    requires Inv(s)
    ensures |s.mem.buffer| > 0 && Inv(Run(s, actions))
  {
    Sizes(s);
    if actions == [] {
    } else {
      var init := actions[..|actions| - 1];
      InvKept(s, init);
      ProducerKeepsInv(Run(s, init), actions[|actions| - 1]);
      ConsumerKeepsInv(Run(s, init), actions[|actions| - 1]);
    }
  }

  /** An idle producer does none of the later steps. */
  lemma {:induction false} WritesDoNothing(s: State, n: nat)
    requires |s.mem.buffer| > 0 && s.producer.Idle?
    ensures Run(s, Writes(n)) == s
  {
    if n == 0 {
    } else {
      WritesDoNothing(s, n - 1);
      assert Writes(n)[..n - 1] == Writes(n - 1);
    }
  }

  /** The copy of an accepted push. */
  lemma {:induction false} WritesCopy(s: State, n: nat)
    requires Inv(s) && s.producer.Writing? && s.producer.done == {} && n <= |s.producer.data|
    ensures |s.mem.buffer| > 0
    ensures var r := Run(s, Writes(n));
            && r.producer == Writing(s.producer.data, s.producer.tail, FirstNats(n))
            && r.log == s.log && r.consumer == s.consumer && r.mem.head == s.mem.head && r.mem.tail == s.mem.tail
  {
    Sizes(s);
    hide Inv, Next, ProducerStep, ConsumerStep;
    if n == 0 {
    } else {
      WritesCopy(s, n - 1);
      InvKept(s, Writes(n - 1));
      assert Writes(n)[..n - 1] == Writes(n - 1);
      var r := Run(s, Writes(n - 1));
      assert Run(s, Writes(n)) == Next(r, WriteByte(n - 1));
      hide Run, Writes;
      WriteCopies(r, n - 1);
    }
  }

  lemma WriteCopies(r: State, i: nat)
    requires Inv(r) && r.producer.Writing? && i < |r.producer.data| && i !in r.producer.done
    ensures |r.mem.buffer| > 0
    ensures var r' := Next(r, WriteByte(i));
            && r'.producer == Writing(r.producer.data, r.producer.tail, r.producer.done + {i})
            && r'.log == r.log && r'.consumer == r.consumer && r'.mem.head == r.mem.head && r'.mem.tail == r.mem.tail
  {
    Sizes(r);
    WriteSlotIsFree(r, i);
    hide Inv, Slot, Rem, And;
  }

  /** In every reachable state with an idle producer, a push that runs without interruption appends all its
      bytes to the stream if they fit and there are any, and otherwise changes nothing. */
  lemma SoloPush(s: State, actions: seq<Action>, data: seq<Byte>)
    requires Init(s) && Run(s, actions).producer.Idle?
    ensures var r, r' := Run(s, actions), Run(s, actions + PushAlone(data));
            && r'.producer.Idle? && r'.consumer == r.consumer && r'.log.popped == r.log.popped
            && (if 0 < |data| < WRAP && |r.log.pushed| - |r.log.popped| + |data| <= |r.mem.buffer|
                then r'.log.pushed == r.log.pushed + data && r'.mem.tail == Wrapped(|r.log.pushed| + |data|)
                else r' == r)
  {
    hide *;
    Reached(s, actions);
    RunConcat(s, actions, PushAlone(data));
    PushFrom(Run(s, actions), data);
  }

  /** Every reached state satisfies the invariant, and its ring has room for something. */
  lemma Reached(s: State, actions: seq<Action>)
    requires Init(s)
    ensures |s.mem.buffer| > 0 && Inv(Run(s, actions)) && |Run(s, actions).mem.buffer| == |s.mem.buffer|
  {
    hide Run, Inv;
    InvAlways(s, actions);
  }

  lemma PushFrom(r: State, data: seq<Byte>)
    requires Inv(r) && r.producer.Idle? && |r.mem.buffer| > 0
    ensures var r' := Run(r, PushAlone(data));
            && r'.producer.Idle? && r'.consumer == r.consumer && r'.log.popped == r.log.popped
            && (if 0 < |data| < WRAP && |r.log.pushed| - |r.log.popped| + |data| <= |r.mem.buffer|
                then r'.log.pushed == r.log.pushed + data && r'.mem.tail == Wrapped(|r.log.pushed| + |data|)
                else r' == r)
  {
    hide Run, Next, Inv, Writes, FirstNats, PushAlone, Wrapped, Rem, And, Slot;
    PushLooks(r, data);
    RunPush(r, data);
    if 0 < |data| < WRAP && |r.log.pushed| - |r.log.popped| + |data| <= |r.mem.buffer| {
      PushAccepted(r, data);
    } else {
      WritesDoNothing(r, |data|);
      IdleStore(r);
    }
  }

  lemma PushAccepted(r: State, data: seq<Byte>)
    requires Inv(r) && r.producer.Idle? && |r.mem.buffer| > 0 && 0 < |data| < WRAP && r.mem.tail == Wrapped(|r.log.pushed|)
    requires Run(r, [CallPush(data), CheckSpace]) == r.(producer := Writing(data, r.mem.tail, {}))
    ensures var r' := Next(Run(r.(producer := Writing(data, r.mem.tail, {})), Writes(|data|)), StoreTail);
            && r'.producer.Idle? && r'.consumer == r.consumer && r'.log == r.log.(pushed := r.log.pushed + data)
            && r'.mem.tail == Wrapped(|r.log.pushed| + |data|)
  {
    hide Run, Next, Inv, Writes, FirstNats, Wrapped, Rem, And, Slot;
    var r1 := r.(producer := Writing(data, r.mem.tail, {}));
    InvKept(r, [CallPush(data), CheckSpace]);
    WritesCopy(r1, |data|);
    StorePublishes(Run(r1, Writes(|data|)), data);
  }

  lemma RunPush(r: State, data: seq<Byte>)
    requires |r.mem.buffer| > 0
    ensures Run(r, PushAlone(data))
            == Next(Run(Run(r, [CallPush(data), CheckSpace]), Writes(|data|)), StoreTail)
  {
    hide Run, Next, Writes;
    RunConcat(r, [CallPush(data), CheckSpace], Writes(|data|));
    RunConcat(r, [CallPush(data), CheckSpace] + Writes(|data|), [StoreTail]);
    RunOne(Run(Run(r, [CallPush(data), CheckSpace]), Writes(|data|)), StoreTail);
  }

  lemma RunPop(r: State, len: Index, n: nat)
    requires |r.mem.buffer| > 0
    ensures Run(r, PopAlone(len, n)) == Next(Run(Run(r, [CallPop(len), CheckData]), Reads(n)), StoreHead)
  {
    hide Run, Next, Reads;
    RunConcat(r, [CallPop(len), CheckData], Reads(n));
    RunConcat(r, [CallPop(len), CheckData] + Reads(n), [StoreHead]);
    RunOne(Run(Run(r, [CallPop(len), CheckData]), Reads(n)), StoreHead);
  }

  lemma RunOne(s: State, a: Action)
    requires |s.mem.buffer| > 0
    ensures Run(s, [a]) == Next(s, a)
  {
    hide Next;
    assert [a][..0] == [] && Run(s, []) == s;
  }

  lemma IdleStore(s: State)
    requires |s.mem.buffer| > 0 && s.producer.Idle?
    ensures Next(s, StoreTail) == s
  {
  }

  lemma StorePublishes(s: State, data: seq<Byte>)
    requires |s.mem.buffer| > 0 && s.producer.Writing? && s.producer.data == data && 0 < |data| < WRAP
    requires forall i :: 0 <= i < |data| ==> i in s.producer.done
    requires s.producer.tail == s.mem.tail == Wrapped(|s.log.pushed|)
    ensures var r := Next(s, StoreTail);
            && r.producer.Idle? && r.consumer == s.consumer && r.log == s.log.(pushed := s.log.pushed + data)
            && r.mem.tail == Wrapped(|s.log.pushed| + |data|) && r.mem.head == s.mem.head
  {
    AdvanceIsExact(|s.log.pushed|, |data|);
    hide Add32;
    assert Next(s, StoreTail).mem.tail == Add32(s.mem.tail, |data|);
  }

  /** The first two steps of a push. */
  lemma PushLooks(r: State, data: seq<Byte>)
    requires Inv(r) && r.producer.Idle? && |r.mem.buffer| > 0
    ensures r.mem.tail == Wrapped(|r.log.pushed|)
    ensures Run(r, [CallPush(data), CheckSpace])
            == if 0 < |data| < WRAP && |r.log.pushed| - |r.log.popped| + |data| <= |r.mem.buffer|
               then r.(producer := Writing(data, r.mem.tail, {})) else r
  {
    assert [CallPush(data), CheckSpace] == [CallPush(data)] + [CheckSpace];
    RunConcat(r, [CallPush(data)], [CheckSpace]);
    RunOne(r, CallPush(data));
    var r1 := Next(r, CallPush(data));
    RunOne(r1, CheckSpace);
    ProducerKeepsInv(r, CallPush(data));
    Sizes(r1);
    TailCounts(r);
    hide Run, Inv;
  }

  lemma TailCounts(r: State)
    requires Inv(r)
    ensures r.mem.tail == Wrapped(|r.log.pushed|) && r.mem.head == Wrapped(|r.log.popped|)
  {
    hide Rem, And;
  }

  // ---- The same for pop ----

  lemma {:induction false} ReadsDoNothing(s: State, n: nat)
    requires |s.mem.buffer| > 0 && s.consumer.Waiting?
    ensures Run(s, Reads(n)) == s
  {
    if n == 0 {
    } else {
      ReadsDoNothing(s, n - 1);
      assert Reads(n)[..n - 1] == Reads(n - 1);
    }
  }

  /** The copy of a pop that found something. */
  lemma {:induction false} ReadsCopy(s: State, n: nat)
    requires Inv(s) && s.consumer.Reading? && s.consumer.out == map[] && n <= s.consumer.len
    ensures |s.mem.buffer| > 0
    ensures var r := Run(s, Reads(n));
            && r.consumer.Reading? && r.consumer.len == s.consumer.len && r.consumer.head == s.consumer.head
            && r.consumer.out.Keys == FirstNats(n)
            && r.log == s.log && r.producer == s.producer && r.mem == s.mem
  {
    Sizes(s);
    hide Inv, Next, ProducerStep, ConsumerStep;
    if n == 0 {
    } else {
      ReadsCopy(s, n - 1);
      InvKept(s, Reads(n - 1));
      assert Reads(n)[..n - 1] == Reads(n - 1);
      var r := Run(s, Reads(n - 1));
      assert Run(s, Reads(n)) == Next(r, ReadByte(n - 1));
      hide Run, Reads;
      ReadCopies(r, n - 1);
    }
  }

  lemma ReadCopies(r: State, i: nat)
    requires Inv(r) && r.consumer.Reading? && i < r.consumer.len && i !in r.consumer.out
    ensures |r.mem.buffer| > 0
    ensures var r' := Next(r, ReadByte(i));
            && r'.consumer.Reading? && r'.consumer.len == r.consumer.len && r'.consumer.head == r.consumer.head
            && r'.consumer.out.Keys == r.consumer.out.Keys + {i}
            && r'.log == r.log && r'.producer == r.producer && r'.mem == r.mem
  {
    Sizes(r);
    ReadSlotIsInside(r, i);
    hide Inv, Slot, Rem, And;
  }

  lemma ReadSlotIsInside(r: State, i: nat)
    requires Inv(r) && r.consumer.Reading? && i < r.consumer.len
    ensures Slot(|r.mem.buffer|, r.consumer.head, r.consumer.len, i) < |r.mem.buffer|
  {
    hide Slot, Rem, And;
    SlotIsRemainder(|r.mem.buffer|, |r.log.popped|, r.consumer.len, i);
  }

  /** The first two steps of a pop. */
  lemma PopLooks(r: State, len: Index)
    requires Inv(r) && r.consumer.Waiting? && |r.mem.buffer| > 0
    ensures Run(r, [CallPop(len), CheckData])
            == if Takes(r, len) == 0 then r else r.(consumer := Reading(Takes(r, len), r.mem.head, map[]))
  {
    assert [CallPop(len), CheckData] == [CallPop(len)] + [CheckData];
    RunConcat(r, [CallPop(len)], [CheckData]);
    RunOne(r, CallPop(len));
    RunOne(Next(r, CallPop(len)), CheckData);
    Sizes(r);
    TailCounts(r);
    hide Run, Inv;
    DifferenceIsExact(|r.log.pushed|, |r.log.popped|);
  }

  /** In every reachable state with a waiting consumer, a pop that runs without interruption takes the first
      min(len, held) bytes that were pushed and not popped. */
  lemma SoloPop(s: State, actions: seq<Action>, len: Index)
    requires Init(s) && Run(s, actions).consumer.Waiting?
    ensures var r := Run(s, actions);
            var n := Takes(r, len);
            var r' := Run(s, actions + PopAlone(len, n));
            && r'.consumer.Waiting? && r'.producer == r.producer && r'.log.pushed == r.log.pushed
            && |r.log.popped| + n <= |r.log.pushed|
            && r'.log.popped == r.log.popped + r.log.pushed[|r.log.popped|..|r.log.popped| + n]
  {
    var r := Run(s, actions);
    InvAlways(s, actions);
    Sizes(r);
    RunConcat(s, actions, PopAlone(len, Takes(r, len)));
    hide Run, Next, Inv, Reads, PopAlone;
    PopFrom(r, len, Takes(r, len));
  }

  /** min(len, what the ring holds) */
  function Takes(r: State, len: Index): nat
  {
    var held := |r.log.pushed| - |r.log.popped|;
    if held < 0 then 0 else if len < held then len else held
  }

  lemma PopFrom(r: State, len: Index, n: nat)
    requires Inv(r) && r.consumer.Waiting? && |r.mem.buffer| > 0
    requires n == Takes(r, len) && |r.log.popped| + n <= |r.log.pushed|
    ensures var r' := Run(r, PopAlone(len, n));
            && r'.consumer.Waiting? && r'.producer == r.producer && r'.log.pushed == r.log.pushed
            && r'.log.popped == r.log.popped + r.log.pushed[|r.log.popped|..|r.log.popped| + n]
  {
    hide Run, Next, Inv, Reads, FirstNats, PopAlone, Rem, And, Slot, Takes;
    PopLooks(r, len);
    RunPop(r, len, n);
    if n == 0 {
      ReadsDoNothing(r, n);
      WaitingStore(r);
      assert r.log.popped + r.log.pushed[|r.log.popped|..|r.log.popped| + n] == r.log.popped;
    } else {
      PopAccepted(r, len, n);
    }
  }

  lemma PopAccepted(r: State, len: Index, n: nat)
    requires Inv(r) && r.consumer.Waiting? && |r.mem.buffer| > 0 && |r.log.popped| + n <= |r.log.pushed| && n < WRAP
    requires Run(r, [CallPop(len), CheckData]) == r.(consumer := Reading(n, r.mem.head, map[]))
    ensures var r' := Next(Run(r.(consumer := Reading(n, r.mem.head, map[])), Reads(n)), StoreHead);
            && r'.consumer.Waiting? && r'.producer == r.producer && r'.log.pushed == r.log.pushed
            && r'.log.popped == r.log.popped + r.log.pushed[|r.log.popped|..|r.log.popped| + n]
  {
    hide Run, Next, Inv, Reads, FirstNats, Rem, And, Slot;
    var r1 := r.(consumer := Reading(n, r.mem.head, map[]));
    InvKept(r, [CallPop(len), CheckData]);
    InvKept(r1, Reads(n));
    ReadsCopy(r1, n);
    var r2 := Run(r1, Reads(n));
    TakesNext(r2);
    StoreWaits(r2);
  }

  lemma WaitingStore(s: State)
    requires |s.mem.buffer| > 0 && s.consumer.Waiting?
    ensures Next(s, StoreHead) == s
  {
  }

  lemma StoreWaits(s: State)
    requires |s.mem.buffer| > 0 && s.consumer.Reading? && forall i :: 0 <= i < s.consumer.len ==> i in s.consumer.out
    ensures var r := Next(s, StoreHead);
            && r == ConsumerStep(s, StoreHead) && r.consumer.Waiting?
            && r.producer == s.producer && r.log.pushed == s.log.pushed
  {
  }
}
