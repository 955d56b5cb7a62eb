/** The cross-thread wakeup protocol of the event loop.

    Any number of threads (and signal handlers) send to one loop.  Each step below
    performs one access to shared memory or to the wakeup pipe, and every interleaving
    of steps is a run: the fences of the implementation are there to justify this
    sequentially consistent view.  The pipe (or eventfd) already exists. */
module Wakeup {

  type Async = int
  type Signum = int
  type Thread = int

  datatype Target = ToAsync(a: Async) | ToSignal(sig: Signum)

  /** What a sender does next: mark its target, then run evpipe_write. */
  datatype Stage = Mark | ReadFlag | SetFlag | SetSkipped | ReadWanted | ClearSkipped | WritePipe

  datatype Send = Send(target: Target, stage: Stage)

  /** Where the loop thread is.  Dispatching is everything outside the poll section and
      pipecb.  ScanSignals(n) and ScanAsyncs(n) still have to look at the first n entries. */
  datatype LoopPc =
    | Dispatching
    | CheckSkipped
    | Polling(blocking: bool)
    | ClearWanted
    | RecheckSkipped
    | DrainPipe
    | ResetSkipped
    | ReadSigFlag
    | ResetSigFlag
    | ScanSignals(n: nat)
    | ResetSignal(n: nat)
    | ReadAsyncFlag
    | ResetAsyncFlag
    | ScanAsyncs(n: nat)
    | ResetSent(n: nat)

  /** nsig is EV_NSIG; a full pipe ignores further writes; an eventfd is emptied by one read,
      a pipe loses at most four bytes. */
  datatype Config = Config(nsig: nat, capacity: nat, eventfd: bool)

  /** What every thread can read or write. */
  datatype Memory = Memory(
    sent: set<Async>,
    sigPending: set<Signum>,
    asyncFlag: bool,
    sigFlag: bool,
    wanted: bool,
    skipped: bool,
    pipe: nat)

  /** What only the loop thread changes; readable and custom are the pending events of pipe_w. */
  datatype Loop = Loop(pc: LoopPc, readable: bool, custom: bool, asyncs: seq<Async>, attached: set<Signum>)

  /** History: what was sent to an active target and not fed since, signals attached while
      their pending byte was already set, how often each target was marked and fed. */
  datatype Log = Log(owed: set<Target>, stale: set<Signum>, marked: multiset<Target>, fed: multiset<Target>)

  datatype State = State(cfg: Config, mem: Memory, senders: map<Thread, Send>, loop: Loop, log: Log)

  datatype Action =
    | BeginSend(t: Thread, target: Target)
    | Advance(t: Thread)
    | AsyncStart(a: Async)
    | AsyncStop(index: nat)
    | SignalStart(sig: Signum)
    | SignalStop(sig: Signum)
    | EnterPoll
    | DecidePoll(mayBlock: bool)
    | PollReturns(ready: bool)
    | InvokePipe
    | LoopStep

  ghost predicate Init(s: State)
  {
    && s.cfg.nsig >= 1 && s.cfg.capacity >= 1
    && s.mem == Memory({}, {}, false, false, false, false, 0)
    && s.senders == map[]
    && s.loop == Loop(Dispatching, false, false, [], {})
    && s.log == Log({}, {}, multiset{}, multiset{})
  }

  predicate Stepping(pc: LoopPc)
  {
    !pc.Dispatching? && !pc.CheckSkipped? && !pc.Polling?
  }

  predicate Enabled(s: State, a: Action)
  {
    match a
    case BeginSend(t, target) => t !in s.senders
    case Advance(t) => t in s.senders
    case AsyncStart(w) => s.loop.pc.Dispatching? && w !in s.loop.asyncs
    case AsyncStop(i) => s.loop.pc.Dispatching? && i < |s.loop.asyncs|
    case SignalStart(n) => s.loop.pc.Dispatching? && 0 < n < s.cfg.nsig && n !in s.loop.attached
    case SignalStop(n) => s.loop.pc.Dispatching? && n in s.loop.attached
    // ev_invoke_pending has run, so pipe_w is not pending
    case EnterPoll => s.loop.pc.Dispatching? && !s.loop.readable && !s.loop.custom
    case DecidePoll(_) => s.loop.pc.CheckSkipped?
    // the poll may end at any time (timeout, another fd), but reports only a readable pipe
    case PollReturns(ready) => s.loop.pc.Polling? && (ready ==> s.mem.pipe > 0)
    case InvokePipe => s.loop.pc.Dispatching? && (s.loop.readable || s.loop.custom)
    case LoopStep => Stepping(s.loop.pc)
  }

  function Flag(m: Memory, target: Target): bool
  {
    if target.ToAsync? then m.asyncFlag else m.sigFlag
  }

  predicate Active(l: Loop, target: Target)
  {
    match target
    case ToAsync(a) => a in l.asyncs
    case ToSignal(n) => n in l.attached
  }

  /** ev_feed_signal sends nothing for a signal that has no loop. */
  function BeginSendStep(s: State, t: Thread, target: Target): State
  {
    if target.ToSignal? && target.sig !in s.loop.attached then s
    else s.(senders := s.senders[t := Send(target, Mark)])
  }

  /** The shared access a sender makes at the given stage. */
  function SenderMem(cfg: Config, m: Memory, target: Target, stage: Stage): Memory
  {
    match stage
    case Mark =>
      (match target
       case ToAsync(a) => m.(sent := m.sent + {a})
       case ToSignal(n) => m.(sigPending := m.sigPending + {n}))
    case SetFlag => if target.ToAsync? then m.(asyncFlag := true) else m.(sigFlag := true)
    case SetSkipped => m.(skipped := true)
    case ClearSkipped => m.(skipped := false)
    case WritePipe => m.(pipe := if m.pipe < cfg.capacity then m.pipe + 1 else m.pipe)
    case ReadFlag => m
    case ReadWanted => m
  }

  datatype Progress = Done | Then(stage: Stage)

  /** Where a sender goes from the given stage, seeing memory m. */
  function SenderNext(m: Memory, target: Target, stage: Stage): Progress
  {
    match stage
    case Mark => Then(ReadFlag)
    case ReadFlag => if Flag(m, target) then Done else Then(SetFlag)
    case SetFlag => Then(SetSkipped)
    case SetSkipped => Then(ReadWanted)
    case ReadWanted => if m.wanted then Then(ClearSkipped) else Done
    case ClearSkipped => Then(WritePipe)
    case WritePipe => Done
  }

  function SenderLog(log: Log, l: Loop, target: Target, stage: Stage): Log
  {
    if stage != Mark then log
    else Log(if Active(l, target) then log.owed + {target} else log.owed,
             if target.ToSignal? then log.stale - {target.sig} else log.stale,
             log.marked + multiset{target},
             log.fed)
  }

  /** One step of thread t: the marking, or one access of evpipe_write. */
  function AdvanceStep(s: State, t: Thread): State
    requires t in s.senders
  {
    var Send(target, stage) := s.senders[t];
    State(s.cfg,
          SenderMem(s.cfg, s.mem, target, stage),
          match SenderNext(s.mem, target, stage)
          case Done => s.senders - {t}
          case Then(next) => s.senders[t := Send(target, next)],
          s.loop,
          SenderLog(s.log, s.loop, target, stage))
  }

  /** The shared access of the loop thread inside the poll section or pipecb. */
  function LoopMem(cfg: Config, m: Memory, l: Loop): Memory
  {
    match l.pc
    case ClearWanted => m.(wanted := false)
    case DrainPipe => m.(pipe := if cfg.eventfd || m.pipe <= 4 then 0 else m.pipe - 4)
    case ResetSkipped => m.(skipped := false)
    case ResetSigFlag => m.(sigFlag := false)
    case ResetSignal(n) => m.(sigPending := m.sigPending - {n})
    case ResetAsyncFlag => m.(asyncFlag := false)
    case ResetSent(n) => if 0 < n <= |l.asyncs| then m.(sent := m.sent - {l.asyncs[n - 1]}) else m
    case _ => m
  }

  /** Where the loop thread goes next, seeing memory m. */
  function LoopNext(cfg: Config, m: Memory, l: Loop): LoopPc
  {
    match l.pc
    case ClearWanted => RecheckSkipped
    case RecheckSkipped => Dispatching
    case DrainPipe => ResetSkipped
    case ResetSkipped => ReadSigFlag
    case ReadSigFlag => if m.sigFlag then ResetSigFlag else ReadAsyncFlag
    case ResetSigFlag => ScanSignals(if cfg.nsig == 0 then 0 else cfg.nsig - 1)
    case ScanSignals(n) =>
      if n == 0 then ReadAsyncFlag
      else if n in m.sigPending && n in l.attached then ResetSignal(n)
      else ScanSignals(n - 1)
    case ResetSignal(n) => ScanSignals(if n == 0 then 0 else n - 1)
    case ReadAsyncFlag => if m.asyncFlag then ResetAsyncFlag else Dispatching
    case ResetAsyncFlag => ScanAsyncs(|l.asyncs|)
    case ScanAsyncs(n) =>
      if n == 0 || n > |l.asyncs| then Dispatching
      else if l.asyncs[n - 1] in m.sent then ResetSent(n)
      else ScanAsyncs(n - 1)
    case ResetSent(n) => ScanAsyncs(if n == 0 then 0 else n - 1)
    case _ => l.pc
  }

  function Feed(log: Log, target: Target): Log
  {
    log.(owed := log.owed - {target}, fed := log.fed + multiset{target})
  }

  function LoopLog(log: Log, l: Loop): Log
  {
    match l.pc
    case ResetSignal(n) => Feed(log, ToSignal(n)).(stale := log.stale - {n})
    case ResetSent(n) => if 0 < n <= |l.asyncs| then Feed(log, ToAsync(l.asyncs[n - 1])) else log
    case _ => log
  }

  function LoopStepNext(s: State): State
  {
    State(s.cfg,
          LoopMem(s.cfg, s.mem, s.loop),
          s.senders,
          s.loop.(pc := LoopNext(s.cfg, s.mem, s.loop),
                  custom := s.loop.custom || (s.loop.pc.RecheckSkipped? && s.mem.skipped)),
          LoopLog(s.log, s.loop))
  }

  function Next(s: State, a: Action): State
    requires Enabled(s, a)
  {
    match a
    case BeginSend(t, target) => BeginSendStep(s, t, target)
    case Advance(t) => AdvanceStep(s, t)
    case AsyncStart(w) =>
      s.(mem := s.mem.(sent := s.mem.sent - {w}), loop := s.loop.(asyncs := s.loop.asyncs + [w]))
    case AsyncStop(i) =>
      var last := |s.loop.asyncs| - 1;
      s.(loop := s.loop.(asyncs := s.loop.asyncs[i := s.loop.asyncs[last]][..last]),
         log := s.log.(owed := s.log.owed - {ToAsync(s.loop.asyncs[i])}))
    case SignalStart(n) =>
      s.(loop := s.loop.(attached := s.loop.attached + {n}),
         log := s.log.(stale := if n in s.mem.sigPending then s.log.stale + {n} else s.log.stale))
    case SignalStop(n) =>
      s.(loop := s.loop.(attached := s.loop.attached - {n}),
         log := s.log.(stale := s.log.stale - {n}, owed := s.log.owed - {ToSignal(n)}))
    case EnterPoll => s.(mem := s.mem.(wanted := true), loop := s.loop.(pc := CheckSkipped))
    case DecidePoll(mayBlock) => s.(loop := s.loop.(pc := Polling(mayBlock && !s.mem.skipped)))
    case PollReturns(ready) => s.(loop := s.loop.(readable := ready, pc := ClearWanted))
    case InvokePipe =>
      s.(loop := s.loop.(readable := false, custom := false,
                         pc := if s.loop.readable then DrainPipe else ResetSkipped))
    case LoopStep => LoopStepNext(s)
  }

  ghost predicate Run(states: seq<State>, acts: seq<Action>)
  {
    && |states| == |acts| + 1
    && Init(states[0])
    && forall i :: 0 <= i < |acts| ==> Enabled(states[i], acts[i]) && states[i + 1] == Next(states[i], acts[i])
  }

  // ---- The invariant ----

  /** The sender will set pipe_write_skipped or write the pipe. */
  predicate WillWake(stage: Stage)
  {
    stage.SetSkipped? || stage.ClearSkipped? || stage.WritePipe?
  }

  /** The sender has set pipe_write_skipped and is about to see, or has seen, that a write is wanted. */
  predicate Deciding(stage: Stage)
  {
    stage.ReadWanted? || stage.ClearSkipped? || stage.WritePipe?
  }

  ghost predicate SomeoneWillWake(senders: map<Thread, Send>)
  {
    exists t :: t in senders && WillWake(senders[t].stage)
  }

  ghost predicate SomeoneDeciding(senders: map<Thread, Send>)
  {
    exists t :: t in senders && Deciding(senders[t].stage)
  }

  /** Some sender has marked the target and has not yet raised the flag. */
  ghost predicate SendingTo(senders: map<Thread, Send>, target: Target)
  {
    exists t :: t in senders && senders[t].target == target && (senders[t].stage.ReadFlag? || senders[t].stage.SetFlag?)
  }

  /** pipecb has not yet read and cleared the given flag in its current call. */
  predicate BeforeFlagRead(pc: LoopPc, async: bool)
  {
    || pc.DrainPipe? || pc.ResetSkipped? || pc.ReadSigFlag? || pc.ResetSigFlag?
    || (async && (pc.ScanSignals? || pc.ResetSignal? || pc.ReadAsyncFlag? || pc.ResetAsyncFlag?))
  }

  /** Something will make the loop look at the flag again. */
  ghost predicate Token(m: Memory, senders: map<Thread, Send>, l: Loop, async: bool)
  {
    || m.pipe > 0 || m.skipped || l.readable || l.custom
    || BeforeFlagRead(l.pc, async)
    || SomeoneWillWake(senders)
  }

  /** The scan in progress will still look at signal n. */
  predicate SignalAhead(pc: LoopPc, n: Signum)
  {
    (pc.ScanSignals? || pc.ResetSignal?) && n <= pc.n
  }

  predicate AsyncAhead(l: Loop, a: Async)
  {
    (l.pc.ScanAsyncs? || l.pc.ResetSent?) && exists i :: 0 <= i < l.pc.n && i < |l.asyncs| && l.asyncs[i] == a
  }

  predicate Distinct(xs: seq<Async>)
  {
    forall i, j :: 0 <= i < j < |xs| ==> xs[i] != xs[j]
  }

  predicate LoopShape(cfg: Config, m: Memory, l: Loop)
  {
    && cfg.nsig >= 1 && cfg.capacity >= 1
    && Distinct(l.asyncs)
    && (forall n :: n in l.attached ==> 0 < n < cfg.nsig)
    && (l.pc.ScanSignals? ==> l.pc.n < cfg.nsig)
    && (l.pc.ResetSignal? ==> 0 < l.pc.n < cfg.nsig && l.pc.n in m.sigPending && l.pc.n in l.attached)
    && (l.pc.ScanAsyncs? ==> l.pc.n <= |l.asyncs|)
    && (l.pc.ResetSent? ==> 0 < l.pc.n <= |l.asyncs| && l.asyncs[l.pc.n - 1] in m.sent)
    && (l.pc.ResetSigFlag? ==> m.sigFlag)
    && (l.pc.ResetAsyncFlag? ==> m.asyncFlag)
    && (m.wanted <==> l.pc.CheckSkipped? || l.pc.Polling? || l.pc.ClearWanted?)
    && (l.pc.CheckSkipped? || l.pc.Polling? ==> !l.readable && !l.custom)
  }

  /** A raised flag always has a token; while the loop sleeps, `skipped` alone is no
      token unless a sender that set it is still deciding whether to write. */
  ghost predicate Tokens(m: Memory, senders: map<Thread, Send>, l: Loop)
  {
    && (m.asyncFlag ==> Token(m, senders, l, true))
    && (m.sigFlag ==> Token(m, senders, l, false))
    && (l.pc == Polling(true) && m.skipped ==> m.pipe > 0 || SomeoneDeciding(senders))
  }

  /** Marked targets are covered by the flag, a sender about to raise it, or the scan. */
  ghost predicate Marks(m: Memory, senders: map<Thread, Send>, l: Loop, stale: set<Signum>)
  {
    && (forall a :: a in l.asyncs && a in m.sent ==>
                      m.asyncFlag || SendingTo(senders, ToAsync(a)) || AsyncAhead(l, a))
    && (forall n :: n in l.attached && n in m.sigPending && n !in stale ==>
                      m.sigFlag || SendingTo(senders, ToSignal(n)) || SignalAhead(l.pc, n))
  }

  /** Whatever is owed is marked; stale signals are attached and marked. */
  ghost predicate Owed(m: Memory, l: Loop, log: Log)
  {
    && (forall a :: ToAsync(a) in log.owed ==> a in l.asyncs && a in m.sent)
    && (forall n :: ToSignal(n) in log.owed ==> n in l.attached && n in m.sigPending && n !in log.stale)
    && log.stale <= l.attached && log.stale <= m.sigPending
  }

  /** No target is fed more often than it was marked. */
  ghost predicate Counts(m: Memory, log: Log)
  {
    && (forall a :: log.fed[ToAsync(a)] + (if a in m.sent then 1 else 0) <= log.marked[ToAsync(a)])
    && (forall n :: log.fed[ToSignal(n)] + (if n in m.sigPending then 1 else 0) <= log.marked[ToSignal(n)])
  }

  ghost predicate Inv(s: State)
  {
    && LoopShape(s.cfg, s.mem, s.loop)
    && Tokens(s.mem, s.senders, s.loop)
    && Marks(s.mem, s.senders, s.loop, s.log.stale)
    && Owed(s.mem, s.loop, s.log)
    && Counts(s.mem, s.log)
  }

  lemma SenderTokens(s: State, t: Thread)
    requires Tokens(s.mem, s.senders, s.loop) && LoopShape(s.cfg, s.mem, s.loop) && t in s.senders
    ensures var s' := AdvanceStep(s, t); Tokens(s'.mem, s'.senders, s'.loop)
  {
    var s' := AdvanceStep(s, t);
    assert forall u :: u in s.senders && u != t ==> u in s'.senders && s'.senders[u] == s.senders[u];
    if t in s'.senders && WillWake(s'.senders[t].stage) {
      assert SomeoneWillWake(s'.senders);
    }
    if t in s'.senders && Deciding(s'.senders[t].stage) {
      assert SomeoneDeciding(s'.senders);
    }
  }

  lemma SenderMarks(s: State, t: Thread)
    requires Marks(s.mem, s.senders, s.loop, s.log.stale) && t in s.senders
    ensures var s' := AdvanceStep(s, t); Marks(s'.mem, s'.senders, s'.loop, s'.log.stale)
  {
    var s' := AdvanceStep(s, t);
    var target := s.senders[t].target;
    if s.senders[t].stage.Mark? {
      assert s'.senders[t] == Send(target, ReadFlag);
      assert SendingTo(s'.senders, target);
    }
    forall other | SendingTo(s.senders, other)
      ensures SendingTo(s'.senders, other) || Flag(s'.mem, other)
    {
      var u :| u in s.senders && s.senders[u].target == other && (s.senders[u].stage.ReadFlag? || s.senders[u].stage.SetFlag?);
      assert u != t ==> u in s'.senders && s'.senders[u] == s.senders[u];
      if u == t && s.senders[u].stage.ReadFlag? && !Flag(s.mem, other) {
        assert s'.senders[t] == Send(other, SetFlag);
      }
    }
  }

  lemma SenderCounts(s: State, t: Thread)
    requires Counts(s.mem, s.log) && t in s.senders
    ensures var s' := AdvanceStep(s, t); Counts(s'.mem, s'.log)
  {
    hide SenderNext;
  }

  lemma SenderOwed(s: State, t: Thread)
    requires Owed(s.mem, s.loop, s.log) && t in s.senders
    ensures var s' := AdvanceStep(s, t); Owed(s'.mem, s'.loop, s'.log)
  {
    hide SenderNext;
  }

  lemma SenderShape(s: State, t: Thread)
    requires LoopShape(s.cfg, s.mem, s.loop) && t in s.senders
    ensures var s' := AdvanceStep(s, t); LoopShape(s'.cfg, s'.mem, s'.loop)
  {
  }

  lemma BeginKept(s: State, t: Thread, target: Target)
    requires Inv(s) && t !in s.senders
    ensures Inv(BeginSendStep(s, t, target))
  {
    var s' := BeginSendStep(s, t, target);
    assert forall u :: u in s.senders ==> u in s'.senders && s'.senders[u] == s.senders[u];
    assert forall other :: SendingTo(s.senders, other) ==> SendingTo(s'.senders, other);
  }

  lemma LoopStepKept(s: State)
    requires Inv(s) && Stepping(s.loop.pc)
    ensures Inv(LoopStepNext(s))
  {
    LoopStepShape(s);
    LoopStepMarks(s);
    LoopStepTokens(s);
    LoopStepOwed(s);
    LoopStepCounts(s);
  }

  lemma LoopStepShape(s: State)
    requires LoopShape(s.cfg, s.mem, s.loop) && Stepping(s.loop.pc)
    ensures var s' := LoopStepNext(s); LoopShape(s'.cfg, s'.mem, s'.loop)
  {
    hide LoopLog;
  }

  lemma LoopStepTokens(s: State)
    requires LoopShape(s.cfg, s.mem, s.loop) && Tokens(s.mem, s.senders, s.loop) && Stepping(s.loop.pc)
    ensures var s' := LoopStepNext(s); Tokens(s'.mem, s'.senders, s'.loop)
  {
  }

  lemma LoopStepMarks(s: State)
    requires LoopShape(s.cfg, s.mem, s.loop) && Marks(s.mem, s.senders, s.loop, s.log.stale) && Stepping(s.loop.pc)
    ensures var s' := LoopStepNext(s); Marks(s'.mem, s'.senders, s'.loop, s'.log.stale)
  {
    var s' := LoopStepNext(s);
    forall a | a in s'.loop.asyncs && a in s'.mem.sent
      ensures s'.mem.asyncFlag || SendingTo(s'.senders, ToAsync(a)) || AsyncAhead(s'.loop, a)
    {
      assert a in s.mem.sent;
      if s.loop.pc.ResetAsyncFlag? {
        var i :| 0 <= i < |s.loop.asyncs| && s.loop.asyncs[i] == a;
        assert s'.loop.asyncs[i] == a;
      }
    }
  }

  lemma LoopStepCounts(s: State)
    requires LoopShape(s.cfg, s.mem, s.loop) && Counts(s.mem, s.log) && Stepping(s.loop.pc)
    ensures var s' := LoopStepNext(s); Counts(s'.mem, s'.log)
  {
    hide LoopNext;
  }

  lemma LoopStepOwed(s: State)
    requires LoopShape(s.cfg, s.mem, s.loop) && Owed(s.mem, s.loop, s.log) && Stepping(s.loop.pc)
    ensures var s' := LoopStepNext(s); Owed(s'.mem, s'.loop, s'.log)
  {
    hide LoopNext;
  }

  /** Starting and stopping watchers, between iterations of the loop. */
  lemma WatcherKept(s: State, a: Action)
    requires Inv(s) && Enabled(s, a) && (a.AsyncStart? || a.AsyncStop? || a.SignalStart? || a.SignalStop?)
    ensures Inv(Next(s, a))
  {
    if a.AsyncStop? {
      var asyncs, asyncs' := s.loop.asyncs, Next(s, a).loop.asyncs;
      forall w | w in asyncs && w != asyncs[a.index]
        ensures w in asyncs'
      {
        var j :| 0 <= j < |asyncs| && asyncs[j] == w;
        assert asyncs'[if j == |asyncs| - 1 then a.index else j] == w;
      }
    }
  }

  lemma PollKept(s: State, a: Action)
    requires Inv(s) && Enabled(s, a) && (a.EnterPoll? || a.DecidePoll? || a.PollReturns? || a.InvokePipe?)
    ensures Inv(Next(s, a))
  {
  }

  lemma InvKept(s: State, a: Action)
    requires Inv(s) && Enabled(s, a)
    ensures Inv(Next(s, a))
  {
    match a
    case Advance(t) =>
      SenderShape(s, t);
      SenderTokens(s, t);
      SenderMarks(s, t);
      SenderOwed(s, t);
      SenderCounts(s, t);
    case BeginSend(t, target) => BeginKept(s, t, target);
    case LoopStep => LoopStepKept(s);
    case AsyncStart(_) => WatcherKept(s, a);
    case AsyncStop(_) => WatcherKept(s, a);
    case SignalStart(_) => WatcherKept(s, a);
    case SignalStop(_) => WatcherKept(s, a);
    case _ => PollKept(s, a);
  }

  lemma {:induction false} InvAlways(states: seq<State>, acts: seq<Action>, k: nat)
    requires Run(states, acts) && k < |states|
    ensures Inv(states[k])
  {
    if k == 0 {
    } else {
      InvAlways(states, acts, k - 1);
      InvKept(states[k - 1], acts[k - 1]);
    }
  }

  // ---- Main results ----

  ghost predicate NobodySends(s: State)
  {
    forall t :: t !in s.senders
  }

  /** The loop sleeps in backend_poll and nothing is on its way to wake it. */
  ghost predicate Asleep(s: State)
  {
    s.loop.pc == Polling(true) && s.mem.pipe == 0 && NobodySends(s)
  }

  /** No lost wakeup: a loop that sleeps with an empty pipe and no sender under way has both
      flags clear, no active async marked as sent, and owes no event to anyone.  The only
      signals whose pending byte can still be set were attached with the byte already set. */
  lemma NoLostWakeup(states: seq<State>, acts: seq<Action>, k: nat)
    requires Run(states, acts) && k < |states|
    requires Asleep(states[k])
    ensures !states[k].mem.asyncFlag && !states[k].mem.sigFlag
    ensures forall a :: a in states[k].loop.asyncs ==> a !in states[k].mem.sent
    ensures states[k].log.owed == {}
    ensures states[k].loop.attached * states[k].mem.sigPending == states[k].log.stale
  {
    var s := states[k];
    InvAlways(states, acts, k);
    forall target: Target
      ensures target !in s.log.owed
    {
      assert target == if target.ToAsync? then ToAsync(target.a) else ToSignal(target.sig);
    }
    assert forall n :: n in s.log.stale <==> n in s.loop.attached && n in s.mem.sigPending;
  }

  /** Every signal that starts being watched has a clear pending byte at that moment. */
  ghost predicate CleanStarts(states: seq<State>, acts: seq<Action>)
    requires |states| == |acts| + 1
  {
    forall i :: 0 <= i < |acts| && acts[i].SignalStart? ==> acts[i].sig !in states[i].mem.sigPending
  }

  lemma {:induction false} CleanStartsNeverStale(states: seq<State>, acts: seq<Action>, k: nat)
    requires Run(states, acts) && CleanStarts(states, acts) && k < |states|
    ensures states[k].log.stale == {}
  {
    if k == 0 {
    } else {
      CleanStartsNeverStale(states, acts, k - 1);
      assert states[k] == Next(states[k - 1], acts[k - 1]);
    }
  }

  /** With clean starts the strongest form holds: a sleeping loop has no signal pending. */
  lemma NoPendingSignalAsleep(states: seq<State>, acts: seq<Action>, k: nat)
    requires Run(states, acts) && CleanStarts(states, acts) && k < |states|
    requires Asleep(states[k])
    ensures states[k].loop.attached * states[k].mem.sigPending == {}
  {
    NoLostWakeup(states, acts, k);
    CleanStartsNeverStale(states, acts, k);
  }

  /** While an event is owed to a blocked loop, either some sender can still move or the pipe is not empty. */
  lemma OwedEventEndsSleep(states: seq<State>, acts: seq<Action>, k: nat, target: Target)
    requires Run(states, acts) && k < |states|
    requires target in states[k].log.owed && states[k].loop.pc == Polling(true)
    ensures states[k].mem.pipe > 0 || exists t :: Enabled(states[k], Advance(t))
  {
    var s := states[k];
    if t :| t in s.senders {
      assert Enabled(s, Advance(t));
    } else if s.mem.pipe == 0 {
      NoLostWakeup(states, acts, k);
    }
  }

  // ---- Progress ----

  /** How many steps a sender at this stage makes at most. */
  function Rank(stage: Stage): nat
  {
    match stage
    case Mark => 7
    case ReadFlag => 6
    case SetFlag => 5
    case SetSkipped => 4
    case ReadWanted => 3
    case ClearSkipped => 2
    case WritePipe => 1
  }

  /** The steps all senders still have before them. */
  ghost function Todo(senders: map<Thread, Send>): set<(Thread, nat)>
  {
    set t, r: nat | t in senders && r < Rank(senders[t].stage) :: (t, r)
  }

  lemma AdvanceShrinksTodo(s: State, t: Thread)
    requires t in s.senders
    ensures Todo(AdvanceStep(s, t).senders) < Todo(s.senders)
  {
    var s' := AdvanceStep(s, t);
    var last := (t, Rank(s.senders[t].stage) - 1);
    assert last in Todo(s.senders) && last !in Todo(s'.senders);
    forall x | x in Todo(s'.senders)
      ensures x in Todo(s.senders)
    {
      assert x.0 != t ==> s'.senders[x.0] == s.senders[x.0];
    }
  }

  lemma SubsetSmaller<T>(a: set<T>, b: set<T>)
    requires a < b
    ensures |a| < |b|
  {
    var x :| x in b && x !in a;
    assert x in b - a && b == a + (b - a);
  }

  /** Nothing but steps of senders from state k on. */
  ghost predicate OnlyAdvances(acts: seq<Action>, k: nat)
  {
    forall i :: k <= i < |acts| ==> acts[i].Advance?
  }

  lemma {:induction false} AdvancesKeep(states: seq<State>, acts: seq<Action>, k: nat, m: nat)
    requires Run(states, acts) && k <= m < |states| && OnlyAdvances(acts, k)
    ensures states[m].loop == states[k].loop && states[k].log.owed <= states[m].log.owed
    ensures |Todo(states[m].senders)| + (m - k) <= |Todo(states[k].senders)|
    decreases m - k
  {
    hide Todo;
    if m == k {
    } else {
      AdvancesKeep(states, acts, k, m - 1);
      var t := acts[m - 1].t;
      assert states[m] == AdvanceStep(states[m - 1], t);
      AdvanceShrinksTodo(states[m - 1], t);
      SubsetSmaller(Todo(states[m].senders), Todo(states[m - 1].senders));
    }
  }

  /** A blocked loop that owes an event is woken: however the senders under way are scheduled, they make
      no more steps than they have before them, and once they are done there is a byte in the pipe. */
  lemma SleepEnds(states: seq<State>, acts: seq<Action>, k: nat, target: Target)
    requires Run(states, acts) && k <= |acts| && OnlyAdvances(acts, k)
    requires states[k].loop.pc == Polling(true) && target in states[k].log.owed
    ensures |acts| - k <= |Todo(states[k].senders)|
    ensures var last := states[|acts|];
            if NobodySends(last) then last.mem.pipe > 0 else exists t :: Enabled(last, Advance(t))
  {
    var last := states[|acts|];
    AdvancesKeep(states, acts, k, |acts|);
    OwedEventEndsSleep(states, acts, |acts|, target);
    if t :| t in last.senders {
      assert Enabled(last, Advance(t));
    }
  }

  /** How many steps pipecb makes at most from here. */
  function StepsLeft(cfg: Config, l: Loop): nat
  {
    var scan := 2 * |l.asyncs| + 3;
    match l.pc
    case DrainPipe => scan + 2 * cfg.nsig + 5
    case ResetSkipped => scan + 2 * cfg.nsig + 4
    case ReadSigFlag => scan + 2 * cfg.nsig + 3
    case ResetSigFlag => scan + 2 * cfg.nsig + 2
    case ScanSignals(n) => scan + 2 * n + 1
    case ResetSignal(n) => scan + 2 * n
    case ReadAsyncFlag => scan
    case ResetAsyncFlag => scan - 1
    case ScanAsyncs(n) => 2 * n + 1
    case ResetSent(n) => 2 * n
    case _ => 0
  }

  /** pipecb is under way or done, nobody sends, and the flags it has dealt with are clear. */
  ghost predicate Sweeping(s: State)
  {
    var pc := s.loop.pc;
    && NobodySends(s)
    && (pc.Dispatching? || BeforeFlagRead(pc, true) || pc.ScanAsyncs? || pc.ResetSent?)
    && (s.mem.sigFlag ==> BeforeFlagRead(pc, false))
    && (s.mem.asyncFlag ==> BeforeFlagRead(pc, true))
  }

  lemma SweepStep(s: State)
    requires LoopShape(s.cfg, s.mem, s.loop) && Sweeping(s) && Stepping(s.loop.pc)
    ensures Sweeping(LoopStepNext(s)) && StepsLeft(s.cfg, LoopStepNext(s).loop) < StepsLeft(s.cfg, s.loop)
    ensures LoopStepNext(s).cfg == s.cfg
  {
    SweepShape(s);
    hide LoopShape, LoopStepNext, Sweeping, LoopNext, StepsLeft;
    SweepFlags(s);
    SweepMeasure(s.cfg, s.mem, s.loop);
    StepsOfPc(s);
  }

  lemma StepsOfPc(s: State)
    ensures LoopStepNext(s).cfg == s.cfg
    ensures StepsLeft(s.cfg, LoopStepNext(s).loop) == StepsLeft(s.cfg, s.loop.(pc := LoopNext(s.cfg, s.mem, s.loop)))
  {
    hide LoopLog, LoopMem, LoopNext;
  }

  lemma SweepShape(s: State)
    requires LoopShape(s.cfg, s.mem, s.loop) && Sweeping(s)
    ensures !s.loop.pc.ClearWanted? && !s.loop.pc.RecheckSkipped?
    ensures s.cfg.nsig >= 1 && (s.loop.pc.ResetSignal? || s.loop.pc.ResetSent? ==> s.loop.pc.n > 0)
  {
  }

  lemma SweepFlags(s: State)
    requires Sweeping(s) && Stepping(s.loop.pc)
    ensures Sweeping(LoopStepNext(s))
  {
    hide LoopLog;
  }

  lemma SweepMeasure(cfg: Config, m: Memory, l: Loop)
    requires Stepping(l.pc) && !l.pc.ClearWanted? && !l.pc.RecheckSkipped? && cfg.nsig >= 1
    requires l.pc.ResetSignal? || l.pc.ResetSent? ==> l.pc.n > 0
    ensures StepsLeft(cfg, l.(pc := LoopNext(cfg, m, l))) < StepsLeft(cfg, l)
  {
  }

  /** What is no longer owed after a step of pipecb has been fed. */
  lemma FedWhenSettled(s: State, target: Target)
    requires target in s.log.owed && Stepping(s.loop.pc)
    ensures var log := LoopStepNext(s).log; target in log.owed || log.fed[target] > s.log.fed[target]
  {
    hide LoopMem, LoopNext;
  }

  lemma FeedsOnlyGrow(s: State, target: Target)
    requires Stepping(s.loop.pc)
    ensures LoopStepNext(s).log.fed[target] >= s.log.fed[target]
  {
    hide LoopMem, LoopNext;
  }

  lemma SweptOwesNothing(s: State)
    requires Inv(s) && Sweeping(s) && s.loop.pc.Dispatching?
    ensures s.log.owed == {}
  {
    forall target: Target
      ensures target !in s.log.owed
    {
      assert target == if target.ToAsync? then ToAsync(target.a) else ToSignal(target.sig);
    }
  }

  /** pipecb from state k on, with nothing in between. */
  ghost predicate OnlyLoopSteps(acts: seq<Action>, k: nat)
  {
    forall i :: k <= i < |acts| ==> acts[i] == LoopStep
  }

  lemma {:induction false} Sweeps(states: seq<State>, acts: seq<Action>, k: nat, m: nat, target: Target)
    requires Run(states, acts) && k <= m < |states| && OnlyLoopSteps(acts, k) && Sweeping(states[k])
    ensures Sweeping(states[m]) && states[m].cfg == states[k].cfg
    ensures StepsLeft(states[m].cfg, states[m].loop) + (m - k) <= StepsLeft(states[k].cfg, states[k].loop)
    ensures states[m].log.fed[target] >= states[k].log.fed[target]
    ensures target in states[k].log.owed && target !in states[m].log.owed ==>
              states[m].log.fed[target] > states[k].log.fed[target]
    decreases m - k
  {
    hide Sweeping, StepsLeft, LoopStepNext, Inv;
    if m == k {
    } else {
      Sweeps(states, acts, k, m - 1, target);
      var s := states[m - 1];
      assert acts[m - 1] == LoopStep && states[m] == LoopStepNext(s);
      InvAlways(states, acts, m - 1);
      ShapeOf(s);
      SweepStep(s);
      FeedsOnlyGrow(s, target);
      if target in s.log.owed {
        FedWhenSettled(s, target);
      }
    }
  }

  lemma ShapeOf(s: State)
    requires Inv(s)
    ensures LoopShape(s.cfg, s.mem, s.loop)
  {
  }

  /** Once the poll has reported the pipe, pipecb runs to its end in a bounded number of steps and has
      then fed every target that was owed. */
  lemma PassFeedsAllOwed(states: seq<State>, acts: seq<Action>, k: nat, target: Target)
    requires Run(states, acts) && k + 4 <= |acts| && states[k].loop.pc.Polling? && NobodySends(states[k])
    requires acts[k] == PollReturns(true) && acts[k + 1] == LoopStep && acts[k + 2] == LoopStep && acts[k + 3] == InvokePipe
    requires OnlyLoopSteps(acts, k + 4)
    ensures |acts| - (k + 4) <= 2 * states[k].cfg.nsig + 2 * |states[k].loop.asyncs| + 8
    ensures var last := states[|acts|];
            if last.loop.pc.Dispatching? then
              last.log.owed == {} && (target in states[k].log.owed ==> last.log.fed[target] > states[k].log.fed[target])
            else Enabled(last, LoopStep)
  {
    var first := states[k + 4];
    PassBegins(states, acts, k);
    Sweeps(states, acts, k + 4, |acts|, target);
    InvAlways(states, acts, |acts|);
    hide Inv;
    if states[|acts|].loop.pc.Dispatching? {
      SweptOwesNothing(states[|acts|]);
    }
  }

  lemma PassBegins(states: seq<State>, acts: seq<Action>, k: nat)
    requires Run(states, acts) && k + 4 <= |acts| && states[k].loop.pc.Polling? && NobodySends(states[k])
    requires acts[k] == PollReturns(true) && acts[k + 1] == LoopStep && acts[k + 2] == LoopStep && acts[k + 3] == InvokePipe
    ensures states[k + 4].loop.pc == DrainPipe && Sweeping(states[k + 4])
    ensures states[k + 4].cfg == states[k].cfg && states[k + 4].loop.asyncs == states[k].loop.asyncs
    ensures states[k + 4].log == states[k].log
  {
    assert states[k + 1] == Next(states[k], PollReturns(true));
    assert states[k + 2] == LoopStepNext(states[k + 1]);
    assert states[k + 3] == LoopStepNext(states[k + 2]);
    assert states[k + 4] == Next(states[k + 3], InvokePipe);
  }

  /** No spurious event: a target is fed at most as often as it was marked. */
  lemma NoSpuriousEvent(states: seq<State>, acts: seq<Action>, k: nat, target: Target)
    requires Run(states, acts) && k < |states|
    ensures states[k].log.fed[target] <= states[k].log.marked[target]
  {
    InvAlways(states, acts, k);
    match target
    case ToAsync(a) =>
    case ToSignal(n) =>
  }

  // ---- Concrete runs ----

  lemma Extend(states: seq<State>, acts: seq<Action>, a: Action) returns (states': seq<State>, acts': seq<Action>)
    requires Run(states, acts) && Enabled(states[|acts|], a)
    ensures Run(states', acts') && acts' == acts + [a] && states' == states + [Next(states[|acts|], a)]
    ensures |states| == |acts| + 1
  {
    states' := states + [Next(states[|acts|], a)];
    acts' := acts + [a];
  }

  const SMALL := Config(2, 1, true)

  const RAISED := Log({ToSignal(1)}, {}, multiset{ToSignal(1)}, multiset{})

  /** A signal is attached and raised while the loop dispatches: its flag and `skipped` are set. */
  lemma SignalRaised() returns (states: seq<State>, acts: seq<Action>)
    ensures Run(states, acts)
    ensures states[|acts|] == State(SMALL, Memory({}, {1}, false, true, false, true, 0), map[],
                                    Loop(Dispatching, false, false, [], {1}), RAISED)
  {
    states, acts := [State(SMALL, Memory({}, {}, false, false, false, false, 0), map[],
                           Loop(Dispatching, false, false, [], {}), Log({}, {}, multiset{}, multiset{}))], [];
    states, acts := Extend(states, acts, SignalStart(1));
    states, acts := Extend(states, acts, BeginSend(0, ToSignal(1)));
    assert states[|acts|].senders == map[0 := Send(ToSignal(1), Mark)];
    for i := 0 to 5
      invariant Run(states, acts)
      invariant i < 5 ==> 0 in states[|acts|].senders
      invariant states[|acts|] == SendingSignal(i)
    {
      states, acts := Extend(states, acts, Advance(0));
      assert states[|acts|] == AdvanceStep(SendingSignal(i), 0);
    }
  }

  /** The state after i steps of the only sender of SignalRaised. */
  function SendingSignal(i: nat): State
  {
    var senders: map<Thread, Send> :=
      if i == 0 then map[0 := Send(ToSignal(1), Mark)]
      else if i == 1 then map[0 := Send(ToSignal(1), ReadFlag)]
      else if i == 2 then map[0 := Send(ToSignal(1), SetFlag)]
      else if i == 3 then map[0 := Send(ToSignal(1), SetSkipped)]
      else if i == 4 then map[0 := Send(ToSignal(1), ReadWanted)]
      else map[];
    State(SMALL, Memory({}, if i == 0 then {} else {1}, false, i >= 3, false, i >= 4, 0), senders,
          Loop(Dispatching, false, false, [], {1}),
          if i == 0 then Log({}, {}, multiset{}, multiset{}) else RAISED)
  }

  /** A memory with only signal 1 pending. */
  function OnlyOne(sigFlag: bool, wanted: bool, skipped: bool): Memory
  {
    Memory({}, {1}, false, sigFlag, wanted, skipped, 0)
  }

  function Quiet(m: Memory, pc: LoopPc, custom: bool, log: Log): State
  {
    State(SMALL, m, map[], Loop(pc, false, custom, [], {}), log)
  }

  /** With `skipped` set the poll does not block, and pipe_w is fed after it. */
  lemma PollSkips(states: seq<State>, acts: seq<Action>, log: Log) returns (states': seq<State>, acts': seq<Action>)
    requires Run(states, acts) && states[|acts|] == Quiet(OnlyOne(true, false, true), Dispatching, false, log)
    ensures Run(states', acts') && acts < acts' && states < states'
    ensures states'[|acts'|] == Quiet(OnlyOne(true, false, true), Dispatching, true, log)
  {
    hide Run;
    states', acts' := Extend(states, acts, EnterPoll);
    assert states'[|acts'|] == Quiet(OnlyOne(true, true, true), CheckSkipped, false, log);
    states', acts' := Extend(states', acts', DecidePoll(true));
    states', acts' := Extend(states', acts', PollReturns(false));
    assert states'[|acts'|] == Quiet(OnlyOne(true, true, true), ClearWanted, false, log);
    states', acts' := Extend(states', acts', LoopStep);
    assert states'[|acts'|] == Quiet(OnlyOne(true, false, true), RecheckSkipped, false, log);
    states', acts' := Extend(states', acts', LoopStep);
  }

  /** pipecb finds the signal flag and clears it; the signal is not attached. */
  lemma PipeClearsFlag(states: seq<State>, acts: seq<Action>, log: Log) returns (states': seq<State>, acts': seq<Action>)
    requires Run(states, acts) && states[|acts|] == Quiet(OnlyOne(true, false, true), Dispatching, true, log)
    ensures Run(states', acts') && acts < acts' && states < states'
    ensures states'[|acts'|] == Quiet(OnlyOne(false, false, false), ScanSignals(1), false, log)
  {
    hide Run;
    states', acts' := Extend(states, acts, InvokePipe);
    assert states'[|acts'|] == Quiet(OnlyOne(true, false, true), ResetSkipped, false, log);
    states', acts' := Extend(states', acts', LoopStep);
    assert states'[|acts'|] == Quiet(OnlyOne(true, false, false), ReadSigFlag, false, log);
    states', acts' := Extend(states', acts', LoopStep);
    states', acts' := Extend(states', acts', LoopStep);
  }

  lemma PipeScans(states: seq<State>, acts: seq<Action>, log: Log) returns (states': seq<State>, acts': seq<Action>)
    requires Run(states, acts) && states[|acts|] == Quiet(OnlyOne(false, false, false), ScanSignals(1), false, log)
    ensures Run(states', acts') && acts < acts' && states < states'
    ensures states'[|acts'|] == Quiet(OnlyOne(false, false, false), Dispatching, false, log)
  {
    hide Run;
    states', acts' := Extend(states, acts, LoopStep);
    assert states'[|acts'|] == Quiet(OnlyOne(false, false, false), ScanSignals(0), false, log);
    states', acts' := Extend(states', acts', LoopStep);
    assert states'[|acts'|] == Quiet(OnlyOne(false, false, false), ReadAsyncFlag, false, log);
    states', acts' := Extend(states', acts', LoopStep);
  }

  /** The pass of the loop that looks at the flags. */
  lemma PassOverFlags(states: seq<State>, acts: seq<Action>, log: Log) returns (states': seq<State>, acts': seq<Action>)
    requires Run(states, acts) && states[|acts|] == Quiet(OnlyOne(true, false, true), Dispatching, false, log)
    ensures Run(states', acts') && acts < acts' && states < states'
    ensures states'[|acts'|] == Quiet(OnlyOne(false, false, false), Dispatching, false, log)
  {
    hide Run, Quiet;
    states', acts' := PollSkips(states, acts, log);
    states', acts' := PipeClearsFlag(states', acts', log);
    states', acts' := PipeScans(states', acts', log);
  }

  /** The clean-start condition is needed: a signal raised, then stopped before pipecb runs,
      then watched again leaves the loop asleep with that signal's pending byte set. */
  lemma StaleSignalSleeps() returns (states: seq<State>, acts: seq<Action>)
    ensures Run(states, acts) && !CleanStarts(states, acts)
    ensures Asleep(states[|acts|]) && 1 in states[|acts|].loop.attached * states[|acts|].mem.sigPending
  {
    states, acts := SignalRaised();
    states, acts := Extend(states, acts, SignalStop(1));
    assert states[|acts|].loop.attached == {} && states[|acts|].log.owed == {};
    states, acts := PassOverFlags(states, acts, states[|acts|].log);
    var k := |acts|;
    states, acts := Extend(states, acts, SignalStart(1));
    states, acts := Extend(states, acts, EnterPoll);
    states, acts := Extend(states, acts, DecidePoll(true));
    assert acts[k] == SignalStart(1) && 1 in states[k].mem.sigPending;
  }
}
