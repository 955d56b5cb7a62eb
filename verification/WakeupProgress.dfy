/** What the wakeup protocol does, step by step, to the pipe and the flags: a pass empties the pipe, an
    undisturbed loop falls asleep, a send alone has exactly its one effect, and it is received. */
module WakeupProgress {
  import opened Wakeup

  // ---- A pass empties the pipe ----

  /** pipecb was called with p bytes in the pipe: what it has done to the pipe and the shared flags so far. */
  ghost predicate Draining(s: State, p: nat)
  {
    && !s.loop.readable && !s.loop.custom
    && (s.loop.pc.DrainPipe? ==> s.mem.pipe == p)
    && (!s.loop.pc.DrainPipe? && s.cfg.eventfd ==> s.mem.pipe == 0)
    && (!s.loop.pc.DrainPipe? && !s.cfg.eventfd ==> s.mem.pipe == if p <= 4 then 0 else p - 4)
    && (!s.loop.pc.DrainPipe? && !s.loop.pc.ResetSkipped? ==> !s.mem.skipped)
  }

  lemma DrainingStep(s: State, p: nat)
    requires Draining(s, p) && Sweeping(s) && Stepping(s.loop.pc)
    ensures Draining(LoopStepNext(s), p)
  {
    hide LoopLog;
  }

  lemma {:induction false} Drains(states: seq<State>, acts: seq<Action>, k: nat, m: nat, p: nat)
    requires Run(states, acts) && k <= m < |states| && OnlyLoopSteps(acts, k)
    requires Sweeping(states[k]) && Draining(states[k], p)
    ensures Sweeping(states[m]) && Draining(states[m], p)
    ensures states[m].loop.asyncs == states[k].loop.asyncs && states[m].loop.attached == states[k].loop.attached
    decreases m - k
  {
    hide *;
    SizeOf(states, acts);
    if m == k {
    } else {
      Drains(states, acts, k, m - 1, p);
      OnlySteps(acts, k, m - 1);
      LoopStepAt(states, acts, m - 1);
      InvAlways(states, acts, m - 1);
      DrainOne(states[m - 1], p);
    }
  }

  lemma DrainOne(s: State, p: nat)
    requires Inv(s) && Sweeping(s) && Draining(s, p) && Stepping(s.loop.pc)
    ensures Sweeping(LoopStepNext(s)) && Draining(LoopStepNext(s), p)
    ensures LoopStepNext(s).loop.asyncs == s.loop.asyncs && LoopStepNext(s).loop.attached == s.loop.attached
  {
    hide *;
    ShapeOf(s);
    SweepStep(s);
    DrainingStep(s, p);
    StepKeepsLists(s);
  }

  lemma OnlySteps(acts: seq<Action>, k: nat, i: nat)
    requires OnlyLoopSteps(acts, k) && k <= i < |acts|
    ensures acts[i] == LoopStep
  {
  }

  lemma SizeOf(states: seq<State>, acts: seq<Action>)
    requires Run(states, acts)
    ensures |states| == |acts| + 1
  {
  }

  lemma LoopStepAt(states: seq<State>, acts: seq<Action>, i: nat)
    requires Run(states, acts) && i < |acts| && acts[i] == LoopStep
    ensures Stepping(states[i].loop.pc) && states[i + 1] == LoopStepNext(states[i])
  {
  }

  lemma StepKeepsLists(s: State)
    ensures LoopStepNext(s).loop.asyncs == s.loop.asyncs && LoopStepNext(s).loop.attached == s.loop.attached
  {
    hide LoopMem, LoopNext, LoopLog;
  }

  lemma DrainBegins(states: seq<State>, acts: seq<Action>, k: nat)
    requires Run(states, acts) && k + 4 <= |acts| && states[k].loop.pc.Polling? && NobodySends(states[k])
    requires acts[k] == PollReturns(true) && acts[k + 1] == LoopStep && acts[k + 2] == LoopStep && acts[k + 3] == InvokePipe
    ensures Sweeping(states[k + 4]) && Draining(states[k + 4], states[k].mem.pipe)
    ensures states[k + 4].cfg == states[k].cfg
    ensures states[k + 4].loop.asyncs == states[k].loop.asyncs && states[k + 4].loop.attached == states[k].loop.attached
  {
    PassBegins(states, acts, k);
    assert states[k + 1] == Next(states[k], PollReturns(true));
    assert states[k + 2] == LoopStepNext(states[k + 1]);
    assert states[k + 3] == LoopStepNext(states[k + 2]);
    assert states[k + 4] == Next(states[k + 3], InvokePipe);
  }

  /** Between two passes with nothing pending and nothing raised. */
  ghost predicate AtRest(s: State)
  {
    && s.loop.pc.Dispatching? && NobodySends(s) && !s.loop.readable && !s.loop.custom
    && !s.mem.skipped && !s.mem.asyncFlag && !s.mem.sigFlag
  }

  /** A pass that is reported p bytes and runs to its end leaves none of them behind an eventfd, and takes up
      to four of them from a pipe; all flags are clear then. */
  lemma PassEmptiesPipe(states: seq<State>, acts: seq<Action>, k: nat)
    requires Run(states, acts) && k + 4 <= |acts| && states[k].loop.pc.Polling? && NobodySends(states[k])
    requires acts[k] == PollReturns(true) && acts[k + 1] == LoopStep && acts[k + 2] == LoopStep && acts[k + 3] == InvokePipe
    requires OnlyLoopSteps(acts, k + 4) && states[|acts|].loop.pc.Dispatching?
    ensures var p, left := states[k].mem.pipe, states[|acts|].mem.pipe;
            && (states[k].cfg.eventfd ==> left == 0)
            && (!states[k].cfg.eventfd ==> left == p - (if p < 4 then p else 4))
    ensures AtRest(states[|acts|])
  {
    DrainBegins(states, acts, k);
    Drains(states, acts, k + 4, |acts|, states[k].mem.pipe);
    Sweeps(states, acts, k + 4, |acts|, ToAsync(0));
  }

  // ---- An undisturbed loop falls asleep ----

  /** From state k on only the loop moves: it is allowed to block, and the poll reports what is there. */
  ghost predicate LoopAlone(states: seq<State>, acts: seq<Action>, k: nat)
    requires |states| == |acts| + 1
  {
    forall i :: k <= i < |acts| ==>
      match acts[i]
      case EnterPoll => true
      case DecidePoll(mayBlock) => mayBlock
      case PollReturns(ready) => ready == (states[i].mem.pipe > 0)
      case InvokePipe => true
      case LoopStep => true
      case _ => false
  }

  /** The second run continues the first by steps of the loop alone, which keep the watchers. */
  ghost predicate Continues(states: seq<State>, acts: seq<Action>, states': seq<State>, acts': seq<Action>)
  {
    && Run(states, acts) && Run(states', acts') && states <= states' && acts <= acts'
    && LoopAlone(states', acts', |acts|)
    && states'[|acts'|].cfg == states[|acts|].cfg
    && states'[|acts'|].loop.asyncs == states[|acts|].loop.asyncs
    && states'[|acts'|].loop.attached == states[|acts|].loop.attached
    && NobodySends(states'[|acts'|])
  }

  lemma ContinuesStep(states: seq<State>, acts: seq<Action>, states1: seq<State>, acts1: seq<Action>, a: Action)
      returns (states': seq<State>, acts': seq<Action>)
    requires Continues(states, acts, states1, acts1) && Enabled(states1[|acts1|], a)
    requires a == EnterPoll || a == DecidePoll(true) || a == LoopStep || a == InvokePipe
             || a == PollReturns(states1[|acts1|].mem.pipe > 0)
    ensures Continues(states, acts, states', acts') && states' == states1 + [Next(states1[|acts1|], a)] && acts' == acts1 + [a]
    ensures states'[|acts'|] == Next(states1[|acts1|], a)
  {
    states', acts' := Extend(states1, acts1, a);
    assert states'[|acts'|] == Next(states1[|acts1|], a);
    hide Run, LoopStepNext;
    KeepsWatchers(states1[|acts1|], a);
    assert forall i :: 0 <= i < |acts1| ==> acts'[i] == acts1[i] && states'[i] == states1[i];
  }

  lemma KeepsWatchers(s: State, a: Action)
    requires Enabled(s, a) && NobodySends(s)
    requires a == EnterPoll || a.DecidePoll? || a.PollReturns? || a == LoopStep || a == InvokePipe
    ensures var s' := Next(s, a);
            && s'.cfg == s.cfg && s'.loop.asyncs == s.loop.asyncs && s'.loop.attached == s.loop.attached
            && NobodySends(s')
  {
    hide LoopMem, LoopNext, LoopLog;
  }

  /** Once pipecb is called it can run to its end. */
  lemma {:induction false} FinishSweep(states: seq<State>, acts: seq<Action>, states1: seq<State>, acts1: seq<Action>, p: nat)
      returns (states': seq<State>, acts': seq<Action>)
    requires Continues(states, acts, states1, acts1)
    requires Sweeping(states1[|acts1|]) && Draining(states1[|acts1|], p)
    ensures Continues(states, acts, states', acts') && states'[|acts'|].loop.pc.Dispatching? && |acts1| <= |acts'|
    ensures Sweeping(states'[|acts'|]) && Draining(states'[|acts'|], p)
    ensures states1 <= states' && acts1 <= acts' && OnlyLoopSteps(acts', |acts1|)
    decreases StepsLeft(states1[|acts1|].cfg, states1[|acts1|].loop)
  {
    var s := states1[|acts1|];
    if s.loop.pc.Dispatching? {
      states', acts' := states1, acts1;
    } else {
      SweepingSteps(s);
      hide Sweeping, Draining, StepsLeft, Continues;
      RunOf(states, acts, states1, acts1);
      InvAlways(states1, acts1, |acts1|);
      ShapeOf(s);
      SweepStep(s);
      DrainingStep(s, p);
      states', acts' := ContinuesStep(states, acts, states1, acts1, LoopStep);
      states', acts' := FinishSweep(states, acts, states', acts', p);
    }
  }

  lemma SweepingSteps(s: State)
    requires Sweeping(s) && !s.loop.pc.Dispatching?
    ensures Stepping(s.loop.pc)
  {
  }

  lemma RunOf(states: seq<State>, acts: seq<Action>, states1: seq<State>, acts1: seq<Action>)
    requires Continues(states, acts, states1, acts1)
    ensures Run(states1, acts1) && |states1| == |acts1| + 1 && NobodySends(states1[|acts1|])
  {
  }

  /** pipecb for a pending pipe_w: afterwards everything is at rest, and a reported pipe has lost bytes. */
  lemma Serve(states: seq<State>, acts: seq<Action>, states1: seq<State>, acts1: seq<Action>)
      returns (states': seq<State>, acts': seq<Action>)
    requires Continues(states, acts, states1, acts1)
    requires var s := states1[|acts1|]; s.loop.pc.Dispatching? && (s.loop.readable || s.loop.custom)
    ensures Continues(states, acts, states', acts') && AtRest(states'[|acts'|]) && |acts1| <= |acts'|
    ensures var p := states1[|acts1|].mem.pipe;
            var left := states'[|acts'|].mem.pipe;
            left <= p && (states1[|acts1|].loop.readable && p > 0 ==> left < p)
  {
    var s := states1[|acts1|];
    states', acts' := ContinuesStep(states, acts, states1, acts1, InvokePipe);
    var s1 := states'[|acts'|];
    RunOf(states, acts, states', acts');
    hide Continues, Run;
    if s.loop.readable {
      assert s1.loop.pc == DrainPipe && Draining(s1, s.mem.pipe) && Sweeping(s1);
      states', acts' := FinishSweep(states, acts, states', acts', s.mem.pipe);
    } else {
      states', acts' := ServeCustom(states, acts, states', acts');
    }
  }

  /** The same when the pipe was not reported, so that it is not read. */
  lemma {:induction false} ServeCustom(states: seq<State>, acts: seq<Action>, states1: seq<State>, acts1: seq<Action>)
      returns (states': seq<State>, acts': seq<Action>)
    requires Continues(states, acts, states1, acts1) && Sweeping(states1[|acts1|])
    requires var s := states1[|acts1|];
             !s.loop.readable && !s.loop.custom && !s.loop.pc.DrainPipe? && (s.loop.pc.ResetSkipped? || !s.mem.skipped)
    ensures Continues(states, acts, states', acts') && AtRest(states'[|acts'|]) && |acts1| <= |acts'|
    ensures states'[|acts'|].mem.pipe == states1[|acts1|].mem.pipe
    decreases StepsLeft(states1[|acts1|].cfg, states1[|acts1|].loop)
  {
    var s := states1[|acts1|];
    if s.loop.pc.Dispatching? {
      states', acts' := states1, acts1;
    } else {
      SweepingSteps(s);
      CustomStep(s);
      hide Sweeping, StepsLeft, Continues, LoopStepNext, AtRest;
      RunOf(states, acts, states1, acts1);
      InvAlways(states1, acts1, |acts1|);
      ShapeOf(s);
      SweepStep(s);
      states', acts' := ContinuesStep(states, acts, states1, acts1, LoopStep);
      states', acts' := ServeCustom(states, acts, states', acts');
    }
  }

  lemma CustomStep(s: State)
    requires Sweeping(s) && Stepping(s.loop.pc) && !s.loop.readable && !s.loop.custom && !s.loop.pc.DrainPipe?
    requires s.loop.pc.ResetSkipped? || !s.mem.skipped
    ensures var s' := LoopStepNext(s);
            && !s'.loop.readable && !s'.loop.custom && !s'.loop.pc.DrainPipe? && !s'.mem.skipped
            && s'.mem.pipe == s.mem.pipe
  {
    hide LoopLog;
  }

  /** One visit to the poll: the loop sleeps, or something is pending after it. */
  lemma Visit(states: seq<State>, acts: seq<Action>, states1: seq<State>, acts1: seq<Action>)
      returns (states': seq<State>, acts': seq<Action>)
    requires Continues(states, acts, states1, acts1)
    requires var s := states1[|acts1|]; s.loop.pc.Dispatching? && !s.loop.readable && !s.loop.custom
    ensures Continues(states, acts, states', acts') && states1 <= states' && |acts1| <= |acts'|
    ensures var s, s' := states1[|acts1|], states'[|acts'|];
            && s'.mem.pipe == s.mem.pipe
            && if s.mem.pipe == 0 && !s.mem.skipped then Asleep(s') && acts' == acts1 + [EnterPoll, DecidePoll(true)]
               else s'.loop.pc.Dispatching? && s'.loop.readable == (s.mem.pipe > 0) && s'.loop.custom == s.mem.skipped
  {
    var s := states1[|acts1|];
    hide Continues, Run;
    RunOf(states, acts, states1, acts1);
    states', acts' := ContinuesStep(states, acts, states1, acts1, EnterPoll);
    RunOf(states, acts, states', acts');
    states', acts' := ContinuesStep(states, acts, states', acts', DecidePoll(true));
    RunOf(states, acts, states', acts');
    if s.mem.pipe != 0 || s.mem.skipped {
      states', acts' := ContinuesStep(states, acts, states', acts', PollReturns(s.mem.pipe > 0));
      states', acts' := ContinuesStep(states, acts, states', acts', LoopStep);
      states', acts' := ContinuesStep(states, acts, states', acts', LoopStep);
    }
  }

  /** With nobody sending, finitely many visits to the poll and calls of pipecb lead to a state from which the
      loop goes to sleep; `rest` is the length of the run up to there. */
  lemma {:induction false} FallsAsleepFrom(states: seq<State>, acts: seq<Action>, states1: seq<State>, acts1: seq<Action>)
      returns (states': seq<State>, acts': seq<Action>, rest: nat)
    requires Continues(states, acts, states1, acts1) && states1[|acts1|].loop.pc.Dispatching?
    ensures Continues(states, acts, states', acts') && Asleep(states'[|acts'|])
    ensures |acts1| <= rest && |acts'| == rest + 2 && rest < |states'| && acts'[rest..] == [EnterPoll, DecidePoll(true)]
    ensures states'[rest].loop.pc.Dispatching? && states'[rest].mem.pipe == 0
    decreases states1[|acts1|].loop.readable || states1[|acts1|].loop.custom || states1[|acts1|].mem.skipped,
              states1[|acts1|].mem.pipe
  {
    var s := states1[|acts1|];
    hide Continues, Run;
    RunOf(states, acts, states1, acts1);
    if s.loop.readable || s.loop.custom {
      states', acts' := Serve(states, acts, states1, acts1);
      states', acts', rest := FallsAsleepFrom(states, acts, states', acts');
    } else {
      states', acts' := Visit(states, acts, states1, acts1);
      if s.mem.pipe == 0 && !s.mem.skipped {
        rest := |acts1|;
        RunOf(states, acts, states', acts');
        assert acts'[rest..] == [EnterPoll, DecidePoll(true)] && states'[rest] == states1[rest];
      } else {
        RunOf(states, acts, states', acts');
        states', acts' := Serve(states, acts, states', acts');
        states', acts', rest := FallsAsleepFrom(states, acts, states', acts');
      }
    }
  }

  /** From every reachable state between two calls, with nobody sending, the loop left alone goes to sleep. */
  lemma FallsAsleep(states: seq<State>, acts: seq<Action>) returns (states': seq<State>, acts': seq<Action>, rest: nat)
    requires Run(states, acts) && states[|acts|].loop.pc.Dispatching? && NobodySends(states[|acts|])
    ensures Continues(states, acts, states', acts') && Asleep(states'[|acts'|])
    ensures |acts| <= rest && |acts'| == rest + 2 && rest < |states'| && acts'[rest..] == [EnterPoll, DecidePoll(true)]
    ensures states'[rest].loop.pc.Dispatching? && states'[rest].mem.pipe == 0
  {
    states', acts', rest := FallsAsleepFrom(states, acts, states, acts);
  }

  // ---- A send alone ----

  /** ev_feed_signal for a signal nobody watches. */
  predicate Unwatched(l: Loop, target: Target)
  {
    target.ToSignal? && target.sig !in l.attached
  }

  /** The memory with the target marked. */
  function Marked(m: Memory, target: Target): Memory
  {
    match target
    case ToAsync(a) => m.(sent := m.sent + {a})
    case ToSignal(n) => m.(sigPending := m.sigPending + {n})
  }

  /** The memory with the target's flag raised. */
  function Raised(m: Memory, target: Target): Memory
  {
    match target
    case ToAsync(_) => m.(asyncFlag := true)
    case ToSignal(_) => m.(sigFlag := true)
  }

  /** What one undisturbed send comes to: the mark, and unless the flag was up already, the flag and either a
      byte in the pipe or, if nobody wants one, the note that it was skipped. */
  function Sent(capacity: nat, m: Memory, target: Target): Memory
  {
    if (if target.ToAsync? then m.asyncFlag else m.sigFlag) then Marked(m, target)
    else if m.wanted then Raised(Marked(m, target), target).(skipped := false, pipe := if m.pipe < capacity then m.pipe + 1 else m.pipe)
    else Raised(Marked(m, target), target).(skipped := true)
  }

  /** The memory when such a send is about to make the given step. */
  predicate SentUpTo(m: Memory, target: Target, stage: Stage, now: Memory)
  {
    var up := if target.ToAsync? then m.asyncFlag else m.sigFlag;
    match stage
    case Mark => now == m
    case ReadFlag => now == Marked(m, target)
    case SetFlag => !up && now == Marked(m, target)
    case SetSkipped => !up && now == Raised(Marked(m, target), target)
    case ReadWanted => !up && now == Raised(Marked(m, target), target).(skipped := true)
    case ClearSkipped => !up && m.wanted && now == Raised(Marked(m, target), target).(skipped := true)
    case WritePipe => !up && m.wanted && now == Raised(Marked(m, target), target).(skipped := false)
  }

  ghost predicate MarkLogged(s0: State, target: Target, s: State)
  {
    && s.log.marked == s0.log.marked + multiset{target} && s.log.fed == s0.log.fed
    && (Active(s0.loop, target) ==> target in s.log.owed)
  }

  /** s is reached from s0 by nothing but the send of thread t. */
  ghost predicate Sending(s0: State, t: Thread, target: Target, s: State)
  {
    && s.cfg == s0.cfg && s.loop == s0.loop
    && if t in s.senders then
         && s.senders == s0.senders[t := Send(target, s.senders[t].stage)]
         && SentUpTo(s0.mem, target, s.senders[t].stage, s.mem)
         && (if s.senders[t].stage.Mark? then s.log == s0.log else MarkLogged(s0, target, s))
       else s.senders == s0.senders && s.mem == Sent(s0.cfg.capacity, s0.mem, target) && MarkLogged(s0, target, s)
  }

  lemma SendBegins(s0: State, t: Thread, target: Target)
    requires t !in s0.senders && !Unwatched(s0.loop, target)
    ensures t in BeginSendStep(s0, t, target).senders && Sending(s0, t, target, BeginSendStep(s0, t, target))
  {
  }

  lemma SendingStep(s0: State, t: Thread, target: Target, s: State)
    requires Sending(s0, t, target, s) && t in s.senders && t !in s0.senders
    ensures Sending(s0, t, target, AdvanceStep(s, t))
    ensures var s' := AdvanceStep(s, t); t in s'.senders ==> Rank(s'.senders[t].stage) < Rank(s.senders[t].stage)
  {
    var s' := AdvanceStep(s, t);
    if t !in s'.senders {
      assert s'.senders == s0.senders;
    }
  }

  lemma EnabledAt(states: seq<State>, acts: seq<Action>, i: nat)
    requires Run(states, acts)
    ensures i < |acts| ==> i < |states| && Enabled(states[i], acts[i])
  {
  }

  /** A send that nobody interleaves with, from ev_async_send or ev_feed_signal to its return: to an unwatched
      signal it does nothing; otherwise it changes exactly the memory that Sent names, and is logged once. */
  lemma SoloSend(states: seq<State>, acts: seq<Action>, k: nat, t: Thread, target: Target)
    requires Run(states, acts) && k < |acts| && acts[k] == BeginSend(t, target)
    requires (forall i :: k < i < |acts| ==> acts[i] == Advance(t)) && t !in states[|acts|].senders
    ensures Unwatched(states[k].loop, target) ==> |acts| == k + 1 && states[|acts|] == states[k]
    ensures !Unwatched(states[k].loop, target) ==>
              var s, s' := states[k], states[|acts|];
              && s'.mem == Sent(s.cfg.capacity, s.mem, target) && s'.loop == s.loop && s'.senders == s.senders
              && MarkLogged(s, target, s')
  {
    assert states[k + 1] == BeginSendStep(states[k], t, target);
    if Unwatched(states[k].loop, target) {
      EnabledAt(states, acts, k + 1);
    } else {
      SendBegins(states[k], t, target);
      SendsOn(states, acts, k, |acts|, t, target);
    }
  }

  lemma {:induction false} SendsOn(states: seq<State>, acts: seq<Action>, k: nat, m: nat, t: Thread, target: Target)
    requires Run(states, acts) && k < m <= |acts| && acts[k] == BeginSend(t, target)
    requires forall i :: k < i < m ==> acts[i] == Advance(t)
    requires !Unwatched(states[k].loop, target)
    ensures Sending(states[k], t, target, states[m])
    decreases m
  {
    assert Enabled(states[k], acts[k]);
    if m == k + 1 {
      SendBegins(states[k], t, target);
    } else {
      SendsOn(states, acts, k, m - 1, t, target);
      assert Enabled(states[m - 1], acts[m - 1]) && states[m] == AdvanceStep(states[m - 1], t);
      hide Sending;
      SendingStep(states[k], t, target, states[m - 1]);
    }
  }

  // ---- A send to a sleeping loop is received ----

  /** The send can run to its end. */
  lemma {:induction false} FinishSend(states: seq<State>, acts: seq<Action>, s0: State, t: Thread, target: Target)
      returns (states': seq<State>, acts': seq<Action>)
    requires Run(states, acts) && t !in s0.senders && t in states[|acts|].senders && Sending(s0, t, target, states[|acts|])
    ensures Run(states', acts') && states <= states' && acts <= acts'
    ensures forall i :: |acts| <= i < |acts'| ==> acts'[i] == Advance(t)
    ensures t !in states'[|acts'|].senders && Sending(s0, t, target, states'[|acts'|])
    decreases Rank(states[|acts|].senders[t].stage)
  {
    SizeOf(states, acts);
    hide Run, Sending, Rank;
    SendingStep(s0, t, target, states[|acts|]);
    states', acts' := Extend(states, acts, Advance(t));
    assert states'[|acts'|] == AdvanceStep(states[|acts|], t);
    if t in states'[|acts'|].senders {
      states', acts' := FinishSend(states', acts', s0, t, target);
    }
  }

  lemma SleepingSend(states: seq<State>, acts: seq<Action>, t: Thread, target: Target)
      returns (states': seq<State>, acts': seq<Action>)
    requires Run(states, acts) && Asleep(states[|acts|]) && Active(states[|acts|].loop, target)
    ensures Run(states', acts') && states <= states' && acts + [BeginSend(t, target)] <= acts'
    ensures forall i :: |acts| < i < |acts'| ==> acts'[i] == Advance(t)
    ensures var s, s' := states[|acts|], states'[|acts'|];
            && s'.loop == s.loop && s'.cfg == s.cfg && NobodySends(s') && s'.mem.pipe == 1
            && s'.log.fed == s.log.fed && target in s'.log.owed
  {
    var s := states[|acts|];
    NoLostWakeup(states, acts, |acts|);
    InvAlways(states, acts, |acts|);
    ShapeOf(s);
    SendBegins(s, t, target);
    states', acts' := Extend(states, acts, BeginSend(t, target));
    assert states'[|acts'|] == BeginSendStep(s, t, target);
    states', acts' := FinishSend(states', acts', s, t, target);
  }

  /** The pass that follows. */
  lemma PassAfterPoll(states: seq<State>, acts: seq<Action>) returns (states': seq<State>, acts': seq<Action>)
    requires Run(states, acts) && states[|acts|].loop.pc.Polling? && NobodySends(states[|acts|]) && states[|acts|].mem.pipe > 0
    ensures Continues(states, acts, states', acts') && states'[|acts'|].loop.pc.Dispatching?
    ensures acts + [PollReturns(true), LoopStep, LoopStep, InvokePipe] <= acts' && OnlyLoopSteps(acts', |acts| + 4)
  {
    var s := states[|acts|];
    assert Continues(states, acts, states, acts);
    hide Continues, Run;
    states', acts' := ContinuesStep(states, acts, states, acts, PollReturns(true));
    states', acts' := ContinuesStep(states, acts, states', acts', LoopStep);
    states', acts' := ContinuesStep(states, acts, states', acts', LoopStep);
    states', acts' := ContinuesStep(states, acts, states', acts', InvokePipe);
    RunOf(states, acts, states', acts');
    DrainBegins(states', acts', |acts|);
    states', acts' := FinishSweep(states, acts, states', acts', s.mem.pipe);
  }

  /** A send to a sleeping loop wakes it and is received: run undisturbed, the target has been fed once more
      when pipecb returns, and everything is at rest with an empty pipe. */
  lemma SendIsReceived(states: seq<State>, acts: seq<Action>, t: Thread, target: Target)
      returns (states': seq<State>, acts': seq<Action>)
    requires Run(states, acts) && Asleep(states[|acts|]) && Active(states[|acts|].loop, target)
    ensures Run(states', acts') && states <= states' && acts + [BeginSend(t, target)] <= acts'
    ensures var s, s' := states[|acts|], states'[|acts'|];
            AtRest(s') && s'.mem.pipe == 0 && s'.log.fed[target] > s.log.fed[target]
  {
    var states1, acts1 := SleepingSend(states, acts, t, target);
    var k := |acts1|;
    states', acts' := PassAfterPoll(states1, acts1);
    RunOf(states1, acts1, states', acts');
    SameBefore(states1, acts1, states', acts');
    hide Run, Continues;
    PassFeedsAllOwed(states', acts', k, target);
    PassEmptiesPipe(states', acts', k);
  }

  lemma SameBefore(states: seq<State>, acts: seq<Action>, states': seq<State>, acts': seq<Action>)
    requires Continues(states, acts, states', acts')
    ensures |states| == |acts| + 1 && states <= states' && acts <= acts' && states'[|acts|] == states[|acts|]
  {
  }

  /** From the start of a watcher to its event: after ev_async_start or ev_signal_start in any reachable state
      between two calls with nobody sending, the loop can go to sleep, and a send then is received. */
  lemma WatchedIsReceived(states: seq<State>, acts: seq<Action>, start: Action, t: Thread)
      returns (states': seq<State>, acts': seq<Action>)
    requires Run(states, acts) && NobodySends(states[|acts|]) && Enabled(states[|acts|], start)
    requires start.AsyncStart? || start.SignalStart?
    ensures Run(states', acts') && states <= states' && acts + [start] <= acts'
    ensures var target := if start.AsyncStart? then ToAsync(start.a) else ToSignal(start.sig);
            && BeginSend(t, target) in acts'[|acts|..]
            && states'[|acts'|].log.fed[target] > states[|acts|].log.fed[target]
  {
    var target := if start.AsyncStart? then ToAsync(start.a) else ToSignal(start.sig);
    var states1, acts1 := Extend(states, acts, start);
    assert states1[|acts1|] == Next(states[|acts|], start) && Active(states1[|acts1|].loop, target);
    var states2, acts2, rest := FallsAsleep(states1, acts1);
    ActiveStays(states1, acts1, states2, acts2, target);
    SameBefore(states1, acts1, states2, acts2);
    states', acts' := SendIsReceived(states2, acts2, t, target);
    FedGrows(states2, acts2, |acts1|, |acts2|, target);
    assert acts'[|acts2|] == BeginSend(t, target) && acts'[|acts|..][|acts2| - |acts|] == acts'[|acts2|];
  }

  lemma ActiveStays(states: seq<State>, acts: seq<Action>, states': seq<State>, acts': seq<Action>, target: Target)
    requires Continues(states, acts, states', acts') && Active(states[|acts|].loop, target)
    ensures Run(states', acts') && Active(states'[|acts'|].loop, target)
  {
  }

  /** Nothing takes a feed back. */
  lemma {:induction false} FedGrows(states: seq<State>, acts: seq<Action>, k: nat, m: nat, target: Target)
    requires Run(states, acts) && k <= m < |states|
    ensures states[k].log.fed[target] <= states[m].log.fed[target]
    decreases m
  {
    if m == k {
    } else {
      FedGrows(states, acts, k, m - 1, target);
      assert states[m] == Next(states[m - 1], acts[m - 1]);
      hide Run;
      if acts[m - 1] == LoopStep {
        FeedsOnlyGrow(states[m - 1], target);
      }
    }
  }
}
