/** What a poll gets and when a buffer is freed, with any steps of others in between. */
module BufferOutcomes {
  import opened Identifiers
  import opened Buffers

  predicate Concerns(step: Step, call: nat) {
    match step
    case Send(_) => false
    case Reserve(c) => c == call
    case Receive(c) => c == call
    case Miss(c) => c == call
    case Write(c) => c == call
    case Unregister(c, _, _) => c == call
    case Release(c) => c == call
  }

  predicate Others(steps: seq<Step>, call: nat) {
    forall k | 0 <= k < |steps| :: !Concerns(steps[k], call)
  }

  lemma OtherKeepsCall(s: State, step: Step, call: nat)
    requires !Concerns(step, call)
    ensures var t := Next(s, step).state;
            && (call in t.calls <==> call in s.calls) && (call in s.calls ==> t.calls[call] == s.calls[call])
            && s.received <= t.received
  {
    hide FirstFree, IdAt;
  }

  lemma {:induction false} OthersKeepCall(s: State, steps: seq<Step>, call: nat)
    requires Others(steps, call)
    ensures var t := Run(s, steps);
            && (call in t.calls <==> call in s.calls) && (call in s.calls ==> t.calls[call] == s.calls[call])
            && s.received <= t.received
    decreases |steps|
  {
    hide Next, Concerns;
    if steps != [] {
      OtherKeepsCall(s, steps[0], call);
      OthersKeepCall(Next(s, steps[0]).state, steps[1..], call);
    }
  }

  lemma {:induction false} RunJoins(s: State, a: seq<Step>, b: seq<Step>)
    ensures Run(s, a + b) == Run(Run(s, a), b)
    decreases |a|
  {
    hide Next;
    if a == [] {
      assert a + b == b;
    } else {
      assert (a + b)[1..] == a[1..] + b;
      RunJoins(Next(s, a[0]).state, a[1..], b);
    }
  }

  lemma RunThen(steps: seq<Step>, step: Step, more: seq<Step>)
    ensures Run(INITIAL, steps + [step] + more) == Run(Next(Run(INITIAL, steps), step).state, more)
  {
    hide Next;
    RunJoins(INITIAL, steps + [step], more);
    RunJoins(INITIAL, steps, [step]);
    var s := Run(INITIAL, steps);
    assert [step][1..] == [];
    assert Run(Next(s, step).state, []) == Next(s, step).state;
  }

  /**
   * A poll that holds a permit and finds the queue not empty takes the event that was sent first of
   * those that nobody has received, and when it writes, whatever others do before, it hands out that
   * event's bytes under a number that no registered buffer has.
   */
  lemma PollGetsTheNextEvent(steps: seq<Step>, call: nat, others: seq<Step>)
    requires call in Run(INITIAL, steps).calls && Run(INITIAL, steps).calls[call] == Permitted
    requires Others(others, call)
    ensures var s := Run(INITIAL, steps);
            var taking := Next(s, Receive(call));
            var writing := Run(taking.state, others);
            var written := Next(writing, Write(call));
            && (s.queue != [] <==> taking.outcome == Done)
            && (s.queue != [] ==>
                  && |s.received| < |s.sent| && taking.state.received == s.received + [s.sent[|s.received|]]
                  && written.outcome.Written? && written.outcome.id != 0 && written.outcome.id !in writing.allocations
                  && written.state.allocations == writing.allocations[written.outcome.id := s.sent[|s.received|]]
                  && call !in written.state.calls)
  {
    hide Run, Polls, Frees, EventsBalance;
    EveryRunBalances(steps);
    InitialHolds();
    RunKeeps(INITIAL, steps);
    var s := Run(INITIAL, steps);
    assert s.received + s.queue == s.sent;
    if s.queue != [] {
      assert s.sent[|s.received|] == s.queue[0];
      var taking := Next(s, Receive(call));
      OthersKeepCall(taking.state, others, call);
      RunThen(steps, Receive(call), others);
      WritingSucceeds(steps + [Receive(call)] + others, call);
      WrittenLeaves(Run(taking.state, others), call);
    }
  }

  lemma WrittenLeaves(s: State, call: nat)
    ensures Next(s, Write(call)).outcome.Written? ==> call !in Next(s, Write(call)).state.calls
  {
    hide FirstFree, IdAt;
  }

  /** A poll that missed goes away empty-handed and gives its permit back. */
  lemma MissedIsEmpty(steps: seq<Step>, call: nat, others: seq<Step>)
    requires call in Run(INITIAL, steps).calls && Run(INITIAL, steps).calls[call] == Permitted
    requires Others(others, call)
    ensures var writing := Run(Next(Run(INITIAL, steps), Miss(call)).state, others);
            var written := Next(writing, Write(call));
            && written.outcome == Empty && written.state.free == writing.free + 1
            && written.state.allocations == writing.allocations && written.state.calls == writing.calls - {call}
  {
    hide Run;
    OthersKeepCall(Next(Run(INITIAL, steps), Miss(call)).state, others, call);
  }

  /**
   * A buffer is freed exactly when its number is registered with these bytes; then the number is gone,
   * and when the freeing call drops the buffer, whatever others do before, a permit is free again. In
   * every other case the call is refused and nothing changes.
   */
  lemma FreeDecides(s: State, call: nat, id: nat, bytes: string, others: seq<Step>)
    requires call !in s.calls && Others(others, call)
    ensures var taken := Next(s, Unregister(call, id, bytes));
            var dropping := Run(taken.state, others);
            var dropped := Next(dropping, Release(call));
            if id in s.allocations && s.allocations[id] == bytes then
              && taken.outcome == Done && taken.state.allocations == s.allocations - {id} && taken.state.freed == s.freed + [id]
              && dropped.outcome == Done && dropped.state.free == dropping.free + 1 && call !in dropped.state.calls
            else taken == Turn(s, Invalid)
  {
    hide Run;
    OthersKeepCall(Next(s, Unregister(call, id, bytes)).state, others, call);
  }
}
