/** When an operation starts and ends, and when a response to a request for a secret is delivered. */
module OperationOutcomes {
  import opened Texts
  import opened Operations

  // The slot

  /** A submission starts exactly when the slot is empty, and then it holds the slot; else nothing changes. */
  lemma SubmitDecides(steps: seq<Step>, operation: string, worker: nat)
    requires worker !in Run(INITIAL, steps).workers
    ensures var s := Run(INITIAL, steps);
            var turn := Next(s, Submit(operation, worker));
            && (s.slot.None? ==> turn.outcome == Done && turn.state.slot == Some(Owner(operation, worker))
                                 && turn.state.workers == map[worker := operation])
            && (s.slot.Some? ==> turn == Turn(s, Busy))
  {
    hide Run, RequestsSound;
    InitialHolds();
    RunKeeps(INITIAL, steps);
  }

  /** Its worker ends it: the slot is empty, and the next submission starts. */
  lemma FinishFrees(steps: seq<Step>, operation: string, worker: nat)
    requires Run(INITIAL, steps).slot.Some?
    ensures var s := Run(INITIAL, steps);
            var ended := Next(s, Finish(s.slot.value.worker));
            && ended.outcome == Done && ended.state.slot == None && ended.state.workers == map[]
            && Next(ended.state, Submit(operation, worker)).outcome == Done
            && Next(ended.state, Submit(operation, worker)).state.slot == Some(Owner(operation, worker))
  {
    hide Run, RequestsSound;
    InitialHolds();
    RunKeeps(INITIAL, steps);
    var s := Run(INITIAL, steps);
    assert s.workers - {s.slot.value.worker} == map[];
  }

  // A response, with steps of others in between

  predicate Concerns(step: Step, call: nat) {
    match step
    case Address(c, _, _) => c == call
    case Match(c) => c == call
    case Deliver(c, _) => c == call
    case _ => false
  }

  predicate Others(steps: seq<Step>, call: nat) {
    forall k | 0 <= k < |steps| :: !Concerns(steps[k], call)
  }

  lemma OtherKeepsCall(s: State, step: Step, call: nat)
    requires !Concerns(step, call)
    ensures var t := Next(s, step).state;
            && (call in t.responses <==> call in s.responses)
            && (call in s.responses ==> t.responses[call] == s.responses[call])
  {
  }

  lemma {:induction false} OthersKeepCall(s: State, steps: seq<Step>, call: nat)
    requires Others(steps, call)
    ensures var t := Run(s, steps);
            && (call in t.responses <==> call in s.responses)
            && (call in s.responses ==> t.responses[call] == s.responses[call])
    decreases |steps|
  {
    hide Next, Concerns;
    if steps != [] {
      OtherKeepsCall(s, steps[0], call);
      OthersKeepCall(Next(s, steps[0]).state, steps[1..], call);
    }
  }

  /** The request of that name, operation and correlation is waiting. */
  predicate IsAwaited(s: State, envelope: Envelope) {
    && envelope.request in s.pending && s.pending[envelope.request].operation == envelope.operation
    && s.pending[envelope.request].correlation == envelope.correlation
  }

  /** The slot is held by the operation that the envelope names, and the envelope is complete. */
  predicate IsAddressed(s: State, envelope: Envelope, supported: bool) {
    && supported && envelope.wellFormed && envelope.correlation != ""
    && s.slot.Some? && s.slot.value.operation == envelope.operation
  }

  lemma AddressDecides(s: State, call: nat, envelope: Envelope, supported: bool)
    requires call !in s.responses
    ensures var turn := Next(s, Address(call, envelope, supported));
            if IsAddressed(s, envelope, supported) then
              turn.outcome == Going && call in turn.state.responses && turn.state.responses[call] == Addressed(envelope)
            else turn.outcome in {Invalid, Malformed} && turn.state == s
  {
  }

  lemma MatchDecides(s: State, call: nat, envelope: Envelope)
    requires call in s.responses && s.responses[call] == Addressed(envelope)
    ensures var turn := Next(s, Match(call));
            if IsAwaited(s, envelope) then
              turn.outcome == Going && call in turn.state.responses
              && turn.state.responses[call] == Holding(envelope, s.pending[envelope.request].lease)
            else turn.outcome == Invalid && call !in turn.state.responses
  {
  }

  lemma DeliverDecides(s: State, call: nat, envelope: Envelope, lease: nat, accepted: bool)
    requires call in s.responses && s.responses[call] == Holding(envelope, lease)
    ensures var turn := Next(s, Deliver(call, accepted));
            && call !in turn.state.responses
            && turn.outcome == (if accepted then Done else Invalid)
            && turn.state.answers == s.answers + if accepted then [Answer(lease, envelope)] else []
  {
  }

  /** The states that a response finds when it is matched and when it is delivered. */
  ghost function Matching(s: State, call: nat, envelope: Envelope, supported: bool, between: seq<Step>): State {
    Run(Next(s, Address(call, envelope, supported)).state, between)
  }

  ghost function Delivering(matching: State, call: nat, between: seq<Step>): State {
    Run(Next(matching, Match(call)).state, between)
  }

  lemma AwaitedWaits(s: State, envelope: Envelope)
    requires IsAwaited(s, envelope)
    ensures envelope.request in s.pending
  {
  }

  lemma RefusedIsNotEnabled(s: State, call: nat, accepted: bool)
    requires call !in s.responses
    ensures Next(s, Match(call)) == Turn(s, NotEnabled) && Next(s, Deliver(call, accepted)) == Turn(s, NotEnabled)
  {
  }

  /**
   * A response from its arrival to its delivery, with any steps of the engine, the host and other
   * responses in between: it is delivered, as the next answer and to the request that waited under
   * its name, if and only if its envelope is complete and names the operation in the slot when it
   * arrives, a request with its name, operation and correlation waits when it is matched, and the
   * waiting side still takes it.
   */
  lemma DeliveredIffInOrder(s: State, call: nat, envelope: Envelope, supported: bool, accepted: bool,
                            first: seq<Step>, second: seq<Step>)
    requires call !in s.responses && Others(first, call) && Others(second, call)
    ensures var matching := Matching(s, call, envelope, supported, first);
            var delivering := Delivering(matching, call, second);
            var turn := Next(delivering, Deliver(call, accepted));
            && (turn.outcome == Done <==> IsAddressed(s, envelope, supported) && IsAwaited(matching, envelope) && accepted)
            && (turn.outcome == Done ==>
                  envelope.request in matching.pending &&
                  turn.state.answers == delivering.answers + [Answer(matching.pending[envelope.request].lease, envelope)])
            && (turn.outcome != Done ==> turn.state.answers == delivering.answers)
  {
    hide Run, Next, IsAddressed, IsAwaited, Others;
    AddressDecides(s, call, envelope, supported);
    OthersKeepCall(Next(s, Address(call, envelope, supported)).state, first, call);
    var matching := Matching(s, call, envelope, supported, first);
    if IsAddressed(s, envelope, supported) {
      MatchDecides(matching, call, envelope);
    } else {
      RefusedIsNotEnabled(matching, call, accepted);
    }
    OthersKeepCall(Next(matching, Match(call)).state, second, call);
    var delivering := Delivering(matching, call, second);
    if IsAddressed(s, envelope, supported) && IsAwaited(matching, envelope) {
      AwaitedWaits(matching, envelope);
      DeliverDecides(delivering, call, envelope, matching.pending[envelope.request].lease, accepted);
    } else {
      RefusedIsNotEnabled(delivering, call, accepted);
    }
  }
}
