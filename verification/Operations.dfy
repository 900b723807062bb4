/** The single active operation of an engine, and the host's answers to its requests for a secret. */
module Operations {
  import opened Texts

  /** Who holds the slot: the operation's identifier, which may repeat, and its own worker. */
  datatype Owner = Owner(operation: string, worker: nat)

  datatype Request = Request(id: string, operation: string, correlation: string)

  /** A request that waits for an answer, by its place among all requests ever made. */
  datatype Pending = Pending(lease: nat, operation: string, correlation: string)

  datatype Envelope = Envelope(operation: string, correlation: string, request: string, wellFormed: bool)

  /** A response that found the slot held by its operation, and one that took its request out of the map. */
  datatype Response = Addressed(envelope: Envelope) | Holding(envelope: Envelope, lease: nat)

  datatype Answer = Answer(lease: nat, envelope: Envelope)

  datatype State = State(
    slot: Option<Owner>, workers: map<nat, string>, secretCalls: map<nat, string>,
    requests: seq<Request>, pending: map<string, Pending>, responses: map<nat, Response>, answers: seq<Answer>)

  datatype Step =
    | Submit(operation: string, worker: nat)
    | CheckSecret(call: nat, operation: string)
    | TakeSecret(call: nat, worker: nat)
    | Refresh(worker: nat)
    | Finish(worker: nat)
    | Ask(request: Request)
    | ClearPending
    | Address(call: nat, envelope: Envelope, supported: bool)
    | Match(call: nat)
    | Deliver(call: nat, accepted: bool)

  datatype Outcome = Done | Busy | Invalid | Malformed | Going | NotEnabled

  datatype Turn = Turn(state: State, outcome: Outcome)

  const INITIAL: State := State(None, map[], map[], [], map[], map[], [])

  function Take(s: State, operation: string, worker: nat): State {
    s.(slot := Some(Owner(operation, worker)), workers := s.workers[worker := operation])
  }

  predicate Holds(s: State, operation: string) {
    s.slot.Some? && s.slot.value.operation == operation
  }

  function Next(s: State, step: Step): Turn {
    match step
    case Submit(operation, worker) =>
      if worker in s.workers then Turn(s, NotEnabled)
      else if s.slot.Some? then Turn(s, Busy)
      else Turn(Take(s, operation, worker), Done)
    case CheckSecret(call, operation) =>
      if call in s.secretCalls then Turn(s, NotEnabled)
      else if s.slot.Some? then Turn(s, Busy)
      else Turn(s.(secretCalls := s.secretCalls[call := operation]), Going)
    case TakeSecret(call, worker) =>
      if call !in s.secretCalls || worker in s.workers then Turn(s, NotEnabled)
      else
        var left := s.(secretCalls := s.secretCalls - {call});
        if s.slot.Some? then Turn(left, Busy) else Turn(Take(left, s.secretCalls[call], worker), Done)
    case Refresh(worker) =>
      if worker !in s.workers then Turn(s, NotEnabled)
      else if Holds(s, s.workers[worker]) then Turn(s.(slot := Some(Owner(s.workers[worker], worker))), Done)
      else Turn(s, Done)
    case Finish(worker) =>
      if worker !in s.workers then Turn(s, NotEnabled)
      else
        var ended := s.(workers := s.workers - {worker});
        if Holds(s, s.workers[worker]) then Turn(ended.(slot := None), Done) else Turn(ended, Done)
    case Ask(request) =>
      Turn(s.(requests := s.requests + [request],
              pending := s.pending[request.id := Pending(|s.requests|, request.operation, request.correlation)]), Done)
    case ClearPending => Turn(s.(pending := map[]), Done)
    case Address(call, envelope, supported) =>
      if call in s.responses then Turn(s, NotEnabled)
      else if !supported then Turn(s, Malformed)
      else if !Holds(s, envelope.operation) || envelope.correlation == "" then Turn(s, Invalid)
      else if !envelope.wellFormed then Turn(s, Malformed)
      else Turn(s.(responses := s.responses[call := Addressed(envelope)]), Going)
    case Match(call) => MatchRequest(s, call)
    case Deliver(call, accepted) =>
      if call !in s.responses || !s.responses[call].Holding? then Turn(s, NotEnabled)
      else
        var response := s.responses[call];
        var left := s.(responses := s.responses - {call});
        if accepted then Turn(left.(answers := s.answers + [Answer(response.lease, response.envelope)]), Done)
        else Turn(left, Invalid)
  }

  /** The request leaves the map only when operation and correlation are its own. */
  function MatchRequest(s: State, call: nat): Turn {
    if call !in s.responses || !s.responses[call].Addressed? then Turn(s, NotEnabled)
    else
      var envelope := s.responses[call].envelope;
      var left := s.(responses := s.responses - {call});
      if envelope.request !in s.pending then Turn(left, Invalid)
      else
        var pending := s.pending[envelope.request];
        if pending.operation != envelope.operation || pending.correlation != envelope.correlation then Turn(left, Invalid)
        else
          Turn(s.(responses := s.responses[call := Holding(envelope, pending.lease)], pending := s.pending - {envelope.request}), Going)
  }

  function Run(s: State, steps: seq<Step>): State
    decreases |steps|
  {
    if steps == [] then s else Run(Next(s, steps[0]).state, steps[1..])
  }

  // The slot

  /** The live worker is the owner of the slot, and there is none when the slot is empty. */
  predicate SlotSound(s: State) {
    s.workers == match s.slot case None => map[] case Some(owner) => map[owner.worker := owner.operation]
  }

  lemma SlotStep(s: State, step: Step)
    requires SlotSound(s)
    ensures SlotSound(Next(s, step).state)
    ensures SlotMoves(s, step, Next(s, step))
  {
    hide MatchRequest;
    if step.Match? {
      MatchKeepsSlot(s, step.call);
    }
  }

  /** The slot is taken from empty by a submission that succeeds, emptied by its own worker, and else kept. */
  predicate SlotMoves(s: State, step: Step, turn: Turn) {
    var t := turn.state;
    if s.slot.None? && t.slot.Some? then
      turn.outcome == Done &&
      ((step.Submit? && t.slot.value == Owner(step.operation, step.worker)) ||
       (step.TakeSecret? && step.call in s.secretCalls && t.slot.value == Owner(s.secretCalls[step.call], step.worker)))
    else if s.slot.Some? && t.slot.None? then step == Finish(s.slot.value.worker)
    else t.slot == s.slot && (step.Submit? || step.TakeSecret? ==> turn.outcome != Done)
  }

  lemma MatchKeepsSlot(s: State, call: nat)
    ensures var t := MatchRequest(s, call).state;
            t.slot == s.slot && t.workers == s.workers && t.requests == s.requests && t.answers == s.answers
  {
  }

  // The requests

  /** Where the request with this number is: waiting, held by a response, or answered. */
  predicate Waits(s: State, id: string, lease: nat) {
    id in s.pending && s.pending[id].lease == lease
  }

  predicate HeldBy(s: State, call: nat, lease: nat) {
    call in s.responses && s.responses[call].Holding? && s.responses[call].lease == lease
  }

  predicate AnsweredAt(s: State, k: nat, lease: nat) {
    k < |s.answers| && s.answers[k].lease == lease
  }

  /** The envelope names the request's own operation, correlation and identifier. */
  predicate Fits(s: State, lease: nat, envelope: Envelope) {
    lease < |s.requests| && s.requests[lease] == Request(envelope.request, envelope.operation, envelope.correlation)
  }

  ghost predicate PlacesSound(s: State) {
    && (forall id, lease: nat | Waits(s, id, lease) ::
          lease < |s.requests| && s.requests[lease] == Request(id, s.pending[id].operation, s.pending[id].correlation))
    && (forall call: nat, lease: nat | HeldBy(s, call, lease) :: Fits(s, lease, s.responses[call].envelope))
    && (forall k: nat, lease: nat | AnsweredAt(s, k, lease) :: Fits(s, lease, s.answers[k].envelope))
  }

  ghost predicate PlacesDiffer(s: State) {
    && (forall id, call: nat, lease: nat | Waits(s, id, lease) && HeldBy(s, call, lease) :: false)
    && (forall id, k: nat, lease: nat | Waits(s, id, lease) && AnsweredAt(s, k, lease) :: false)
    && (forall call: nat, k: nat, lease: nat | HeldBy(s, call, lease) && AnsweredAt(s, k, lease) :: false)
    && (forall a: nat, b: nat, lease: nat | HeldBy(s, a, lease) && HeldBy(s, b, lease) :: a == b)
    && (forall a: nat, b: nat, lease: nat | AnsweredAt(s, a, lease) && AnsweredAt(s, b, lease) :: a == b)
  }

  ghost predicate RequestsSound(s: State) {
    PlacesSound(s) && PlacesDiffer(s)
  }

  /** Fewer places, and the same requests. */
  lemma FewerPlaces(s: State, t: State)
    requires RequestsSound(s) && t.requests == s.requests
    requires forall id | id in t.pending :: id in s.pending && t.pending[id] == s.pending[id]
    requires forall call | call in t.responses && t.responses[call].Holding? ::
               call in s.responses && t.responses[call] == s.responses[call]
    requires t.answers == s.answers
    ensures RequestsSound(t)
  {
    assert forall id, lease: nat :: Waits(t, id, lease) ==> Waits(s, id, lease);
    assert forall call: nat, lease: nat :: HeldBy(t, call, lease) ==> HeldBy(s, call, lease);
    assert forall k: nat, lease: nat :: AnsweredAt(t, k, lease) <==> AnsweredAt(s, k, lease);
    assert forall lease: nat, envelope :: Fits(t, lease, envelope) <==> Fits(s, lease, envelope);
  }

  lemma AskKeeps(s: State, request: Request)
    requires RequestsSound(s)
    ensures RequestsSound(Next(s, Ask(request)).state)
  {
    var t := Next(s, Ask(request)).state;
    var n := |s.requests|;
    assert forall id, lease: nat :: Waits(t, id, lease) <==> (id != request.id && Waits(s, id, lease)) || (id == request.id && lease == n);
    assert forall call: nat, lease: nat :: HeldBy(t, call, lease) <==> HeldBy(s, call, lease);
    assert forall k: nat, lease: nat :: AnsweredAt(t, k, lease) <==> AnsweredAt(s, k, lease);
    assert forall lease: nat, envelope :: Fits(s, lease, envelope) ==> Fits(t, lease, envelope);
  }

  lemma MatchKeeps(s: State, call: nat)
    requires RequestsSound(s)
    ensures RequestsSound(MatchRequest(s, call).state)
  {
    var turn := MatchRequest(s, call);
    var t := turn.state;
    if turn.outcome != Going {
      FewerPlaces(s, t);
    } else {
      var envelope := s.responses[call].envelope;
      var lease := s.pending[envelope.request].lease;
      assert Waits(s, envelope.request, lease);
      assert forall id, l: nat :: Waits(t, id, l) <==> id != envelope.request && Waits(s, id, l);
      assert forall c: nat, l: nat :: HeldBy(t, c, l) <==> (c != call && HeldBy(s, c, l)) || (c == call && l == lease);
      assert forall k: nat, l: nat :: AnsweredAt(t, k, l) <==> AnsweredAt(s, k, l);
      assert forall l: nat, e :: Fits(t, l, e) <==> Fits(s, l, e);
      OneIdentifier(s, envelope.request, lease);
    }
  }

  /** A request waits under its own identifier only. */
  lemma OneIdentifier(s: State, id: string, lease: nat)
    requires PlacesSound(s) && Waits(s, id, lease)
    ensures forall other | Waits(s, other, lease) :: other == id
  {
  }

  lemma DeliverKeeps(s: State, call: nat, accepted: bool)
    requires RequestsSound(s)
    ensures RequestsSound(Next(s, Deliver(call, accepted)).state)
  {
    var turn := Next(s, Deliver(call, accepted));
    var t := turn.state;
    if turn.outcome != Done {
      FewerPlaces(s, t);
    } else {
      var response, n := s.responses[call], |s.answers|;
      assert HeldBy(s, call, response.lease);
      assert forall id, l: nat :: Waits(t, id, l) <==> Waits(s, id, l);
      assert forall c: nat, l: nat :: HeldBy(t, c, l) <==> c != call && HeldBy(s, c, l);
      assert forall k: nat, l: nat :: AnsweredAt(t, k, l) <==> AnsweredAt(s, k, l) || (k == n && l == response.lease);
      assert forall l: nat, e :: Fits(t, l, e) <==> Fits(s, l, e);
      assert forall k: nat | k < n :: t.answers[k] == s.answers[k];
    }
  }

  lemma RequestStep(s: State, step: Step)
    requires RequestsSound(s)
    ensures RequestsSound(Next(s, step).state)
  {
    hide RequestsSound, MatchRequest;
    if step.Ask? {
      AskKeeps(s, step.request);
    } else if step.Match? {
      MatchKeeps(s, step.call);
    } else if step.Deliver? {
      DeliverKeeps(s, step.call, step.accepted);
    } else {
      FewerPlaces(s, Next(s, step).state);
    }
  }

  ghost predicate Invariant(s: State) {
    SlotSound(s) && RequestsSound(s)
  }

  lemma {:induction false} RunKeeps(s: State, steps: seq<Step>)
    requires Invariant(s)
    ensures Invariant(Run(s, steps))
    decreases |steps|
  {
    hide SlotSound, RequestsSound, Next;
    if steps != [] {
      SlotStep(s, steps[0]);
      RequestStep(s, steps[0]);
      RunKeeps(Next(s, steps[0]).state, steps[1..]);
    }
  }

  lemma InitialHolds()
    ensures Invariant(INITIAL)
  {
  }

  // Results for every interleaving

  /** At most one operation is live, it is the one in the slot, and the slot changes hands only by way of
      empty: a successful submission fills it and the worker of that submission empties it. */
  lemma OneOperationAtATime(steps: seq<Step>, step: Step)
    ensures var s := Run(INITIAL, steps);
            && |s.workers| == (if s.slot.Some? then 1 else 0)
            && (s.slot.Some? ==> s.workers.Keys == {s.slot.value.worker})
            && SlotMoves(s, step, Next(s, step))
  {
    hide Run, Next, RequestsSound;
    InitialHolds();
    RunKeeps(INITIAL, steps);
    SlotStep(Run(INITIAL, steps), step);
  }

  /** A request is answered at most once, and by an envelope with its own identifier, operation and correlation. */
  lemma AnsweredOnceAndByItsOwn(steps: seq<Step>, j: nat, k: nat)
    requires j < |Run(INITIAL, steps).answers| && k < |Run(INITIAL, steps).answers|
    ensures var s := Run(INITIAL, steps);
            && Fits(s, s.answers[k].lease, s.answers[k].envelope)
            && (s.answers[j].lease == s.answers[k].lease ==> j == k)
  {
    hide Run, Next, SlotSound;
    InitialHolds();
    RunKeeps(INITIAL, steps);
    var s := Run(INITIAL, steps);
    assert AnsweredAt(s, j, s.answers[j].lease) && AnsweredAt(s, k, s.answers[k].lease);
  }

  /** A response that does not go through leaves every waiting request where it is; one that goes through
      removes the single request that it names. */
  lemma MismatchRemovesNothing(steps: seq<Step>, step: Step)
    requires step.Address? || step.Match? || step.Deliver?
    ensures var s := Run(INITIAL, steps);
            var turn := Next(s, step);
            if step.Match? && turn.outcome == Going then
              var envelope := s.responses[step.call].envelope;
              && Waits(s, envelope.request, s.pending[envelope.request].lease)
              && Fits(s, s.pending[envelope.request].lease, envelope)
              && turn.state.pending == s.pending - {envelope.request}
            else turn.state.pending == s.pending
  {
    hide Run, SlotSound;
    InitialHolds();
    RunKeeps(INITIAL, steps);
    var s := Run(INITIAL, steps);
    if step.Match? && Next(s, step).outcome == Going {
      var envelope := s.responses[step.call].envelope;
      assert Waits(s, envelope.request, s.pending[envelope.request].lease);
    }
  }
}
