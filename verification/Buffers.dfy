/** Event buffers of an engine: permits, registered allocations, and concurrent polls and frees, one atomic step at a time. */
module Buffers {
  import opened Texts
  import opened Identifiers

  const SLOTS: nat := 64

  /** A call that holds a permit: a poll, then with the event it took, by its place among those received;
      or a call that has removed a buffer from the registry and not yet dropped it. */
  datatype Call = Permitted | Took(event: Option<nat>) | Freeing

  datatype State = State(
    free: nat, allocations: map<nat, string>, draws: nat, calls: map<nat, Call>,
    queue: seq<string>, sent: seq<string>, received: seq<string>,
    issued: seq<nat>, freed: seq<nat>, delivered: seq<nat>)

  /** The worker sends; a poll reserves a permit, takes an event or none, and writes its output; a call that
      frees removes the buffer under the lock, and returns its permit after the lock. */
  datatype Step =
    | Send(event: string)
    | Reserve(call: nat)
    | Receive(call: nat)
    | Miss(call: nat)
    | Write(call: nat)
    | Unregister(call: nat, id: nat, bytes: string)
    | Release(call: nat)

  datatype Outcome = Done | Exhausted | Invalid | Empty | Written(id: nat) | NotEnabled

  datatype Turn = Turn(state: State, outcome: Outcome)

  const INITIAL: State := State(SLOTS, map[], 0, map[], [], [], [], [], [], [])

  predicate Carries(s: State, call: nat, event: nat) {
    call in s.calls && s.calls[call] == Took(Some(event))
  }

  /** The effect of a step; a step that its caller cannot take leaves the state alone. */
  function Next(s: State, step: Step): Turn {
    match step
    case Send(event) =>
      if event == "" then Turn(s, NotEnabled)
      else Turn(s.(queue := s.queue + [event], sent := s.sent + [event]), Done)
    case Reserve(call) =>
      if call in s.calls then Turn(s, NotEnabled)
      else if s.free == 0 then Turn(s, Exhausted)
      else Turn(s.(free := s.free - 1, calls := s.calls[call := Permitted]), Done)
    case Receive(call) =>
      if call !in s.calls || s.calls[call] != Permitted || s.queue == [] then Turn(s, NotEnabled)
      else Turn(s.(calls := s.calls[call := Took(Some(|s.received|))], received := s.received + [s.queue[0]], queue := s.queue[1..]), Done)
    case Miss(call) =>
      if call !in s.calls || s.calls[call] != Permitted then Turn(s, NotEnabled)
      else Turn(s.(calls := s.calls[call := Took(None)]), Done)
    case Write(call) => WriteOutput(s, call)
    case Unregister(call, id, bytes) =>
      if call in s.calls then Turn(s, NotEnabled)
      else if id !in s.allocations || s.allocations[id] != bytes then Turn(s, Invalid)
      else Turn(s.(calls := s.calls[call := Freeing], allocations := s.allocations - {id}, freed := s.freed + [id]), Done)
    case Release(call) =>
      if call !in s.calls || s.calls[call] != Freeing then Turn(s, NotEnabled)
      else Turn(s.(free := s.free + 1, calls := s.calls - {call}), Done)
  }

  function WriteOutput(s: State, call: nat): Turn {
    if call !in s.calls || !s.calls[call].Took? then Turn(s, NotEnabled)
    else if s.calls[call] == Took(None) then Turn(s.(free := s.free + 1, calls := s.calls - {call}), Empty)
    else if |s.allocations| + 1 >= MODULUS || s.calls[call].event.value >= |s.received| then Turn(s, NotEnabled)
    else
      var event := s.calls[call].event.value;
      var draw := FirstFree(s.draws, s.draws, s.allocations.Keys);
      Turn(s.(calls := s.calls - {call}, allocations := s.allocations[IdAt(draw) := s.received[event]],
              draws := draw + 1, issued := s.issued + [draw], delivered := s.delivered + [event]),
           Written(IdAt(draw)))
  }

  /** The state after an interleaving of steps. */
  function Run(s: State, steps: seq<Step>): State
    decreases |steps|
  {
    if steps == [] then s else Run(Next(s, steps[0]).state, steps[1..])
  }

  // What every step keeps

  predicate PermitsBalance(s: State) {
    s.free + |s.allocations| + |s.calls| == SLOTS
  }

  /** The calls that take an event out, and those that give a buffer back. */
  function Polls(s: State): set<nat> {
    set c | c in s.calls && s.calls[c] != Freeing
  }

  function Frees(s: State): set<nat> {
    set c | c in s.calls && s.calls[c] == Freeing
  }

  lemma HoldersSplit(s: State)
    ensures |s.calls| == |Polls(s)| + |Frees(s)|
  {
    assert s.calls.Keys == Polls(s) + Frees(s) && Polls(s) !! Frees(s);
    assert |s.calls| == |s.calls.Keys|;
  }

  predicate QueueIsRest(s: State) {
    s.received + s.queue == s.sent
  }

  predicate IdsBalance(s: State) {
    multiset(Ids(s.issued)) == multiset(s.freed) + multiset(s.allocations.Keys)
  }

  predicate DrawsInOrder(s: State) {
    && (forall k | 0 <= k < |s.issued| :: s.issued[k] < s.draws)
    && (forall j, k | 0 <= j < k < |s.issued| :: s.issued[j] < s.issued[k])
    && 0 !in s.allocations
  }

  ghost predicate IsCarried(s: State, event: nat) {
    exists call: nat :: Carries(s, call, event)
  }

  /** Each received event is carried by one poll or was delivered once. */
  ghost predicate EventsBalance(s: State) {
    && (forall call: nat, e: nat | Carries(s, call, e) :: e < |s.received| && e !in s.delivered)
    && (forall a: nat, b: nat, e: nat | Carries(s, a, e) && Carries(s, b, e) :: a == b)
    && (forall k | 0 <= k < |s.delivered| :: s.delivered[k] < |s.received|)
    && (forall j, k | 0 <= j < k < |s.delivered| :: s.delivered[j] != s.delivered[k])
    && (forall e: nat | e < |s.received| && e !in s.delivered :: IsCarried(s, e))
  }

  ghost predicate Invariant(s: State) {
    PermitsBalance(s) && QueueIsRest(s) && IdsBalance(s) && DrawsInOrder(s) && EventsBalance(s)
  }

  lemma KeyKept<V>(m: map<nat, V>, k: nat, v: V)
    requires k in m
    ensures |m[k := v]| == |m| && m[k := v].Keys == m.Keys
  {
    assert m[k := v].Keys == m.Keys;
    assert |m[k := v].Keys| == |m.Keys|;
  }

  lemma ReserveKeeps(s: State, call: nat)
    requires Invariant(s)
    ensures Invariant(Next(s, Reserve(call)).state)
  {
    var t := Next(s, Reserve(call)).state;
    if t != s {
      KeyAdded(s.calls, call, Permitted);
      assert forall c: nat, e: nat :: Carries(t, c, e) <==> Carries(s, c, e);
      CarriedStay(s, t);
    }
  }

  /** Nothing changes for the events when the same polls carry the same ones. */
  lemma CarriedStay(s: State, t: State)
    requires forall c: nat, e: nat :: Carries(t, c, e) <==> Carries(s, c, e)
    requires t.received == s.received && t.delivered == s.delivered && EventsBalance(s)
    ensures EventsBalance(t)
  {
    forall e: nat | e < |t.received| && e !in t.delivered
      ensures IsCarried(t, e)
    {
      assert IsCarried(s, e);
      var c: nat :| Carries(s, c, e);
      assert Carries(t, c, e);
    }
  }

  lemma SendKeeps(s: State, event: string)
    requires Invariant(s)
    ensures Invariant(Next(s, Send(event)).state)
  {
    var t := Next(s, Send(event)).state;
    assert forall c: nat, e: nat :: Carries(t, c, e) <==> Carries(s, c, e);
    CarriedStay(s, t);
    assert s.received + (s.queue + [event]) == (s.received + s.queue) + [event];
  }

  lemma ReceiveKeeps(s: State, call: nat)
    requires Invariant(s)
    ensures Invariant(Next(s, Receive(call)).state)
  {
    var t := Next(s, Receive(call)).state;
    if t != s {
      var n := |s.received|;
      KeyKept(s.calls, call, Took(Some(n)));
      assert s.received + [s.queue[0]] + s.queue[1..] == s.received + s.queue;
      assert forall c: nat, e: nat :: Carries(t, c, e) <==> (Carries(s, c, e) && c != call) || (c == call && e == n);
      assert forall e: nat :: !Carries(s, call, e);
      forall e: nat | e < |t.received| && e !in t.delivered
        ensures IsCarried(t, e)
      {
        if e == n {
          assert Carries(t, call, e);
        } else {
          assert IsCarried(s, e);
          var c: nat :| Carries(s, c, e);
          assert Carries(t, c, e);
        }
      }
    }
  }

  lemma MissKeeps(s: State, call: nat)
    requires Invariant(s)
    ensures Invariant(Next(s, Miss(call)).state)
  {
    var t := Next(s, Miss(call)).state;
    if t != s {
      KeyKept(s.calls, call, Took(None));
      assert forall c: nat, e: nat :: Carries(t, c, e) <==> Carries(s, c, e);
      CarriedStay(s, t);
    }
  }

  /** A number leaves the registry and is noted as freed. */
  lemma FreedMoves(s: State, t: State, id: nat)
    requires IdsBalance(s) && DrawsInOrder(s) && id in s.allocations
    requires t.allocations == s.allocations - {id} && t.freed == s.freed + [id]
    requires t.issued == s.issued && t.draws == s.draws
    ensures IdsBalance(t) && DrawsInOrder(t)
  {
    KeyRemoved(s.allocations, id);
    assert multiset(t.freed) == multiset(s.freed) + multiset{id};
    assert multiset(s.allocations.Keys) == multiset(t.allocations.Keys) + multiset{id};
  }

  lemma UnregisterKeeps(s: State, call: nat, id: nat, bytes: string)
    requires Invariant(s)
    ensures Invariant(Next(s, Unregister(call, id, bytes)).state)
  {
    hide IdsBalance, DrawsInOrder;
    var t := Next(s, Unregister(call, id, bytes)).state;
    if t != s {
      KeyRemoved(s.allocations, id);
      KeyAdded(s.calls, call, Freeing);
      FreedMoves(s, t, id);
      assert forall c: nat, e: nat :: Carries(t, c, e) <==> Carries(s, c, e);
      CarriedStay(s, t);
    }
  }

  lemma ReleaseKeeps(s: State, call: nat)
    requires Invariant(s)
    ensures Invariant(Next(s, Release(call)).state)
  {
    var t := Next(s, Release(call)).state;
    if t != s {
      KeyRemoved(s.calls, call);
      assert forall c: nat, e: nat :: Carries(t, c, e) <==> Carries(s, c, e);
      CarriedStay(s, t);
    }
  }

  lemma EmptyWriteKeeps(s: State, call: nat)
    requires Invariant(s) && call in s.calls && s.calls[call] == Took(None)
    ensures Invariant(WriteOutput(s, call).state)
  {
    var t := WriteOutput(s, call).state;
    KeyRemoved(s.calls, call);
    assert forall c: nat, e: nat :: Carries(t, c, e) <==> Carries(s, c, e);
    CarriedStay(s, t);
  }

  /** The event moves from the poll that carried it to those delivered. */
  lemma DeliveredMoves(s: State, t: State, call: nat, event: nat)
    requires EventsBalance(s) && Carries(s, call, event)
    requires t.calls == s.calls - {call} && t.received == s.received && t.delivered == s.delivered + [event]
    ensures EventsBalance(t)
  {
    assert forall c: nat, e: nat :: Carries(t, c, e) <==> Carries(s, c, e) && c != call;
    assert forall e: nat :: e in t.delivered <==> e in s.delivered || e == event;
    assert forall k | 0 <= k < |s.delivered| :: t.delivered[k] == s.delivered[k] && s.delivered[k] in s.delivered;
    forall e: nat | e < |t.received| && e !in t.delivered
      ensures IsCarried(t, e)
    {
      assert IsCarried(s, e);
      var c: nat :| Carries(s, c, e);
      assert Carries(t, c, e);
    }
  }

  lemma IssuedMoves(s: State, t: State, draw: nat, bytes: string)
    requires IdsBalance(s) && DrawsInOrder(s) && s.draws <= draw && IdAt(draw) !in s.allocations && IdAt(draw) != 0
    requires t.allocations == s.allocations[IdAt(draw) := bytes] && t.freed == s.freed
    requires t.issued == s.issued + [draw] && t.draws == draw + 1
    ensures IdsBalance(t) && DrawsInOrder(t)
  {
    hide IdAt;
    var id := IdAt(draw);
    KeyAdded(s.allocations, id, bytes);
    assert Ids(t.issued) == Ids(s.issued) + [id];
    assert multiset(Ids(t.issued)) == multiset(Ids(s.issued)) + multiset{id};
    assert multiset(t.allocations.Keys) == multiset(s.allocations.Keys) + multiset{id};
  }

  lemma WriteKeeps(s: State, call: nat)
    requires Invariant(s)
    ensures Invariant(WriteOutput(s, call).state)
  {
    hide IdsBalance, DrawsInOrder, EventsBalance, IdAt;
    var t := WriteOutput(s, call).state;
    if call in s.calls && s.calls[call] == Took(None) {
      EmptyWriteKeeps(s, call);
    } else if t != s {
      var event := s.calls[call].event.value;
      assert Carries(s, call, event);
      var draw := FirstFree(s.draws, s.draws, s.allocations.Keys);
      KeyRemoved(s.calls, call);
      KeyAdded(s.allocations, IdAt(draw), s.received[event]);
      DeliveredMoves(s, t, call, event);
      IssuedMoves(s, t, draw, s.received[event]);
    }
  }

  lemma StepKeeps(s: State, step: Step)
    requires Invariant(s)
    ensures Invariant(Next(s, step).state)
  {
    hide Invariant, WriteOutput;
    match step
    case Send(event) => SendKeeps(s, event);
    case Reserve(call) => ReserveKeeps(s, call);
    case Receive(call) => ReceiveKeeps(s, call);
    case Miss(call) => MissKeeps(s, call);
    case Write(call) => WriteKeeps(s, call);
    case Unregister(call, id, bytes) => UnregisterKeeps(s, call, id, bytes);
    case Release(call) => ReleaseKeeps(s, call);
  }

  lemma {:induction false} RunKeeps(s: State, steps: seq<Step>)
    requires Invariant(s)
    ensures Invariant(Run(s, steps))
    decreases |steps|
  {
    hide Invariant, Next;
    if steps != [] {
      StepKeeps(s, steps[0]);
      RunKeeps(Next(s, steps[0]).state, steps[1..]);
    }
  }

  lemma InitialHolds()
    ensures Invariant(INITIAL)
  {
  }

  // Results for every interleaving

  /** Free permits, registered buffers, and the polls and freeing calls that hold a permit are always as many
      as the slots; the events received are those sent first, in their order; each of them is carried by one
      poll or delivered once. */
  lemma EveryRunBalances(steps: seq<Step>)
    ensures var s := Run(INITIAL, steps);
            && s.free + |s.allocations| + |Polls(s)| + |Frees(s)| == SLOTS
            && |s.received| <= |s.sent| && s.received == s.sent[..|s.received|]
            && EventsBalance(s)
  {
    hide Run, EventsBalance;
    InitialHolds();
    RunKeeps(INITIAL, steps);
    var s := Run(INITIAL, steps);
    HoldersSplit(s);
    assert s.sent[..|s.received|] == s.received;
  }

  /** A buffer is freed at most as often as its number was issued. */
  lemma FreedAsOftenAsIssued(steps: seq<Step>, id: nat)
    ensures var s := Run(INITIAL, steps);
            multiset(s.freed)[id] + (if id in s.allocations then 1 else 0) == multiset(Ids(s.issued))[id]
  {
    hide Run;
    InitialHolds();
    RunKeeps(INITIAL, steps);
    var s := Run(INITIAL, steps);
    assert multiset(s.allocations.Keys)[id] == if id in s.allocations then 1 else 0;
  }

  /** Until the counter wraps, a number once freed is never in use again, and freeing it again is refused. */
  lemma FreedForGood(steps: seq<Step>, call: nat, id: nat, bytes: string)
    requires Run(INITIAL, steps).draws <= MODULUS && id in Run(INITIAL, steps).freed
    ensures var s := Run(INITIAL, steps);
            && multiset(s.freed)[id] == 1 && id !in s.allocations
            && (call !in s.calls ==> Next(s, Unregister(call, id, bytes)) == Turn(s, Invalid))
  {
    hide Run;
    FreedAsOftenAsIssued(steps, id);
    InitialHolds();
    RunKeeps(INITIAL, steps);
    var s := Run(INITIAL, steps);
    DistinctIds(s.issued, s.draws, id);
  }

  /** A poll finds no permit exactly when registered buffers, polls and freeing calls fill the slots, and then
      it takes no event and changes nothing. */
  lemma ExhaustedTakesNothing(steps: seq<Step>, call: nat)
    requires call !in Run(INITIAL, steps).calls
    ensures var s := Run(INITIAL, steps);
            && (Next(s, Reserve(call)).outcome == Exhausted <==> |s.allocations| + |Polls(s)| + |Frees(s)| == SLOTS)
            && (Next(s, Reserve(call)).outcome == Exhausted ==> Next(s, Reserve(call)).state == s)
  {
    hide Run;
    EveryRunBalances(steps);
  }

  /** With every permit taken, a buffer that is freed makes room for a poll when the freeing call drops it, and
      not before: between the two steps polls are still refused although a registered buffer fewer exists. */
  lemma RoomComesWithRelease(steps: seq<Step>, freeing: nat, poll: nat, id: nat, bytes: string)
    requires Run(INITIAL, steps).free == 0 && freeing != poll
    requires freeing !in Run(INITIAL, steps).calls && poll !in Run(INITIAL, steps).calls
    requires Next(Run(INITIAL, steps), Unregister(freeing, id, bytes)).outcome == Done
    ensures var s := Run(INITIAL, steps);
            var between := Next(s, Unregister(freeing, id, bytes)).state;
            var after := Next(between, Release(freeing)).state;
            && |between.allocations| + 1 == |s.allocations| && Polls(between) == Polls(s)
            && Next(between, Reserve(poll)) == Turn(between, Exhausted)
            && Next(after, Reserve(poll)).outcome == Done
  {
    hide Run;
    var s := Run(INITIAL, steps);
    KeyRemoved(s.allocations, id);
  }

  /** A poll that holds an event always finds a number for it: writing never gets stuck. */
  lemma WritingSucceeds(steps: seq<Step>, call: nat)
    requires call in Run(INITIAL, steps).calls && Run(INITIAL, steps).calls[call].Took?
    ensures var s := Run(INITIAL, steps);
            var turn := Next(s, Write(call));
            if s.calls[call].event.None? then turn.outcome == Empty
            else turn.outcome.Written? && turn.outcome.id !in s.allocations && turn.outcome.id != 0 &&
                 turn.state.allocations == s.allocations[turn.outcome.id := s.received[s.calls[call].event.value]]
  {
    hide Run, IdAt;
    InitialHolds();
    RunKeeps(INITIAL, steps);
    var s := Run(INITIAL, steps);
    if s.calls[call].event.Some? {
      assert Carries(s, call, s.calls[call].event.value);
    }
  }
}
