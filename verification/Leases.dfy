/** File leases: a registry of one-shot tokens over shared atomic states, used by concurrent calls. */
module Leases {
  import opened Identifiers

  const MAX_LEASES: nat := 64

  datatype Lease = Active | Expired | Revoked

  /** A consuming call: it has cloned the lease, found it active, parsed the document, found it active
      again, and revoked it; the last step removes the number from the registry. */
  datatype Phase = Cloned | Acquired | Parsed | Checked | Withdrawn

  datatype Call = Call(id: nat, cell: nat, phase: Phase)

  /** `cells` are the shared states, `registry` says which one a number stands for. */
  datatype State = State(
    cells: seq<Lease>, registry: map<nat, nat>, draws: nat, calls: map<nat, Call>,
    issued: seq<nat>, consumed: seq<nat>, destroyed: seq<nat>)

  datatype Step =
    | Create
    | Expire(id: nat)
    | Revoke(id: nat)
    | Destroy(id: nat)
    | Clone(call: nat, id: nat)
    | Acquire(call: nat)
    | Parse(call: nat, accepted: bool)
    | Check(call: nat)
    | Withdraw(call: nat)
    | Remove(call: nat)

  datatype Outcome = Created(id: nat) | Done | Consumed(id: nat) | Exhausted | Invalid | Malformed | Going | NotEnabled

  datatype Turn = Turn(state: State, outcome: Outcome)

  const INITIAL: State := State([], map[], 0, map[], [], [], [])

  /** Compare-and-exchange: only an active lease changes. */
  function Exchange(lease: Lease, target: Lease): Lease {
    if lease == Active then target else lease
  }

  function SetCell(s: State, cell: nat, target: Lease): State
    requires cell < |s.cells|
  {
    s.(cells := s.cells[cell := Exchange(s.cells[cell], target)])
  }

  function Known(s: State, id: nat): bool {
    id in s.registry && s.registry[id] < |s.cells|
  }

  predicate InPhase(s: State, call: nat, phase: Phase) {
    call in s.calls && s.calls[call].phase == phase && s.calls[call].cell < |s.cells|
  }

  function Leave(s: State, call: nat): State {
    s.(calls := s.calls - {call})
  }

  function Enter(s: State, call: nat, phase: Phase): State
    requires call in s.calls
  {
    s.(calls := s.calls[call := s.calls[call].(phase := phase)])
  }

  function CreateLease(s: State): Turn {
    if |s.registry| >= MAX_LEASES then Turn(s, Exhausted)
    else
      var draw := FirstFree(s.draws, s.draws, s.registry.Keys);
      Turn(s.(cells := s.cells + [Active], registry := s.registry[IdAt(draw) := |s.cells|],
              draws := draw + 1, issued := s.issued + [draw]),
           Created(IdAt(draw)))
  }

  function Next(s: State, step: Step): Turn {
    match step
    case Create => CreateLease(s)
    case Expire(id) => if Known(s, id) then Turn(SetCell(s, s.registry[id], Expired), Done) else Turn(s, Invalid)
    case Revoke(id) => if Known(s, id) then Turn(SetCell(s, s.registry[id], Revoked), Done) else Turn(s, Invalid)
    case Destroy(id) =>
      if !Known(s, id) then Turn(s, Invalid)
      else Turn(SetCell(s, s.registry[id], Revoked).(registry := s.registry - {id}, destroyed := s.destroyed + [id]), Done)
    case Clone(call, id) =>
      if call in s.calls then Turn(s, NotEnabled)
      else if !Known(s, id) then Turn(s, Invalid)
      else Turn(s.(calls := s.calls[call := Call(id, s.registry[id], Cloned)]), Going)
    case Acquire(call) =>
      if !InPhase(s, call, Cloned) then Turn(s, NotEnabled)
      else if s.cells[s.calls[call].cell] != Active then Turn(Leave(s, call), Invalid)
      else Turn(Enter(s, call, Acquired), Going)
    case Parse(call, accepted) =>
      if !InPhase(s, call, Acquired) then Turn(s, NotEnabled)
      else if !accepted then Turn(Leave(s, call), Malformed)
      else Turn(Enter(s, call, Parsed), Going)
    case Check(call) =>
      if !InPhase(s, call, Parsed) then Turn(s, NotEnabled)
      else if s.cells[s.calls[call].cell] != Active then Turn(Leave(s, call), Invalid)
      else Turn(Enter(s, call, Checked), Going)
    case Withdraw(call) =>
      if !InPhase(s, call, Checked) then Turn(s, NotEnabled)
      else Turn(Enter(SetCell(s, s.calls[call].cell, Revoked), call, Withdrawn), Going)
    case Remove(call) => RemoveLease(s, call)
  }

  /** Whoever finds the number registered has consumed it. */
  function RemoveLease(s: State, call: nat): Turn {
    if !InPhase(s, call, Withdrawn) then Turn(s, NotEnabled)
    else
      var id := s.calls[call].id;
      if id !in s.registry then Turn(Leave(s, call), Invalid)
      else Turn(Leave(s, call).(registry := s.registry - {id}, consumed := s.consumed + [id]), Consumed(id))
  }

  function Run(s: State, steps: seq<Step>): State
    decreases |steps|
  {
    if steps == [] then s else Run(Next(s, steps[0]).state, steps[1..])
  }

  // What every step keeps

  predicate RegistrySound(s: State) {
    && |s.registry| <= MAX_LEASES && 0 !in s.registry
    && (forall id | id in s.registry :: s.registry[id] < |s.cells|)
    && (forall a, b | a in s.registry && b in s.registry && a != b :: s.registry[a] != s.registry[b])
  }

  /** A number in use was issued, and each time it was issued it was consumed or destroyed, or it is in use. */
  predicate IdsBalance(s: State) {
    multiset(Ids(s.issued)) == multiset(s.registry.Keys) + multiset(s.consumed) + multiset(s.destroyed)
  }

  predicate DrawsInOrder(s: State) {
    && (forall k | 0 <= k < |s.issued| :: s.issued[k] < s.draws)
    && (forall j, k | 0 <= j < k < |s.issued| :: s.issued[j] < s.issued[k])
  }

  /** A call past its revocation works on a lease that is no longer active. */
  predicate CallsSound(s: State) {
    forall call | call in s.calls ::
      s.calls[call].cell < |s.cells| &&
      (s.calls[call].phase == Withdrawn ==> s.cells[s.calls[call].cell] != Active)
  }

  predicate Invariant(s: State) {
    RegistrySound(s) && IdsBalance(s) && DrawsInOrder(s) && CallsSound(s)
  }

  /** No lease is lost, and a lease that expired or was revoked stays as it is. */
  predicate StatesStick(s: State, t: State) {
    |s.cells| <= |t.cells| &&
    forall o | 0 <= o < |s.cells| :: s.cells[o] != Active ==> t.cells[o] == s.cells[o]
  }

  lemma StatesStickOn(a: State, b: State, c: State)
    requires StatesStick(a, b) && StatesStick(b, c)
    ensures StatesStick(a, c)
  {
  }

  /** The books do not depend on the calls under way. */
  lemma SameBooks(s: State, t: State)
    requires t.registry == s.registry && |t.cells| == |s.cells| && t.draws == s.draws
    requires t.issued == s.issued && t.consumed == s.consumed && t.destroyed == s.destroyed
    ensures RegistrySound(s) ==> RegistrySound(t)
    ensures IdsBalance(s) ==> IdsBalance(t)
    ensures DrawsInOrder(s) ==> DrawsInOrder(t)
  {
  }

  lemma CreateKeeps(s: State)
    requires Invariant(s)
    ensures Invariant(CreateLease(s).state) && StatesStick(s, CreateLease(s).state)
  {
    hide IdAt, RegistrySound, IdsBalance, DrawsInOrder;
    var t := CreateLease(s).state;
    if t != s {
      var draw := FirstFree(s.draws, s.draws, s.registry.Keys);
      RegistryGrows(s, t, IdAt(draw));
      IssuedGrows(s, t, draw);
    }
  }

  lemma RegistryGrows(s: State, t: State, id: nat)
    requires RegistrySound(s) && |s.registry| < MAX_LEASES && id !in s.registry && id != 0
    requires t.registry == s.registry[id := |s.cells|] && |t.cells| == |s.cells| + 1
    ensures RegistrySound(t)
  {
    KeyAdded(s.registry, id, |s.cells|);
  }

  lemma IssuedGrows(s: State, t: State, draw: nat)
    requires IdsBalance(s) && DrawsInOrder(s) && s.draws <= draw && IdAt(draw) !in s.registry
    requires t.registry.Keys == s.registry.Keys + {IdAt(draw)} && t.consumed == s.consumed && t.destroyed == s.destroyed
    requires t.issued == s.issued + [draw] && t.draws == draw + 1
    ensures IdsBalance(t) && DrawsInOrder(t)
  {
    hide IdAt, IdsBalance;
    IdsGrow(s, t, draw);
  }

  lemma IdsGrow(s: State, t: State, draw: nat)
    requires IdsBalance(s) && IdAt(draw) !in s.registry && t.issued == s.issued + [draw]
    requires t.registry.Keys == s.registry.Keys + {IdAt(draw)} && t.consumed == s.consumed && t.destroyed == s.destroyed
    ensures IdsBalance(t)
  {
    hide IdAt;
    assert Ids(t.issued) == Ids(s.issued) + [IdAt(draw)];
    assert multiset(t.registry.Keys) == multiset(s.registry.Keys) + multiset{IdAt(draw)};
  }

  lemma UpdateKeeps(s: State, cell: nat, target: Lease)
    requires Invariant(s) && cell < |s.cells| && target != Active
    ensures Invariant(SetCell(s, cell, target)) && StatesStick(s, SetCell(s, cell, target))
    ensures SetCell(s, cell, target).cells[cell] != Active
  {
    hide RegistrySound, IdsBalance, DrawsInOrder;
    SameBooks(s, SetCell(s, cell, target));
  }

  /** A number leaves the registry and is noted as consumed or destroyed. */
  lemma RegistryShrinks(s: State, t: State, id: nat)
    requires RegistrySound(s) && IdsBalance(s) && id in s.registry
    requires t.registry == s.registry - {id} && |t.cells| == |s.cells| && t.issued == s.issued
    requires multiset(t.consumed) + multiset(t.destroyed) == multiset(s.consumed) + multiset(s.destroyed) + multiset{id}
    ensures RegistrySound(t) && IdsBalance(t)
  {
    hide Ids;
    KeyRemoved(s.registry, id);
    var gone, after := multiset(s.consumed) + multiset(s.destroyed), multiset(t.consumed) + multiset(t.destroyed);
    assert multiset(Ids(s.issued)) == multiset(s.registry.Keys) + gone;
    assert multiset(Ids(t.issued)) == multiset(t.registry.Keys) + after;
  }

  lemma DestroyKeeps(s: State, id: nat)
    requires Invariant(s)
    ensures Invariant(Next(s, Destroy(id)).state) && StatesStick(s, Next(s, Destroy(id)).state)
  {
    hide RegistrySound, IdsBalance, DrawsInOrder;
    if Known(s, id) {
      UpdateKeeps(s, s.registry[id], Revoked);
      var t := Next(s, Destroy(id)).state;
      assert multiset(t.destroyed) == multiset(s.destroyed) + multiset{id};
      RegistryShrinks(SetCell(s, s.registry[id], Revoked), t, id);
      SameDraws(s, t);
    }
  }

  lemma SameDraws(s: State, t: State)
    requires t.draws == s.draws && t.issued == s.issued && DrawsInOrder(s)
    ensures DrawsInOrder(t)
  {
  }

  lemma RemoveKeeps(s: State, call: nat)
    requires Invariant(s)
    ensures Invariant(RemoveLease(s, call).state) && StatesStick(s, RemoveLease(s, call).state)
  {
    hide RegistrySound, IdsBalance, DrawsInOrder;
    var t := RemoveLease(s, call).state;
    if InPhase(s, call, Withdrawn) {
      var id := s.calls[call].id;
      SameDraws(s, t);
      if id in s.registry {
        assert multiset(t.consumed) == multiset(s.consumed) + multiset{id};
        RegistryShrinks(s, t, id);
      } else {
        SameBooks(s, t);
      }
    }
  }

  lemma PhaseKeeps(s: State, call: nat, phase: Phase)
    requires Invariant(s) && call in s.calls && s.calls[call].cell < |s.cells|
    requires phase == Withdrawn ==> s.cells[s.calls[call].cell] != Active
    ensures Invariant(Enter(s, call, phase)) && Invariant(Leave(s, call))
  {
    hide RegistrySound, IdsBalance, DrawsInOrder;
    SameBooks(s, Enter(s, call, phase));
    SameBooks(s, Leave(s, call));
  }

  lemma StepKeeps(s: State, step: Step)
    requires Invariant(s)
    ensures Invariant(Next(s, step).state) && StatesStick(s, Next(s, step).state)
  {
    hide Invariant, RemoveLease, CreateLease, IdsBalance, RegistrySound;
    match step
    case Create => CreateKeeps(s);
    case Expire(id) => if Known(s, id) { UpdateKeeps(s, s.registry[id], Expired); }
    case Revoke(id) => if Known(s, id) { UpdateKeeps(s, s.registry[id], Revoked); }
    case Destroy(id) => DestroyKeeps(s, id);
    case Clone(call, id) => CloneKeeps(s, call, id);
    case Acquire(call) => if InPhase(s, call, Cloned) { PhaseKeeps(s, call, Acquired); }
    case Parse(call, accepted) => if InPhase(s, call, Acquired) { PhaseKeeps(s, call, Parsed); }
    case Check(call) => if InPhase(s, call, Parsed) { PhaseKeeps(s, call, Checked); }
    case Withdraw(call) => WithdrawKeeps(s, call);
    case Remove(call) => RemoveKeeps(s, call);
  }

  lemma CloneKeeps(s: State, call: nat, id: nat)
    requires Invariant(s)
    ensures Invariant(Next(s, Clone(call, id)).state) && StatesStick(s, Next(s, Clone(call, id)).state)
  {
    hide RegistrySound, IdsBalance, DrawsInOrder;
    SameBooks(s, Next(s, Clone(call, id)).state);
  }

  lemma WithdrawKeeps(s: State, call: nat)
    requires Invariant(s)
    ensures Invariant(Next(s, Withdraw(call)).state) && StatesStick(s, Next(s, Withdraw(call)).state)
  {
    hide Invariant;
    if InPhase(s, call, Checked) {
      var cell := s.calls[call].cell;
      UpdateKeeps(s, cell, Revoked);
      PhaseKeeps(SetCell(s, cell, Revoked), call, Withdrawn);
    }
  }

  lemma {:induction false} RunKeeps(s: State, steps: seq<Step>)
    requires Invariant(s)
    ensures Invariant(Run(s, steps)) && StatesStick(s, Run(s, steps))
    decreases |steps|
  {
    hide Invariant, Next, StatesStick;
    if steps == [] {
      SameSticks(s);
    } else {
      var t := Next(s, steps[0]).state;
      StepKeeps(s, steps[0]);
      RunKeeps(t, steps[1..]);
      StatesStickOn(s, t, Run(s, steps));
    }
  }

  lemma SameSticks(s: State)
    ensures StatesStick(s, s)
  {
  }

  lemma InitialHolds()
    ensures Invariant(INITIAL)
  {
  }

  // Results for every interleaving

  /** The registry never holds more than its limit, and a lease keeps the first state in which it ended,
      however the run goes on. */
  lemma RegistryIsBoundedAndStatesAreFinal(steps: seq<Step>, more: seq<Step>)
    ensures |Run(INITIAL, steps).registry| <= MAX_LEASES
    ensures StatesStick(Run(INITIAL, steps), Run(Run(INITIAL, steps), more))
  {
    hide Run, Next, StatesStick;
    InitialHolds();
    RunKeeps(INITIAL, steps);
    RunKeeps(Run(INITIAL, steps), more);
  }

  /** However many calls consume at the same time, a number is consumed or destroyed at most as often as it
      was issued, and it is in use for the remaining one. */
  lemma ConsumedAsOftenAsIssued(steps: seq<Step>, id: nat)
    ensures var s := Run(INITIAL, steps);
            multiset(s.consumed)[id] + multiset(s.destroyed)[id] + (if id in s.registry then 1 else 0) ==
            multiset(Ids(s.issued))[id]
  {
    hide Run;
    InitialHolds();
    RunKeeps(INITIAL, steps);
  }

  /** Until the counter wraps, of all the calls that consume a number one returns success, the number is then
      gone from the registry for good, and it was not destroyed as well. */
  lemma ConsumedOnceAndGone(steps: seq<Step>, more: seq<Step>, id: nat)
    requires Run(Run(INITIAL, steps), more).draws <= MODULUS && id in Run(INITIAL, steps).consumed
    ensures var s := Run(Run(INITIAL, steps), more);
            multiset(s.consumed)[id] == 1 && id !in s.registry && id !in s.destroyed
  {
    hide Run;
    InitialHolds();
    RunKeeps(INITIAL, steps);
    HistoryGrows(Run(INITIAL, steps), more, id);
    var s := Run(Run(INITIAL, steps), more);
    RunKeeps(Run(INITIAL, steps), more);
    DistinctIds(s.issued, s.draws, id);
    assert multiset(s.registry.Keys)[id] == if id in s.registry then 1 else 0;
    assert id in s.consumed ==> multiset(s.consumed)[id] >= 1;
    assert id in s.destroyed ==> multiset(s.destroyed)[id] >= 1;
  }

  lemma {:induction false} HistoryGrows(s: State, steps: seq<Step>, id: nat)
    requires id in s.consumed
    ensures id in Run(s, steps).consumed
    decreases |steps|
  {
    hide IdAt, Exchange;
    if steps != [] {
      HistoryGrows(Next(s, steps[0]).state, steps[1..], id);
    }
  }

  /** A call that returns success leaves its lease in a final state. */
  lemma SuccessEndsTheLease(steps: seq<Step>, call: nat)
    requires Next(Run(INITIAL, steps), Remove(call)).outcome.Consumed?
    ensures var s := Run(INITIAL, steps); s.cells[s.calls[call].cell] != Active
  {
    hide Run;
    InitialHolds();
    RunKeeps(INITIAL, steps);
  }
}
