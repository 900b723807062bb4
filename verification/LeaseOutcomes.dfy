/** What a host's steps do to a lease, and when a consuming call ends in success. */
module LeaseOutcomes {
  import opened Identifiers
  import opened Leases

  /** Only the given state may differ, and the final state of a lease that has ended is not among it. */
  ghost predicate OnlyCell(s: State, t: State, cell: nat) {
    && |t.cells| == |s.cells|
    && forall o | 0 <= o < |s.cells| && o != cell :: t.cells[o] == s.cells[o]
  }

  /** What an answer of Done means: the lease of `id` has ended, in `target` if it was still active. */
  ghost predicate Ends(s: State, t: State, id: nat, target: Lease) {
    && id in s.registry && s.registry[id] < |s.cells| && OnlyCell(s, t, s.registry[id])
    && var cell := s.registry[id];
       && t.cells[cell] != Active
       && (s.cells[cell] == Active ==> t.cells[cell] == target)
       && (s.cells[cell] != Active ==> t.cells[cell] == s.cells[cell])
  }

  /**
   * In every reachable state the host's steps answer Done exactly for a registered number, and then
   * its lease has ended; any other number is refused and nothing changes. Destroying takes the number
   * out of the registry, and nothing else does.
   */
  lemma HostEndsTheLease(steps: seq<Step>, id: nat)
    ensures var s := Run(INITIAL, steps);
            var expired, revoked, destroyed := Next(s, Expire(id)), Next(s, Revoke(id)), Next(s, Destroy(id));
            && (id in s.registry ==>
                  && expired.outcome == Done && Ends(s, expired.state, id, Expired) && expired.state.registry == s.registry
                  && revoked.outcome == Done && Ends(s, revoked.state, id, Revoked) && revoked.state.registry == s.registry
                  && destroyed.outcome == Done && Ends(s, destroyed.state, id, Revoked)
                  && destroyed.state.registry == s.registry - {id})
            && (id !in s.registry ==> expired == revoked == destroyed == Turn(s, Invalid))
            && expired.state.calls == revoked.state.calls == destroyed.state.calls == s.calls
  {
    hide Run;
    InitialHolds();
    RunKeeps(INITIAL, steps);
  }

  /** A new lease is active, under a number that was not in use; the others stay as they are. */
  lemma CreatedIsActive(steps: seq<Step>)
    ensures var s := Run(INITIAL, steps);
            var turn := Next(s, Create);
            && (turn.outcome == Exhausted <==> |s.registry| == MAX_LEASES)
            && (turn.outcome == Exhausted ==> turn.state == s)
            && (turn.outcome != Exhausted ==>
                  && turn.outcome.Created? && turn.outcome.id !in s.registry && turn.outcome.id != 0
                  && turn.state.cells == s.cells + [Active]
                  && turn.state.registry == s.registry[turn.outcome.id := |s.cells|])
  {
    hide Run, FirstFree, IdAt;
    InitialHolds();
    RunKeeps(INITIAL, steps);
  }

  // ---------------------------------------------------------------------------------------------
  // A lease that has ended is not consumed any more.

  /** The call found its lease active for the second time. */
  predicate PastCheck(s: State, call: nat, cell: nat) {
    call in s.calls && s.calls[call].cell == cell && (s.calls[call].phase == Checked || s.calls[call].phase == Withdrawn)
  }

  ghost predicate NoneAdded(s: State, t: State, cell: nat) {
    forall call :: PastCheck(t, call, cell) ==> PastCheck(s, call, cell)
  }

  lemma StepAddsNone(s: State, step: Step, cell: nat)
    requires cell < |s.cells| && s.cells[cell] != Active
    ensures var t := Next(s, step).state;
            && cell < |t.cells| && t.cells[cell] == s.cells[cell] && NoneAdded(s, t, cell)
  {
    hide FirstFree, IdAt;
  }

  lemma {:induction false} RunAddsNone(s: State, steps: seq<Step>, cell: nat)
    requires cell < |s.cells| && s.cells[cell] != Active
    ensures var t := Run(s, steps);
            cell < |t.cells| && t.cells[cell] == s.cells[cell] && NoneAdded(s, t, cell)
    decreases |steps|
  {
    hide Next;
    if steps != [] {
      StepAddsNone(s, steps[0], cell);
      RunAddsNone(Next(s, steps[0]).state, steps[1..], cell);
    }
  }

  /**
   * From the moment a lease has ended, however the calls go on: whoever tries to acquire or to check
   * it is refused and leaves, and whoever still consumes it had passed the check before.
   */
  lemma EndedIsNotConsumed(s: State, more: seq<Step>, cell: nat, call: nat)
    requires cell < |s.cells| && s.cells[cell] != Active
    ensures var t := Run(s, more);
            && (InPhase(t, call, Cloned) && t.calls[call].cell == cell ==>
                  Next(t, Acquire(call)) == Turn(t.(calls := t.calls - {call}), Invalid))
            && (InPhase(t, call, Parsed) && t.calls[call].cell == cell ==>
                  Next(t, Check(call)) == Turn(t.(calls := t.calls - {call}), Invalid))
            && (Next(t, Remove(call)).outcome.Consumed? && t.calls[call].cell == cell ==> PastCheck(s, call, cell))
  {
    hide Run;
    RunAddsNone(s, more, cell);
  }

  /** In terms of the number: once the host ended its lease, only calls that were past the check consume it. */
  lemma HostStopsConsuming(steps: seq<Step>, step: Step, id: nat, more: seq<Step>, call: nat)
    requires step == Expire(id) || step == Revoke(id) || step == Destroy(id)
    requires Next(Run(INITIAL, steps), step).outcome == Done
    ensures var s := Run(INITIAL, steps);
            var t := Run(Next(s, step).state, more);
            && id in s.registry
            && (Next(t, Remove(call)).outcome.Consumed? && t.calls[call].cell == s.registry[id] ==>
                  PastCheck(s, call, s.registry[id]))
  {
    hide Run, Next, Ends;
    HostEndsTheLease(steps, id);
    var s := Run(INITIAL, steps);
    assert Ends(s, Next(s, step).state, id, if step.Expire? then Expired else Revoked);
    EndsIsFinal(s, Next(s, step).state, id, if step.Expire? then Expired else Revoked);
    EndedIsNotConsumed(Next(s, step).state, more, s.registry[id], call);
  }

  lemma EndsIsFinal(s: State, t: State, id: nat, target: Lease)
    requires Ends(s, t, id, target)
    ensures id in s.registry && s.registry[id] < |t.cells| && t.cells[s.registry[id]] != Active
  {
  }

  // ---------------------------------------------------------------------------------------------
  // A call that finds everything in order succeeds.

  predicate Concerns(step: Step, call: nat) {
    match step
    case Clone(c, _) => c == call
    case Acquire(c) => c == call
    case Parse(c, _) => c == call
    case Check(c) => c == call
    case Withdraw(c) => c == call
    case Remove(c) => c == call
    case _ => false
  }

  /** Steps of the host and of other calls. */
  predicate Others(steps: seq<Step>, call: nat) {
    forall k | 0 <= k < |steps| :: !Concerns(steps[k], call)
  }

  lemma OtherKeepsCall(s: State, step: Step, call: nat)
    requires !Concerns(step, call)
    ensures var t := Next(s, step).state;
            && |s.cells| <= |t.cells| && (call in t.calls <==> call in s.calls)
            && (call in s.calls ==> t.calls[call] == s.calls[call])
  {
    hide CreateLease, RemoveLease, Enter, Leave;
    match step
    case Create => CreateKeepsCalls(s);
    case Acquire(c) => PassKeepsCall(s, c, Acquired, call);
    case Parse(c, _) => PassKeepsCall(s, c, Parsed, call);
    case Check(c) => PassKeepsCall(s, c, Checked, call);
    case Withdraw(c) =>
      if InPhase(s, c, Checked) {
        PassKeepsCall(SetCell(s, s.calls[c].cell, Revoked), c, Withdrawn, call);
      }
    case Remove(c) => RemoveKeepsCall(s, c, call);
    case _ =>
  }

  lemma CreateKeepsCalls(s: State)
    ensures var t := CreateLease(s).state; |s.cells| <= |t.cells| && t.calls == s.calls
  {
    hide FirstFree, IdAt;
  }

  lemma PassKeepsCall(s: State, c: nat, phase: Phase, call: nat)
    requires c != call
    ensures |Leave(s, c).cells| == |s.cells| && (call in Leave(s, c).calls <==> call in s.calls)
    ensures call in s.calls ==> Leave(s, c).calls[call] == s.calls[call]
    ensures c in s.calls ==>
              && |Enter(s, c, phase).cells| == |s.cells| && (call in Enter(s, c, phase).calls <==> call in s.calls)
              && (call in s.calls ==> Enter(s, c, phase).calls[call] == s.calls[call])
  {
  }

  lemma RemoveKeepsCall(s: State, c: nat, call: nat)
    requires c != call
    ensures var t := RemoveLease(s, c).state;
            && |t.cells| == |s.cells| && (call in t.calls <==> call in s.calls)
            && (call in s.calls ==> t.calls[call] == s.calls[call])
  {
    hide Leave;
    PassKeepsCall(s, c, Withdrawn, call);
  }

  lemma {:induction false} OthersKeepCall(s: State, steps: seq<Step>, call: nat)
    requires Others(steps, call) && call in s.calls && s.calls[call].cell < |s.cells|
    ensures var t := Run(s, steps);
            |s.cells| <= |t.cells| && call in t.calls && t.calls[call] == s.calls[call]
    decreases |steps|
  {
    hide Next, Concerns;
    if steps != [] {
      OtherKeepsCall(s, steps[0], call);
      OthersKeepCall(Next(s, steps[0]).state, steps[1..], call);
    }
  }

  /** The call's lease as it is now. */
  function LeaseOf(s: State, call: nat): Lease
    requires call in s.calls && s.calls[call].cell < |s.cells|
  {
    s.cells[s.calls[call].cell]
  }

  ghost predicate Holds(s: State, call: nat, id: nat, cell: nat, phase: Phase) {
    && call in s.calls && s.calls[call] == Call(id, cell, phase) && cell < |s.cells|
  }

  /** The three stages of a call, each followed by steps of others: it goes on or it leaves with an error. */
  lemma AcquireDecides(s: State, call: nat, id: nat, cell: nat, others: seq<Step>)
    requires Holds(s, call, id, cell, Cloned) && Others(others, call)
    ensures var turn := Next(s, Acquire(call));
            if s.cells[cell] == Active then turn.outcome == Going && Holds(Run(turn.state, others), call, id, cell, Acquired)
            else turn.outcome == Invalid && call !in turn.state.calls
  {
    hide Run;
    if s.cells[cell] == Active {
      OthersKeepCall(Next(s, Acquire(call)).state, others, call);
    }
  }

  lemma ParseDecides(s: State, call: nat, id: nat, cell: nat, accepted: bool, others: seq<Step>)
    requires Holds(s, call, id, cell, Acquired) && Others(others, call)
    ensures var turn := Next(s, Parse(call, accepted));
            if accepted then turn.outcome == Going && Holds(Run(turn.state, others), call, id, cell, Parsed)
            else turn.outcome == Malformed && call !in turn.state.calls
  {
    hide Run;
    if accepted {
      OthersKeepCall(Next(s, Parse(call, accepted)).state, others, call);
    }
  }

  lemma CheckDecides(s: State, call: nat, id: nat, cell: nat, others: seq<Step>)
    requires Holds(s, call, id, cell, Parsed) && Others(others, call)
    ensures var turn := Next(s, Check(call));
            if s.cells[cell] == Active then turn.outcome == Going && Holds(Run(turn.state, others), call, id, cell, Checked)
            else turn.outcome == Invalid && call !in turn.state.calls
  {
    hide Run;
    if s.cells[cell] == Active {
      OthersKeepCall(Next(s, Check(call)).state, others, call);
    }
  }

  lemma WithdrawGoesOn(s: State, call: nat, id: nat, cell: nat, others: seq<Step>)
    requires Holds(s, call, id, cell, Checked) && Others(others, call)
    ensures var turn := Next(s, Withdraw(call));
            turn.outcome == Going && turn.state.cells[cell] != Active && Holds(Run(turn.state, others), call, id, cell, Withdrawn)
  {
    hide Run;
    OthersKeepCall(Next(s, Withdraw(call)).state, others, call);
  }

  lemma RemoveDecides(s: State, call: nat, id: nat, cell: nat)
    requires Holds(s, call, id, cell, Withdrawn)
    ensures var turn := Next(s, Remove(call));
            && call !in turn.state.calls
            && (id in s.registry ==> turn.outcome == Consumed(id) && turn.state.registry == s.registry - {id})
            && (id !in s.registry ==> turn.outcome == Invalid && turn.state.registry == s.registry)
  {
  }

  /** The states a call finds at its steps, when others take `between[k]` in front of its step `k`. */
  ghost function Before(s: State, call: nat, accepted: bool, between: seq<seq<Step>>, k: nat): State
    requires |between| == 5 && k < 5
  {
    if k == 0 then Run(s, between[0])
    else
      var own := [Acquire(call), Parse(call, accepted), Check(call), Withdraw(call)];
      Run(Next(Before(s, call, accepted, between, k - 1), own[k - 1]).state, between[k])
  }

  /**
   * A consuming call from its clone to its end, with any steps of the host and of other calls in
   * between. It ends in success if and only if it finds the lease active when it acquires it, the
   * document is accepted, it finds the lease active when it checks it, and its number is registered
   * when it removes it.
   */
  lemma ConsumesIffInOrder(s: State, call: nat, id: nat, cell: nat, accepted: bool, between: seq<seq<Step>>)
    requires Holds(s, call, id, cell, Cloned)
    requires |between| == 5 && forall k | 0 <= k < 5 :: Others(between[k], call)
    ensures Holds(Before(s, call, accepted, between, 0), call, id, cell, Cloned)
    ensures var found, parsing, checking, removing := Before(s, call, accepted, between, 0), Before(s, call, accepted, between, 1),
                Before(s, call, accepted, between, 2), Before(s, call, accepted, between, 4);
            Next(removing, Remove(call)).outcome == Consumed(id) <==>
            && found.cells[cell] == Active && accepted
            && cell < |checking.cells| && checking.cells[cell] == Active
            && id in removing.registry
  {
    hide Run, Next, Holds, Others;
    OthersHold(s, between[0], call, id, cell);
    var s0 := Before(s, call, accepted, between, 0);
    AcquireDecides(s0, call, id, cell, between[1]);
    var s1 := Before(s, call, accepted, between, 1);
    HeldIsCell(s0, call, id, cell, Cloned);
    if s0.cells[cell] == Active {
      ParseDecides(s1, call, id, cell, accepted, between[2]);
    } else {
      GoneStaysGone(Next(s0, Acquire(call)).state, between[1], call);
    }
    var s2 := Before(s, call, accepted, between, 2);
    if s0.cells[cell] == Active && accepted {
      HeldIsCell(s2, call, id, cell, Parsed);
      CheckDecides(s2, call, id, cell, between[3]);
      if s2.cells[cell] != Active {
        GoneStaysGone(Next(s2, Check(call)).state, between[3], call);
      }
    } else {
      if s0.cells[cell] == Active {
        GoneStaysGone(Next(s1, Parse(call, accepted)).state, between[2], call);
      } else {
        GoneStaysOut(s1, Parse(call, accepted), between[2], call);
      }
      GoneStaysOut(s2, Check(call), between[3], call);
    }
    var s3 := Before(s, call, accepted, between, 3);
    if s0.cells[cell] == Active && accepted && s2.cells[cell] == Active {
      HeldIsCell(s3, call, id, cell, Checked);
    }
    if call in s3.calls {
      WithdrawGoesOn(s3, call, id, cell, between[4]);
      RemoveDecides(Before(s, call, accepted, between, 4), call, id, cell);
    } else {
      GoneStaysOut(s3, Withdraw(call), between[4], call);
      GoneIsRefused(Before(s, call, accepted, between, 4), call);
    }
  }

  lemma HeldIsCell(s: State, call: nat, id: nat, cell: nat, phase: Phase)
    requires Holds(s, call, id, cell, phase)
    ensures cell < |s.cells| && call in s.calls
  {
  }

  lemma OthersHold(s: State, others: seq<Step>, call: nat, id: nat, cell: nat)
    requires Holds(s, call, id, cell, Cloned) && Others(others, call)
    ensures Holds(Run(s, others), call, id, cell, Cloned)
  {
    hide Run;
    OthersKeepCall(s, others, call);
  }

  lemma {:induction false} GoneStaysGone(s: State, others: seq<Step>, call: nat)
    requires call !in s.calls && Others(others, call)
    ensures call !in Run(s, others).calls
    decreases |others|
  {
    hide Next, Concerns;
    if others != [] {
      OtherKeepsCall(s, others[0], call);
      GoneStaysGone(Next(s, others[0]).state, others[1..], call);
    }
  }

  /** A call that has left takes no further step. */
  lemma GoneStaysOut(s: State, own: Step, others: seq<Step>, call: nat)
    requires call !in s.calls && Others(others, call)
    requires own.Parse? || own.Check? || own.Withdraw?
    requires Concerns(own, call)
    ensures call !in Run(Next(s, own).state, others).calls
  {
    hide Run;
    GoneStaysGone(Next(s, own).state, others, call);
  }

  lemma GoneIsRefused(s: State, call: nat)
    requires call !in s.calls
    ensures Next(s, Remove(call)).outcome == NotEnabled
  {
  }
}
