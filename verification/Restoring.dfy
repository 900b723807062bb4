/** The streamed restorer: markers in model output become the spans they stand for. */
module Restoring {
  import opened Texts
  import opened Markers

  datatype ProtectedSpan = ProtectedSpan(token: Text, source: Text, replacement: Text)

  datatype RestoreError = DuplicateMarker | MissingMarker | InvalidMarker

  predicate Marked(spans: seq<ProtectedSpan>, i: nat) {
    i < |spans| && IsMarker(spans[i].token)
  }

  predicate Apart(spans: seq<ProtectedSpan>, i: nat, j: nat) {
    Marked(spans, i) && Marked(spans, j) && Head(spans[i].token) != Head(spans[j].token)
  }

  /** What protection guarantees about its spans: markers with pairwise different indices. */
  predicate WellFormed(spans: seq<ProtectedSpan>) {
    && (forall i {:trigger Marked(spans, i)} | 0 <= i < |spans| :: Marked(spans, i))
    && (forall i, j {:trigger Apart(spans, i, j)} | 0 <= i < j < |spans| :: Apart(spans, i, j))
  }

  // ---------------------------------------------------------------------------------------------
  // Reference: leftmost replacement over a whole text.

  /** A restored text, and the spans consumed while producing it, in order. */
  datatype Restoration = Restoration(text: Text, used: seq<nat>)

  /** The first span whose marker opens `text`. */
  function MarkerHere(text: Text, spans: seq<ProtectedSpan>, i: nat := 0): (found: Option<nat>)
    requires i <= |spans|
    ensures found.Some? ==> i <= found.value < |spans| && OccursAt(text, spans[found.value].token, 0)
    ensures found.None? ==> forall j :: i <= j < |spans| ==> !OccursAt(text, spans[j].token, 0)
    decreases |spans| - i
  {
    if i == |spans| then None
    else if OccursAt(text, spans[i].token, 0) then Some(i)
    else MarkerHere(text, spans, i + 1)
  }

  /** Reads `text` from the left, replacing every marker met and copying every other byte. */
  function Restore(text: Text, spans: seq<ProtectedSpan>): (r: Restoration)
    requires WellFormed(spans)
    ensures forall i :: i in r.used ==> i < |spans|
    decreases |text|
  {
    if text == [] then Restoration([], [])
    else
      match MarkerHere(text, spans)
      case Some(i) =>
        assert Marked(spans, i);
        var rest := Restore(text[|spans[i].token|..], spans);
        Restoration(spans[i].replacement + rest.text, [i] + rest.used)
      case None =>
        var rest := Restore(text[1..], spans);
        Restoration([text[0]] + rest.text, rest.used)
  }

  ghost predicate NoMarkerBefore(text: Text, spans: seq<ProtectedSpan>, n: nat) {
    forall i, at :: 0 <= i < |spans| && 0 <= at < n ==> !OccursAt(text, spans[i].token, at)
  }

  lemma NoMarkerInTail(text: Text, spans: seq<ProtectedSpan>, n: nat)
    requires 1 <= n <= |text| && NoMarkerBefore(text, spans, n)
    ensures NoMarkerBefore(text[1..], spans, n - 1)
  {
    assert text[1..] == text[1..|text|];
    forall i, at | 0 <= i < |spans| && 0 <= at < n - 1
      ensures !OccursAt(text[1..], spans[i].token, at)
    {
      if OccursAt(text[1..], spans[i].token, at) {
        OccursInSlice(text, 1, |text|, spans[i].token, at);
      }
    }
  }

  lemma {:induction false} RestoreCopies(text: Text, spans: seq<ProtectedSpan>, n: nat)
    requires WellFormed(spans) && n <= |text|
    requires NoMarkerBefore(text, spans, n)
    ensures Restore(text, spans).text == text[..n] + Restore(text[n..], spans).text
    ensures Restore(text, spans).used == Restore(text[n..], spans).used
    decreases n
  {
    hide IsMarker, MarkerHere, OccursAt;
    if n == 0 {
      assert text[0..] == text;
    } else {
      assert MarkerHere(text, spans).None?;
      NoMarkerInTail(text, spans, n);
      RestoreCopies(text[1..], spans, n - 1);
      assert text[1..][n - 1..] == text[n..];
      assert [text[0]] + text[1..][..n - 1] == text[..n];
    }
  }

  lemma RestoreReplaces(text: Text, spans: seq<ProtectedSpan>, i: nat)
    requires WellFormed(spans) && i < |spans|
    requires OccursAt(text, spans[i].token, 0)
    ensures var rest := Restore(text[|spans[i].token|..], spans);
            Restore(text, spans) == Restoration(spans[i].replacement + rest.text, [i] + rest.used)
  {
    var j := MarkerHere(text, spans).value;
    assert Marked(spans, i) && Marked(spans, j);
    HeadsDecide(text, spans[i].token, spans[j].token, 0);
    assert i == j by {
      assert i < j ==> Apart(spans, i, j);
      assert j < i ==> Apart(spans, j, i);
    }
  }

  /** The leftmost marker is replaced in place; the reading goes on behind it. */
  lemma RestoreLeftmost(text: Text, spans: seq<ProtectedSpan>, at: nat, i: nat)
    requires WellFormed(spans) && i < |spans|
    requires OccursAt(text, spans[i].token, at) && NoMarkerBefore(text, spans, at)
    ensures var rest := Restore(text[at + |spans[i].token|..], spans);
            Restore(text, spans) == Restoration(text[..at] + spans[i].replacement + rest.text, [i] + rest.used)
  {
    RestoreCopies(text, spans, at);
    var tail, token := text[at..], spans[i].token;
    assert OccursAt(tail, token, 0) by {
      assert tail == text[at..|text|];
      OccursWithin(text, at, |text|, token, at);
    }
    assert tail[|token|..] == text[at + |token|..];
    RestoreReplaces(tail, spans, i);
    var rest := Restore(text[at + |token|..], spans);
    assert text[..at] + (spans[i].replacement + rest.text) == text[..at] + spans[i].replacement + rest.text;
  }

  // ---------------------------------------------------------------------------------------------
  // The streaming algorithm.

  predicate EndsWithPrefix(text: Text, token: Text, size: nat) {
    size <= |text| && size <= |token| && text[|text| - size..] == token[..size]
  }

  /** The longest prefix of `token`, of at most `size` bytes, that ends `text`. */
  function LongestSuffix(text: Text, token: Text, size: nat): (k: nat)
    requires size <= |text| && size <= |token|
    ensures k <= size && EndsWithPrefix(text, token, k)
    ensures forall m :: k < m <= size ==> !EndsWithPrefix(text, token, m)
  {
    if size == 0 || EndsWithPrefix(text, token, size) then size
    else LongestSuffix(text, token, size - 1)
  }

  function Overlap(text: Text, token: Text): (k: nat)
    ensures EndsWithPrefix(text, token, k)
    ensures forall m: nat :: EndsWithPrefix(text, token, m) ==> m <= k
  {
    LongestSuffix(text, token, if |text| < |token| then |text| else |token|)
  }

  /** The first span whose marker could have begun at the end of `text`. */
  function Owner(text: Text, spans: seq<ProtectedSpan>, i: nat := 0): (owner: nat)
    requires i <= |spans|
    ensures i <= owner <= |spans|
    ensures owner < |spans| ==> Overlap(text, spans[owner].token) > 0
    ensures forall j :: i <= j < owner ==> Overlap(text, spans[j].token) == 0
    decreases |spans| - i
  {
    if i == |spans| || Overlap(text, spans[i].token) > 0 then i else Owner(text, spans, i + 1)
  }

  /** The longest match of the first span that matches at all, not the longest over all spans. */
  function LongestMarkerPrefixSuffix(text: Text, spans: seq<ProtectedSpan>): (keep: nat)
    ensures keep <= |text|
  {
    var owner := Owner(text, spans);
    if owner < |spans| then Overlap(text, spans[owner].token) else 0
  }

  datatype Match = Match(position: nat, span: nat)

  /** The leftmost marker among the first `n` spans; the earlier span wins a tie. */
  function NextMarker(text: Text, spans: seq<ProtectedSpan>, n: nat): (found: Option<Match>)
    requires n <= |spans|
    ensures found.Some? ==>
              && found.value.span < n
              && OccursAt(text, spans[found.value.span].token, found.value.position)
              && forall i, at :: 0 <= i < n && 0 <= at < found.value.position ==> !OccursAt(text, spans[i].token, at)
    ensures found.None? ==> forall i, at :: 0 <= i < n && 0 <= at ==> !OccursAt(text, spans[i].token, at)
  {
    if n == 0 then None
    else
      var best := NextMarker(text, spans, n - 1);
      var found := FindFrom(text, spans[n - 1].token, 0);
      if found.None? || (best.Some? && best.value.position <= found.value) then best
      else Some(Match(found.value, n - 1))
  }

  datatype State = State(pending: Text, seen: seq<bool>)

  datatype Step = Step(state: State, result: Result<Text, RestoreError>)

  /** Appends text that must not contain the marker prefix. */
  function AppendPlain(output: Text, plain: Text): Result<Text, RestoreError> {
    if Contains(plain, PREFIX) then Err(InvalidMarker) else Ok(output + plain)
  }

  predicate Tracks(spans: seq<ProtectedSpan>, state: State) {
    WellFormed(spans) && |state.seen| == |spans|
  }

  /** Consumes complete markers from the left, then releases what cannot begin another one. */
  function Drain(spans: seq<ProtectedSpan>, state: State, output: Text): (step: Step)
    requires Tracks(spans, state)
    ensures Tracks(spans, step.state)
    decreases |state.pending|
  {
    match NextMarker(state.pending, spans, |spans|)
    case None =>
      var split := |state.pending| - LongestMarkerPrefixSuffix(state.pending, spans);
      Step(state.(pending := state.pending[split..]), AppendPlain(output, state.pending[..split]))
    case Some(Match(position, i)) =>
      assert Marked(spans, i);
      if state.seen[i] then Step(state, Err(DuplicateMarker))
      else
        match AppendPlain(output, state.pending[..position])
        case Err(e) => Step(state, Err(e))
        case Ok(copied) =>
          var rest := State(state.pending[position + |spans[i].token|..], state.seen[i := true]);
          Drain(spans, rest, copied + spans[i].replacement)
  }

  /** One turn of the loop: the leftmost marker is replaced and the rest is drained. */
  lemma DrainReplaces(spans: seq<ProtectedSpan>, state: State, output: Text, next: Match, rest: State, grown: Text)
    requires Tracks(spans, state)
    requires NextMarker(state.pending, spans, |spans|) == Some(next)
    requires !state.seen[next.span] && !Contains(state.pending[..next.position], PREFIX)
    requires rest.pending == state.pending[next.position + |spans[next.span].token|..]
    requires rest.seen == state.seen[next.span := true]
    requires grown == output + state.pending[..next.position] + spans[next.span].replacement
    ensures Drain(spans, state, output) == Drain(spans, rest, grown)
  {
    hide NextMarker, Contains, IsMarker, Overlap, Owner, LongestMarkerPrefixSuffix;
  }

  function PushStep(spans: seq<ProtectedSpan>, state: State, delta: Text): (step: Step)
    requires Tracks(spans, state)
    ensures Tracks(spans, step.state)
  {
    var fed := state.(pending := state.pending + delta);
    if spans == [] then Step(fed.(pending := []), Ok(fed.pending)) else Drain(spans, fed, [])
  }

  function FinishStep(spans: seq<ProtectedSpan>, state: State): (step: Step)
    requires Tracks(spans, state)
    ensures Tracks(spans, step.state)
  {
    var last := PushStep(spans, state, []);
    if last.result.Err? then last
    else
      var emptied := last.state.(pending := []);
      var output := if last.state.pending == [] then last.result
                    else AppendPlain(last.result.value, last.state.pending);
      if output.Err? then Step(emptied, output)
      else if exists i | 0 <= i < |emptied.seen| :: !emptied.seen[i] then Step(emptied, Err(MissingMarker))
      else Step(emptied, output)
  }

  /** A whole stream: every fragment is pushed, then the output is finished. */
  function Run(spans: seq<ProtectedSpan>, state: State, deltas: seq<Text>): Result<Text, RestoreError>
    requires Tracks(spans, state)
    decreases |deltas|
  {
    if deltas == [] then FinishStep(spans, state).result
    else
      var step := PushStep(spans, state, deltas[0]);
      if step.result.Err? then step.result
      else
        match Run(spans, step.state, deltas[1..])
        case Err(e) => Err(e)
        case Ok(rest) => Ok(step.result.value + rest)
  }

  function Fresh(spans: seq<ProtectedSpan>): State {
    State([], seq(|spans|, _ => false))
  }

  function Concat(deltas: seq<Text>): Text {
    if deltas == [] then [] else deltas[0] + Concat(deltas[1..])
  }

  // ---------------------------------------------------------------------------------------------
  // The object the rest of the system uses.

  class ProtectedTextRestorer {
    const spans: seq<ProtectedSpan>
    var pending: Text
    var seen: seq<bool>

    ghost predicate Valid()
      reads this
    {
      WellFormed(spans) && |seen| == |spans|
    }

    ghost function Abstract(): State
      reads this
    {
      State(pending, seen)
    }

    constructor (spans: seq<ProtectedSpan>)
      requires WellFormed(spans)
      ensures Valid() && this.spans == spans
      ensures Abstract() == Fresh(spans)
    {
      this.spans := spans;
      pending := [];
      seen := seq(|spans|, _ => false);
    }

    method Push(delta: Text) returns (result: Result<Text, RestoreError>)
      requires Valid()
      modifies this
      ensures Valid()
      ensures Step(Abstract(), result) == PushStep(spans, old(Abstract()), delta)
    {
      hide NextMarker, Contains, Overlap, Owner, LongestMarkerPrefixSuffix;
      pending := pending + delta;
      if spans == [] {
        result := Ok(pending);
        pending := [];
        return;
      }
      ghost var target := Drain(spans, Abstract(), []);
      var output: Text := [];
      while true
        invariant Valid()
        invariant Drain(spans, Abstract(), output) == target
        decreases |pending|
      {
        var next := NextMarker(pending, spans, |spans|);
        if next.None? {
          var split := |pending| - LongestMarkerPrefixSuffix(pending, spans);
          var plain := pending[..split];
          pending := pending[split..];
          result := AppendPlain(output, plain);
          return;
        }
        var position, index := next.value.position, next.value.span;
        if seen[index] {
          return Err(DuplicateMarker);
        }
        var copied := AppendPlain(output, pending[..position]);
        if copied.Err? {
          return copied;
        }
        ghost var before, sofar := Abstract(), output;
        output := copied.value + spans[index].replacement;
        pending := pending[position + |spans[index].token|..];
        seen := seen[index := true];
        assert Marked(spans, index);
        DrainReplaces(spans, before, sofar, next.value, Abstract(), output);
      }
    }

    method Finish() returns (result: Result<Text, RestoreError>)
      requires Valid()
      modifies this
      ensures Valid()
      ensures Step(Abstract(), result) == FinishStep(spans, old(Abstract()))
    {
      result := Push([]);
      if result.Err? {
        return;
      }
      if pending != [] {
        var plain := pending;
        pending := [];
        result := AppendPlain(result.value, plain);
        if result.Err? {
          return;
        }
      }
      if exists i | 0 <= i < |seen| :: !seen[i] {
        result := Err(MissingMarker);
      }
    }
  }
}
