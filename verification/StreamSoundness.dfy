/** Whatever fragments arrive, a stream that succeeds equals leftmost replacement of the whole. */
module StreamSoundness {
  import opened Texts
  import opened Markers
  import opened Restoring

  lemma SuffixBytes(text: Text, token: Text, size: nat)
    requires EndsWithPrefix(text, token, size)
    ensures forall i :: 0 <= i < size ==> text[|text| - size + i] == token[i]
  {
    forall i | 0 <= i < size
      ensures text[|text| - size + i] == token[i]
    {
      assert text[|text| - size..][i] == token[..size][i];
    }
  }

  /** All markers open alike, so a short overlap with one is an overlap with any. */
  lemma ShortOverlapIsShared(text: Text, t: Text, u: Text, size: nat)
    requires IsMarker(t) && IsMarker(u) && size <= 23
    requires EndsWithPrefix(text, t, size)
    ensures EndsWithPrefix(text, u, size)
  {
    MarkerBytes(t);
    MarkerBytes(u);
    assert t[..size] == u[..size];
  }

  /**
   * When two markers both reach the end of a text and the earlier one has shown its index, the
   * later one has shown no more than its leading underscores.
   */
  lemma OverlapsAreFarApart(text: Text, t: Text, long: nat, u: Text, short: nat)
    requires IsMarker(t) && IsMarker(u)
    requires EndsWithPrefix(text, t, long) && EndsWithPrefix(text, u, short)
    requires 23 < long && short < long
    ensures short <= 2 && short + 23 <= long
  {
    MarkerBytes(t);
    MarkerBytes(u);
    SuffixBytes(text, t, long);
    SuffixBytes(text, u, short);
    var o := long - short;
    if 2 <= short {
      assert t[o] == text[|text| - long + o] == u[0];
      assert t[o + 1] == text[|text| - long + (o + 1)] == u[1];
    }
  }

  /** The bytes kept back cover every marker that could still be completed. */
  lemma KeepCovers(text: Text, spans: seq<ProtectedSpan>, j: nat, at: nat)
    requires WellFormed(spans) && j < |spans| && at < |text|
    requires EndsWithPrefix(text, spans[j].token, |text| - at)
    requires !Contains(text[..|text| - LongestMarkerPrefixSuffix(text, spans)], PREFIX)
    ensures |text| - LongestMarkerPrefixSuffix(text, spans) <= at
  {
    hide IsMarker, Head, Overlap, EndsWithPrefix, LongestSuffix;
    var long, keep := |text| - at, LongestMarkerPrefixSuffix(text, spans);
    var owner := Owner(text, spans);
    assert owner <= j;
    assert Marked(spans, j) && Marked(spans, owner) && Marked(spans, 0);
    if long <= 23 {
      ShortOverlapIsShared(text, spans[j].token, spans[0].token, long);
      assert owner == 0;
    } else if keep < long {
      OverlapsAreFarApart(text, spans[j].token, long, spans[owner].token, keep);
      PrefixAtSuffix(text, spans[j].token, long);
      var plain := text[..|text| - keep];
      assert plain == text[0..|text| - keep];
      if at + 23 <= |plain| {
        OccursWithin(text, 0, |text| - keep, PREFIX, at);
      }
    }
  }

  lemma PrefixAtSuffix(text: Text, token: Text, size: nat)
    requires IsMarker(token) && 23 <= size
    requires EndsWithPrefix(text, token, size)
    ensures OccursAt(text, PREFIX, |text| - size)
  {
    SuffixBytes(text, token, size);
    MarkerBytes(token);
    OccursFromBytes(text, PREFIX, |text| - size);
  }

  /** `used` lists, without repetition, exactly the spans marked between two `seen` vectors. */
  ghost predicate Accounts(before: seq<bool>, used: seq<nat>, after: seq<bool>) {
    && |before| == |after|
    && (forall k, l :: 0 <= k < l < |used| ==> used[k] != used[l])
    && (forall i :: i in used ==> i < |before| && !before[i])
    && (forall i :: 0 <= i < |before| ==> (after[i] <==> before[i] || i in used))
  }

  lemma AccountsCompose(a: seq<bool>, first: seq<nat>, b: seq<bool>, second: seq<nat>, c: seq<bool>)
    requires Accounts(a, first, b) && Accounts(b, second, c)
    ensures Accounts(a, first + second, c)
  {
    var used := first + second;
    forall k, l | 0 <= k < l < |used|
      ensures used[k] != used[l]
    {
      if k < |first| <= l {
        assert used[k] in first && used[l] in second;
      }
    }
  }

  /** A marker complete in `text` cannot be preceded by one that only `future` completes. */
  lemma NextMarkerIsFinal(text: Text, future: Text, spans: seq<ProtectedSpan>, next: Match)
    requires WellFormed(spans)
    requires NextMarker(text, spans, |spans|) == Some(next)
    ensures NoMarkerBefore(text + future, spans, next.position)
    ensures OccursAt(text + future, spans[next.span].token, next.position)
  {
    var whole := text + future;
    assert whole[0..|text|] == text;
    OccursInSlice(whole, 0, |text|, spans[next.span].token, next.position);
    assert Marked(spans, next.span);
    forall j, at | 0 <= j < |spans| && 0 <= at < next.position
      ensures !OccursAt(whole, spans[j].token, at)
    {
      if OccursAt(whole, spans[j].token, at) {
        assert Marked(spans, j);
        MarkersDoNotNest(whole, spans[j].token, spans[next.span].token, at, next.position);
        OccursWithin(whole, 0, |text|, spans[j].token, at);
      }
    }
  }

  /** Nothing released as plain text can later turn out to open a marker. */
  lemma ReleasedIsFinal(text: Text, future: Text, spans: seq<ProtectedSpan>)
    requires WellFormed(spans)
    requires NextMarker(text, spans, |spans|).None?
    requires !Contains(text[..|text| - LongestMarkerPrefixSuffix(text, spans)], PREFIX)
    ensures NoMarkerBefore(text + future, spans, |text| - LongestMarkerPrefixSuffix(text, spans))
  {
    var whole, split := text + future, |text| - LongestMarkerPrefixSuffix(text, spans);
    assert whole[0..|text|] == text;
    forall j, at | 0 <= j < |spans| && 0 <= at < split
      ensures !OccursAt(whole, spans[j].token, at)
    {
      var token := spans[j].token;
      if OccursAt(whole, token, at) {
        if at + |token| <= |text| {
          OccursWithin(whole, 0, |text|, token, at);
        } else {
          assert whole[at..at + |token|][..|text| - at] == text[at..];
          KeepCovers(text, spans, j, at);
        }
      }
    }
  }

  /** Releasing plain text costs nothing in the reference. */
  lemma ReleaseIsSound(spans: seq<ProtectedSpan>, text: Text, future: Text)
    requires WellFormed(spans)
    requires NextMarker(text, spans, |spans|).None?
    requires !Contains(text[..|text| - LongestMarkerPrefixSuffix(text, spans)], PREFIX)
    ensures var split := |text| - LongestMarkerPrefixSuffix(text, spans);
            var whole, left := Restore(text + future, spans), Restore(text[split..] + future, spans);
            text[..split] + left.text == whole.text && left.used == whole.used
  {
    hide NextMarker, Contains, LongestMarkerPrefixSuffix, Restore, WellFormed, NoMarkerBefore;
    var split := |text| - LongestMarkerPrefixSuffix(text, spans);
    ReleasedIsFinal(text, future, spans);
    RestoreCopies(text + future, spans, split);
    assert (text + future)[split..] == text[split..] + future;
    assert (text + future)[..split] == text[..split];
  }

  /** Replacing the leftmost marker is a step of the reference. */
  lemma ReplaceIsSound(spans: seq<ProtectedSpan>, text: Text, future: Text, next: Match)
    requires WellFormed(spans)
    requires NextMarker(text, spans, |spans|) == Some(next)
    ensures var span := spans[next.span];
            var whole := Restore(text + future, spans);
            var left := Restore(text[next.position + |span.token|..] + future, spans);
            && whole.text == text[..next.position] + span.replacement + left.text
            && whole.used == [next.span] + left.used
  {
    hide IsMarker, NextMarker, Restore, Contains;
    var whole, at, token := text + future, next.position, spans[next.span].token;
    NextMarkerIsFinal(text, future, spans, next);
    RestoreLeftmost(whole, spans, at, next.span);
    assert whole[at + |token|..] == text[at + |token|..] + future;
    assert whole[..at] == text[..at];
  }

  /** The spans that one drain consumes, in order. */
  ghost function Consumed(spans: seq<ProtectedSpan>, state: State, output: Text): seq<nat>
    requires Tracks(spans, state)
    requires Drain(spans, state, output).result.Ok?
    decreases |state.pending|
  {
    match NextMarker(state.pending, spans, |spans|)
    case None => []
    case Some(next) =>
      assert Marked(spans, next.span);
      var rest := State(state.pending[next.position + |spans[next.span].token|..], state.seen[next.span := true]);
      [next.span] + Consumed(spans, rest, output + state.pending[..next.position] + spans[next.span].replacement)
  }

  lemma ConsumedReplaces(spans: seq<ProtectedSpan>, state: State, output: Text, next: Match, rest: State, grown: Text)
    requires Tracks(spans, state) && Tracks(spans, rest)
    requires NextMarker(state.pending, spans, |spans|) == Some(next)
    requires !state.seen[next.span] && !Contains(state.pending[..next.position], PREFIX)
    requires rest.pending == state.pending[next.position + |spans[next.span].token|..]
    requires rest.seen == state.seen[next.span := true]
    requires grown == output + state.pending[..next.position] + spans[next.span].replacement
    ensures Drain(spans, state, output).result.Ok? && Drain(spans, rest, grown).result.Ok? ==>
              Consumed(spans, state, output) == [next.span] + Consumed(spans, rest, grown)
  {
    hide NextMarker, Contains, IsMarker, Overlap, Owner, LongestMarkerPrefixSuffix;
  }

  lemma {:induction false} DrainAccounts(spans: seq<ProtectedSpan>, state: State, output: Text)
    requires Tracks(spans, state)
    requires Drain(spans, state, output).result.Ok?
    ensures Accounts(state.seen, Consumed(spans, state, output), Drain(spans, state, output).state.seen)
    decreases |state.pending|
  {
    hide NextMarker, Contains, IsMarker, Overlap, Owner, LongestMarkerPrefixSuffix;
    match NextMarker(state.pending, spans, |spans|)
    case None =>
    case Some(next) =>
      assert Marked(spans, next.span);
      var rest := State(state.pending[next.position + |spans[next.span].token|..], state.seen[next.span := true]);
      var grown := output + state.pending[..next.position] + spans[next.span].replacement;
      DrainReplaces(spans, state, output, next, rest, grown);
      DrainAccounts(spans, rest, grown);
      AccountsCompose(state.seen, [next.span], rest.seen,
                      Consumed(spans, rest, grown), Drain(spans, rest, grown).state.seen);
  }

  /** What a drain has written, followed by the reference on what it keeps, is the reference. */
  ghost predicate Conserves(whole: Restoration, output: Text, used: seq<nat>, written: Text, left: Restoration) {
    && written + left.text == output + whole.text
    && whole.used == used + left.used
  }

  lemma ConservesStep(whole: Restoration, output: Text, plain: Text, i: nat, replacement: Text, middle: Restoration,
                      used: seq<nat>, written: Text, left: Restoration)
    requires whole == Restoration(plain + replacement + middle.text, [i] + middle.used)
    requires Conserves(middle, output + plain + replacement, used, written, left)
    ensures Conserves(whole, output, [i] + used, written, left)
  {
    assert output + (plain + replacement + middle.text) == output + plain + replacement + middle.text;
  }

  lemma DrainReleases(spans: seq<ProtectedSpan>, state: State, output: Text, future: Text)
    requires Tracks(spans, state)
    requires NextMarker(state.pending, spans, |spans|).None? && Drain(spans, state, output).result.Ok?
    ensures var step := Drain(spans, state, output);
            Conserves(Restore(state.pending + future, spans), output, [],
                      step.result.value, Restore(step.state.pending + future, spans))
  {
    hide NextMarker, Contains, IsMarker, Overlap, Owner, LongestMarkerPrefixSuffix, Restore;
    var text := state.pending;
    var split := |text| - LongestMarkerPrefixSuffix(text, spans);
    ReleaseIsSound(spans, text, future);
    var left := Restore(text[split..] + future, spans);
    assert output + text[..split] + left.text == output + (text[..split] + left.text);
  }

  lemma {:induction false} DrainIsSound(spans: seq<ProtectedSpan>, state: State, output: Text, future: Text)
    requires Tracks(spans, state)
    requires Drain(spans, state, output).result.Ok?
    ensures var step := Drain(spans, state, output);
            Conserves(Restore(state.pending + future, spans), output, Consumed(spans, state, output),
                      step.result.value, Restore(step.state.pending + future, spans))
    decreases |state.pending|
  {
    hide NextMarker, Contains, IsMarker, Overlap, Owner, LongestMarkerPrefixSuffix, Restore;
    var text := state.pending;
    match NextMarker(text, spans, |spans|)
    case None =>
      DrainReleases(spans, state, output, future);
    case Some(next) =>
      var span := spans[next.span];
      assert Marked(spans, next.span);
      var rest := State(text[next.position + |span.token|..], state.seen[next.span := true]);
      var grown := output + text[..next.position] + span.replacement;
      DrainReplaces(spans, state, output, next, rest, grown);
      ConsumedReplaces(spans, state, output, next, rest, grown);
      DrainIsSound(spans, rest, grown, future);
      ReplaceIsSound(spans, text, future, next);
      var step := Drain(spans, rest, grown);
      ConservesStep(Restore(text + future, spans), output, text[..next.position], next.span, span.replacement,
                    Restore(rest.pending + future, spans), Consumed(spans, rest, grown),
                    step.result.value, Restore(step.state.pending + future, spans));
  }

  /** `used` mentions every span of `spans` exactly once. */
  ghost predicate EachOnce(used: seq<nat>, n: nat) {
    && (forall k, l :: 0 <= k < l < |used| ==> used[k] != used[l])
    && (forall i :: i in used <==> 0 <= i < n)
  }

  lemma PushIsSound(spans: seq<ProtectedSpan>, state: State, delta: Text, future: Text)
    returns (used: seq<nat>)
    requires Tracks(spans, state) && spans != []
    requires PushStep(spans, state, delta).result.Ok?
    ensures var step := PushStep(spans, state, delta);
            && Accounts(state.seen, used, step.state.seen)
            && Conserves(Restore(state.pending + delta + future, spans), [], used,
                         step.result.value, Restore(step.state.pending + future, spans))
  {
    var fed := State(state.pending + delta, state.seen);
    used := Consumed(spans, fed, []);
    DrainAccounts(spans, fed, []);
    DrainIsSound(spans, fed, [], future);
  }

  /** Finishing releases what is left; nothing in it is a marker. */
  lemma FinishIsSound(spans: seq<ProtectedSpan>, state: State) returns (used: seq<nat>)
    requires Tracks(spans, state) && spans != []
    requires FinishStep(spans, state).result.Ok?
    ensures Restore(state.pending, spans) == Restoration(FinishStep(spans, state).result.value, used)
    ensures Accounts(state.seen, used, FinishStep(spans, state).state.seen)
    ensures forall i :: 0 <= i < |spans| ==> FinishStep(spans, state).state.seen[i]
  {
    used := PushIsSound(spans, state, [], []);
    assert state.pending + [] + [] == state.pending;
    var step := PushStep(spans, state, []);
    assert step.state.pending + [] == step.state.pending;
    if step.state.pending == [] {
      assert step.result.value + [] == step.result.value;
    } else {
      LeftoverIsPlain(step.state.pending, spans);
    }
  }

  lemma LeftoverIsPlain(text: Text, spans: seq<ProtectedSpan>)
    requires WellFormed(spans) && !Contains(text, PREFIX)
    ensures Restore(text, spans) == Restoration(text, [])
  {
    forall i, at | 0 <= i < |spans| && 0 <= at < |text|
      ensures !OccursAt(text, spans[i].token, at)
    {
      if OccursAt(text, spans[i].token, at) {
        assert Marked(spans, i);
        PrefixAtMarker(text, spans[i].token, at);
      }
    }
    RestoreCopies(text, spans, |text|);
    assert text[|text|..] == [];
  }

  lemma PrefixAtMarker(text: Text, token: Text, at: int)
    requires IsMarker(token) && OccursAt(text, token, at)
    ensures OccursAt(text, PREFIX, at)
  {
    OccursBytes(text, token, at);
    MarkerBytes(token);
    OccursFromBytes(text, PREFIX, at);
  }

  lemma {:induction false} RunIsSound(spans: seq<ProtectedSpan>, state: State, deltas: seq<Text>)
    returns (used: seq<nat>, seen: seq<bool>)
    requires Tracks(spans, state) && spans != []
    requires Run(spans, state, deltas).Ok?
    ensures Restore(state.pending + Concat(deltas), spans)
         == Restoration(Run(spans, state, deltas).value, used)
    ensures Accounts(state.seen, used, seen)
    ensures forall i :: 0 <= i < |spans| ==> seen[i]
    decreases |deltas|
  {
    if deltas == [] {
      used := FinishIsSound(spans, state);
      seen := FinishStep(spans, state).state.seen;
      assert state.pending + [] == state.pending;
    } else {
      var future := Concat(deltas[1..]);
      var step := PushStep(spans, state, deltas[0]);
      var first := PushIsSound(spans, state, deltas[0], future);
      var later;
      later, seen := RunIsSound(spans, step.state, deltas[1..]);
      used := first + later;
      AccountsCompose(state.seen, first, step.state.seen, later, seen);
      assert state.pending + Concat(deltas) == state.pending + deltas[0] + future;
      assert Run(spans, state, deltas).value == step.result.value + Run(spans, step.state, deltas[1..]).value;
    }
  }

  lemma RestoreNothing(text: Text, spans: seq<ProtectedSpan>)
    requires spans == []
    ensures Restore(text, spans) == Restoration(text, [])
  {
    RestoreCopies(text, spans, |text|);
    assert text[|text|..] == [];
  }

  /** Without spans every fragment passes through unchanged. */
  lemma {:induction false} RunWithoutSpans(state: State, deltas: seq<Text>)
    requires Tracks([], state)
    ensures Run([], state, deltas) == Ok(state.pending + Concat(deltas))
    decreases |deltas|
  {
    if deltas == [] {
      assert state.pending + [] == state.pending;
    } else {
      var step := PushStep([], state, deltas[0]);
      RunWithoutSpans(step.state, deltas[1..]);
      assert state.pending + Concat(deltas) == state.pending + deltas[0] + ([] + Concat(deltas[1..]));
    }
  }

  /**
   * For every fragmentation of every model output: when all pushes and the finish succeed, the
   * outputs joined together are the leftmost replacement of the joined input, and every span was
   * restored exactly once.
   */
  lemma StreamEqualsReference(spans: seq<ProtectedSpan>, deltas: seq<Text>)
    requires WellFormed(spans)
    ensures Run(spans, Fresh(spans), deltas).Ok? ==>
              Run(spans, Fresh(spans), deltas).value == Restore(Concat(deltas), spans).text
    ensures Run(spans, Fresh(spans), deltas).Ok? ==> EachOnce(Restore(Concat(deltas), spans).used, |spans|)
  {
    var state := Fresh(spans);
    assert [] + Concat(deltas) == Concat(deltas);
    if Run(spans, state, deltas).Err? {
    } else if spans == [] {
      RunWithoutSpans(state, deltas);
      RestoreNothing(Concat(deltas), spans);
    } else {
      var used, seen := RunIsSound(spans, state, deltas);
      forall i | 0 <= i < |spans|
        ensures i in used
      {
        assert seen[i];
      }
    }
  }
}
