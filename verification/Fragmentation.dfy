/** Exactly which ways of cutting a woven text into fragments the streamed restorer survives. */
module Fragmentation {
  import opened Texts
  import opened Markers
  import opened Restoring
  import opened StreamSoundness
  import opened Weaving

  /**
   * Position `cut` of a woven text lies behind an underscore that closes a marker's index, but
   * still inside that marker, and the marker is not the first span's.
   */
  predicate CutsTail(spans: seq<ProtectedSpan>, gaps: seq<Text>, order: seq<nat>, cut: nat)
    requires Woven(spans, gaps, order)
    decreases |order|
  {
    if order == [] then false
    else
      assert Marked(spans, order[0]) && Woven(spans, gaps[1..], order[1..]);
      var token := spans[order[0]].token;
      var end := |gaps[0]| + |token|;
      if end <= cut then CutsTail(spans, gaps[1..], order[1..], cut - end)
      else order[0] != 0 && |gaps[0]| + BodyEnd(token, 23) < cut
  }

  /** While a marker shows its index, every overlap with another marker is at least as long. */
  lemma IndexOverlap(text: Text, t: Text, shown: nat, u: Text, other: nat)
    requires IsMarker(t) && IsMarker(u)
    requires EndsWithPrefix(text, t, shown) && EndsWithPrefix(text, u, other)
    requires 23 < shown <= BodyEnd(t, 23) && 0 < other
    ensures shown <= other
  {
    if other < shown {
      SuffixBytes(text, t, shown);
      SuffixBytes(text, u, other);
      assert text[|text| - shown + (shown - 1)] == text[|text| - other + (other - 1)];
      assert IsDigit(u[other - 1]);
      MarkerBytes(u);
      OverlapsAreFarApart(text, t, shown, u, other);
    }
  }

  /** Past its index, a marker of another span is never covered by the first span's overlap. */
  lemma TailOverlap(text: Text, t: Text, shown: nat, first: Text, other: nat)
    requires IsMarker(t) && IsMarker(first) && Head(t) != Head(first)
    requires EndsWithPrefix(text, t, shown) && EndsWithPrefix(text, first, other)
    requires BodyEnd(t, 23) < shown
    ensures other + 23 <= shown
  {
    if other == shown {
      assert forall k :: 0 <= k < shown ==> t[..shown][k] == first[..shown][k];
      HeadsAgree(t, first, shown);
    } else if shown < other {
      OverlapsAreFarApart(text, first, other, t, shown);
    } else {
      OverlapsAreFarApart(text, t, shown, first, other);
    }
  }

  /** A woven text of which `n` bytes have arrived, none of its markers being complete yet. */
  ghost predicate Partial(spans: seq<ProtectedSpan>, gaps: seq<Text>, order: seq<nat>, n: nat) {
    && Woven(spans, gaps, order)
    && n <= |WovenText(spans, gaps, order)|
    && (order != [] ==> n < |gaps[0]| + |spans[order[0]].token|)
  }

  /** What is released is clean and lies in the gap, unless the cut is in a later marker's tail. */
  lemma ReleaseIsExact(spans: seq<ProtectedSpan>, gaps: seq<Text>, order: seq<nat>, n: nat)
    requires Partial(spans, gaps, order, n) && spans != []
    ensures var shown := WovenText(spans, gaps, order)[..n];
            var split := |shown| - LongestMarkerPrefixSuffix(shown, spans);
            if CutsTail(spans, gaps, order, n) then Contains(shown[..split], PREFIX)
            else !Contains(shown[..split], PREFIX) && split <= |gaps[0]|
  {
    hide Contains, LongestMarkerPrefixSuffix, WellFormed;
    var shown := WovenText(spans, gaps, order)[..n];
    var keep := LongestMarkerPrefixSuffix(shown, spans);
    var split := |shown| - keep;
    if order != [] {
      WovenStep(spans, gaps, order);
      if |gaps[0]| < n {
        ShownMarker(spans, gaps, order, n);
        if CutsTail(spans, gaps, order, n) {
          TailIsLost(spans, shown, order[0], n - |gaps[0]|);
        } else {
          MarkerIsKept(spans, shown, order[0], n - |gaps[0]|);
        }
      }
    }
    if !CutsTail(spans, gaps, order, n) {
      WovenOpens(spans, gaps, order, split);
      assert shown[..split] == WovenText(spans, gaps, order)[..split];
      SliceKeepsAbsence(gaps[0], 0, split, PREFIX);
    }
  }

  lemma WovenOpens(spans: seq<ProtectedSpan>, gaps: seq<Text>, order: seq<nat>, split: nat)
    requires Woven(spans, gaps, order) && split <= |gaps[0]|
    ensures split <= |WovenText(spans, gaps, order)| && WovenText(spans, gaps, order)[..split] == gaps[0][0..split]
  {
  }

  lemma ShownMarker(spans: seq<ProtectedSpan>, gaps: seq<Text>, order: seq<nat>, n: nat)
    requires Partial(spans, gaps, order, n) && order != [] && |gaps[0]| < n
    ensures EndsWithPrefix(WovenText(spans, gaps, order)[..n], spans[order[0]].token, n - |gaps[0]|)
  {
    WovenStep(spans, gaps, order);
    var shown, token := WovenText(spans, gaps, order)[..n], spans[order[0]].token;
    assert shown[|gaps[0]|..] == token[..n - |gaps[0]|];
  }

  lemma TailIsLost(spans: seq<ProtectedSpan>, shown: Text, i: nat, size: nat)
    requires WellFormed(spans) && 0 < i < |spans|
    requires EndsWithPrefix(shown, spans[i].token, size)
    requires IsMarker(spans[i].token) && BodyEnd(spans[i].token, 23) < size
    ensures Contains(shown[..|shown| - LongestMarkerPrefixSuffix(shown, spans)], PREFIX)
  {
    hide IsMarker, EndsWithPrefix, OccursAt, Overlap;
    var t, first := spans[i].token, spans[0].token;
    assert Marked(spans, 0) && Apart(spans, 0, i);
    TailOpensMarker(shown, t, size, first);
    var keep := LongestMarkerPrefixSuffix(shown, spans);
    assert keep == Overlap(shown, first);
    TailOverlap(shown, t, size, first, keep);
    PrefixAtSuffix(shown, t, size);
    var plain := shown[..|shown| - keep];
    assert plain == shown[0..|shown| - keep];
    OccursWithin(shown, 0, |shown| - keep, PREFIX, |shown| - size);
  }

  /** The last underscore shown could open any marker. */
  lemma TailOpensMarker(shown: Text, t: Text, size: nat, first: Text)
    requires IsMarker(t) && IsMarker(first) && EndsWithPrefix(shown, t, size) && BodyEnd(t, 23) < size
    ensures EndsWithPrefix(shown, first, 1)
  {
    SuffixBytes(shown, t, size);
    MarkerBytes(first);
    assert shown[|shown| - size + (size - 1)] == t[size - 1] == UNDERSCORE;
  }

  lemma MarkerIsKept(spans: seq<ProtectedSpan>, shown: Text, i: nat, size: nat)
    requires WellFormed(spans) && i < |spans| && 0 < size
    requires EndsWithPrefix(shown, spans[i].token, size)
    requires IsMarker(spans[i].token) && (i == 0 || size <= BodyEnd(spans[i].token, 23))
    ensures size <= LongestMarkerPrefixSuffix(shown, spans)
  {
    var owner := Owner(shown, spans);
    assert Marked(spans, 0);
    if i != 0 {
      assert Marked(spans, owner);
      if size <= 23 {
        ShortOverlapIsShared(shown, spans[i].token, spans[0].token, size);
      } else {
        IndexOverlap(shown, spans[i].token, size, spans[owner].token, Overlap(shown, spans[owner].token));
      }
    }
  }

  /**
   * The restorer is in step with a woven text: `n` of its bytes are pending, and the spans seen
   * so far are exactly those whose markers are not in it.
   */
  ghost predicate Aligned(spans: seq<ProtectedSpan>, state: State, gaps: seq<Text>, order: seq<nat>, n: nat) {
    && Woven(spans, gaps, order)
    && Tracks(spans, state)
    && n <= |WovenText(spans, gaps, order)|
    && state.pending == WovenText(spans, gaps, order)[..n]
    && (forall k, l :: 0 <= k < l < |order| ==> order[k] != order[l])
    && (forall i :: 0 <= i < |spans| ==> (state.seen[i] <==> i !in order))
  }

  /** `later` is what is left of `earlier` after `done` bytes, with the same tail cuts in it. */
  ghost predicate LeftOf(spans: seq<ProtectedSpan>, gaps: seq<Text>, order: seq<nat>, done: nat,
                         gaps': seq<Text>, order': seq<nat>)
  {
    && Woven(spans, gaps, order) && Woven(spans, gaps', order')
    && done <= |WovenText(spans, gaps, order)|
    && WovenText(spans, gaps, order)[done..] == WovenText(spans, gaps', order')
    && (forall cut: nat :: done <= cut ==> CutsTail(spans, gaps, order, cut) == CutsTail(spans, gaps', order', cut - done))
  }

  lemma LeftOfCompose(spans: seq<ProtectedSpan>, g0: seq<Text>, o0: seq<nat>, d0: nat, g1: seq<Text>, o1: seq<nat>,
                      d1: nat, g2: seq<Text>, o2: seq<nat>)
    requires LeftOf(spans, g0, o0, d0, g1, o1) && LeftOf(spans, g1, o1, d1, g2, o2)
    ensures LeftOf(spans, g0, o0, d0 + d1, g2, o2)
  {
    hide CutsTail, WovenText, WellFormed;
    var w0, w1 := WovenText(spans, g0, o0), WovenText(spans, g1, o1);
    assert w0[d0..][d1..] == w0[d0 + d1..];
    forall cut: nat | d0 + d1 <= cut
      ensures CutsTail(spans, g0, o0, cut) == CutsTail(spans, g2, o2, cut - (d0 + d1))
    {
      assert CutsTail(spans, g1, o1, cut - d0) == CutsTail(spans, g2, o2, cut - d0 - d1);
    }
  }

  /** A gap shrinks from the left; nothing else moves. */
  lemma ShrinkGap(spans: seq<ProtectedSpan>, gaps: seq<Text>, order: seq<nat>, split: nat)
    requires Woven(spans, gaps, order) && split <= |gaps[0]|
    ensures LeftOf(spans, gaps, order, split, [gaps[0][split..]] + gaps[1..], order)
  {
    var gaps' := [gaps[0][split..]] + gaps[1..];
    SliceKeepsAbsence(gaps[0], split, |gaps[0]|, PREFIX);
    assert gaps[0][split..|gaps[0]|] == gaps[0][split..];
    assert gaps'[1..] == gaps[1..];
    if order != [] {
      WovenStep(spans, gaps, order);
      WovenStep(spans, gaps', order);
    }
    assert WovenText(spans, gaps, order)[split..] == WovenText(spans, gaps', order);
  }

  /** A gap and its marker are gone. */
  lemma DropMarker(spans: seq<ProtectedSpan>, gaps: seq<Text>, order: seq<nat>)
    requires Woven(spans, gaps, order) && order != []
    ensures LeftOf(spans, gaps, order, |gaps[0]| + |spans[order[0]].token|, gaps[1..], order[1..])
  {
    WovenStep(spans, gaps, order);
  }

  /** The state after a drain that did not fail. */
  ghost predicate Drained(spans: seq<ProtectedSpan>, step: Step, gaps: seq<Text>, order: seq<nat>, n: nat, done: nat,
                          gaps': seq<Text>, order': seq<nat>)
  {
    && step.result.Ok?
    && done <= n
    && LeftOf(spans, gaps, order, done, gaps', order')
    && Aligned(spans, step.state, gaps', order', n - done)
    && (order' != [] ==> n - done < |gaps'[0]| + |spans[order'[0]].token|)
  }

  lemma {:induction false} DrainReleaseWoven(spans: seq<ProtectedSpan>, state: State, output: Text, gaps: seq<Text>, order: seq<nat>, n: nat,
                                             step: Step)
    returns (done: nat, gaps': seq<Text>, order': seq<nat>)
    requires spans != [] && Aligned(spans, state, gaps, order, n) && Partial(spans, gaps, order, n)
    requires step == Drain(spans, state, output)
    ensures CutsTail(spans, gaps, order, n) ==> step.result == Err(InvalidMarker)
    ensures !CutsTail(spans, gaps, order, n) ==> Drained(spans, step, gaps, order, n, done, gaps', order')
  {
    hide NextMarker, Contains, CutsTail, LongestMarkerPrefixSuffix, IsMarker;
    FirstMarker(spans, gaps, order, n);
    ReleaseIsExact(spans, gaps, order, n);
    var split := n - LongestMarkerPrefixSuffix(state.pending, spans);
    done, gaps', order' := split, gaps, order;
    if !CutsTail(spans, gaps, order, n) {
      ShrinkGap(spans, gaps, order, split);
      gaps' := [gaps[0][split..]] + gaps[1..];
      var text := WovenText(spans, gaps, order);
      assert text[..n][split..] == text[split..][..n - split];
    }
  }

  lemma {:induction false} DrainWoven(spans: seq<ProtectedSpan>, state: State, output: Text,
                                      gaps: seq<Text>, order: seq<nat>, n: nat)
    returns (done: nat, gaps': seq<Text>, order': seq<nat>)
    requires spans != [] && Aligned(spans, state, gaps, order, n)
    ensures var step := Drain(spans, state, output);
            if CutsTail(spans, gaps, order, n) then step.result == Err(InvalidMarker)
            else Drained(spans, step, gaps, order, n, done, gaps', order')
    decreases |order|
  {
    hide NextMarker, Contains, CutsTail, LongestMarkerPrefixSuffix, IsMarker, WovenText;
    if order == [] || n < |gaps[0]| + |spans[order[0]].token| {
      done, gaps', order' := DrainReleaseWoven(spans, state, output, gaps, order, n, Drain(spans, state, output));
    } else {
      var end := |gaps[0]| + |spans[order[0]].token|;
      var rest, grown := DrainFirst(spans, state, output, gaps, order, n);
      done, gaps', order' := DrainWoven(spans, rest, grown, gaps[1..], order[1..], n - end);
      DropMarker(spans, gaps, order);
      if !CutsTail(spans, gaps, order, n) {
        LeftOfCompose(spans, gaps, order, end, gaps[1..], order[1..], done, gaps', order');
      }
      done := end + done;
    }
  }

  /** A complete first marker is consumed, and the restorer stays in step with the rest. */
  lemma DrainFirst(spans: seq<ProtectedSpan>, state: State, output: Text, gaps: seq<Text>, order: seq<nat>, n: nat)
    returns (rest: State, grown: Text)
    requires Aligned(spans, state, gaps, order, n)
    requires order != [] && |gaps[0]| + |spans[order[0]].token| <= n
    ensures Aligned(spans, rest, gaps[1..], order[1..], n - |gaps[0]| - |spans[order[0]].token|)
    ensures Drain(spans, state, output) == Drain(spans, rest, grown)
  {
    hide NextMarker, IsMarker, Drain;
    var i := order[0];
    var end := |gaps[0]| + |spans[i].token|;
    var text := WovenText(spans, gaps, order);
    FirstMarker(spans, gaps, order, n);
    WovenStep(spans, gaps, order);
    rest := State(state.pending[end..], state.seen[i := true]);
    grown := output + state.pending[..|gaps[0]|] + spans[i].replacement;
    assert state.pending[..|gaps[0]|] == gaps[0];
    DrainReplaces(spans, state, output, Match(|gaps[0]|, i), rest, grown);
    ShownBehind(gaps[0] + spans[i].token, WovenText(spans, gaps[1..], order[1..]), n);
    assert order == [i] + order[1..];
  }

  lemma ShownBehind(front: Text, rest: Text, n: nat)
    requires |front| <= n <= |front + rest|
    ensures (front + rest)[..n][|front|..] == rest[..n - |front|]
  {
  }

  /** No fragment of `deltas`, the first one starting at `from`, ends in a tail. */
  predicate CutsAreSafe(spans: seq<ProtectedSpan>, gaps: seq<Text>, order: seq<nat>, from: nat, deltas: seq<Text>)
    requires Woven(spans, gaps, order)
    decreases |deltas|
  {
    deltas == [] || (var cut := from + |deltas[0]|;
                     !CutsTail(spans, gaps, order, cut) && CutsAreSafe(spans, gaps, order, cut, deltas[1..]))
  }

  lemma {:induction false} SafetyOfRest(spans: seq<ProtectedSpan>, gaps: seq<Text>, order: seq<nat>, from: nat, done: nat,
                                        gaps': seq<Text>, order': seq<nat>, deltas: seq<Text>)
    requires LeftOf(spans, gaps, order, done, gaps', order') && done <= from
    ensures CutsAreSafe(spans, gaps, order, from, deltas) == CutsAreSafe(spans, gaps', order', from - done, deltas)
    decreases |deltas|
  {
    hide CutsTail, WovenText;
    if deltas != [] {
      SafetyOfRest(spans, gaps, order, from + |deltas[0]|, done, gaps', order', deltas[1..]);
    }
  }

  /** Once everything has arrived, the last drain leaves a clean gap and every span seen. */
  lemma FinishWoven(spans: seq<ProtectedSpan>, state: State, gaps: seq<Text>, order: seq<nat>, n: nat)
    requires spans != [] && Aligned(spans, state, gaps, order, n)
    requires n == |WovenText(spans, gaps, order)| && !CutsTail(spans, gaps, order, n)
    ensures FinishStep(spans, state).result.Ok?
  {
    hide CutsTail, Drain;
    assert state.pending + [] == state.pending;
    var done, gaps', order' := DrainWoven(spans, state, [], gaps, order, n);
    var step := Drain(spans, state, []);
    assert Drained(spans, step, gaps, order, n, done, gaps', order');
    if order' != [] {
      WovenStep(spans, gaps', order');
    }
    assert step.state.pending == gaps'[0];
    assert step == PushStep(spans, state, []);
  }

  /** One fragment, and what it leaves of the stream. */
  lemma PushWoven(spans: seq<ProtectedSpan>, state: State, gaps: seq<Text>, order: seq<nat>, n: nat, delta: Text)
    returns (done: nat, gaps': seq<Text>, order': seq<nat>)
    requires spans != [] && Aligned(spans, state, gaps, order, n)
    requires n + |delta| <= |WovenText(spans, gaps, order)|
    requires WovenText(spans, gaps, order)[n..n + |delta|] == delta
    ensures var step := PushStep(spans, state, delta);
            if CutsTail(spans, gaps, order, n + |delta|) then step.result == Err(InvalidMarker)
            else Drained(spans, step, gaps, order, n + |delta|, done, gaps', order')
  {
    hide CutsTail, Drain, WovenText, Drained;
    var fed := State(state.pending + delta, state.seen);
    var text := WovenText(spans, gaps, order);
    assert text[..n] + text[n..n + |delta|] == text[..n + |delta|];
    done, gaps', order' := DrainWoven(spans, fed, [], gaps, order, n + |delta|);
  }

  lemma {:induction false} RunWoven(spans: seq<ProtectedSpan>, state: State, gaps: seq<Text>, order: seq<nat>, n: nat,
                                    deltas: seq<Text>)
    requires spans != [] && Aligned(spans, state, gaps, order, n)
    requires WovenText(spans, gaps, order)[n..] == Concat(deltas)
    requires !CutsTail(spans, gaps, order, n)
    ensures Run(spans, state, deltas).Ok? == CutsAreSafe(spans, gaps, order, n, deltas)
    ensures Run(spans, state, deltas).Err? ==> Run(spans, state, deltas) == Err(InvalidMarker)
    decreases |deltas|
  {
    hide CutsTail, WovenText, PushStep, FinishStep;
    var text := WovenText(spans, gaps, order);
    if deltas == [] {
      FinishWoven(spans, state, gaps, order, n);
    } else {
      var delta, later := deltas[0], deltas[1..];
      var cut := n + |delta|;
      assert text[n..] == delta + Concat(later);
      assert text[n..cut] == text[n..][..|delta|];
      var done, gaps', order' := PushWoven(spans, state, gaps, order, n, delta);
      var step := PushStep(spans, state, delta);
      if !CutsTail(spans, gaps, order, cut) {
        assert Drained(spans, step, gaps, order, cut, done, gaps', order');
        assert text[cut..] == text[n..][|delta|..] == Concat(later);
        assert text[done..][cut - done..] == text[cut..];
        RunWoven(spans, step.state, gaps', order', cut - done, later);
        SafetyOfRest(spans, gaps, order, cut, done, gaps', order', later);
      }
    }
  }

  lemma OrderCovers(order: seq<nat>, n: nat)
    requires EachOnce(order, n)
    ensures InRange(order, n)
  {
    forall k | 0 <= k < |order|
      ensures order[k] < n
    {
      assert order[k] in order;
    }
  }

  /**
   * The exact condition for a stream to be restored. Take every text in which each marker occurs
   * once, in any order, between gaps free of the marker prefix, and every way of cutting it into
   * fragments. The restorer succeeds if and only if no fragment ends behind the underscore that
   * closes a marker's index, inside the marker, for a marker other than the first span's; when it
   * succeeds every marker has been replaced in place, and when it fails it reports an invalid
   * marker.
   */
  lemma FragmentationIsExact(spans: seq<ProtectedSpan>, gaps: seq<Text>, order: seq<nat>, deltas: seq<Text>)
    requires Woven(spans, gaps, order) && EachOnce(order, |spans|)
    requires Concat(deltas) == WovenText(spans, gaps, order)
    ensures Run(spans, Fresh(spans), deltas)
         == if CutsAreSafe(spans, gaps, order, 0, deltas) then Ok(Weave(gaps, Replacements(spans, order)))
            else Err(InvalidMarker)
  {
    hide CutsTail, PushStep, FinishStep, Restore, WovenText;
    var text := WovenText(spans, gaps, order);
    RestoreWoven(spans, gaps, order);
    if spans == [] {
      OrderCovers(order, 0);
      NoCutsWithoutMarkers(spans, gaps, 0, deltas);
      RunWithoutSpans(Fresh(spans), deltas);
      assert [] + Concat(deltas) == text;
      RestoreNothing(text, spans);
    } else {
      assert text[0..] == text && text[..0] == [];
      StartIsSafe(spans, gaps, order);
      RunWoven(spans, Fresh(spans), gaps, order, 0, deltas);
      if Run(spans, Fresh(spans), deltas).Ok? {
        StreamEqualsReference(spans, deltas);
      }
    }
  }

  lemma StartIsSafe(spans: seq<ProtectedSpan>, gaps: seq<Text>, order: seq<nat>)
    requires Woven(spans, gaps, order)
    ensures !CutsTail(spans, gaps, order, 0)
  {
    if order != [] {
      assert Marked(spans, order[0]);
    }
  }

  lemma {:induction false} NoCutsWithoutMarkers(spans: seq<ProtectedSpan>, gaps: seq<Text>, from: nat, deltas: seq<Text>)
    requires Woven(spans, gaps, [])
    ensures CutsAreSafe(spans, gaps, [], from, deltas)
    decreases |deltas|
  {
    if deltas != [] {
      NoCutsWithoutMarkers(spans, gaps, from + |deltas[0]|, deltas[1..]);
    }
  }

  /** With a single span every fragmentation succeeds. */
  lemma OneSpanAlwaysRestores(spans: seq<ProtectedSpan>, gaps: seq<Text>, order: seq<nat>, deltas: seq<Text>)
    requires Woven(spans, gaps, order) && EachOnce(order, |spans|) && |spans| == 1
    requires Concat(deltas) == WovenText(spans, gaps, order)
    ensures Run(spans, Fresh(spans), deltas) == Ok(Weave(gaps, Replacements(spans, order)))
  {
    OnlyFirstIsSafe(spans, gaps, order, 0, deltas);
    FragmentationIsExact(spans, gaps, order, deltas);
  }

  lemma {:induction false} OnlyFirstIsSafe(spans: seq<ProtectedSpan>, gaps: seq<Text>, order: seq<nat>, from: nat,
                                           deltas: seq<Text>)
    requires Woven(spans, gaps, order) && |spans| == 1
    ensures CutsAreSafe(spans, gaps, order, from, deltas)
    decreases |deltas|
  {
    if deltas != [] {
      OnlyFirstHasNoTail(spans, gaps, order, from + |deltas[0]|);
      OnlyFirstIsSafe(spans, gaps, order, from + |deltas[0]|, deltas[1..]);
    }
  }

  lemma {:induction false} OnlyFirstHasNoTail(spans: seq<ProtectedSpan>, gaps: seq<Text>, order: seq<nat>, cut: nat)
    requires Woven(spans, gaps, order) && |spans| == 1
    ensures !CutsTail(spans, gaps, order, cut)
    decreases |order|
  {
    if order != [] {
      assert Marked(spans, order[0]);
      var end := |gaps[0]| + |spans[order[0]].token|;
      if end <= cut {
        OnlyFirstHasNoTail(spans, gaps[1..], order[1..], cut - end);
      }
    }
  }

  /** The end of a woven text is not inside any marker. */
  lemma {:induction false} EndIsSafe(spans: seq<ProtectedSpan>, gaps: seq<Text>, order: seq<nat>)
    requires Woven(spans, gaps, order)
    ensures !CutsTail(spans, gaps, order, |WovenText(spans, gaps, order)|)
    decreases |order|
  {
    if order != [] {
      WovenStep(spans, gaps, order);
      EndIsSafe(spans, gaps[1..], order[1..]);
    }
  }

  /** A woven text that arrives whole is always restored. */
  lemma WholeTextRestores(spans: seq<ProtectedSpan>, gaps: seq<Text>, order: seq<nat>)
    requires Woven(spans, gaps, order) && EachOnce(order, |spans|)
    ensures Run(spans, Fresh(spans), [WovenText(spans, gaps, order)]) == Ok(Weave(gaps, Replacements(spans, order)))
  {
    hide CutsTail, WovenText, Run;
    var text := WovenText(spans, gaps, order);
    EndIsSafe(spans, gaps, order);
    assert Concat([text]) == text;
    assert CutsAreSafe(spans, gaps, order, 0, [text]);
    FragmentationIsExact(spans, gaps, order, [text]);
  }

  /** As soon as a second span exists, some fragmentation of the untouched text is refused. */
  lemma SecondSpanCanBreak(spans: seq<ProtectedSpan>, gaps: seq<Text>, order: seq<nat>) returns (deltas: seq<Text>)
    requires Woven(spans, gaps, order) && EachOnce(order, |spans|) && 2 <= |spans|
    ensures Concat(deltas) == WovenText(spans, gaps, order)
    ensures Run(spans, Fresh(spans), deltas) == Err(InvalidMarker)
  {
    hide CutsTail, WovenText, Run;
    var text := WovenText(spans, gaps, order);
    assert 1 in order;
    var k :| 0 <= k < |order| && order[k] == 1;
    var cut := SomeTail(spans, gaps, order, k);
    deltas := [text[..cut], text[cut..]];
    var rest := [text[cut..]];
    assert deltas[1..] == rest && rest[1..] == [];
    assert Concat(rest) == text[cut..] + Concat([]);
    assert text[..cut] + text[cut..] == text;
    FragmentationIsExact(spans, gaps, order, deltas);
  }

  lemma {:induction false} SomeTail(spans: seq<ProtectedSpan>, gaps: seq<Text>, order: seq<nat>, k: nat)
    returns (cut: nat)
    requires Woven(spans, gaps, order) && k < |order| && order[k] != 0
    ensures cut <= |WovenText(spans, gaps, order)| && CutsTail(spans, gaps, order, cut)
    decreases |order|
  {
    WovenStep(spans, gaps, order);
    var token := spans[order[0]].token;
    if k == 0 {
      cut := |gaps[0]| + BodyEnd(token, 23) + 1;
    } else {
      cut := SomeTail(spans, gaps[1..], order[1..], k - 1);
      cut := |gaps[0]| + |token| + cut;
    }
  }
}
