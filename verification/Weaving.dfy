/** Texts in which gaps and markers alternate, and exactly which fragmentations of them restore. */
module Weaving {
  import opened Texts
  import opened Markers
  import opened Restoring
  import opened StreamSoundness

  /** `gaps[0] fillers[0] gaps[1] fillers[1] ... gaps[|fillers|]` */
  function Weave(gaps: seq<Text>, fillers: seq<Text>): (text: Text)
    requires |gaps| == |fillers| + 1
    decreases |fillers|
  {
    if fillers == [] then gaps[0] else gaps[0] + fillers[0] + Weave(gaps[1..], fillers[1..])
  }

  predicate InRange(order: seq<nat>, n: nat) {
    forall k | 0 <= k < |order| :: order[k] < n
  }

  function Tokens(spans: seq<ProtectedSpan>, order: seq<nat>): (tokens: seq<Text>)
    requires InRange(order, |spans|)
    ensures |tokens| == |order|
  {
    seq(|order|, k requires 0 <= k < |order| => spans[order[k]].token)
  }

  function Replacements(spans: seq<ProtectedSpan>, order: seq<nat>): (texts: seq<Text>)
    requires InRange(order, |spans|)
    ensures |texts| == |order|
  {
    seq(|order|, k requires 0 <= k < |order| => spans[order[k]].replacement)
  }

  predicate Clean(gaps: seq<Text>) {
    forall k | 0 <= k < |gaps| :: !Contains(gaps[k], PREFIX)
  }

  /** Markers of `spans`, in the given order, between gaps that are free of the marker prefix. */
  predicate Woven(spans: seq<ProtectedSpan>, gaps: seq<Text>, order: seq<nat>) {
    && WellFormed(spans)
    && InRange(order, |spans|)
    && |gaps| == |order| + 1
    && Clean(gaps)
  }

  function WovenText(spans: seq<ProtectedSpan>, gaps: seq<Text>, order: seq<nat>): Text
    requires InRange(order, |spans|) && |gaps| == |order| + 1
  {
    Weave(gaps, Tokens(spans, order))
  }

  lemma WovenStep(spans: seq<ProtectedSpan>, gaps: seq<Text>, order: seq<nat>)
    requires Woven(spans, gaps, order) && order != []
    ensures Woven(spans, gaps[1..], order[1..])
    ensures IsMarker(spans[order[0]].token)
    ensures WovenText(spans, gaps, order) == gaps[0] + spans[order[0]].token + WovenText(spans, gaps[1..], order[1..])
  {
    assert Marked(spans, order[0]);
    assert Tokens(spans, order)[1..] == Tokens(spans, order[1..]);
  }

  lemma StraddlingBytes(gap: Text, next: Text, rest: Text, u: Text, at: int)
    requires 0 <= at < |gap| && |gap| < at + 23 && 24 <= |u| && 2 <= |next|
    requires OccursAt(gap + next + rest, u, at)
    ensures u[|gap| - at] == next[0] && u[|gap| - at + 1] == next[1]
  {
    var text := gap + next + rest;
    OccursBytes(text, u, at);
    assert text[at + (|gap| - at)] == next[0] && text[at + (|gap| - at + 1)] == next[1];
  }

  /** No marker starts inside a clean gap, even one completed by the marker that follows the gap. */
  lemma NoMarkerInGap(gap: Text, next: Text, rest: Text, u: Text, at: int)
    requires !Contains(gap, PREFIX)
    requires IsMarker(next) && IsMarker(u)
    requires 0 <= at < |gap|
    ensures !OccursAt(gap + next + rest, u, at)
  {
    var text := gap + next + rest;
    if OccursAt(text, u, at) {
      if at + 23 <= |gap| {
        PrefixAtMarker(text, u, at);
        assert text[0..|gap|] == gap;
        OccursWithin(text, 0, |gap|, PREFIX, at);
      } else {
        StraddlingBytes(gap, next, rest, u, at);
        PrefixShape();
        MarkerBytes(next);
        MarkerBytes(u);
      }
    }
  }

  /** Which marker a prefix of a woven text shows first: the first one, once it is complete. */
  lemma FirstMarker(spans: seq<ProtectedSpan>, gaps: seq<Text>, order: seq<nat>, n: nat)
    requires Woven(spans, gaps, order) && n <= |WovenText(spans, gaps, order)|
    ensures var next := NextMarker(WovenText(spans, gaps, order)[..n], spans, |spans|);
            if order != [] && |gaps[0]| + |spans[order[0]].token| <= n
            then next == Some(Match(|gaps[0]|, order[0]))
            else next.None?
  {
    var text := WovenText(spans, gaps, order);
    var shown := text[..n];
    assert shown == text[0..n];
    forall i, at | 0 <= i < |spans| && 0 <= at && OccursAt(shown, spans[i].token, at)
      ensures order != [] && |gaps[0]| <= at
      ensures at == |gaps[0]| ==> i == order[0]
      ensures |gaps[0]| + |spans[order[0]].token| <= n
    {
      OccursInSlice(text, 0, n, spans[i].token, at);
      MarkerNotBefore(spans, gaps, order, i, at);
    }
    if order != [] && |gaps[0]| + |spans[order[0]].token| <= n {
      WovenStep(spans, gaps, order);
      var token := spans[order[0]].token;
      assert text[|gaps[0]|..|gaps[0]| + |token|] == token;
      OccursWithin(text, 0, n, token, |gaps[0]|);
    }
  }

  /** Every marker in a woven text starts at or after the first woven marker, and ends after it. */
  lemma MarkerNotBefore(spans: seq<ProtectedSpan>, gaps: seq<Text>, order: seq<nat>, i: nat, at: nat)
    requires Woven(spans, gaps, order) && i < |spans|
    requires OccursAt(WovenText(spans, gaps, order), spans[i].token, at)
    ensures order != [] && |gaps[0]| <= at
    ensures at == |gaps[0]| ==> i == order[0]
    ensures |gaps[0]| + |spans[order[0]].token| <= at + |spans[i].token|
  {
    var text, u := WovenText(spans, gaps, order), spans[i].token;
    assert Marked(spans, i);
    if order == [] {
      PrefixAtMarker(text, u, at);
    } else {
      WovenStep(spans, gaps, order);
      var gap, token := gaps[0], spans[order[0]].token;
      var rest := WovenText(spans, gaps[1..], order[1..]);
      if at < |gap| {
        NoMarkerInGap(gap, token, rest, u, at);
      }
      assert OccursAt(text, token, |gap|) by {
        assert text[|gap|..|gap| + |token|] == token;
      }
      if at == |gap| {
        HeadsDecide(text, token, u, at);
        assert i < order[0] ==> Apart(spans, i, order[0]);
        assert order[0] < i ==> Apart(spans, order[0], i);
      } else {
        MarkersDoNotNest(text, token, u, |gap|, at);
      }
    }
  }

  /** Leftmost replacement of a woven text puts each replacement where its marker stood. */
  lemma {:induction false} RestoreWoven(spans: seq<ProtectedSpan>, gaps: seq<Text>, order: seq<nat>)
    requires Woven(spans, gaps, order)
    ensures Restore(WovenText(spans, gaps, order), spans)
         == Restoration(Weave(gaps, Replacements(spans, order)), order)
    decreases |order|
  {
    hide IsMarker, OccursAt, Contains;
    var text := WovenText(spans, gaps, order);
    if order == [] {
      LeftoverIsPlain(text, spans);
    } else {
      WovenStep(spans, gaps, order);
      RestoreWoven(spans, gaps[1..], order[1..]);
      WovenLeftmost(spans, gaps, order);
      RestoreLeftmost(text, spans, |gaps[0]|, order[0]);
      assert Replacements(spans, order)[1..] == Replacements(spans, order[1..]);
      assert text[|gaps[0]| + |spans[order[0]].token|..] == WovenText(spans, gaps[1..], order[1..]);
      assert text[..|gaps[0]|] == gaps[0];
      assert [order[0]] + order[1..] == order;
    }
  }

  lemma WovenLeftmost(spans: seq<ProtectedSpan>, gaps: seq<Text>, order: seq<nat>)
    requires Woven(spans, gaps, order) && order != []
    ensures NoMarkerBefore(WovenText(spans, gaps, order), spans, |gaps[0]|)
    ensures OccursAt(WovenText(spans, gaps, order), spans[order[0]].token, |gaps[0]|)
  {
    var text, token := WovenText(spans, gaps, order), spans[order[0]].token;
    WovenStep(spans, gaps, order);
    assert text[|gaps[0]|..|gaps[0]| + |token|] == token;
    forall i, at | 0 <= i < |spans| && 0 <= at < |gaps[0]|
      ensures !OccursAt(text, spans[i].token, at)
    {
      if OccursAt(text, spans[i].token, at) {
        MarkerNotBefore(spans, gaps, order, i, at);
      }
    }
  }
}
