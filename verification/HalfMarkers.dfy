/** What a source that mentions the marker prefix in plain view does to its own round trip, exactly. */
module HalfMarkers {
  import opened Texts
  import opened Utf8
  import opened Markers
  import opened Restoring
  import opened StreamSoundness
  import opened Weaving
  import opened Protection
  import opened Chunking
  import opened ChunkRestoring
  import opened ChunkRoundTrip

  /**
   * A stretch at the end of a stream that the restorer lets through: its longest ending that could
   * open a marker stops short of the whole prefix, and in front of that ending there is no prefix.
   */
  predicate Settles(text: Text) {
    var keep := Overlap(text, PREFIX);
    keep < |PREFIX| && !Contains(text[..|text| - keep], PREFIX)
  }

  /** No gap in front of a marker holds the prefix, and the last gap settles. */
  predicate Quiet(gaps: seq<Text>)
    requires gaps != []
  {
    && (forall k | 0 <= k < |gaps| - 1 :: !Contains(gaps[k], PREFIX))
    && Settles(gaps[|gaps| - 1])
  }

  /** Markers in some order between gaps of any kind. */
  predicate Placed(spans: seq<ProtectedSpan>, gaps: seq<Text>, order: seq<nat>) {
    WellFormed(spans) && InRange(order, |spans|) && |gaps| == |order| + 1
  }

  /** No marker starts inside a gap, alone or completed by the marker behind the gap. */
  ghost predicate Undisturbed(spans: seq<ProtectedSpan>, gaps: seq<Text>, order: seq<nat>)
    requires Placed(spans, gaps, order)
    decreases |order|
  {
    && NoMarkerBefore(WovenText(spans, gaps, order), spans, |gaps[0]|)
    && (order == [] || Undisturbed(spans, gaps[1..], order[1..]))
  }

  lemma PlacedStep(spans: seq<ProtectedSpan>, gaps: seq<Text>, order: seq<nat>)
    requires Placed(spans, gaps, order) && order != []
    ensures Placed(spans, gaps[1..], order[1..]) && IsMarker(spans[order[0]].token)
    ensures WovenText(spans, gaps, order) == gaps[0] + spans[order[0]].token + WovenText(spans, gaps[1..], order[1..])
    ensures OccursAt(WovenText(spans, gaps, order), spans[order[0]].token, |gaps[0]|)
  {
    assert Marked(spans, order[0]);
    assert Tokens(spans, order)[1..] == Tokens(spans, order[1..]);
    var text, token := WovenText(spans, gaps, order), spans[order[0]].token;
    assert text[|gaps[0]|..|gaps[0]| + |token|] == token;
  }

  // ---------------------------------------------------------------------------------------------
  // The end of the stream.

  lemma PrefixOverlap(text: Text, token: Text, size: nat)
    requires IsMarker(token) && size <= 23
    ensures EndsWithPrefix(text, token, size) <==> EndsWithPrefix(text, PREFIX, size)
  {
    PrefixShape();
    assert token[..size] == token[..23][..size] == PREFIX[..size];
  }

  /** An ending that shows a whole prefix is kept whole or released with the prefix: either way it is seen. */
  lemma LongOverlapIsRefused(text: Text, token: Text, long: nat)
    requires IsMarker(token) && 23 <= long && EndsWithPrefix(text, token, long)
    ensures !Settles(text)
  {
    hide IsMarker, Contains, OccursAt;
    PrefixShape();
    var keep := Overlap(text, PREFIX);
    if keep < 23 {
      PrefixOverlap(text, token, keep);
      if long == 23 {
        PrefixOverlap(text, token, 23);
      } else {
        OverlapsAreFarApart(text, token, long, token, keep);
        PrefixIsReleased(text, token, long, keep);
      }
    }
  }

  lemma PrefixIsReleased(text: Text, token: Text, long: nat, keep: nat)
    requires IsMarker(token) && keep + 23 <= long && EndsWithPrefix(text, token, long)
    ensures Contains(text[..|text| - keep], PREFIX)
  {
    hide IsMarker;
    PrefixShape();
    PrefixAtSuffix(text, token, long);
    assert text[0..|text| - keep] == text[..|text| - keep];
    OccursWithin(text, 0, |text| - keep, PREFIX, |text| - long);
  }

  lemma ShortOverlapsAgree(spans: seq<ProtectedSpan>, text: Text)
    requires WellFormed(spans) && spans != [] && LongestMarkerPrefixSuffix(text, spans) < 23
    ensures Overlap(text, PREFIX) == LongestMarkerPrefixSuffix(text, spans)
  {
    hide IsMarker, OccursAt, LongestSuffix;
    PrefixShape();
    var owner := Owner(text, spans);
    var keep, short := LongestMarkerPrefixSuffix(text, spans), Overlap(text, PREFIX);
    assert Marked(spans, 0);
    PrefixOverlap(text, spans[0].token, short);
    assert short > 0 ==> owner == 0;
    if owner < |spans| {
      assert Marked(spans, owner);
      PrefixOverlap(text, spans[owner].token, keep);
    }
  }

  /** What the restorer does with the last gap depends on the gap alone, not on the spans. */
  lemma SettlesIsAccepted(spans: seq<ProtectedSpan>, text: Text)
    requires WellFormed(spans) && spans != []
    ensures var keep := LongestMarkerPrefixSuffix(text, spans);
            Settles(text) <==> keep < 23 && !Contains(text[..|text| - keep], PREFIX)
  {
    hide Contains, IsMarker, OccursAt, Overlap;
    PrefixShape();
    var owner, keep := Owner(text, spans), LongestMarkerPrefixSuffix(text, spans);
    if 23 <= keep {
      assert Marked(spans, owner);
      LongOverlapIsRefused(text, spans[owner].token, keep);
    } else {
      ShortOverlapsAgree(spans, text);
    }
  }

  lemma KeptHoldsPrefix(text: Text, spans: seq<ProtectedSpan>)
    requires WellFormed(spans)
    ensures var keep := LongestMarkerPrefixSuffix(text, spans);
            Contains(text[|text| - keep..], PREFIX) <==> 23 <= keep
  {
    hide IsMarker, OccursAt, Contains;
    var owner, keep := Owner(text, spans), LongestMarkerPrefixSuffix(text, spans);
    if 23 <= keep {
      assert Marked(spans, owner);
      SuffixHoldsPrefix(text, spans[owner].token, keep);
    } else {
      ShortHoldsNoPrefix(text[|text| - keep..]);
    }
  }

  lemma ShortHoldsNoPrefix(text: Text)
    requires |text| < 23
    ensures !Contains(text, PREFIX)
  {
  }

  lemma SuffixHoldsPrefix(text: Text, token: Text, size: nat)
    requires IsMarker(token) && 23 <= size && EndsWithPrefix(text, token, size)
    ensures Contains(text[|text| - size..], PREFIX)
  {
    hide IsMarker;
    PrefixShape();
    PrefixAtSuffix(text, token, size);
    assert text[|text| - size..|text|] == text[|text| - size..];
    OccursWithin(text, |text| - size, |text|, PREFIX, |text| - size);
  }

  lemma OverlapOfSuffix(text: Text, keep: nat, token: Text)
    requires keep <= |text|
    ensures Overlap(text[|text| - keep..], token) <= Overlap(text, token)
    ensures EndsWithPrefix(text, token, keep) ==> Overlap(text[|text| - keep..], token) == keep
  {
    hide LongestSuffix;
    var kept := text[|text| - keep..];
    var size := Overlap(kept, token);
    assert kept[keep - size..] == text[|text| - size..];
    assert EndsWithPrefix(text, token, size);
    assert EndsWithPrefix(text, token, keep) ==> EndsWithPrefix(kept, token, keep);
  }

  /** Looking at the kept bytes once more changes nothing. */
  lemma KeptIsStable(text: Text, spans: seq<ProtectedSpan>)
    ensures var kept := text[|text| - LongestMarkerPrefixSuffix(text, spans)..];
            LongestMarkerPrefixSuffix(kept, spans) == |kept|
  {
    hide Overlap, EndsWithPrefix;
    var owner, keep := Owner(text, spans), LongestMarkerPrefixSuffix(text, spans);
    var kept := text[|text| - keep..];
    forall j | 0 <= j < |spans|
      ensures Overlap(kept, spans[j].token) <= Overlap(text, spans[j].token)
    {
      OverlapOfSuffix(text, keep, spans[j].token);
    }
    if owner < |spans| {
      OverlapOfSuffix(text, keep, spans[owner].token);
      assert Owner(kept, spans) == owner;
      assert LongestMarkerPrefixSuffix(kept, spans) == Overlap(kept, spans[owner].token);
    }
  }

  // ---------------------------------------------------------------------------------------------
  // One push of the whole text.

  lemma {:induction false} LastGapIsUndisturbed(spans: seq<ProtectedSpan>, text: Text)
    requires WellFormed(spans) && Settles(text)
    ensures NoMarkerBefore(text, spans, |text|)
  {
    hide Contains, IsMarker, Overlap;
    PrefixShape();
    forall i, at | 0 <= i < |spans| && 0 <= at < |text|
      ensures !OccursAt(text, spans[i].token, at)
    {
      if OccursAt(text, spans[i].token, at) {
        assert Marked(spans, i);
        MarkerDoesNotSettle(text, spans[i].token, at);
      }
    }
  }

  lemma MarkerDoesNotSettle(text: Text, token: Text, at: nat)
    requires IsMarker(token) && OccursAt(text, token, at)
    ensures !Settles(text)
  {
    hide Contains, LongestSuffix, EndsWithPrefix;
    PrefixShape();
    var keep := Overlap(text, PREFIX);
    var split := |text| - keep;
    if keep < 23 {
      PrefixAtMarker(text, token, at);
      PrefixOpensOutside(text, token, at, keep);
      assert text[0..split] == text[..split];
      OccursWithin(text, 0, split, PREFIX, at);
      PrefixIsContained(text[..split], at);
    }
  }

  /** The opening of a prefix that ends the text lies behind the prefix of any whole marker in it. */
  lemma PrefixOpensOutside(text: Text, token: Text, at: nat, keep: nat)
    requires IsMarker(token) && OccursAt(text, token, at)
    requires keep < 23 && EndsWithPrefix(text, PREFIX, keep)
    ensures at + 23 <= |text| - keep
  {
    PrefixShape();
    MarkerBytes(token);
    OccursBytes(text, token, at);
    SuffixBytes(text, PREFIX, keep);
  }

  lemma PrefixIsContained(text: Text, at: int)
    requires OccursAt(text, PREFIX, at)
    ensures Contains(text, PREFIX)
  {
  }

  lemma {:induction false} QuietIsUndisturbed(spans: seq<ProtectedSpan>, gaps: seq<Text>, order: seq<nat>)
    requires Placed(spans, gaps, order) && Quiet(gaps)
    ensures Undisturbed(spans, gaps, order)
    decreases |order|
  {
    hide Contains, IsMarker, OccursAt, Settles, WovenText;
    if order == [] {
      LastGapIsUndisturbed(spans, gaps[0]);
      assert WovenText(spans, gaps, order) == gaps[0] by {
        NothingWoven(spans, gaps);
      }
    } else {
      PlacedStep(spans, gaps, order);
      QuietIsUndisturbed(spans, gaps[1..], order[1..]);
      forall i, at | 0 <= i < |spans| && 0 <= at < |gaps[0]|
        ensures !OccursAt(WovenText(spans, gaps, order), spans[i].token, at)
      {
        assert Marked(spans, i);
        NoMarkerInGap(gaps[0], spans[order[0]].token, WovenText(spans, gaps[1..], order[1..]), spans[i].token, at);
      }
    }
  }

  lemma NothingWoven(spans: seq<ProtectedSpan>, gaps: seq<Text>)
    requires |gaps| == 1
    ensures WovenText(spans, gaps, []) == gaps[0]
  {
  }

  /** The restorer meets the markers where they were placed. */
  lemma UndisturbedNext(spans: seq<ProtectedSpan>, gaps: seq<Text>, order: seq<nat>)
    requires Placed(spans, gaps, order) && Undisturbed(spans, gaps, order)
    ensures NextMarker(WovenText(spans, gaps, order), spans, |spans|)
         == if order == [] then None else Some(Match(|gaps[0]|, order[0]))
  {
    hide IsMarker, OccursAt, WovenText, WellFormed;
    var text := WovenText(spans, gaps, order);
    if order == [] {
      NothingWoven(spans, gaps);
      NoNextMarker(text, spans);
    } else {
      PlacedStep(spans, gaps, order);
      NextIsLeftmost(text, spans, Match(|gaps[0]|, order[0]));
    }
  }

  lemma NoNextMarker(text: Text, spans: seq<ProtectedSpan>)
    requires WellFormed(spans) && NoMarkerBefore(text, spans, |text|)
    ensures NextMarker(text, spans, |spans|) == None
  {
    var next := NextMarker(text, spans, |spans|);
    if next.Some? {
      TokenIsLong(spans, next.value.span);
    }
  }

  lemma NextIsLeftmost(text: Text, spans: seq<ProtectedSpan>, first: Match)
    requires WellFormed(spans) && first.span < |spans| && NoMarkerBefore(text, spans, first.position)
    requires OccursAt(text, spans[first.span].token, first.position)
    ensures NextMarker(text, spans, |spans|) == Some(first)
  {
    hide IsMarker, OccursAt, WellFormed;
    var next := NextMarker(text, spans, |spans|);
    SameMarker(text, spans, first.position, first.span, next.value.span);
  }

  lemma SameMarker(text: Text, spans: seq<ProtectedSpan>, at: int, i: nat, j: nat)
    requires WellFormed(spans) && i < |spans| && j < |spans|
    requires OccursAt(text, spans[i].token, at) && OccursAt(text, spans[j].token, at)
    ensures i == j
  {
    assert Marked(spans, i) && Marked(spans, j);
    HeadsDecide(text, spans[i].token, spans[j].token, at);
    assert i < j ==> Apart(spans, i, j);
    assert j < i ==> Apart(spans, j, i);
  }

  ghost predicate Waiting(state: State, order: seq<nat>) {
    && (forall k, l :: 0 <= k < l < |order| ==> order[k] != order[l])
    && (forall i :: 0 <= i < |state.seen| ==> (state.seen[i] <==> i !in order))
  }

  /** All gaps in front of markers are free of the prefix, and so is what is released of the last one. */
  ghost predicate Released(spans: seq<ProtectedSpan>, gaps: seq<Text>, order: seq<nat>)
    requires |gaps| == |order| + 1
  {
    var last := gaps[|order|];
    && (forall k :: 0 <= k < |order| ==> !Contains(gaps[k], PREFIX))
    && !Contains(last[..|last| - LongestMarkerPrefixSuffix(last, spans)], PREFIX)
  }

  lemma ReleasedStep(spans: seq<ProtectedSpan>, gaps: seq<Text>, order: seq<nat>)
    requires |gaps| == |order| + 1 && order != [] && !Contains(gaps[0], PREFIX)
    ensures Released(spans, gaps, order) <==> Released(spans, gaps[1..], order[1..])
  {
    hide Contains, LongestMarkerPrefixSuffix;
    if Released(spans, gaps[1..], order[1..]) {
      forall k | 0 <= k < |order|
        ensures !Contains(gaps[k], PREFIX)
      {
        assert k > 0 ==> gaps[k] == gaps[1..][k - 1];
      }
    }
  }

  lemma {:induction false} DrainUndisturbed(spans: seq<ProtectedSpan>, gaps: seq<Text>, order: seq<nat>,
                                            state: State, output: Text)
    requires Placed(spans, gaps, order) && Undisturbed(spans, gaps, order)
    requires Tracks(spans, state) && Waiting(state, order)
    requires state.pending == WovenText(spans, gaps, order)
    ensures var step, last := Drain(spans, state, output), gaps[|order|];
            if Released(spans, gaps, order)
            then step.result.Ok? && Waiting(step.state, [])
                 && step.state.pending == last[|last| - LongestMarkerPrefixSuffix(last, spans)..]
            else step.result == Err(InvalidMarker)
    decreases |order|
  {
    hide Contains, IsMarker, OccursAt, NextMarker, LongestMarkerPrefixSuffix, WellFormed;
    UndisturbedNext(spans, gaps, order);
    if order != [] {
      PlacedStep(spans, gaps, order);
      var gap, i := gaps[0], order[0];
      assert state.pending[..|gap|] == gap;
      if !Contains(gap, PREFIX) {
        var rest := State(state.pending[|gap| + |spans[i].token|..], state.seen[i := true]);
        var grown := output + gap + spans[i].replacement;
        DrainReplaces(spans, state, output, Match(|gap|, i), rest, grown);
        DrainUndisturbed(spans, gaps[1..], order[1..], rest, grown);
        ReleasedStep(spans, gaps, order);
      }
    }
  }

  lemma FinishUndisturbed(spans: seq<ProtectedSpan>, last: Text, state: State)
    requires Tracks(spans, state) && spans != [] && Waiting(state, [])
    requires NoMarkerBefore(last, spans, |last|)
    requires state.pending == last[|last| - LongestMarkerPrefixSuffix(last, spans)..]
    ensures var result := FinishStep(spans, state).result;
            if LongestMarkerPrefixSuffix(last, spans) < 23 then result.Ok? else result == Err(InvalidMarker)
  {
    hide Contains, IsMarker, OccursAt, NextMarker, LongestMarkerPrefixSuffix, WellFormed, NoMarkerBefore;
    var kept := state.pending;
    assert kept + [] == kept;
    SuffixHasNoMarker(last, spans, |last| - |kept|);
    NoNextMarker(kept, spans);
    KeptIsStable(last, spans);
    KeptHoldsPrefix(last, spans);
    ShortHoldsNoPrefix([]);
    assert kept[..0] == [] && kept[0..] == kept;
  }

  lemma SuffixHasNoMarker(text: Text, spans: seq<ProtectedSpan>, from: nat)
    requires from <= |text| && NoMarkerBefore(text, spans, |text|)
    ensures NoMarkerBefore(text[from..], spans, |text| - from)
  {
    assert text[from..] == text[from..|text|];
    forall i, at | 0 <= i < |spans| && 0 <= at < |text| - from
      ensures !OccursAt(text[from..], spans[i].token, at)
    {
      if OccursAt(text[from..], spans[i].token, at) {
        OccursInSlice(text, from, |text|, spans[i].token, at);
      }
    }
  }

  lemma {:induction false} LastIsUndisturbed(spans: seq<ProtectedSpan>, gaps: seq<Text>, order: seq<nat>)
    requires Placed(spans, gaps, order) && Undisturbed(spans, gaps, order)
    ensures NoMarkerBefore(gaps[|order|], spans, |gaps[|order|]|)
    decreases |order|
  {
    hide WovenText, NoMarkerBefore;
    if order == [] {
      NothingWoven(spans, gaps);
    } else {
      LastIsUndisturbed(spans, gaps[1..], order[1..]);
    }
  }

  /** Undisturbed: the text is restored or refused. */
  lemma UndisturbedRun(spans: seq<ProtectedSpan>, gaps: seq<Text>, order: seq<nat>)
    requires Placed(spans, gaps, order) && EachOnce(order, |spans|) && spans != []
    requires Undisturbed(spans, gaps, order)
    ensures var result := Run(spans, Fresh(spans), [WovenText(spans, gaps, order)]);
            if Quiet(gaps) then result.Ok? else result == Err(InvalidMarker)
  {
    hide Contains, WovenText, Undisturbed, LongestMarkerPrefixSuffix, WellFormed, Drain, FinishStep, NoMarkerBefore, Settles;
    var text, last := WovenText(spans, gaps, order), gaps[|order|];
    var fed := State([] + text, Fresh(spans).seen);
    assert [] + text == text;
    DrainUndisturbed(spans, gaps, order, fed, []);
    SettlesIsAccepted(spans, last);
    var step := PushStep(spans, Fresh(spans), text);
    assert step == Drain(spans, fed, []);
    if Released(spans, gaps, order) {
      LastIsUndisturbed(spans, gaps, order);
      FinishUndisturbed(spans, last, step.state);
    }
    OnePush(spans, text);
  }

  lemma OnePush(spans: seq<ProtectedSpan>, text: Text)
    requires WellFormed(spans)
    ensures var step := PushStep(spans, Fresh(spans), text);
            Run(spans, Fresh(spans), [text]) ==
              if step.result.Err? then step.result
              else match FinishStep(spans, step.state).result
                   case Err(e) => Err(e)
                   case Ok(rest) => Ok(step.result.value + rest)
  {
    hide PushStep, FinishStep, WellFormed;
    var deltas := [text];
    assert deltas[1..] == [];
  }

  // ---------------------------------------------------------------------------------------------
  // What the reference makes of such a text.

  lemma {:induction false} RestoreUndisturbed(spans: seq<ProtectedSpan>, gaps: seq<Text>, order: seq<nat>)
    requires Placed(spans, gaps, order) && Undisturbed(spans, gaps, order)
    ensures Restore(WovenText(spans, gaps, order), spans).text == Weave(gaps, Replacements(spans, order))
    decreases |order|
  {
    hide IsMarker, OccursAt, WovenText;
    var text := WovenText(spans, gaps, order);
    if order == [] {
      NothingWoven(spans, gaps);
      RestoreCopies(text, spans, |text|);
      assert text[|text|..] == [];
    } else {
      RestoreUndisturbed(spans, gaps[1..], order[1..]);
      RestoreFirst(spans, gaps, order);
    }
  }

  /** The first marker is replaced; what follows it is restored by itself. */
  lemma RestoreFirst(spans: seq<ProtectedSpan>, gaps: seq<Text>, order: seq<nat>)
    requires Placed(spans, gaps, order) && order != []
    requires NoMarkerBefore(WovenText(spans, gaps, order), spans, |gaps[0]|)
    ensures var first := gaps[0] + spans[order[0]].replacement;
            && Restore(WovenText(spans, gaps, order), spans).text
               == first + Restore(WovenText(spans, gaps[1..], order[1..]), spans).text
            && Weave(gaps, Replacements(spans, order)) == first + Weave(gaps[1..], Replacements(spans, order[1..]))
  {
    hide IsMarker, OccursAt, WovenText, WellFormed;
    var text := WovenText(spans, gaps, order);
    PlacedStep(spans, gaps, order);
    RestoreLeftmost(text, spans, |gaps[0]|, order[0]);
    assert text[..|gaps[0]|] == gaps[0];
    assert text[|gaps[0]| + |spans[order[0]].token|..] == WovenText(spans, gaps[1..], order[1..]);
    assert Replacements(spans, order)[1..] == Replacements(spans, order[1..]);
  }

  /** A replacement that cannot be taken for the opening of a marker. */
  predicate Telling(replacement: Text) {
    replacement != [] && replacement[0] != UNDERSCORE
  }

  /** A marker that starts inside a gap takes the wrong bytes, and its replacement shows it. */
  lemma {:induction false} DisturbedDiffers(spans: seq<ProtectedSpan>, gaps: seq<Text>, order: seq<nat>)
    requires Placed(spans, gaps, order) && !Undisturbed(spans, gaps, order)
    requires forall i :: 0 <= i < |spans| ==> Telling(spans[i].replacement)
    ensures Restore(WovenText(spans, gaps, order), spans).text != Weave(gaps, Replacements(spans, order))
    decreases |order|
  {
    hide IsMarker, OccursAt, WovenText, Weave, WellFormed, NoMarkerBefore, Telling;
    var text := WovenText(spans, gaps, order);
    if !NoMarkerBefore(text, spans, |gaps[0]|) {
      StolenByteShows(spans, gaps, order);
    } else if order != [] {
      PlacedStep(spans, gaps, order);
      DisturbedDiffers(spans, gaps[1..], order[1..]);
      RestoreFirst(spans, gaps, order);
      SameStart(gaps[0] + spans[order[0]].replacement, Restore(WovenText(spans, gaps[1..], order[1..]), spans).text,
                Weave(gaps[1..], Replacements(spans, order[1..])));
    }
  }

  lemma SameStart(first: Text, a: Text, b: Text)
    requires a != b
    ensures first + a != first + b
  {
    assert (first + a)[|first|..] == a && (first + b)[|first|..] == b;
  }

  lemma StolenByteShows(spans: seq<ProtectedSpan>, gaps: seq<Text>, order: seq<nat>)
    requires Placed(spans, gaps, order) && !NoMarkerBefore(WovenText(spans, gaps, order), spans, |gaps[0]|)
    requires forall i :: 0 <= i < |spans| ==> Telling(spans[i].replacement)
    ensures Restore(WovenText(spans, gaps, order), spans).text != Weave(gaps, Replacements(spans, order))
  {
    hide IsMarker, OccursAt, WellFormed;
    var text := WovenText(spans, gaps, order);
    var next := NextMarker(text, spans, |spans|).value;
    RestoreLeftmost(text, spans, next.position, next.span);
    GapShows(spans, gaps, order, next);
    var restored := Restore(text, spans).text;
    assert restored[next.position] == spans[next.span].replacement[0];
  }

  lemma GapShows(spans: seq<ProtectedSpan>, gaps: seq<Text>, order: seq<nat>, next: Match)
    requires Placed(spans, gaps, order) && next.span < |spans| && next.position < |gaps[0]|
    requires OccursAt(WovenText(spans, gaps, order), spans[next.span].token, next.position)
    ensures var expected := Weave(gaps, Replacements(spans, order));
            next.position < |expected| && expected[next.position] == UNDERSCORE
  {
    var text, token := WovenText(spans, gaps, order), spans[next.span].token;
    assert Marked(spans, next.span);
    MarkerBytes(token);
    OccursBytes(text, token, next.position);
    assert text[next.position + 0] == token[0];
  }

  // ---------------------------------------------------------------------------------------------
  // The theorems.

  /**
   * A text that arrives whole, with every marker once between gaps of any kind. Quiet gaps are
   * restored. Otherwise the text is refused, unless a marker starts inside a gap; and then no way
   * of cutting the text into fragments gives the replacements in their places.
   */
  lemma OnePushIsExact(spans: seq<ProtectedSpan>, gaps: seq<Text>, order: seq<nat>)
    requires Placed(spans, gaps, order) && EachOnce(order, |spans|) && spans != []
    ensures var text, expected := WovenText(spans, gaps, order), Weave(gaps, Replacements(spans, order));
            && (Quiet(gaps) ==> Undisturbed(spans, gaps, order))
            && (Undisturbed(spans, gaps, order) ==>
                  Run(spans, Fresh(spans), [text]) == if Quiet(gaps) then Ok(expected) else Err(InvalidMarker))
            && (!Undisturbed(spans, gaps, order) && (forall i :: 0 <= i < |spans| ==> Telling(spans[i].replacement)) ==>
                  forall deltas :: Concat(deltas) == text ==> Run(spans, Fresh(spans), deltas) != Ok(expected))
  {
    hide Undisturbed, Quiet, Run, Restore, WovenText, Weave, Telling, WellFormed, Concat, EachOnce;
    var text := WovenText(spans, gaps, order);
    if Quiet(gaps) {
      QuietIsUndisturbed(spans, gaps, order);
    }
    if Undisturbed(spans, gaps, order) {
      UndisturbedRun(spans, gaps, order);
      RestoreUndisturbed(spans, gaps, order);
      WholeIsOneDelta(text);
      StreamEqualsReference(spans, [text]);
    } else if forall i :: 0 <= i < |spans| ==> Telling(spans[i].replacement) {
      DisturbedDiffers(spans, gaps, order);
      forall deltas | Concat(deltas) == text
        ensures Run(spans, Fresh(spans), deltas) != Ok(Weave(gaps, Replacements(spans, order)))
      {
        StreamEqualsReference(spans, deltas);
      }
    }
  }

  lemma WholeIsOneDelta(text: Text)
    ensures Concat([text]) == text
  {
    var deltas := [text];
    assert deltas[1..] == [];
  }

  /** The same spans with other replacements; the restorer looks at markers only. */
  function Replacing(spans: seq<ProtectedSpan>, texts: seq<Text>): (given: seq<ProtectedSpan>)
    requires |texts| == |spans|
    ensures |given| == |spans| && AllTokens(given) == AllTokens(spans) && AllReplacements(given) == texts
    ensures WellFormed(spans) ==> WellFormed(given)
  {
    var given := seq(|spans|, k requires 0 <= k < |spans| => spans[k].(replacement := texts[k]));
    assert WellFormed(spans) ==> WellFormed(given) by {
      if WellFormed(spans) {
        SameTokensWellFormed(spans, given);
      }
    }
    given
  }

  lemma SameTokensWellFormed(spans: seq<ProtectedSpan>, given: seq<ProtectedSpan>)
    requires WellFormed(spans) && |given| == |spans|
    requires forall k :: 0 <= k < |spans| ==> given[k].token == spans[k].token
    ensures WellFormed(given)
  {
    hide IsMarker;
    forall i | 0 <= i < |given|
      ensures Marked(given, i)
    {
      assert Marked(spans, i);
    }
    forall i, j | 0 <= i < j < |given|
      ensures Apart(given, i, j)
    {
      assert Apart(spans, i, j) && Marked(given, i) && Marked(given, j);
    }
  }

  /** Whatever the replacements are, one push of the woven text puts them where the markers stood. */
  ghost predicate RestoresEverything(spans: seq<ProtectedSpan>, gaps: seq<Text>)
    requires WellFormed(spans) && |gaps| == |spans| + 1
  {
    forall texts: seq<Text> {:trigger Replacing(spans, texts)} :: |texts| == |spans| ==>
      var given := Replacing(spans, texts);
      Run(given, Fresh(given), [Weave(gaps, AllTokens(spans))]) == Ok(Weave(gaps, texts))
  }

  /** The markers in order: everything is restored if and only if the gaps are quiet. */
  lemma EverythingIffQuiet(spans: seq<ProtectedSpan>, gaps: seq<Text>)
    requires WellFormed(spans) && |gaps| == |spans| + 1 && spans != []
    ensures RestoresEverything(spans, gaps) <==> Quiet(gaps)
  {
    hide Quiet, Run, Weave, WellFormed, Undisturbed;
    forall texts: seq<Text> | |texts| == |spans|
      ensures var given := Replacing(spans, texts);
              Quiet(gaps) ==> Run(given, Fresh(given), [Weave(gaps, AllTokens(spans))]) == Ok(Weave(gaps, texts))
    {
      InOrder(Replacing(spans, texts), gaps);
      OnePushIsExact(Replacing(spans, texts), gaps, Identity(|spans|));
    }
    if !Quiet(gaps) {
      var texts := seq(|spans|, _ => [120]);
      var given := Replacing(spans, texts);
      InOrder(given, gaps);
      assert forall i :: 0 <= i < |given| ==> given[i].replacement == AllReplacements(given)[i];
      OnePushIsExact(given, gaps, Identity(|spans|));
      WholeIsOneDelta(Weave(gaps, AllTokens(spans)));
    }
  }

  lemma InOrder(spans: seq<ProtectedSpan>, gaps: seq<Text>)
    requires WellFormed(spans) && |gaps| == |spans| + 1
    ensures var order := Identity(|spans|);
            && Placed(spans, gaps, order) && EachOnce(order, |spans|)
            && WovenText(spans, gaps, order) == Weave(gaps, AllTokens(spans))
            && Replacements(spans, order) == AllReplacements(spans)
  {
    var order := Identity(|spans|);
    assert Tokens(spans, order) == AllTokens(spans);
    assert Replacements(spans, order) == AllReplacements(spans);
    forall i | 0 <= i < |spans|
      ensures i in order
    {
      assert order[i] == i;
    }
  }

  // ---------------------------------------------------------------------------------------------
  // Sources that fit one chunk.

  lemma {:induction false} ClaimAll(text: Text, spans: seq<ProtectedSpan>, used: seq<bool>, i: nat)
    requires i <= |spans| == |used|
    requires forall k :: 0 <= k < |spans| ==> Contains(text, spans[k].token)
    requires forall k :: 0 <= k < |spans| ==> (used[k] <==> k < i)
    ensures Claim(text, spans, used, i) == Some(Claimed(seq(|spans|, _ => true), spans[i..]))
    decreases |spans| - i
  {
    hide Contains;
    if i < |spans| {
      ClaimAll(text, spans, used[i := true], i + 1);
      assert spans[i..] == [spans[i]] + spans[i + 1..];
    } else {
      assert used == seq(|spans|, _ => true) && spans[i..] == [];
    }
  }

  lemma OneChunk(spans: seq<ProtectedSpan>, gaps: seq<Text>, max: nat)
    requires |gaps| == |spans| + 1 && AsciiTokens(AllTokens(spans)) && IsUtf8(Weave(gaps, AllTokens(spans)))
    requires 0 < max && |Weave(gaps, AllTokens(spans))| <= max
    ensures var p := ProtectedSource(Weave(gaps, AllTokens(spans)), spans);
            Chunks(p, max) == Ok([p])
  {
    hide Contains, Weave, IsUtf8, AsciiTokens, SplitFrom;
    var text := Weave(gaps, AllTokens(spans));
    var pieces: seq<Text> := [text];
    forall k | 0 <= k < |spans|
      ensures Contains(text, spans[k].token)
    {
      FillerAtStart(gaps, AllTokens(spans), k);
      ContainsAt(text, AllTokens(spans)[k], Start(gaps, AllTokens(spans), k));
    }
    var used := seq(|spans|, _ => false);
    ClaimAll(text, spans, used, 0);
    assert pieces[1..] == [] && spans[0..] == spans;
    assert AssignFrom([], spans, seq(|spans|, _ => true)) == Ok([]);
    var p := ProtectedSource(text, spans);
    assert AssignFrom(pieces, spans, used) == Ok([p] + []) && [p] + [] == [p];
    assert Split(text, max, AllTokens(spans)) == Ok(pieces);
  }

  /**
   * A source that makes one chunk, whatever it contains: the round trip gives the source with every
   * stretch replaced, for all replacements, if and only if nothing is protected or the visible
   * stretches are quiet.
   */
  lemma OneChunkRoundTrip(source: Text, candidates: seq<Candidate>, max: nat)
    requires IsUtf8(source) && InBounds(source, candidates) && OnBoundaries(source, candidates)
    requires var p := Protect(source, candidates); 0 < max && |p.text| <= max
    ensures var p, gaps := Protect(source, candidates), Gaps(source, candidates);
            && IsUtf8(p.text) && AsciiTokens(AllTokens(p.spans)) && Chunks(p, max) == Ok([p])
            && Weave(gaps, AllSources(p.spans)) == source
            && (RestoresEverything(p.spans, gaps) <==> p.spans == [] || Quiet(gaps))
  {
    hide IsUtf8, Contains, WellFormed, Weave, Chunks, AsciiTokens, Quiet, RestoresEverything;
    var p, gaps := Protect(source, candidates), Gaps(source, candidates);
    ChosenGapsAreSlices(source, candidates);
    ProtectIsWoven(source, candidates);
    TokensAreMarkers(p.spans);
    TokensAreAscii(p.spans);
    WeaveIsUtf8(gaps, AllTokens(p.spans));
    OneChunk(p.spans, gaps, max);
    if p.spans == [] {
      NothingToRestore(gaps);
    } else {
      EverythingIffQuiet(p.spans, gaps);
    }
  }

  lemma ProtectIsWoven(source: Text, candidates: seq<Candidate>)
    requires InBounds(source, candidates)
    ensures var p := Protect(source, candidates);
            p == ProtectedSource(Weave(Gaps(source, candidates), AllTokens(p.spans)), p.spans)
  {
    hide WellFormed, Weave, Sort, Select;
  }

  lemma TokensAreAscii(spans: seq<ProtectedSpan>)
    requires WellFormed(spans)
    ensures AsciiTokens(AllTokens(spans))
  {
    hide IsMarker;
    var tokens := AllTokens(spans);
    forall j | 0 <= j < |tokens|
      ensures tokens[j] != [] && forall k :: 0 <= k < |tokens[j]| ==> IsTokenByte(tokens[j][k])
    {
      assert Marked(spans, j);
      MarkersAreTokenBytes(tokens[j]);
    }
  }

  lemma NothingToRestore(gaps: seq<Text>)
    requires |gaps| == 1
    ensures RestoresEverything([], gaps)
  {
    var nothing: seq<ProtectedSpan> := [];
    assert Weave(gaps, []) == gaps[0] && AllTokens(nothing) == [];
    WholeIsOneDelta(gaps[0]);
    RunWithoutSpans(Fresh(nothing), [gaps[0]]);
    assert [] + gaps[0] == gaps[0];
    forall texts: seq<Text> | |texts| == 0
      ensures var given := Replacing(nothing, texts);
              Run(given, Fresh(given), [Weave(gaps, AllTokens(nothing))]) == Ok(Weave(gaps, texts))
    {
      assert Replacing(nothing, texts) == nothing && texts == [];
    }
  }

  // ---------------------------------------------------------------------------------------------
  // When a marker starts inside a gap.

  /** Behind the gap, the two underscores that open the next marker complete `token`. */
  predicate Completed(gap: Text, token: Text)
    requires 2 <= |token|
  {
    EndsWithPrefix(gap, token, |token| - 1) || EndsWithPrefix(gap, token, |token| - 2)
  }

  /** Some gap in front of a marker ends with a marker less its last one or two bytes. */
  ghost predicate CompletesSome(spans: seq<ProtectedSpan>, gaps: seq<Text>) {
    exists k, i :: 0 <= k < |gaps| - 1 && 0 <= i < |spans| && 2 <= |spans[i].token| && Completed(gaps[k], spans[i].token)
  }

  lemma StartsInGap(gap: Text, next: Text, rest: Text, token: Text)
    requires IsMarker(next) && IsMarker(token) && !Contains(gap, token)
    ensures Completed(gap, token) <==> exists at :: 0 <= at < |gap| && OccursAt(gap + next + rest, token, at)
  {
    hide IsMarker, OccursAt, Contains, EndsWithPrefix;
    var text := gap + next + rest;
    MarkerIsLong(token);
    if at :| 0 <= at < |gap| && OccursAt(text, token, at) {
      MarkerCrosses(gap, next, rest, token, at);
    }
    if EndsWithPrefix(gap, token, |token| - 1) {
      CompletedOccurs(gap, next, rest, token, 1);
    } else if EndsWithPrefix(gap, token, |token| - 2) {
      CompletedOccurs(gap, next, rest, token, 2);
    }
  }

  lemma MarkerIsLong(token: Text)
    requires IsMarker(token)
    ensures 26 <= |token|
  {
  }

  lemma MarkerCrosses(gap: Text, next: Text, rest: Text, token: Text, at: nat)
    requires IsMarker(next) && IsMarker(token) && !Contains(gap, token)
    requires at < |gap| && OccursAt(gap + next + rest, token, at)
    ensures Completed(gap, token)
  {
    hide IsMarker, EndsWithPrefix;
    var text := gap + next + rest;
    assert text == gap + (next + rest) && text[0..|gap|] == gap;
    assert text[|gap|..|gap| + |next|] == next;
    if at + |token| <= |gap| {
      OccursWithin(text, 0, |gap|, token, at);
    } else {
      MarkersDoNotNest(text, token, next, at, |gap|);
      MarkerIsLong(token);
      ShownInGap(gap, next + rest, token, at);
    }
  }

  lemma ShownInGap(gap: Text, rest: Text, token: Text, at: nat)
    requires at <= |gap| <= at + |token| && OccursAt(gap + rest, token, at)
    ensures EndsWithPrefix(gap, token, |gap| - at)
  {
    OccursBytes(gap + rest, token, at);
    forall k | 0 <= k < |gap| - at
      ensures gap[at..][k] == token[k]
    {
      assert (gap + rest)[at + k] == token[k];
    }
  }

  lemma CompletedOccurs(gap: Text, next: Text, rest: Text, token: Text, open: nat)
    requires IsMarker(next) && IsMarker(token) && 1 <= open <= 2
    requires EndsWithPrefix(gap, token, |token| - open)
    ensures exists at :: 0 <= at < |gap| && OccursAt(gap + next + rest, token, at)
  {
    var text, at := gap + next + rest, |gap| + open - |token|;
    MarkerBytes(next);
    SuffixBytes(gap, token, |token| - open);
    forall k | 0 <= k < |token|
      ensures text[at + k] == token[k]
    {
      if k < |token| - open {
        assert gap[|gap| - (|token| - open) + k] == token[k];
      }
    }
    OccursFromBytes(text, token, at);
  }

  /** Gaps that hold no marker of their own, as those of every protected source. */
  lemma {:induction false} UndisturbedIffNotCompleted(spans: seq<ProtectedSpan>, gaps: seq<Text>, order: seq<nat>)
    requires Placed(spans, gaps, order)
    requires forall k, i :: 0 <= k < |gaps| && 0 <= i < |spans| ==> !Contains(gaps[k], spans[i].token)
    ensures Undisturbed(spans, gaps, order) <==> !CompletesSome(spans, gaps)
    decreases |order|
  {
    hide IsMarker, OccursAt, WovenText, WellFormed, Contains, Completed;
    var text := WovenText(spans, gaps, order);
    if order == [] {
      NothingWoven(spans, gaps);
      forall i, at | 0 <= i < |spans| && 0 <= at < |gaps[0]|
        ensures !OccursAt(text, spans[i].token, at)
      {
        if OccursAt(text, spans[i].token, at) {
          ContainsAt(text, spans[i].token, at);
        }
      }
    } else {
      PlacedStep(spans, gaps, order);
      UndisturbedIffNotCompleted(spans, gaps[1..], order[1..]);
      forall i | 0 <= i < |spans|
        ensures |spans[i].token| >= 2
        ensures Completed(gaps[0], spans[i].token) <==>
                  exists at :: 0 <= at < |gaps[0]| && OccursAt(text, spans[i].token, at)
      {
        TokenIsLong(spans, i);
        IsMarked(spans, i);
        StartsInGap(gaps[0], spans[order[0]].token, WovenText(spans, gaps[1..], order[1..]), spans[i].token);
      }
      assert forall k :: 0 < k < |order| ==> gaps[k] == gaps[1..][k - 1];
    }
  }

  lemma IsMarked(spans: seq<ProtectedSpan>, i: nat)
    requires WellFormed(spans) && i < |spans|
    ensures IsMarker(spans[i].token)
  {
    assert Marked(spans, i);
  }

  lemma {:induction false} GapsAvoid(source: Text, chosen: seq<Candidate>, cursor: nat, token: Text)
    requires Usable(source, chosen, cursor) && !Contains(source, token)
    ensures forall k :: 0 <= k <= |chosen| ==> !Contains(GapsFrom(source, chosen, cursor)[k], token)
    decreases |chosen|
  {
    hide Contains;
    var end := if chosen == [] then |source| else chosen[0].start;
    assert source[cursor..] == source[cursor..|source|];
    SliceKeepsAbsence(source, cursor, end, token);
    if chosen != [] {
      GapsAvoid(source, chosen[1..], chosen[0].end, token);
    }
  }

  lemma {:induction false} SourceAvoidsTokens(source: Text, chosen: seq<Candidate>, cursor: nat, index: nat)
    requires Usable(source, chosen, cursor)
    ensures forall i :: 0 <= i < |chosen| ==> !Contains(source, SpansFrom(source, chosen, cursor, index)[i].token)
    decreases |chosen|
  {
    hide Contains, MarkerFor;
    if chosen != [] {
      MarkerForHasIndex(index, source);
      SourceAvoidsTokens(source, chosen[1..], chosen[0].end, index + 1);
    }
  }

  lemma ProtectedGapsAvoidTokens(source: Text, candidates: seq<Candidate>)
    requires InBounds(source, candidates)
    ensures var p, gaps := Protect(source, candidates), Gaps(source, candidates);
            forall k, i :: 0 <= k < |gaps| && 0 <= i < |p.spans| ==> !Contains(gaps[k], p.spans[i].token)
  {
    hide Contains, Sort, Select, Weave, WellFormed, MarkerFor;
    var p, chosen := Protect(source, candidates), Chosen(candidates);
    ChosenIsGreedy(candidates, source);
    DisjointIsUsable(source, chosen, 0);
    SourceAvoidsTokens(source, chosen, 0, 0);
    forall i | 0 <= i < |p.spans|
      ensures forall k :: 0 <= k <= |chosen| ==> !Contains(GapsFrom(source, chosen, 0)[k], p.spans[i].token)
    {
      GapsAvoid(source, chosen, 0, p.spans[i].token);
    }
  }

  /**
   * A protected source whose visible stretches are not quiet. It is refused when it arrives whole,
   * unless a stretch in front of a marker ends with all of some marker but its last one or two
   * bytes; and exactly then some marker is read where none was put.
   */
  lemma UnquietIsRefused(source: Text, candidates: seq<Candidate>)
    requires InBounds(source, candidates)
    ensures var p, gaps := Protect(source, candidates), Gaps(source, candidates);
            && Placed(p.spans, gaps, Identity(|p.spans|))
            && (Undisturbed(p.spans, gaps, Identity(|p.spans|)) <==> !CompletesSome(p.spans, gaps))
            && (p.spans != [] && !Quiet(gaps) && !CompletesSome(p.spans, gaps) ==>
                  Run(p.spans, Fresh(p.spans), [p.text]) == Err(InvalidMarker))
  {
    hide Contains, Protect, Gaps, Weave, WellFormed, Quiet, Undisturbed, Completed, Run;
    var p, gaps := Protect(source, candidates), Gaps(source, candidates);
    ProtectIsWoven(source, candidates);
    InOrder(p.spans, gaps);
    ProtectedGapsAvoidTokens(source, candidates);
    UndisturbedIffNotCompleted(p.spans, gaps, Identity(|p.spans|));
    if p.spans != [] {
      OnePushIsExact(p.spans, gaps, Identity(|p.spans|));
    }
  }

  /** The prefix, an index digit and one more letter: a source that holds half a marker itself. */
  function HalfMarker(): Text {
    PREFIX + [48, 120]
  }

  function LastLetter(): seq<Candidate> {
    [Candidate(24, 25, [120], 0)]
  }

  /** A source that a marker completes: with its last letter protected, the half marker and the opening of
      the real one read as that marker, and no run over the protected text gives the source. */
  lemma PrefixInSourceMisleads(deltas: seq<Text>)
    ensures Contains(HalfMarker(), CORE) && InBounds(HalfMarker(), LastLetter())
    ensures var p := Protect(HalfMarker(), LastLetter());
            Concat(deltas) == p.text ==> Run(p.spans, Fresh(p.spans), deltas) != Ok(HalfMarker())
  {
    var source := HalfMarker();
    var token := PREFIX + [48, UNDERSCORE, UNDERSCORE];
    HalfMarkerIsProtected();
    var p := Protect(source, LastLetter());
    assert source[2..23] == CORE;
    assert OccursAt(source, CORE, 2);
    assert p.text[..26] == token;
    RestoreReplaces(p.text, p.spans, 0);
    assert Restore(p.text, p.spans).text[0] == 120 && source[0] == UNDERSCORE;
    if Concat(deltas) == p.text && Run(p.spans, Fresh(p.spans), deltas).Ok? {
      StreamEqualsReference(p.spans, deltas);
    }
  }

  lemma HalfMarkerIsProtected()
    ensures var token := PREFIX + [48, UNDERSCORE, UNDERSCORE];
            Protect(HalfMarker(), LastLetter()) == ProtectedSource(PREFIX + [48] + token, [ProtectedSpan(token, [120], [120])])
  {
    var source, c := HalfMarker(), LastLetter()[0];
    var token := PREFIX + [48, UNDERSCORE, UNDERSCORE];
    var cs: seq<Candidate> := [c];
    assert LastLetter() == cs && |cs[1..]| == 0;
    assert Sort(cs) == cs && Chosen(cs) == cs;
    assert PREFIX + Digits(0) + [UNDERSCORE, UNDERSCORE] == token;
    assert !Contains(source, token);
    assert source[24..25] == [120] && source[0..24] == PREFIX + [48] && |source[25..]| == 0;
    var span := ProtectedSpan(token, [120], [120]);
    assert SpansFrom(source, cs, 0, 0) == [span];
    var tokens: seq<Text> := [token];
    assert AllTokens([span]) == tokens && |tokens[1..]| == 0;
    var gaps := GapsFrom(source, cs, 0);
    var nothing: Text := [];
    assert gaps == [PREFIX + [48], nothing] && gaps[1..] == [nothing];
    assert Weave(gaps, tokens) == PREFIX + [48] + token;
  }
}
