/** The main theorems about protected text: chunking succeeds exactly when it should, and loses nothing. */
module ChunkRoundTrip {
  import opened Texts
  import opened Utf8
  import opened Markers
  import opened Restoring
  import opened StreamSoundness
  import opened Weaving
  import opened Fragmentation
  import opened Chunking
  import opened Splitting
  import opened Protection
  import opened ChunkRestoring

  /** `at` is not strictly inside a filler. */
  ghost predicate Between(gaps: seq<Text>, fillers: seq<Text>, at: nat)
    requires |gaps| == |fillers| + 1
  {
    forall k :: 0 <= k < |fillers| ==> at <= Start(gaps, fillers, k) || Start(gaps, fillers, k) + |fillers[k]| <= at
  }

  lemma BetweenTail(gaps: seq<Text>, fillers: seq<Text>, at: nat)
    requires |gaps| == |fillers| + 1 && fillers != [] && Between(gaps, fillers, at)
    requires |gaps[0]| + |fillers[0]| <= at
    ensures Between(gaps[1..], fillers[1..], at - |gaps[0]| - |fillers[0]|)
  {
    var skip := |gaps[0]| + |fillers[0]|;
    forall k | 0 <= k < |fillers| - 1
      ensures at - skip <= Start(gaps[1..], fillers[1..], k)
              || Start(gaps[1..], fillers[1..], k) + |fillers[1..][k]| <= at - skip
    {
      assert Start(gaps, fillers, k + 1) == skip + Start(gaps[1..], fillers[1..], k);
    }
  }

  /**
   * A woven text cut outside its fillers falls into two woven texts, and the same cut of the gaps
   * works for any other fillers.
   */
  lemma {:induction false} CutWeave(gaps: seq<Text>, fillers: seq<Text>, other: seq<Text>, at: nat)
    returns (k: nat, left: seq<Text>, right: seq<Text>)
    requires |gaps| == |fillers| + 1 && |other| == |fillers| && Coreless(gaps)
    requires at <= |Weave(gaps, fillers)| && Between(gaps, fillers, at)
    ensures k <= |fillers| && |left| == k + 1 && |right| == |fillers| - k + 1
    ensures Coreless(left) && Coreless(right)
    ensures Weave(gaps, fillers)[..at] == Weave(left, fillers[..k])
    ensures Weave(gaps, fillers)[at..] == Weave(right, fillers[k..])
    ensures Weave(gaps, other) == Weave(left, other[..k]) + Weave(right, other[k..])
    decreases |fillers|
  {
    hide Weave, Contains, Between;
    if at <= |gaps[0]| {
      k, left, right := 0, [gaps[0][..at]], [gaps[0][at..]] + gaps[1..];
      CutGap(gaps, at);
      CutInFirstGap(gaps, fillers, at);
      CutInFirstGap(gaps, other, at);
    } else {
      InsideNoFiller(gaps, fillers, at);
      var skip := |gaps[0]| + |fillers[0]|;
      BetweenTail(gaps, fillers, at);
      CutWeaveStep(gaps, fillers, at, skip);
      var l, left', right' := CutWeave(gaps[1..], fillers[1..], other[1..], at - skip);
      k, left, right := l + 1, [gaps[0]] + left', right';
      WeaveLonger(gaps[0], fillers, left', l);
      WeaveLonger(gaps[0], other, left', l);
      assert fillers[1..][l..] == fillers[k..] && other[1..][l..] == other[k..];
      CutWeaveJoin(gaps, other, Weave(left', other[1..][..l]), Weave(right', other[k..]));
    }
  }

  lemma CutInFirstGap(gaps: seq<Text>, fillers: seq<Text>, at: nat)
    requires |gaps| == |fillers| + 1 && at <= |gaps[0]|
    ensures var right := [gaps[0][at..]] + gaps[1..];
            && at <= |Weave(gaps, fillers)|
            && Weave(gaps, fillers)[..at] == Weave([gaps[0][..at]], fillers[..0])
            && Weave(gaps, fillers)[at..] == Weave(right, fillers[0..])
            && Weave(gaps, fillers) == Weave([gaps[0][..at]], fillers[..0]) + Weave(right, fillers[0..])
  {
    var right := [gaps[0][at..]] + gaps[1..];
    assert fillers[0..] == fillers && right[1..] == gaps[1..];
    assert gaps[0] == gaps[0][..at] + right[0];
  }

  lemma WeaveLonger(gap: Text, fillers: seq<Text>, left: seq<Text>, l: nat)
    requires fillers != [] && l <= |fillers| - 1 && |left| == l + 1
    ensures Weave([gap] + left, fillers[..l + 1]) == gap + fillers[0] + Weave(left, fillers[1..][..l])
  {
    assert ([gap] + left)[1..] == left && fillers[..l + 1][1..] == fillers[1..][..l];
  }

  lemma CutWeaveJoin(gaps: seq<Text>, fillers: seq<Text>, a: Text, b: Text)
    requires |gaps| == |fillers| + 1 && fillers != [] && Weave(gaps[1..], fillers[1..]) == a + b
    ensures Weave(gaps, fillers) == gaps[0] + fillers[0] + a + b
  {
    assert gaps[0] + fillers[0] + (a + b) == gaps[0] + fillers[0] + a + b;
  }

  lemma CutWeaveStep(gaps: seq<Text>, fillers: seq<Text>, at: nat, skip: nat)
    requires |gaps| == |fillers| + 1 && fillers != [] && skip == |gaps[0]| + |fillers[0]|
    requires skip <= at <= |Weave(gaps, fillers)|
    ensures var rest := Weave(gaps[1..], fillers[1..]);
            && at - skip <= |rest|
            && Weave(gaps, fillers)[..at] == gaps[0] + fillers[0] + rest[..at - skip]
            && Weave(gaps, fillers)[at..] == rest[at - skip..]
  {
  }

  lemma InsideNoFiller(gaps: seq<Text>, fillers: seq<Text>, at: nat)
    requires |gaps| == |fillers| + 1 && Between(gaps, fillers, at)
    requires |gaps[0]| < at <= |Weave(gaps, fillers)|
    ensures fillers != [] && |gaps[0]| + |fillers[0]| <= at
  {
    if fillers != [] {
      assert Start(gaps, fillers, 0) == |gaps[0]|;
    }
  }

  lemma CutGap(gaps: seq<Text>, at: nat)
    requires gaps != [] && Coreless(gaps) && at <= |gaps[0]|
    ensures Coreless([gaps[0][..at]]) && Coreless([gaps[0][at..]] + gaps[1..])
  {
    var gap := gaps[0];
    SliceKeepsAbsence(gap, 0, at, CORE);
    SliceKeepsAbsence(gap, at, |gap|, CORE);
    assert gap[0..at] == gap[..at] && gap[at..|gap|] == gap[at..];
  }

  /** Outside all tokens of a shaped text is outside its fillers. */
  lemma OutsideIsBetween(spans: seq<ProtectedSpan>, done: nat, gaps: seq<Text>, at: nat)
    requires done <= |spans| && |gaps| == |spans| - done + 1
    requires Outside(Weave(gaps, AllTokens(spans[done..])), AllTokens(spans), at)
    ensures Between(gaps, AllTokens(spans[done..]), at)
  {
    hide Weave, Start, OccursAt;
    var fillers := AllTokens(spans[done..]);
    forall k | 0 <= k < |fillers|
      ensures at <= Start(gaps, fillers, k) || Start(gaps, fillers, k) + |fillers[k]| <= at
    {
      FillerAtStart(gaps, fillers, k);
      assert fillers[k] == AllTokens(spans)[done + k];
    }
  }

  lemma SliceIsWellFormed(spans: seq<ProtectedSpan>, lo: nat, hi: nat)
    requires WellFormed(spans) && lo <= hi <= |spans|
    ensures WellFormed(spans[lo..hi])
  {
    var part := spans[lo..hi];
    forall i | 0 <= i < |part|
      ensures Marked(part, i)
    {
      assert Marked(spans, lo + i);
    }
    forall i, j | 0 <= i < j < |part|
      ensures Apart(part, i, j)
    {
      assert Apart(spans, lo + i, lo + j) && Marked(part, i) && Marked(part, j);
    }
  }

  /** A shaped piece contains exactly the markers woven into it. */
  lemma PieceContains(spans: seq<ProtectedSpan>, lo: nat, hi: nat, gaps: seq<Text>, i: nat)
    requires WellFormed(spans) && lo <= hi <= |spans| && i < |spans|
    requires |gaps| == hi - lo + 1 && Coreless(gaps)
    ensures Contains(Weave(gaps, AllTokens(spans[lo..hi])), spans[i].token) <==> lo <= i < hi
  {
    hide Weave, Start, OccursAt, Contains, IsMarker, WellFormed;
    var part := spans[lo..hi];
    var piece := Weave(gaps, AllTokens(part));
    SliceIsWellFormed(spans, lo, hi);
    if lo <= i < hi {
      FillerAtStart(gaps, AllTokens(part), i - lo);
      assert AllTokens(part)[i - lo] == spans[i].token;
      ContainsAt(piece, spans[i].token, Start(gaps, AllTokens(part), i - lo));
    } else if Contains(piece, spans[i].token) {
      ForeignMarker(spans, lo, hi, gaps, i);
    }
  }

  lemma ContainsAt(text: Text, pattern: Text, at: nat)
    requires OccursAt(text, pattern, at)
    ensures Contains(text, pattern)
  {
  }

  lemma ForeignMarker(spans: seq<ProtectedSpan>, lo: nat, hi: nat, gaps: seq<Text>, i: nat)
    requires WellFormed(spans) && lo <= hi <= |spans| && i < |spans|
    requires |gaps| == hi - lo + 1 && Coreless(gaps)
    requires Contains(Weave(gaps, AllTokens(spans[lo..hi])), spans[i].token)
    ensures lo <= i < hi
  {
    hide Weave, Start, OccursAt, IsMarker;
    var part := spans[lo..hi];
    var piece := Weave(gaps, AllTokens(part));
    SliceIsWellFormed(spans, lo, hi);
    assert Marked(spans, i);
    var at :| 0 <= at <= |piece| && OccursAt(piece, spans[i].token, at);
    var k := MarkerIsWoven(part, gaps, spans[i].token, at);
    assert lo + k < i ==> Apart(spans, lo + k, i);
    assert i < lo + k ==> Apart(spans, i, lo + k);
  }

  /** Claiming a shaped piece marks and returns exactly its own spans. */
  lemma {:induction false} ClaimIsExact(spans: seq<ProtectedSpan>, lo: nat, hi: nat, gaps: seq<Text>, used: seq<bool>, i: nat)
    requires WellFormed(spans) && lo <= hi <= |spans| && i <= |spans| == |used|
    requires |gaps| == hi - lo + 1 && Coreless(gaps)
    requires forall k :: 0 <= k < |used| ==> (used[k] <==> k < lo || (k < hi && k < i))
    ensures var claimed := Claim(Weave(gaps, AllTokens(spans[lo..hi])), spans, used, i);
            && claimed.Some?
            && |claimed.value.used| == |spans|
            && (forall k :: 0 <= k < |spans| ==> (claimed.value.used[k] <==> k < hi))
            && claimed.value.spans == if i <= lo then spans[lo..hi] else if i <= hi then spans[i..hi] else []
    decreases |spans| - i
  {
    hide Contains, Weave, WellFormed, Coreless;
    if i < |spans| {
      PieceContains(spans, lo, hi, gaps, i);
      if lo <= i < hi {
        ClaimIsExact(spans, lo, hi, gaps, used[i := true], i + 1);
        assert spans[i..hi] == [spans[i]] + spans[i + 1..hi];
      } else {
        ClaimIsExact(spans, lo, hi, gaps, used, i + 1);
      }
    }
  }

  // ---------------------------------------------------------------------------------------------
  // The theorems.

  function Identity(n: nat): (order: seq<nat>)
    ensures |order| == n
  {
    seq(n, k => k)
  }

  /** What one chunk must be for its own restorer to work on it. */
  ghost predicate IsWovenChunk(chunk: ProtectedSource) {
    exists gaps :: Shaped(chunk.spans, gaps) && chunk.text == Weave(gaps, AllTokens(chunk.spans))
  }

  lemma ShapedIsWoven(spans: seq<ProtectedSpan>, gaps: seq<Text>)
    requires Shaped(spans, gaps)
    ensures Woven(spans, gaps, Identity(|spans|)) && EachOnce(Identity(|spans|), |spans|)
    ensures WovenText(spans, gaps, Identity(|spans|)) == Weave(gaps, AllTokens(spans))
    ensures Weave(gaps, Replacements(spans, Identity(|spans|))) == Weave(gaps, AllReplacements(spans))
  {
    var order := Identity(|spans|);
    assert Tokens(spans, order) == AllTokens(spans);
    assert Replacements(spans, order) == AllReplacements(spans);
    forall k | 0 <= k < |gaps|
      ensures !Contains(gaps[k], PREFIX)
    {
      CorelessIsClean(gaps[k]);
    }
    forall i | 0 <= i < |spans|
      ensures i in order
    {
      assert order[i] == i;
    }
  }

  lemma CorelessIsClean(gap: Text)
    requires !Contains(gap, CORE)
    ensures !Contains(gap, PREFIX)
  {
    PrefixShape();
    forall at | 0 <= at <= |gap| && OccursAt(gap, PREFIX, at)
      ensures false
    {
      PrefixHasCore(gap, at);
    }
  }

  lemma PrefixHasCore(gap: Text, at: int)
    requires OccursAt(gap, PREFIX, at)
    ensures OccursAt(gap, CORE, at + 2)
  {
    PrefixShape();
    OccursBytes(gap, PREFIX, at);
    forall k | 0 <= k < |CORE|
      ensures gap[at + 2 + k] == CORE[k]
    {
      assert gap[at + (k + 2)] == PREFIX[k + 2];
    }
    OccursFromBytes(gap, CORE, at + 2);
  }

  /** Each chunk goes through a restorer of its own, in one push; the results are joined. */
  function RestoreChunks(chunks: seq<ProtectedSource>): Result<Text, RestoreError>
    requires forall k :: 0 <= k < |chunks| ==> WellFormed(chunks[k].spans)
  {
    if chunks == [] then Ok([])
    else
      match Run(chunks[0].spans, Fresh(chunks[0].spans), [chunks[0].text])
      case Err(e) => Err(e)
      case Ok(first) =>
        match RestoreChunks(chunks[1..])
        case Err(e) => Err(e)
        case Ok(rest) => Ok(first + rest)
  }

  function SpansOf(chunks: seq<ProtectedSource>): seq<ProtectedSpan> {
    if chunks == [] then [] else chunks[0].spans + SpansOf(chunks[1..])
  }

  /** Woven chunks that share out `spans` in order, and whose restored texts join to `text`. */
  ghost predicate ChunksRestoreTo(chunks: seq<ProtectedSource>, spans: seq<ProtectedSpan>, text: Text) {
    && SpansOf(chunks) == spans
    && (forall k :: 0 <= k < |chunks| ==> WellFormed(chunks[k].spans) && IsWovenChunk(chunks[k]))
    && RestoreChunks(chunks) == Ok(text)
  }

  lemma ChunksRestoreStep(first: ProtectedSource, head: Text, chunks: seq<ProtectedSource>, later: seq<ProtectedSpan>, tail: Text)
    requires WellFormed(first.spans) && IsWovenChunk(first)
    requires Run(first.spans, Fresh(first.spans), [first.text]) == Ok(head)
    requires ChunksRestoreTo(chunks, later, tail)
    ensures ChunksRestoreTo([first] + chunks, first.spans + later, head + tail)
  {
    hide Run, WellFormed, IsWovenChunk;
    assert ([first] + chunks)[1..] == chunks;
  }

  lemma ShapedChunkRestores(spans: seq<ProtectedSpan>, gaps: seq<Text>)
    requires Shaped(spans, gaps)
    ensures IsWovenChunk(ProtectedSource(Weave(gaps, AllTokens(spans)), spans))
    ensures Run(spans, Fresh(spans), [Weave(gaps, AllTokens(spans))]) == Ok(Weave(gaps, AllReplacements(spans)))
  {
    ShapedIsWoven(spans, gaps);
    WholeTextRestores(spans, gaps, Identity(|spans|));
  }

  lemma {:induction false} AssignRestores(spans: seq<ProtectedSpan>, done: nat, gaps: seq<Text>, max: nat,
                                          pieces: seq<Text>, used: seq<bool>)
    requires WellFormed(spans) && done <= |spans| == |used| && |gaps| == |spans| - done + 1 && Coreless(gaps)
    requires forall k :: 0 <= k < |used| ==> (used[k] <==> k < done)
    requires CleanPieces(Weave(gaps, AllTokens(spans[done..])), max, AllTokens(spans), pieces)
    ensures var chunks := AssignFrom(pieces, spans, used);
            chunks.Ok? && ChunksRestoreTo(chunks.value, spans[done..], Weave(gaps, AllReplacements(spans[done..])))
    decreases |pieces|
  {
    hide Run, WellFormed, Contains, Claim, IsUtf8, Outside, Weave, Between, ChunksRestoreTo, Coreless;
    var later := spans[done..];
    var text := Weave(gaps, AllTokens(later));
    if pieces == [] {
      NoSpanInEmptyText(spans, done, gaps);
      NoChunksRestore();
    } else {
      var piece := pieces[0];
      OutsideIsBetween(spans, done, gaps, |piece|);
      var hi, left, right := CutShaped(spans, done, gaps, |piece|);
      ClaimIsExact(spans, done, hi, left, used, 0);
      SliceIsWellFormed(spans, done, hi);
      ShapedChunkRestores(spans[done..hi], left);
      var claimed := Claim(piece, spans, used, 0).value;
      AssignRestores(spans, hi, right, max, pieces[1..], claimed.used);
      var rest := AssignFrom(pieces[1..], spans, claimed.used).value;
      ChunksRestoreStep(ProtectedSource(piece, spans[done..hi]), Weave(left, AllReplacements(spans[done..hi])),
                        rest, spans[hi..], Weave(right, AllReplacements(spans[hi..])));
      assert spans[done..] == spans[done..hi] + spans[hi..];
    }
  }

  /** One cut of a shaped text: the spans in front of it, and the two shaped parts. */
  lemma CutShaped(spans: seq<ProtectedSpan>, done: nat, gaps: seq<Text>, at: nat)
    returns (hi: nat, left: seq<Text>, right: seq<Text>)
    requires done <= |spans| && |gaps| == |spans| - done + 1 && Coreless(gaps)
    requires at <= |Weave(gaps, AllTokens(spans[done..]))| && Between(gaps, AllTokens(spans[done..]), at)
    ensures done <= hi <= |spans| && |left| == hi - done + 1 && |right| == |spans| - hi + 1
    ensures Coreless(left) && Coreless(right)
    ensures Weave(gaps, AllTokens(spans[done..]))[..at] == Weave(left, AllTokens(spans[done..hi]))
    ensures Weave(gaps, AllTokens(spans[done..]))[at..] == Weave(right, AllTokens(spans[hi..]))
    ensures Weave(gaps, AllReplacements(spans[done..]))
         == Weave(left, AllReplacements(spans[done..hi])) + Weave(right, AllReplacements(spans[hi..]))
  {
    hide Weave, Contains, Between;
    var later := spans[done..];
    var k;
    k, left, right := CutWeave(gaps, AllTokens(later), AllReplacements(later), at);
    hi := done + k;
    assert AllTokens(later)[..k] == AllTokens(spans[done..hi]);
    assert AllReplacements(later)[..k] == AllReplacements(spans[done..hi]);
    assert AllTokens(later)[k..] == AllTokens(spans[hi..]);
    assert AllReplacements(later)[k..] == AllReplacements(spans[hi..]);
  }

  lemma NoSpanInEmptyText(spans: seq<ProtectedSpan>, done: nat, gaps: seq<Text>)
    requires WellFormed(spans) && done <= |spans| && |gaps| == |spans| - done + 1
    requires Weave(gaps, AllTokens(spans[done..])) == []
    ensures done == |spans| && Weave(gaps, AllReplacements(spans[done..])) == []
  {
    if done < |spans| {
      TokenIsLong(spans, done);
    }
  }

  lemma TokenIsLong(spans: seq<ProtectedSpan>, i: nat)
    requires WellFormed(spans) && i < |spans|
    ensures 26 <= |spans[i].token|
  {
    assert Marked(spans, i);
  }

  lemma NoChunksRestore()
    ensures ChunksRestoreTo([], [], [])
  {
  }

  lemma AllFitIsLength(spans: seq<ProtectedSpan>, gaps: seq<Text>, max: nat)
    requires Shaped(spans, gaps)
    ensures AllFit(Weave(gaps, AllTokens(spans)), AllTokens(spans), max)
       <==> forall k :: 0 <= k < |spans| ==> |spans[k].token| <= max
  {
    hide Weave, OccursAt, WellFormed;
    var tokens := AllTokens(spans);
    forall k | 0 <= k < |spans|
      ensures OccursAt(Weave(gaps, tokens), tokens[k], Start(gaps, tokens, k)) && tokens[k] == spans[k].token
    {
      FillerAtStart(gaps, tokens, k);
    }
  }

  /**
   * Chunking a shaped text. With room for any character it succeeds if and only if every marker
   * fits under the limit; whenever it succeeds, the chunks share out the spans in order, each is a
   * woven text with its own spans, and restoring the chunks one by one and joining the results puts every replacement in place.
   */
  lemma ShapedChunksRestore(spans: seq<ProtectedSpan>, gaps: seq<Text>, max: nat)
    requires Shaped(spans, gaps) && IsUtf8(Weave(gaps, AllTokens(spans)))
    requires AsciiTokens(AllTokens(spans))
    ensures var chunks := Chunks(ProtectedSource(Weave(gaps, AllTokens(spans)), spans), max);
            && (chunks.Ok? ==> ChunksRestoreTo(chunks.value, spans, Weave(gaps, AllReplacements(spans))))
            && (4 <= max ==> (chunks.Ok? <==> forall k :: 0 <= k < |spans| ==> |spans[k].token| <= max))
  {
    hide Weave, Split, IsUtf8, CleanPieces, AssignFrom, ChunksRestoreTo, AllFit, Coreless, AsciiTokens, Separate;
    var text := Weave(gaps, AllTokens(spans));
    assert spans[0..] == spans;
    ShapedIsSeparate(spans, gaps);
    var pieces := Split(text, max, AllTokens(spans));
    if text == [] {
      EmptyTextChunks(spans, gaps, max);
    } else {
      SplitIsExact(text, max, AllTokens(spans));
      AllFitIsLength(spans, gaps, max);
      if pieces.Ok? {
        AssignRestores(spans, 0, gaps, max, pieces.value, seq(|spans|, _ => false));
      }
    }
  }

  lemma EmptyTextChunks(spans: seq<ProtectedSpan>, gaps: seq<Text>, max: nat)
    requires Shaped(spans, gaps) && Weave(gaps, AllTokens(spans)) == []
    requires AsciiTokens(AllTokens(spans))
    ensures var chunks := Chunks(ProtectedSource([], spans), max);
            && spans == []
            && (0 < max ==> chunks.Ok? && ChunksRestoreTo(chunks.value, spans, Weave(gaps, AllReplacements(spans))))
            && (chunks.Ok? ==> 0 < max)
  {
    assert spans[0..] == spans;
    NoSpanInEmptyText(spans, 0, gaps);
    if 0 < max {
      var chunk := ProtectedSource([], []);
      ShapedChunkRestores([], gaps);
      NoChunksRestore();
      ChunksRestoreStep(chunk, [], [], [], []);
      assert AssignFrom([[]], spans, []) == Ok([chunk] + []);
      assert seq(|spans|, _ => false) == [];
    }
  }

  // ---------------------------------------------------------------------------------------------
  // From the source text to the chunks and back.

  /** Every candidate starts and ends between characters. */
  predicate OnBoundaries(source: Text, candidates: seq<Candidate>) {
    forall k | 0 <= k < |candidates| :: IsBoundary(source, candidates[k].start) && IsBoundary(source, candidates[k].end)
  }

  lemma {:induction false} GapsAreSlices(source: Text, chosen: seq<Candidate>, cursor: nat)
    requires Usable(source, chosen, cursor)
    requires IsUtf8(source) && OnBoundaries(source, chosen) && IsBoundary(source, cursor)
    ensures forall k :: 0 <= k <= |chosen| ==> IsUtf8(GapsFrom(source, chosen, cursor)[k])
    decreases |chosen|
  {
    hide IsUtf8;
    var end := if chosen == [] then |source| else chosen[0].start;
    assert source[cursor..] == source[cursor..|source|];
    SliceUtf8(source, cursor, end);
    if chosen != [] {
      GapsAreSlices(source, chosen[1..], chosen[0].end);
    }
  }

  lemma {:induction false} WeaveIsUtf8(gaps: seq<Text>, fillers: seq<Text>)
    requires |gaps| == |fillers| + 1 && AllMarkers(fillers)
    requires forall k :: 0 <= k < |gaps| ==> IsUtf8(gaps[k])
    ensures IsUtf8(Weave(gaps, fillers))
    decreases |fillers|
  {
    hide IsUtf8, IsMarker;
    if fillers != [] {
      WeaveIsUtf8(gaps[1..], fillers[1..]);
      MarkersAreTokenBytes(fillers[0]);
      AsciiIsUtf8(fillers[0]);
      JoinUtf8(gaps[0], fillers[0]);
      JoinUtf8(gaps[0] + fillers[0], Weave(gaps[1..], fillers[1..]));
    }
  }

  lemma {:induction false} AsciiIsUtf8(s: Text)
    requires forall k :: 0 <= k < |s| ==> s[k] < 128
    ensures IsUtf8(s)
  {
    if s != [] {
      AsciiIsUtf8(s[1..]);
    }
  }

  lemma StartJoin(a: Text, b: Text)
    requires StartsWithChar(a)
    ensures StartsWithChar(a + b)
  {
    hide CharLength;
  }

  lemma {:induction false} JoinUtf8(a: Text, b: Text)
    requires IsUtf8(a) && IsUtf8(b)
    ensures IsUtf8(a + b)
    decreases |a|
  {
    hide CharLength, IsUtf8, StartsWithChar;
    if a == [] {
      assert a + b == b;
    } else {
      var n := CharLength(a[0]);
      FirstSplits(a);
      StartJoin(a, b);
      JoinUtf8(a[n..], b);
      assert (a + b)[0] == a[0] && (a + b)[n..] == a[n..] + b;
      FrontChar(a + b);
    }
  }

  lemma ChosenGapsAreSlices(source: Text, candidates: seq<Candidate>)
    requires IsUtf8(source) && InBounds(source, candidates) && OnBoundaries(source, candidates)
    ensures forall k :: 0 <= k < |Gaps(source, candidates)| ==> IsUtf8(Gaps(source, candidates)[k])
    ensures Weave(Gaps(source, candidates), AllSources(Protect(source, candidates).spans)) == source
  {
    var chosen := Chosen(candidates);
    ChosenIsGreedy(candidates, source);
    DisjointIsUsable(source, chosen, 0);
    ChosenOnBoundaries(source, candidates, chosen);
    GapsAreSlices(source, chosen, 0);
    GapsAndSourcesTile(source, chosen, 0, 0);
    assert source[0..] == source;
  }

  lemma ChosenOnBoundaries(source: Text, candidates: seq<Candidate>, chosen: seq<Candidate>)
    requires OnBoundaries(source, candidates) && forall c :: c in chosen ==> c in candidates
    ensures OnBoundaries(source, chosen)
  {
    forall k | 0 <= k < |chosen|
      ensures IsBoundary(source, chosen[k].start) && IsBoundary(source, chosen[k].end)
    {
      assert chosen[k] in chosen && chosen[k] in candidates;
    }
  }

  /** The protected form of a source that mentions the marker prefix in protected stretches only is shaped. */
  lemma ProtectIsShaped(source: Text, candidates: seq<Candidate>) returns (gaps: seq<Text>)
    requires IsUtf8(source) && InBounds(source, candidates) && OnBoundaries(source, candidates)
    requires Coreless(Gaps(source, candidates))
    ensures var p := Protect(source, candidates);
            && Shaped(p.spans, gaps)
            && p.text == Weave(gaps, AllTokens(p.spans))
            && IsUtf8(p.text) && AsciiTokens(AllTokens(p.spans))
            && Weave(gaps, AllSources(p.spans)) == source
    ensures gaps == Gaps(source, candidates)
  {
    hide IsUtf8, Contains, WellFormed, Weave, Sort, Select, AsciiTokens;
    var p := Protect(source, candidates);
    var chosen := Chosen(candidates);
    gaps := Gaps(source, candidates);
    ChosenGapsAreSlices(source, candidates);
    TokensAreMarkers(p.spans);
    WeaveIsUtf8(gaps, AllTokens(p.spans));
    ShapedIsSeparate(p.spans, gaps);
    assert source[0..] == source;
  }

  /** The parts of the source that stay visible to the model. */
  function Gaps(source: Text, candidates: seq<Candidate>): (gaps: seq<Text>)
    requires InBounds(source, candidates)
    ensures |gaps| == |Protect(source, candidates).spans| + 1
  {
    ChosenIsGreedy(candidates, source);
    DisjointIsUsable(source, Chosen(candidates), 0);
    GapsFrom(source, Chosen(candidates), 0)
  }

  /**
   * The round trip of a whole document: for every source that mentions the marker prefix at most
   * in protected stretches, whatever the scanners propose and whatever the limit. If the chunks can
   * be made, they share out the spans in order, and restoring
   * them one by one gives the source with each chosen stretch replaced; in particular the source
   * itself when every replacement is the stretch it stands for. With a limit of four bytes or
   * more the chunks can be made if and only if every marker fits.
   */
  lemma ProtectChunkRestore(source: Text, candidates: seq<Candidate>, max: nat)
    requires IsUtf8(source) && InBounds(source, candidates) && OnBoundaries(source, candidates)
    requires Coreless(Gaps(source, candidates))
    ensures var p := Protect(source, candidates);
            && IsUtf8(p.text) && AsciiTokens(AllTokens(p.spans))
            && Weave(Gaps(source, candidates), AllSources(p.spans)) == source
            && var chunks := Chunks(p, max);
               && (chunks.Ok? ==> ChunksRestoreTo(chunks.value, p.spans, Weave(Gaps(source, candidates), AllReplacements(p.spans))))
               && (chunks.Ok? && (forall k :: 0 <= k < |p.spans| ==> p.spans[k].replacement == p.spans[k].source)
                   ==> RestoreChunks(chunks.value) == Ok(source))
               && (4 <= max ==> (chunks.Ok? <==> forall k :: 0 <= k < |p.spans| ==> |p.spans[k].token| <= max))
  {
    hide IsUtf8, Contains, WellFormed, Weave, Chunks, AsciiTokens, Protect, Gaps, IsWovenChunk;
    var p := Protect(source, candidates);
    var gaps := ProtectIsShaped(source, candidates);
    ShapedChunksRestore(p.spans, gaps, max);
    if forall k :: 0 <= k < |p.spans| ==> p.spans[k].replacement == p.spans[k].source {
      assert AllReplacements(p.spans) == AllSources(p.spans);
    }
  }
}
