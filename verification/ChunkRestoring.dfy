/** Protect, cut into chunks, restore each chunk by itself, and join: the source comes back. */
module ChunkRestoring {
  import opened Texts
  import opened Utf8
  import opened Markers
  import opened Restoring
  import opened Weaving
  import opened Chunking
  import opened Splitting
  import opened Protection

  // ---------------------------------------------------------------------------------------------
  // Markers occur in a woven text only where they were woven in.

  predicate AllMarkers(fillers: seq<Text>) {
    forall k | 0 <= k < |fillers| :: IsMarker(fillers[k])
  }

  /** No gap contains `LINGUAMESH_PROTECTED_`. */
  predicate Coreless(gaps: seq<Text>) {
    forall k | 0 <= k < |gaps| :: !Contains(gaps[k], CORE)
  }

  /** Where the filler with index `k` starts. */
  function Start(gaps: seq<Text>, fillers: seq<Text>, k: nat): (at: nat)
    requires |gaps| == |fillers| + 1 && k < |fillers|
    decreases k
  {
    if k == 0 then |gaps[0]| else |gaps[0]| + |fillers[0]| + Start(gaps[1..], fillers[1..], k - 1)
  }

  lemma {:induction false} FillerAtStart(gaps: seq<Text>, fillers: seq<Text>, k: nat)
    requires |gaps| == |fillers| + 1 && k < |fillers|
    ensures OccursAt(Weave(gaps, fillers), fillers[k], Start(gaps, fillers, k))
    decreases k
  {
    var text, at := Weave(gaps, fillers), Start(gaps, fillers, k);
    if k == 0 {
      assert text[at..at + |fillers[0]|] == fillers[0];
    } else {
      var skip := |gaps[0]| + |fillers[0]|;
      FillerAtStart(gaps[1..], fillers[1..], k - 1);
      assert text[skip..|text|] == Weave(gaps[1..], fillers[1..]);
      OccursInSlice(text, skip, |text|, fillers[k], at - skip);
    }
  }

  lemma {:induction false} StartsIncrease(gaps: seq<Text>, fillers: seq<Text>, i: nat, j: nat)
    requires |gaps| == |fillers| + 1 && i < j < |fillers|
    ensures Start(gaps, fillers, i) + |fillers[i]| <= Start(gaps, fillers, j)
    decreases i
  {
    if i > 0 {
      StartsIncrease(gaps[1..], fillers[1..], i - 1, j - 1);
    }
  }

  /** The core of the prefix, followed by a digit. */
  predicate CoreAt(text: Text, at: int) {
    OccursAt(text, CORE, at) && at + |CORE| < |text| && IsDigit(text[at + |CORE|])
  }

  lemma MarkerShowsCore(text: Text, u: Text, at: int)
    requires IsMarker(u) && OccursAt(text, u, at)
    ensures CoreAt(text, at + 2)
  {
    PrefixShape();
    OccursBytes(text, u, at);
    MarkerBytes(u);
    forall k | 0 <= k < |CORE|
      ensures text[at + 2 + k] == CORE[k]
    {
      assert text[at + (k + 2)] == u[k + 2];
    }
    OccursFromBytes(text, CORE, at + 2);
    assert text[at + 23] == u[23];
  }

  /** The core cannot begin in a coreless gap and end in the marker behind it. */
  lemma NoCoreAcross(gap: Text, next: Text, rest: Text, at: int)
    requires !Contains(gap, CORE) && IsMarker(next) && 0 <= at < |gap|
    ensures !CoreAt(gap + next + rest, at)
  {
    var text := gap + next + rest;
    if CoreAt(text, at) {
      PrefixShape();
      if at + |CORE| <= |gap| {
        assert text[0..|gap|] == gap;
        OccursWithin(text, 0, |gap|, CORE, at);
      } else {
        CoreStraddles(gap, next, rest, at);
        MarkerBytes(next);
      }
    }
  }

  lemma CoreStraddles(gap: Text, next: Text, rest: Text, at: int)
    requires 0 <= at < |gap| < at + |CORE| && 2 <= |next|
    requires CoreAt(gap + next + rest, at)
    ensures var x := |gap| - at;
            && PREFIX[x + 2] == next[0]
            && if x < 20 then PREFIX[x + 3] == next[1] else IsDigit(next[1])
  {
    PrefixShape();
    var text := gap + next + rest;
    var x := |gap| - at;
    OccursBytes(text, CORE, at);
    assert text[at + x] == next[0] && text[at + (x + 1)] == next[1];
    assert CORE[x] == PREFIX[x + 2];
    assert x < 20 ==> CORE[x + 1] == PREFIX[x + 3];
  }

  lemma {:induction false} CoreInWeave(gaps: seq<Text>, fillers: seq<Text>, at: int) returns (k: nat)
    requires |gaps| == |fillers| + 1 && AllMarkers(fillers) && Coreless(gaps)
    requires CoreAt(Weave(gaps, fillers), at)
    ensures k < |fillers| && at == Start(gaps, fillers, k) + 2
    decreases |fillers|
  {
    hide IsMarker, Contains;
    var text := Weave(gaps, fillers);
    PrefixShape();
    k := 0;
    if fillers == [] {
      CoreIsContained(text, at);
    } else {
      var gap, next, rest := gaps[0], fillers[0], Weave(gaps[1..], fillers[1..]);
      var skip := |gap| + |next|;
      assert text == gap + next + rest;
      if at < |gap| {
        NoCoreAcross(gap, next, rest, at);
      } else if at < skip {
        OccursBytes(text, CORE, at);
        assert text[at + 0] == CORE[0];
        MarkerBytes(next);
        assert text[at] == next[at - |gap|];
      } else {
        assert text[skip..|text|] == rest;
        OccursWithin(text, skip, |text|, CORE, at);
        var l := CoreInWeave(gaps[1..], fillers[1..], at - skip);
        k := l + 1;
      }
    }
  }

  lemma CoreIsContained(text: Text, at: int)
    requires CoreAt(text, at)
    ensures Contains(text, CORE)
  {
  }

  /** Spans in order, between coreless gaps: the shape of every protected source. */
  ghost predicate Shaped(spans: seq<ProtectedSpan>, gaps: seq<Text>) {
    WellFormed(spans) && |gaps| == |spans| + 1 && Coreless(gaps)
  }

  lemma TokensAreMarkers(spans: seq<ProtectedSpan>)
    requires WellFormed(spans)
    ensures AllMarkers(AllTokens(spans))
  {
    forall k | 0 <= k < |spans|
      ensures IsMarker(AllTokens(spans)[k])
    {
      assert Marked(spans, k);
    }
  }

  /** Any marker found in a shaped text is one of its own, at its own place. */
  lemma MarkerIsWoven(spans: seq<ProtectedSpan>, gaps: seq<Text>, u: Text, at: nat) returns (k: nat)
    requires Shaped(spans, gaps) && IsMarker(u)
    requires OccursAt(Weave(gaps, AllTokens(spans)), u, at)
    ensures k < |spans| && at == Start(gaps, AllTokens(spans), k)
    ensures IsMarker(spans[k].token) && Head(spans[k].token) == Head(u)
  {
    var text := Weave(gaps, AllTokens(spans));
    TokensAreMarkers(spans);
    MarkerShowsCore(text, u, at);
    k := CoreInWeave(gaps, AllTokens(spans), at + 2);
    FillerAtStart(gaps, AllTokens(spans), k);
    assert Marked(spans, k);
    HeadsDecide(text, spans[k].token, u, at);
  }

  lemma TokenIsAtItsStart(spans: seq<ProtectedSpan>, gaps: seq<Text>, j: nat, at: nat)
    requires Shaped(spans, gaps) && j < |spans|
    requires OccursAt(Weave(gaps, AllTokens(spans)), spans[j].token, at)
    ensures at == Start(gaps, AllTokens(spans), j)
  {
    assert Marked(spans, j);
    var k := MarkerIsWoven(spans, gaps, spans[j].token, at);
    assert k < j ==> Apart(spans, k, j);
    assert j < k ==> Apart(spans, j, k);
  }

  lemma MarkersAreTokenBytes(t: Text)
    requires IsMarker(t)
    ensures t != [] && forall k :: 0 <= k < |t| ==> IsTokenByte(t[k])
  {
    MarkerBytes(t);
    PrefixIsTokenBytes();
    forall k | 0 <= k < |t|
      ensures IsTokenByte(t[k])
    {
      if 23 <= k {
        assert IsDigit(t[k]) || t[k] == UNDERSCORE;
      }
    }
  }

  lemma PrefixIsTokenBytes()
    ensures |PREFIX| == 23 && forall k :: 0 <= k < 23 ==> IsTokenByte(PREFIX[k])
  {
  }

  /** The conditions under which splitting was analysed hold for every shaped text. */
  lemma ShapedIsSeparate(spans: seq<ProtectedSpan>, gaps: seq<Text>)
    requires Shaped(spans, gaps)
    ensures AsciiTokens(AllTokens(spans))
    ensures Separate(Weave(gaps, AllTokens(spans)), AllTokens(spans))
  {
    hide Weave, OccursAt, IsMarker;
    var tokens := AllTokens(spans);
    var text := Weave(gaps, tokens);
    forall j | 0 <= j < |tokens|
      ensures tokens[j] != [] && forall k :: 0 <= k < |tokens[j]| ==> IsTokenByte(tokens[j][k])
    {
      assert Marked(spans, j);
      MarkersAreTokenBytes(tokens[j]);
    }
    forall j | 0 <= j < |tokens|
      ensures Once(text, tokens[j])
    {
      forall p, q | OccursAt(text, tokens[j], p) && OccursAt(text, tokens[j], q)
        ensures p == q
      {
        OccurrenceIsStart(spans, gaps, j, p);
        OccurrenceIsStart(spans, gaps, j, q);
      }
    }
    forall i, j | 0 <= i < |tokens| && 0 <= j < |tokens| && i != j
      ensures Clear(text, tokens[i], tokens[j])
    {
      forall p, q | OccursAt(text, tokens[i], p) && OccursAt(text, tokens[j], q)
        ensures p + |tokens[i]| <= q || q + |tokens[j]| <= p
      {
        OccurrenceIsStart(spans, gaps, i, p);
        OccurrenceIsStart(spans, gaps, j, q);
        if i < j {
          StartsIncrease(gaps, tokens, i, j);
        } else {
          StartsIncrease(gaps, tokens, j, i);
        }
      }
    }
  }

  lemma OccurrenceIsStart(spans: seq<ProtectedSpan>, gaps: seq<Text>, j: nat, at: int)
    requires Shaped(spans, gaps) && j < |spans|
    requires OccursAt(Weave(gaps, AllTokens(spans)), AllTokens(spans)[j], at)
    ensures at == Start(gaps, AllTokens(spans), j)
  {
    TokenIsAtItsStart(spans, gaps, j, at);
  }

  // ---------------------------------------------------------------------------------------------
  // Handing the spans out to the chunks.

  /** The spans found in `piece`, unless one of them was found in an earlier piece. */
  function Claim(piece: Text, spans: seq<ProtectedSpan>, used: seq<bool>, i: nat): Option<Claimed>
    requires |used| == |spans| && i <= |spans|
    decreases |spans| - i
  {
    if i == |spans| then Some(Claimed(used, []))
    else if !Contains(piece, spans[i].token) then Claim(piece, spans, used, i + 1)
    else if used[i] then None
    else
      match Claim(piece, spans, used[i := true], i + 1)
      case None => None
      case Some(claimed) => Some(claimed.(spans := [spans[i]] + claimed.spans))
  }

  datatype Claimed = Claimed(used: seq<bool>, spans: seq<ProtectedSpan>)

  lemma {:induction false} ClaimKeepsLength(piece: Text, spans: seq<ProtectedSpan>, used: seq<bool>, i: nat)
    requires |used| == |spans| && i <= |spans|
    ensures Claim(piece, spans, used, i).Some? ==> |Claim(piece, spans, used, i).value.used| == |spans|
    decreases |spans| - i
  {
    if i < |spans| {
      ClaimKeepsLength(piece, spans, used, i + 1);
      ClaimKeepsLength(piece, spans, used[i := true], i + 1);
    }
  }

  function AssignFrom(pieces: seq<Text>, spans: seq<ProtectedSpan>, used: seq<bool>)
    : Result<seq<ProtectedSource>, ChunkingError>
    requires |used| == |spans|
  {
    if pieces == [] then
      if exists i | 0 <= i < |used| :: !used[i] then Err(ProtectedSpanSplit) else Ok([])
    else
      ClaimKeepsLength(pieces[0], spans, used, 0);
      match Claim(pieces[0], spans, used, 0)
      case None => Err(ProtectedSpanSplit)
      case Some(claimed) =>
        match AssignFrom(pieces[1..], spans, claimed.used)
        case Err(e) => Err(e)
        case Ok(rest) => Ok([ProtectedSource(pieces[0], claimed.spans)] + rest)
  }

  function Chunks(p: ProtectedSource, max: nat): Result<seq<ProtectedSource>, ChunkingError>
    requires IsUtf8(p.text) && AsciiTokens(AllTokens(p.spans))
  {
    match Split(p.text, max, AllTokens(p.spans))
    case Err(e) => Err(e)
    case Ok(pieces) => AssignFrom(pieces, p.spans, seq(|p.spans|, _ => false))
  }

  /** The loops of the chunker. */
  method MakeChunks(p: ProtectedSource, max: nat) returns (result: Result<seq<ProtectedSource>, ChunkingError>)
    requires IsUtf8(p.text) && AsciiTokens(AllTokens(p.spans))
    ensures result == Chunks(p, max)
  {
    hide IsUtf8, AsciiTokens, Contains;
    var pieces := SplitProtectedText(p.text, max, AllTokens(p.spans));
    if pieces.Err? {
      return Err(pieces.error);
    }
    var used := seq(|p.spans|, _ => false);
    var chunks: seq<ProtectedSource> := [];
    ghost var target := AssignFrom(pieces.value, p.spans, used);
    NoneBefore(target);
    assert pieces.value[0..] == pieces.value;
    for n := 0 to |pieces.value|
      invariant |used| == |p.spans|
      invariant target == Before(chunks, AssignFrom(pieces.value[n..], p.spans, used))
    {
      var piece := pieces.value[n];
      assert pieces.value[n..][0] == piece && pieces.value[n..][1..] == pieces.value[n + 1..];
      var claimed := ClaimSpans(piece, p.spans, used);
      ClaimKeepsLength(piece, p.spans, used, 0);
      if claimed.None? {
        return Err(ProtectedSpanSplit);
      }
      BeforeStep(chunks, ProtectedSource(piece, claimed.value.spans), AssignFrom(pieces.value[n + 1..], p.spans, claimed.value.used));
      used := claimed.value.used;
      chunks := chunks + [ProtectedSource(piece, claimed.value.spans)];
    }
    if exists i | 0 <= i < |used| :: !used[i] {
      return Err(ProtectedSpanSplit);
    }
    assert chunks + [] == chunks;
    return Ok(chunks);
  }

  method ClaimSpans(piece: Text, spans: seq<ProtectedSpan>, used: seq<bool>) returns (claimed: Option<Claimed>)
    requires |used| == |spans|
    ensures claimed == Claim(piece, spans, used, 0)
  {
    hide Contains;
    var marked := used;
    var found: seq<ProtectedSpan> := [];
    ghost var target := Claim(piece, spans, used, 0);
    assert target.Some? ==> [] + target.value.spans == target.value.spans;
    for i := 0 to |spans|
      invariant |marked| == |spans|
      invariant target == match Claim(piece, spans, marked, i)
                          case None => None
                          case Some(rest) => Some(rest.(spans := found + rest.spans))
    {
      if Contains(piece, spans[i].token) {
        if marked[i] {
          return None;
        }
        ghost var rest := Claim(piece, spans, marked[i := true], i + 1);
        assert rest.Some? ==> found + ([spans[i]] + rest.value.spans) == found + [spans[i]] + rest.value.spans;
        marked := marked[i := true];
        found := found + [spans[i]];
      }
    }
    assert found + [] == found;
    return Some(Claimed(marked, found));
  }

  ghost function Before(done: seq<ProtectedSource>, rest: Result<seq<ProtectedSource>, ChunkingError>)
    : Result<seq<ProtectedSource>, ChunkingError>
  {
    match rest
    case Err(e) => Err(e)
    case Ok(chunks) => Ok(done + chunks)
  }

  lemma NoneBefore(rest: Result<seq<ProtectedSource>, ChunkingError>)
    ensures Before([], rest) == rest
  {
    if rest.Ok? {
      assert [] + rest.value == rest.value;
    }
  }

  lemma BeforeStep(done: seq<ProtectedSource>, next: ProtectedSource, rest: Result<seq<ProtectedSource>, ChunkingError>)
    ensures Before(done, Before([next], rest)) == Before(done + [next], rest)
  {
    if rest.Ok? {
      assert done + ([next] + rest.value) == done + [next] + rest.value;
    }
  }
}
