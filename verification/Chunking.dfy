/** Cutting protected text under a byte limit without cutting a character or a marker. */
module Chunking {
  import opened Texts
  import opened Utf8

  datatype ChunkingError = InvalidLimit | ProtectedSpanTooLarge | ProtectedSpanSplit

  datatype Range = Range(start: nat, end: nat)

  /** The last character boundary at or before `limit`, but not before `start`. */
  function FloorBoundary(text: Text, start: nat, limit: nat): (floor: nat)
    requires start <= limit <= |text|
    ensures start <= floor <= limit
    ensures floor == start || IsBoundary(text, floor)
    ensures forall at :: floor < at <= limit ==> !IsBoundary(text, at)
  {
    if limit > start && !IsBoundary(text, limit) then FloorBoundary(text, start, limit - 1) else limit
  }

  /** The first token whose first occurrence behind `start` straddles `limit`. */
  function CrossingSpan(text: Text, tokens: seq<Text>, start: nat, limit: nat, i: nat := 0): (found: Option<Range>)
    requires i <= |tokens|
    ensures found.Some? ==>
              && start <= found.value.start < limit < found.value.end
              && exists j :: i <= j < |tokens| && OccursAt(text, tokens[j], found.value.start)
                             && found.value.end == found.value.start + |tokens[j]|
    ensures found.None? ==> forall j :: i <= j < |tokens| ==> !Straddles(text, tokens[j], start, limit)
    decreases |tokens| - i
  {
    if i == |tokens| then None
    else if Straddles(text, tokens[i], start, limit) then
      var at := FindFrom(text, tokens[i], start).value;
      Some(Range(at, at + |tokens[i]|))
    else CrossingSpan(text, tokens, start, limit, i + 1)
  }

  predicate Straddles(text: Text, token: Text, start: nat, limit: nat) {
    var at := FindFrom(text, token, start);
    at.Some? && at.value < limit < at.value + |token|
  }

  predicate Cuttable(text: Text, start: nat) {
    IsUtf8(text) && start <= |text| && IsBoundary(text, start)
  }

  /** The end of the last phrase in `text[at..limit]`, or else `preferred`. */
  function LastBreak(text: Text, at: nat, limit: nat, preferred: Option<nat>): (found: Option<nat>)
    requires at <= limit && Cuttable(text, at) && Cuttable(text, limit)
    ensures found == preferred || (found.Some? && at < found.value <= limit
                                   && Cuttable(text, found.value) && IsBreak(text, found.value))
    decreases limit - at
  {
    if at == limit then preferred
    else
      CharAt(text, at);
      var end := at + CharLength(text[at]);
      var found :=
        if EndsPhrase(Scalar(text[at..end])) then (BreakByte(text[at..end]); Some(end)) else preferred;
      LastBreak(text, end, limit, found)
  }

  /** The byte before `at` cannot be part of a marker: a blank, a full stop, or a non-ASCII byte. */
  predicate IsBreak(text: Text, at: nat) {
    0 < at <= |text| && !IsTokenByte(text[at - 1])
  }

  predicate IsTokenByte(b: Byte) {
    48 <= b <= 57 || 65 <= b <= 90 || 97 <= b <= 122 || b == 95
  }

  lemma BreakByte(c: Text)
    requires StartsWithChar(c) && |c| == CharLength(c[0]) && EndsPhrase(Scalar(c))
    ensures !IsTokenByte(c[|c| - 1])
  {
  }

  function SemanticBoundary(text: Text, start: nat, limit: nat): (boundary: nat)
    requires start <= limit && Cuttable(text, start) && Cuttable(text, limit)
    ensures start <= boundary <= limit && Cuttable(text, boundary)
    ensures boundary == limit || IsBreak(text, boundary)
    ensures start < limit ==> start < boundary
  {
    match LastBreak(text, start, limit, None)
    case Some(end) => end
    case None => limit
  }

  /** The loop over the characters, with the end of the last phrase met. */
  method FindBoundary(text: Text, start: nat, limit: nat) returns (boundary: nat)
    requires start <= limit && Cuttable(text, start) && Cuttable(text, limit)
    ensures boundary == SemanticBoundary(text, start, limit)
  {
    hide IsUtf8, CharLength, EndsPhrase, Scalar;
    var preferred: Option<nat> := None;
    var at := start;
    while at < limit
      invariant start <= at <= limit && Cuttable(text, at)
      invariant LastBreak(text, start, limit, None) == LastBreak(text, at, limit, preferred)
      decreases limit - at
    {
      CharAt(text, at);
      var end := at + CharLength(text[at]);
      if EndsPhrase(Scalar(text[at..end])) {
        preferred := Some(end);
      }
      at := end;
    }
    match preferred {
      case Some(end) => boundary := end;
      case None => boundary := limit;
    }
  }

  function Smaller(a: nat, b: nat): nat {
    if a < b then a else b
  }

  predicate AsciiTokens(tokens: seq<Text>) {
    forall j | 0 <= j < |tokens| :: tokens[j] != [] && forall k | 0 <= k < |tokens[j]| :: IsTokenByte(tokens[j][k])
  }

  /** Both ends of an ASCII token are character boundaries. */
  lemma TokenBoundaries(text: Text, token: Text, at: nat)
    requires IsUtf8(text) && token != [] && OccursAt(text, token, at)
    requires forall k | 0 <= k < |token| :: IsTokenByte(token[k])
    ensures IsBoundary(text, at) && IsBoundary(text, at + |token|)
  {
    OccursBytes(text, token, at);
    assert text[at + 0] == token[0] && text[at + (|token| - 1)] == token[|token| - 1];
    if at + |token| < |text| && IsContinuation(text[at + |token|]) {
      NotAfterAscii(text, at + |token|);
    }
  }

  /** Where the piece that starts at `start` ends. */
  function CutAfter(text: Text, max: nat, tokens: seq<Text>, start: nat): (end: Result<nat, ChunkingError>)
    requires 0 < max && Cuttable(text, start) && start < |text| && AsciiTokens(tokens)
    ensures end.Ok? ==> start < end.value <= |text| && Cuttable(text, end.value)
  {
    var limit := FloorBoundary(text, start, Smaller(start + max, |text|));
    match CrossingSpan(text, tokens, start, limit)
    case Some(range) =>
      if range.start == start || range.end - range.start > max then Err(ProtectedSpanTooLarge)
      else
        CrossingIsCuttable(text, tokens, start, limit);
        EndOfPiece(text, start, range.start)
    case None => EndOfPiece(text, start, limit)
  }

  lemma CrossingIsCuttable(text: Text, tokens: seq<Text>, start: nat, limit: nat)
    requires IsUtf8(text) && AsciiTokens(tokens)
    requires CrossingSpan(text, tokens, start, limit).Some?
    ensures Cuttable(text, CrossingSpan(text, tokens, start, limit).value.start)
  {
    var at := CrossingSpan(text, tokens, start, limit).value.start;
    var j :| 0 <= j < |tokens| && OccursAt(text, tokens[j], at);
    TokenBoundaries(text, tokens[j], at);
  }

  function EndOfPiece(text: Text, start: nat, limit: nat): (end: Result<nat, ChunkingError>)
    requires start <= limit && Cuttable(text, start) && Cuttable(text, limit)
    ensures end.Ok? ==> start < end.value <= limit && Cuttable(text, end.value)
    ensures end.Ok? <==> start < limit
    ensures end.Ok? ==> end.value == limit || IsBreak(text, end.value)
  {
    var boundary := SemanticBoundary(text, start, limit);
    if boundary <= start then Err(ProtectedSpanSplit) else Ok(boundary)
  }

  /** The pieces of `text[start..]`. */
  function SplitFrom(text: Text, max: nat, tokens: seq<Text>, start: nat): (pieces: Result<seq<Text>, ChunkingError>)
    requires 0 < max && Cuttable(text, start) && AsciiTokens(tokens)
    decreases |text| - start
  {
    if start == |text| then Ok([])
    else
      match CutAfter(text, max, tokens, start)
      case Err(e) => Err(e)
      case Ok(end) =>
        match SplitFrom(text, max, tokens, end)
        case Err(e) => Err(e)
        case Ok(rest) => Ok([text[start..end]] + rest)
  }

  function Split(text: Text, max: nat, tokens: seq<Text>): (pieces: Result<seq<Text>, ChunkingError>)
    requires IsUtf8(text) && AsciiTokens(tokens)
  {
    if max == 0 then Err(InvalidLimit)
    else if text == [] then Ok([[]])
    else if |text| <= max then Ok([text])
    else SplitFrom(text, max, tokens, 0)
  }

  ghost function Prepend(done: seq<Text>, rest: Result<seq<Text>, ChunkingError>): Result<seq<Text>, ChunkingError> {
    match rest
    case Err(e) => Err(e)
    case Ok(pieces) => Ok(done + pieces)
  }

  lemma NothingDone(rest: Result<seq<Text>, ChunkingError>)
    ensures Prepend([], rest) == rest
  {
    if rest.Ok? {
      assert [] + rest.value == rest.value;
    }
  }

  lemma PieceDone(text: Text, max: nat, tokens: seq<Text>, start: nat, end: nat, done: seq<Text>)
    requires 0 < max && Cuttable(text, start) && start < |text| && AsciiTokens(tokens)
    requires CutAfter(text, max, tokens, start) == Ok(end)
    ensures Prepend(done, SplitFrom(text, max, tokens, start))
         == Prepend(done + [text[start..end]], SplitFrom(text, max, tokens, end))
  {
    var rest := SplitFrom(text, max, tokens, end);
    if rest.Ok? {
      assert done + ([text[start..end]] + rest.value) == done + [text[start..end]] + rest.value;
    }
  }

  /** The body of the splitting loop: one piece, measured in place. */
  method MeasurePiece(text: Text, max: nat, tokens: seq<Text>, start: nat) returns (end: Result<nat, ChunkingError>)
    requires 0 < max && Cuttable(text, start) && start < |text| && AsciiTokens(tokens)
    ensures end == CutAfter(text, max, tokens, start)
  {
    hide IsUtf8, CrossingSpan, SemanticBoundary, AsciiTokens;
    var limit := Smaller(start + max, |text|);
    ghost var floor := FloorBoundary(text, start, limit);
    while limit > start && !IsBoundary(text, limit)
      invariant start <= limit <= |text|
      invariant floor == FloorBoundary(text, start, limit)
    {
      limit := limit - 1;
    }
    var crossing := CrossingSpan(text, tokens, start, limit);
    if crossing.Some? {
      var range := crossing.value;
      if range.start == start {
        return Err(ProtectedSpanTooLarge);
      }
      CrossingIsCuttable(text, tokens, start, limit);
      limit := range.start;
      if range.end - range.start > max {
        return Err(ProtectedSpanTooLarge);
      }
    }
    var boundary := FindBoundary(text, start, limit);
    if boundary <= start {
      return Err(ProtectedSpanSplit);
    }
    return Ok(boundary);
  }

  method SplitProtectedText(text: Text, max: nat, tokens: seq<Text>) returns (result: Result<seq<Text>, ChunkingError>)
    requires IsUtf8(text) && AsciiTokens(tokens)
    ensures result == Split(text, max, tokens)
  {
    hide CutAfter, AsciiTokens;
    if max == 0 {
      return Err(InvalidLimit);
    }
    if text == [] {
      return Ok([[]]);
    }
    if |text| <= max {
      return Ok([text]);
    }
    ghost var target := Split(text, max, tokens);
    var chunks: seq<Text> := [];
    var start := 0;
    NothingDone(SplitFrom(text, max, tokens, 0));
    while start < |text|
      invariant Cuttable(text, start)
      invariant target == Prepend(chunks, SplitFrom(text, max, tokens, start))
      decreases |text| - start
    {
      var end := MeasurePiece(text, max, tokens, start);
      if end.Err? {
        return Err(end.error);
      }
      PieceDone(text, max, tokens, start, end.value, chunks);
      chunks := chunks + [text[start..end.value]];
      start := end.value;
    }
    assert chunks + [] == chunks;
    return Ok(chunks);
  }
}
