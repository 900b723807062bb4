/** A JSON job: its segments, the translations put into them, and the text it writes. */
module JsonJobs {
  import opened Texts
  import opened Strings
  import opened Documents
  import opened JsonText
  import opened JsonDocument
  import opened JsonRebuilding
  import opened JsonParsing

  const MAX_SEGMENTS: nat := 10_000

  const MAX_DOCUMENT_BYTES: nat := 4 * 1024 * 1024

  // ---------------------------------------------------------------------------------------------
  // Cutting the text into segments.

  predicate InOrder(tokens: seq<Token>, from: nat, length: nat) {
    if tokens == [] then from <= length
    else from <= tokens[0].start < tokens[0].end && InOrder(tokens[1..], tokens[0].end, length)
  }

  lemma {:induction false} OrderedFit(tokens: seq<Token>, from: nat, length: nat)
    requires InOrder(tokens, from, length)
    ensures from <= length && (tokens != [] ==> tokens[0].end <= length)
    decreases |tokens|
  {
    if tokens != [] {
      OrderedFit(tokens[1..], tokens[0].end, length);
    }
  }

  function Between(text: string, from: nat, to: nat): seq<Segment>
    requires from <= to <= |text|
  {
    if from < to then [Segment(false, text[from..to], None)] else []
  }

  /** A value whose path is selected. */
  predicate IsProse(isKey: bool, path: Path, selected: Path -> bool) {
    !isKey && selected(path)
  }

  function SegmentFor(text: string, token: Token, selected: Path -> bool): Segment
    requires token.start <= token.end <= |text|
  {
    Segment(IsProse(token.isKey, token.path, selected), text[token.start..token.end], None)
  }

  /** The segments of the text behind `cursor`. */
  function SegmentsFrom(text: string, tokens: seq<Token>, cursor: nat, selected: Path -> bool): seq<Segment>
    requires InOrder(tokens, cursor, |text|)
    decreases |tokens|
  {
    OrderedFit(tokens, cursor, |text|);
    if tokens == [] then Between(text, cursor, |text|)
    else
      Between(text, cursor, tokens[0].start) + [SegmentFor(text, tokens[0], selected)] +
      SegmentsFrom(text, tokens[1..], tokens[0].end, selected)
  }

  lemma SegmentsStep(text: string, token: Token, rest: seq<Token>, cursor: nat, selected: Path -> bool)
    requires InOrder([token] + rest, cursor, |text|)
    ensures cursor <= token.start < token.end <= |text| && InOrder(rest, token.end, |text|)
    ensures SegmentsFrom(text, [token] + rest, cursor, selected)
         == Between(text, cursor, token.start) + [SegmentFor(text, token, selected)] +
            SegmentsFrom(text, rest, token.end, selected)
  {
    OrderedFit([token] + rest, cursor, |text|);
    assert ([token] + rest)[1..] == rest;
  }

  lemma {:induction false} TokensInOrder(pieces: seq<Piece>, at: nat, from: nat, length: nat)
    requires from <= at && at + |Concat(pieces)| <= length && Quoted(pieces)
    ensures InOrder(TokensOf(pieces, at), from, length)
    decreases |pieces|
  {
    if pieces != [] {
      var piece, rest := pieces[0], pieces[1..];
      var end := at + |piece.raw|;
      assert pieces == [piece] + rest;
      assert Quoted(rest) by {
        forall k | 0 <= k < |rest| && rest[k].Str?
          ensures rest[k].raw != "" && rest[k].raw[0] == '"'
        {
          assert pieces[k + 1] == rest[k];
        }
      }
      TokensSplit(piece, rest, at);
      if piece.Str? {
        assert piece.raw != "";
        TokensInOrder(rest, end, end, length);
        assert TokensOf(pieces, at)[1..] == TokensOf(rest, end);
      } else {
        TokensInOrder(rest, end, from, length);
        assert TokensOf(pieces, at) == TokensOf(rest, end);
      }
    }
  }

  /** What the parser found lies in order in the text. */
  lemma ParsedTokensInOrder(text: string, fits: string -> bool)
    requires JsonDocument.Parse(text, fits).Some?
    ensures InOrder(TokensOf(JsonDocument.Parse(text, fits).value, 0), 0, |text|)
  {
    hide Value, Concat;
    var value := Value(text, [], 0, fits).value;
    var gap := Gap(text[value.length..]);
    ValueTiles(text, [], 0, fits);
    TilesText(text, value);
    var pieces := value.pieces + [gap];
    forall k | 0 <= k < |pieces| && pieces[k].Str?
      ensures pieces[k].raw != "" && pieces[k].raw[0] == '"'
    {
      assert pieces[k] == value.pieces[k];
    }
    TokensInOrder(pieces, 0, 0, |text|);
  }

  /** No parser's tokens need too many segments. */
  method BuildSegments(text: string, tokens: seq<Token>, selected: Path -> bool) returns (segments: Option<seq<Segment>>)
    requires InOrder(tokens, 0, |text|)
    ensures segments.Some? ==> segments.value == SegmentsFrom(text, tokens, 0, selected)
    ensures |tokens| <= JsonDocument.MAX_TOKENS ==> segments.Some?
  {
    hide InOrder, SegmentsFrom;
    var built: seq<Segment> := [];
    var cursor: nat := 0;
    assert tokens[0..] == tokens;
    ghost var target := SegmentsFrom(text, tokens, 0, selected);
    for k := 0 to |tokens|
      invariant InOrder(tokens[k..], cursor, |text|)
      invariant target == built + SegmentsFrom(text, tokens[k..], cursor, selected)
      invariant |built| <= 2 * k
    {
      var token := tokens[k];
      assert tokens[k..] == [token] + tokens[k + 1..];
      SegmentsStep(text, token, tokens[k + 1..], cursor, selected);
      if cursor < token.start {
        built := built + [Segment(false, text[cursor..token.start], None)];
      }
      built := built + [Segment(!token.isKey && selected(token.path), text[token.start..token.end], None)];
      cursor := token.end;
      if |built| > MAX_SEGMENTS {
        return None;
      }
    }
    assert tokens[|tokens|..] == [];
    LastSegment(text, cursor, selected);
    assert built + [] == built;
    if cursor < |text| {
      built := built + [Segment(false, text[cursor..], None)];
    }
    return Some(built);
  }

  lemma LastSegment(text: string, cursor: nat, selected: Path -> bool)
    requires InOrder([], cursor, |text|)
    ensures cursor <= |text|
    ensures SegmentsFrom(text, [], cursor, selected)
         == if cursor < |text| then [Segment(false, text[cursor..], None)] else []
  {
    assert text[cursor..|text|] == text[cursor..];
  }

  /** The source of a job, and the texts it offers for translation. */
  function SourceText(segments: seq<Segment>): string {
    if segments == [] then "" else segments[0].source + SourceText(segments[1..])
  }

  function Offered(segments: seq<Segment>): seq<string> {
    if segments == [] then []
    else (if segments[0].prose then [segments[0].source] else []) + Offered(segments[1..])
  }

  /** The slices of the selected value literals. */
  function Chosen(text: string, tokens: seq<Token>, from: nat, selected: Path -> bool): seq<string>
    requires InOrder(tokens, from, |text|)
    decreases |tokens|
  {
    if tokens == [] then []
    else
      OrderedFit(tokens, from, |text|);
      (if IsProse(tokens[0].isKey, tokens[0].path, selected) then [text[tokens[0].start..tokens[0].end]] else []) +
      Chosen(text, tokens[1..], tokens[0].end, selected)
  }

  lemma {:induction false} SourceJoins(a: seq<Segment>, b: seq<Segment>)
    ensures SourceText(a + b) == SourceText(a) + SourceText(b) && Offered(a + b) == Offered(a) + Offered(b)
  {
    if a == [] {
      assert a + b == b;
    } else {
      assert (a + b)[1..] == a[1..] + b;
      SourceJoins(a[1..], b);
    }
  }

  lemma SourceOfParts(text: string, from: nat, token: Token, selected: Path -> bool)
    requires from <= token.start <= token.end <= |text|
    ensures SourceText(Between(text, from, token.start)) == text[from..token.start] && Offered(Between(text, from, token.start)) == []
    ensures var one := [SegmentFor(text, token, selected)];
            SourceText(one) == text[token.start..token.end] &&
            Offered(one) == if IsProse(token.isKey, token.path, selected) then [text[token.start..token.end]] else []
  {
    var one, gap := [SegmentFor(text, token, selected)], Between(text, from, token.start);
    assert one[1..] == [];
    if from < token.start {
      assert gap[1..] == [];
    }
  }

  /** The segments join to the text, and those offered are the selected value literals in order. */
  lemma {:induction false} SegmentsHoldText(text: string, tokens: seq<Token>, cursor: nat, selected: Path -> bool)
    requires InOrder(tokens, cursor, |text|)
    ensures cursor <= |text| && SourceText(SegmentsFrom(text, tokens, cursor, selected)) == text[cursor..]
    ensures Offered(SegmentsFrom(text, tokens, cursor, selected)) == Chosen(text, tokens, cursor, selected)
    decreases |tokens|
  {
    hide SourceText, Offered, IsProse, Between, InOrder;
    OrderedFit(tokens, cursor, |text|);
    if tokens == [] {
      SourceOfParts(text, cursor, Token(|text|, |text|, [], true), selected);
      assert text[cursor..|text|] == text[cursor..];
    } else {
      var token, rest := tokens[0], tokens[1..];
      assert tokens == [token] + rest;
      SegmentsStep(text, token, rest, cursor, selected);
      SourceOfParts(text, cursor, token, selected);
      SegmentsHoldText(text, rest, token.end, selected);
      var gap, one := Between(text, cursor, token.start), [SegmentFor(text, token, selected)];
      SourceJoins(gap + one, SegmentsFrom(text, rest, token.end, selected));
      SourceJoins(gap, one);
      assert text[cursor..] == text[cursor..token.start] + text[token.start..token.end] + text[token.end..];
    }
  }

  // ---------------------------------------------------------------------------------------------
  // What a job writes.

  predicate Incomplete(segment: Segment) {
    segment.prose && segment.translated.None?
  }

  predicate IsComplete(segments: seq<Segment>) {
    forall k | 0 <= k < |segments| :: !Incomplete(segments[k])
  }

  function FirstIncomplete(segments: seq<Segment>, from: nat): (found: Option<nat>)
    requires from <= |segments|
    ensures found.Some? ==> from <= found.value < |segments| && Incomplete(segments[found.value])
                            && forall k :: from <= k < found.value ==> !Incomplete(segments[k])
    ensures found.None? ==> forall k :: from <= k < |segments| ==> !Incomplete(segments[k])
    decreases |segments| - from
  {
    if from == |segments| then None
    else if Incomplete(segments[from]) then Some(from)
    else FirstIncomplete(segments, from + 1)
  }

  function Shown(segment: Segment): string
    requires !Incomplete(segment)
  {
    if segment.prose then segment.translated.value else segment.source
  }

  function Written(segments: seq<Segment>): string
    requires IsComplete(segments)
  {
    if segments == [] then "" else Shown(segments[0]) + Written(segments[1..])
  }

  /** What rebuilding returns: the written text, when it is complete, not too large, and JSON again. */
  function Rebuilt(segments: seq<Segment>, fits: string -> bool): Result<string, DocumentError> {
    match FirstIncomplete(segments, 0)
    case Some(k) => Err(SegmentIncomplete(k))
    case None =>
      if Bytes(Written(segments)) > MAX_DOCUMENT_BYTES then Err(OutputTooLarge)
      else if JsonDocument.Parse(Written(segments), fits).None? then Err(InvalidStructure)
      else Ok(Written(segments))
  }

  /** The segments came from `source` by translating prose, and every translation was encoded. */
  ghost predicate Fills(source: seq<Segment>, segments: seq<Segment>) {
    && |segments| == |source|
    && forall k :: 0 <= k < |source| ==> FillsOne(source[k], segments[k])
  }

  ghost predicate FillsOne(source: Segment, segment: Segment) {
    && segment.prose == source.prose && segment.source == source.source
    && (segment.translated.Some? ==> segment.prose && exists t: string :: segment.translated.value == Encode(t))
  }

  class JsonJob {
    var segments: seq<Segment>

    constructor (segments: seq<Segment>)
      ensures this.segments == segments
    {
      this.segments := segments;
    }

    /** Puts the encoded translation into a prose segment; nothing else changes. */
    method ApplyTranslation(index: nat, translation: string) returns (result: Result<(), DocumentError>)
      modifies this
      ensures result == if index >= |old(segments)| then Err(UnknownSegment(index))
                        else if !old(segments)[index].prose then Err(VerbatimSegment(index))
                        else Ok(())
      ensures segments == if result.Ok? then old(segments)[index := old(segments)[index].(translated := Some(Encode(translation)))]
                          else old(segments)
    {
      hide Encode;
      if index >= |segments| {
        return Err(UnknownSegment(index));
      }
      var segment := segments[index];
      if !segment.prose {
        return Err(VerbatimSegment(index));
      }
      segments := segments[index := segment.(translated := Some(Encode(translation)))];
      return Ok(());
    }

    method Reconstruct(fits: string -> bool) returns (result: Result<string, DocumentError>)
      ensures result == Rebuilt(segments, fits)
    {
      hide Written, JsonDocument.Parse, Bytes;
      var output := "";
      ghost var first := FirstIncomplete(segments, 0);
      assert segments[0..] == segments;
      for k := 0 to |segments|
        invariant forall l :: 0 <= l < k ==> !Incomplete(segments[l])
        invariant first.None? ==> Written(segments) == output + Written(segments[k..])
      {
        var segment := segments[k];
        if segment.prose && segment.translated.None? {
          return Err(SegmentIncomplete(k));
        }
        if first.None? {
          WrittenStep(segments, k);
        }
        output := output + if segment.prose then segment.translated.value else segment.source;
      }
      NothingWritten();
      assert output == Written(segments);
      if Bytes(output) > MAX_DOCUMENT_BYTES {
        return Err(OutputTooLarge);
      }
      var parser := new JsonParser(output, fits);
      var ok := parser.Parse();
      if !ok {
        return Err(InvalidStructure);
      }
      return Ok(output);
    }
  }

  lemma WrittenStep(segments: seq<Segment>, k: nat)
    requires IsComplete(segments) && k < |segments|
    ensures Written(segments[k..]) == Shown(segments[k]) + Written(segments[k + 1..])
  {
    assert segments[k..][1..] == segments[k + 1..];
  }

  lemma NothingWritten()
    ensures Written([]) == "" && Given([]) == []
  {
  }

  /** A job over a text: made exactly when the text is JSON, and made of its segments. */
  method FromJson(text: string, fits: string -> bool, selected: Path -> bool) returns (job: Result<JsonJob, DocumentError>)
    ensures job.Ok? <==> JsonDocument.Parse(text, fits).Some?
    ensures job.Err? ==> job.error == InvalidStructure
    ensures job.Ok? ==> fresh(job.value) && InOrder(TokensOf(JsonDocument.Parse(text, fits).value, 0), 0, |text|)
                        && job.value.segments == SegmentsFrom(text, TokensOf(JsonDocument.Parse(text, fits).value, 0), 0, selected)
  {
    hide JsonDocument.Parse, InOrder, SegmentsFrom;
    var parser := new JsonParser(text, fits);
    var ok := parser.Parse();
    if !ok {
      return Err(InvalidStructure);
    }
    ParsedTokensInOrder(text, fits);
    var segments := BuildSegments(text, parser.tokens, selected);
    var made := new JsonJob(segments.value);
    return Ok(made);
  }

  // ---------------------------------------------------------------------------------------------
  // The written text is the text of the translated pieces.

  /** The translations that complete segments hold, in order. */
  function Given(segments: seq<Segment>): seq<string> {
    if segments == [] then []
    else
      (if segments[0].prose && segments[0].translated.Some? && Decode(segments[0].translated.value).Some?
       then [Decode(segments[0].translated.value).value] else []) + Given(segments[1..])
  }

  predicate Takes(piece: Piece, selected: Path -> bool) {
    piece.Str? && IsProse(piece.isKey, piece.path, selected)
  }

  function Offers(pieces: seq<Piece>, selected: Path -> bool): nat {
    if pieces == [] then 0 else (if Takes(pieces[0], selected) then 1 else 0) + Offers(pieces[1..], selected)
  }

  /** The texts, handed in order to the selected values. */
  function Choices(pieces: seq<Piece>, selected: Path -> bool, texts: seq<string>): (choices: seq<Option<string>>)
    requires |texts| == Offers(pieces, selected)
    ensures |choices| == |pieces|
  {
    if pieces == [] then []
    else if Takes(pieces[0], selected) then [Some(texts[0])] + Choices(pieces[1..], selected, texts[1..])
    else [None] + Choices(pieces[1..], selected, texts)
  }

  lemma ChoicesSplit(piece: Piece, rest: seq<Piece>, selected: Path -> bool, texts: seq<string>)
    requires |texts| == Offers([piece] + rest, selected)
    ensures Offers([piece] + rest, selected) == (if Takes(piece, selected) then 1 else 0) + Offers(rest, selected)
    ensures Choices([piece] + rest, selected, texts)
         == if Takes(piece, selected) then [Some(texts[0])] + Choices(rest, selected, texts[1..])
            else [None] + Choices(rest, selected, texts)
  {
    assert ([piece] + rest)[1..] == rest;
  }

  lemma OffersSplit(piece: Piece, rest: seq<Piece>, selected: Path -> bool)
    ensures Offers([piece] + rest, selected) == (if Takes(piece, selected) then 1 else 0) + Offers(rest, selected)
  {
    assert ([piece] + rest)[1..] == rest;
  }

  lemma TranslatedSplits(piece: Piece, rest: seq<Piece>, choice: Option<string>, choices: seq<Option<string>>)
    requires |choices| == |rest|
    ensures Concat(Translated([piece] + rest, [choice] + choices))
         == TranslatedPiece(piece, choice).raw + Concat(Translated(rest, choices))
  {
    var all := Translated([piece] + rest, [choice] + choices);
    assert all == [TranslatedPiece(piece, choice)] + Translated(rest, choices);
    assert all[1..] == Translated(rest, choices);
  }

  /** Filled segments of a source that falls into two parts fall apart in the same way. */
  lemma FillsSplits(a: seq<Segment>, b: seq<Segment>, segments: seq<Segment>)
    requires Fills(a + b, segments)
    ensures |segments| == |a| + |b| && Fills(a, segments[..|a|]) && Fills(b, segments[|a|..])
  {
    hide FillsOne;
    forall k | 0 <= k < |b|
      ensures FillsOne(b[k], segments[|a|..][k])
    {
      assert (a + b)[|a| + k] == b[k];
    }
    forall k | 0 <= k < |a|
      ensures FillsOne(a[k], segments[..|a|][k])
    {
      assert (a + b)[k] == a[k];
    }
  }

  lemma CompleteParts(a: seq<Segment>, b: seq<Segment>)
    requires IsComplete(a + b)
    ensures IsComplete(a) && IsComplete(b)
  {
    hide Incomplete;
    forall k | 0 <= k < |a|
      ensures !Incomplete(a[k])
    {
      assert (a + b)[k] == a[k];
    }
    forall k | 0 <= k < |b|
      ensures !Incomplete(b[k])
    {
      assert (a + b)[|a| + k] == b[k];
    }
  }

  lemma FirstWritten(first: Segment, rest: seq<Segment>)
    requires IsComplete([first] + rest)
    ensures !Incomplete(first) && IsComplete(rest)
    ensures Written([first] + rest) == Shown(first) + Written(rest)
    ensures Given([first] + rest) == Given([first]) + Given(rest)
  {
    hide Incomplete, Decode, Shown;
    CompleteParts([first], rest);
    assert ([first] + rest)[1..] == rest && [first][1..] == [];
    assert ([first] + rest)[0] == first && !Incomplete([first][0]);
  }

  lemma {:induction false} WrittenJoins(a: seq<Segment>, b: seq<Segment>)
    requires IsComplete(a + b)
    ensures IsComplete(a) && IsComplete(b)
    ensures Written(a + b) == Written(a) + Written(b) && Given(a + b) == Given(a) + Given(b)
  {
    hide Incomplete, IsComplete, Decode, Shown, Written, Given;
    CompleteParts(a, b);
    if a == [] {
      assert a + b == b;
      NothingWritten();
    } else {
      assert a + b == [a[0]] + (a[1..] + b) && a == [a[0]] + a[1..];
      FirstWritten(a[0], a[1..] + b);
      FirstWritten(a[0], a[1..]);
      WrittenJoins(a[1..], b);
    }
  }

  lemma WrittenBetween(text: string, from: nat, to: nat, segments: seq<Segment>)
    requires from <= to <= |text| && Fills(Between(text, from, to), segments) && IsComplete(segments)
    ensures Written(segments) == text[from..to] && Given(segments) == []
  {
    hide Encode;
    if from < to {
      assert FillsOne(Between(text, from, to)[0], segments[0]);
      assert segments[1..] == [];
    }
  }

  lemma WrittenOne(text: string, token: Token, piece: Piece, selected: Path -> bool, segments: seq<Segment>)
    requires piece.Str? && piece.path == token.path && piece.isKey == token.isKey
    requires token.start <= token.end <= |text| && text[token.start..token.end] == piece.raw
    requires Fills([SegmentFor(text, token, selected)], segments) && IsComplete(segments)
    ensures |Given(segments)| == if Takes(piece, selected) then 1 else 0
    ensures Written(segments)
         == TranslatedPiece(piece, if Takes(piece, selected) then Some(Given(segments)[0]) else None).raw
  {
    hide Encode, Decode;
    assert FillsOne(SegmentFor(text, token, selected), segments[0]);
    assert segments[1..] == [];
    if Takes(piece, selected) {
      var t: string :| segments[0].translated.value == Encode(t);
      EncodedDecodes(t);
    }
  }

  ghost predicate IsTranslated(text: string, pieces: seq<Piece>, cursor: nat, at: nat, selected: Path -> bool, segments: seq<Segment>)
    requires cursor <= at <= |text| && IsComplete(segments)
  {
    && |Given(segments)| == Offers(pieces, selected)
    && Written(segments) == text[cursor..at] + Concat(Translated(pieces, Choices(pieces, selected, Given(segments))))
  }

  lemma TranslatedGap(text: string, piece: Piece, rest: seq<Piece>, cursor: nat, at: nat, selected: Path -> bool, segments: seq<Segment>)
    requires cursor <= at && at + |piece.raw| <= |text| && text[at..at + |piece.raw|] == piece.raw && piece.Gap?
    requires IsComplete(segments) && IsTranslated(text, rest, cursor, at + |piece.raw|, selected, segments)
    ensures IsTranslated(text, [piece] + rest, cursor, at, selected, segments)
  {
    hide Written, Given, Concat, Choices, Offers, Translated, Encode, IsComplete;
    var texts := Given(segments);
    OffersSplit(piece, rest, selected);
    ChoicesSplit(piece, rest, selected, texts);
    TranslatedSplits(piece, rest, None, Choices(rest, selected, texts));
    GapJoins(text, cursor, at, piece.raw, Concat(Translated(rest, Choices(rest, selected, texts))));
  }

  lemma GapJoins(text: string, cursor: nat, at: nat, raw: string, rest: string)
    requires cursor <= at && at + |raw| <= |text| && text[at..at + |raw|] == raw
    ensures text[cursor..at] + (raw + rest) == text[cursor..at + |raw|] + rest
  {
  }

  lemma ThreeWritten(front: seq<Segment>, mid: seq<Segment>, last: seq<Segment>)
    requires IsComplete(front + mid + last)
    ensures IsComplete(front) && IsComplete(mid) && IsComplete(last)
    ensures Written(front + mid + last) == Written(front) + Written(mid) + Written(last)
    ensures Given(front + mid + last) == Given(front) + Given(mid) + Given(last)
  {
    hide Written, Given, IsComplete;
    WrittenJoins(front + mid, last);
    WrittenJoins(front, mid);
  }

  lemma TranslatedString(text: string, piece: Piece, rest: seq<Piece>, cursor: nat, at: nat, selected: Path -> bool,
                         front: seq<Segment>, mid: seq<Segment>, last: seq<Segment>)
    requires cursor <= at && at + |piece.raw| <= |text| && piece.Str? && IsComplete(front + mid + last)
    requires IsComplete(front) && Written(front) == text[cursor..at] && Given(front) == []
    requires IsComplete(mid) && |Given(mid)| == if Takes(piece, selected) then 1 else 0
    requires Written(mid) == TranslatedPiece(piece, if Takes(piece, selected) then Some(Given(mid)[0]) else None).raw
    requires var end := at + |piece.raw|; IsComplete(last) && IsTranslated(text, rest, end, end, selected, last)
    ensures IsTranslated(text, [piece] + rest, cursor, at, selected, front + mid + last)
  {
    hide Written, Given, Concat, Choices, Offers, TranslatedPiece, Takes, IsComplete, Translated;
    var end := at + |piece.raw|;
    ThreeWritten(front, mid, last);
    OffersSplit(piece, rest, selected);
    assert text[end..end] == "";
    StringChoices(piece, rest, selected, Given(mid), Given(last));
    assert Given(front + mid + last) == Given(mid) + Given(last);
    assert text[cursor..at] + Written(mid) + Written(last) == text[cursor..at] + (Written(mid) + Written(last));
  }

  lemma StringChoices(piece: Piece, rest: seq<Piece>, selected: Path -> bool, own: seq<string>, later: seq<string>)
    requires |own| == (if Takes(piece, selected) then 1 else 0) && |later| == Offers(rest, selected)
    ensures |own + later| == Offers([piece] + rest, selected)
    ensures Concat(Translated([piece] + rest, Choices([piece] + rest, selected, own + later)))
         == TranslatedPiece(piece, if Takes(piece, selected) then Some(own[0]) else None).raw
            + Concat(Translated(rest, Choices(rest, selected, later)))
  {
    hide Concat, Choices, Offers, TranslatedPiece, Takes, Translated;
    var texts := own + later;
    OffersSplit(piece, rest, selected);
    ChoicesSplit(piece, rest, selected, texts);
    if Takes(piece, selected) {
      assert texts[1..] == later;
      TranslatedSplits(piece, rest, Some(own[0]), Choices(rest, selected, later));
    } else {
      assert texts == later;
      TranslatedSplits(piece, rest, None, Choices(rest, selected, later));
    }
  }

  lemma PieceInFront(text: string, piece: Piece, rest: seq<Piece>, at: nat)
    requires at <= |text| && text[at..] == Concat([piece] + rest)
    ensures var end := at + |piece.raw|;
            end <= |text| && text[at..end] == piece.raw && text[end..] == Concat(rest)
  {
    assert ([piece] + rest)[1..] == rest;
    assert text[at..at + |piece.raw|] == text[at..][..|piece.raw|];
    assert text[at + |piece.raw|..] == text[at..][|piece.raw|..];
  }

  lemma {:induction false} WrittenIsTranslated(text: string, pieces: seq<Piece>, cursor: nat, at: nat, selected: Path -> bool,
                                               segments: seq<Segment>)
    requires cursor <= at <= |text| && text[at..] == Concat(pieces)
    requires InOrder(TokensOf(pieces, at), cursor, |text|)
    requires Fills(SegmentsFrom(text, TokensOf(pieces, at), cursor, selected), segments) && IsComplete(segments)
    ensures IsTranslated(text, pieces, cursor, at, selected, segments)
    decreases |pieces|, 0
  {
    hide Written, Given, Concat, Choices, Offers, TranslatedPiece, Takes, IsComplete, InOrder, SegmentsFrom, Fills, Between, IsTranslated;
    if pieces == [] {
      NothingTranslated(text, cursor, at, selected, segments);
    } else {
      var piece, rest := pieces[0], pieces[1..];
      var end := at + |piece.raw|;
      assert pieces == [piece] + rest;
      PieceInFront(text, piece, rest, at);
      TokensSplit(piece, rest, at);
      if piece.Gap? {
        assert TokensOf(pieces, at) == TokensOf(rest, end);
        WrittenIsTranslated(text, rest, cursor, end, selected, segments);
        TranslatedGap(text, piece, rest, cursor, at, selected, segments);
      } else {
        var token := Token(at, end, piece.path, piece.isKey);
        SegmentsStep(text, token, TokensOf(rest, end), cursor, selected);
        StringWritten(text, piece, rest, token, cursor, selected, segments);
      }
    }
  }

  lemma {:induction false} StringWritten(text: string, piece: Piece, rest: seq<Piece>, token: Token, cursor: nat,
                                         selected: Path -> bool, segments: seq<Segment>)
    requires piece.Str? && token == Token(token.start, token.start + |piece.raw|, piece.path, piece.isKey)
    requires cursor <= token.start && token.end <= |text| && text[token.start..token.end] == piece.raw
    requires text[token.end..] == Concat(rest) && InOrder(TokensOf(rest, token.end), token.end, |text|)
    requires Fills(Between(text, cursor, token.start) + [SegmentFor(text, token, selected)] +
                   SegmentsFrom(text, TokensOf(rest, token.end), token.end, selected), segments)
    requires IsComplete(segments)
    ensures IsTranslated(text, [piece] + rest, cursor, token.start, selected, segments)
    decreases |rest|, 1
  {
    hide Written, Given, Concat, Choices, Offers, TranslatedPiece, Takes, IsComplete, InOrder, SegmentsFrom, Fills, Between, IsTranslated;
    var gap, one := Between(text, cursor, token.start), [SegmentFor(text, token, selected)];
    var later := SegmentsFrom(text, TokensOf(rest, token.end), token.end, selected);
    FillsSplits(gap + one, later, segments);
    var both, last := segments[..|gap| + 1], segments[|gap| + 1..];
    FillsSplits(gap, one, both);
    var front, mid := both[..|gap|], both[|gap|..];
    assert segments == both + last && both == front + mid;
    CompleteParts(both, last);
    CompleteParts(front, mid);
    WrittenBetween(text, cursor, token.start, front);
    WrittenOne(text, token, piece, selected, mid);
    WrittenIsTranslated(text, rest, token.end, token.end, selected, last);
    TranslatedString(text, piece, rest, cursor, token.start, selected, front, mid, last);
  }

  lemma NothingTranslated(text: string, cursor: nat, at: nat, selected: Path -> bool, segments: seq<Segment>)
    requires cursor <= at <= |text| && text[at..] == Concat([]) && InOrder(TokensOf([], at), cursor, |text|)
    requires Fills(SegmentsFrom(text, TokensOf([], at), cursor, selected), segments) && IsComplete(segments)
    ensures IsTranslated(text, [], cursor, at, selected, segments)
  {
    hide Written, Given;
    NoTokens(at);
    WrittenBetween(text, cursor, |text|, segments);
    assert text[cursor..at] + text[at..] == text[cursor..];
  }

  /**
   * Every accepted text and every job that is complete: what it writes is the text whose selected
   * values are replaced by the translations in order, and that is JSON again, with the same tokens,
   * paths and key flags. So rebuilding succeeds unless the result is too large.
   */
  lemma CompleteJobRebuilds(text: string, fits: string -> bool, selected: Path -> bool, segments: seq<Segment>)
    requires JsonDocument.Parse(text, fits).Some?
    requires InOrder(TokensOf(JsonDocument.Parse(text, fits).value, 0), 0, |text|)
    requires Fills(SegmentsFrom(text, TokensOf(JsonDocument.Parse(text, fits).value, 0), 0, selected), segments)
    requires IsComplete(segments)
    ensures var pieces := JsonDocument.Parse(text, fits).value;
            && |Given(segments)| == Offers(pieces, selected)
            && var after := Translated(pieces, Choices(pieces, selected, Given(segments)));
               && Written(segments) == Concat(after)
               && JsonDocument.Parse(Written(segments), fits) == Some(after)
               && Rebuilt(segments, fits)
                  == if Bytes(Concat(after)) > MAX_DOCUMENT_BYTES then Err(OutputTooLarge) else Ok(Concat(after))
  {
    hide Written, Given, Concat, Choices, Offers, InOrder, SegmentsFrom, Fills, JsonDocument.Parse, Bytes, Translated;
    var pieces := JsonDocument.Parse(text, fits).value;
    TranslationKeepsTokens(text, fits, seq(|pieces|, _ => None));
    assert text[0..] == text && text[0..0] == "";
    WrittenIsTranslated(text, pieces, 0, 0, selected, segments);
    TranslationKeepsTokens(text, fits, Choices(pieces, selected, Given(segments)));
  }

  /** A translation put into a job keeps it a job over the same source. */
  lemma ApplyingFills(source: seq<Segment>, segments: seq<Segment>, index: nat, translation: string)
    requires Fills(source, segments) && index < |segments| && segments[index].prose
    ensures Fills(source, segments[index := segments[index].(translated := Some(Encode(translation)))])
  {
    hide Encode;
    var applied := segments[index := segments[index].(translated := Some(Encode(translation)))];
    forall k | 0 <= k < |source|
      ensures FillsOne(source[k], applied[k])
    {
      assert FillsOne(source[k], segments[k]);
    }
  }
}
