/** Rewriting one chapter of an EPUB with the segments of a job. */
module Chapters {
  import opened Texts
  import opened Documents
  import opened XmlText
  import opened Xhtml
  import opened XhtmlRebuilding

  /** The texts of the visible pieces, in order. */
  function Sources(pieces: seq<Piece>): (r: Option<seq<string>>)
    ensures r.Some? ==> |r.value| == Count(pieces)
  {
    if pieces == [] then Some([])
    else if !pieces[0].visible then Sources(pieces[1..])
    else
      match (Unescape(pieces[0].raw), Sources(pieces[1..]))
      case (Some(text), Some(rest)) => Some([text] + rest)
      case _ => None
  }

  /** What a segment does to a visible text that reads as `text`: an error, a translation, or nothing. */
  function ChooseOne(text: Option<string>, segments: seq<Segment>, cursor: nat): Result<Option<string>, DocumentError> {
    if cursor >= |segments| || text != Some(segments[cursor].source) then Err(InvalidStructure)
    else if !segments[cursor].prose then Ok(None)
    else if segments[cursor].translated.None? then Err(SegmentIncomplete(cursor))
    else Ok(segments[cursor].translated)
  }

  /** The replacement of each visible piece, taken from the segments at the cursor. */
  function Choose(pieces: seq<Piece>, segments: seq<Segment>, cursor: nat): (r: Result<seq<Option<string>>, DocumentError>)
    ensures r.Ok? ==> |r.value| == Count(pieces)
  {
    if pieces == [] then Ok([])
    else if !pieces[0].visible then Choose(pieces[1..], segments, cursor)
    else
      match ChooseOne(Unescape(pieces[0].raw), segments, cursor)
      case Err(e) => Err(e)
      case Ok(text) =>
        match Choose(pieces[1..], segments, cursor + 1)
        case Err(e) => Err(e)
        case Ok(rest) => Ok([text] + rest)
  }

  function RewriteChapter(xml: string, accepts: string -> bool, segments: seq<Segment>, cursor: nat): Result<string, DocumentError> {
    match Parse(xml, accepts)
    case None => Err(InvalidStructure)
    case Some(pieces) =>
      match Choose(pieces, segments, cursor)
      case Err(e) => Err(e)
      case Ok(texts) => Ok(Concat(Translated(pieces, texts)))
  }

  // ---------------------------------------------------------------------------------------------
  // The loop over the spans.

  predicate InOrder(spans: seq<TextSpan>, from: nat, length: nat) {
    if spans == [] then from <= length
    else from <= spans[0].start <= spans[0].end <= length && InOrder(spans[1..], spans[0].end, length)
  }

  /** Copying from `from` on, with the spans replaced as the segments say. */
  function Copied(xml: string, spans: seq<TextSpan>, from: nat, segments: seq<Segment>, cursor: nat): Result<string, DocumentError>
    requires from <= |xml| && InOrder(spans, from, |xml|)
  {
    if spans == [] then Ok(xml[from..])
    else
      var raw := xml[spans[0].start..spans[0].end];
      match ChooseOne(Unescape(raw), segments, cursor)
      case Err(e) => Err(e)
      case Ok(text) =>
        Front(xml[from..spans[0].start] + TranslatedPiece(Piece(raw, true), text).raw,
              Copied(xml, spans[1..], spans[0].end, segments, cursor + 1))
  }

  function Front(front: string, rest: Result<string, DocumentError>): Result<string, DocumentError> {
    if rest.Ok? then Ok(front + rest.value) else rest
  }

  lemma FrontTwice(a: string, b: string, rest: Result<string, DocumentError>)
    ensures Front(a, Front(b, rest)) == Front(a + b, rest)
    ensures Front("", rest) == rest
  {
    if rest.Ok? {
      assert a + (b + rest.value) == a + b + rest.value && "" + rest.value == rest.value;
    }
  }

  /** What the scanner returned, in one copying pass with the segment cursor. */
  method RewriteXhtml(xml: string, accepts: string -> bool, segments: seq<Segment>, start: nat)
      returns (result: Result<string, DocumentError>, cursor: nat)
    ensures result == RewriteChapter(xml, accepts, segments, start)
    ensures result.Ok? ==> cursor == start + Count(Parse(xml, accepts).value)
  {
    hide Parse, SpansOf, InOrder, Copied, RewriteChapter, Unescape, Escape;
    cursor := start;
    var spans := ScanXhtml(xml, accepts);
    ChapterBySpans(xml, accepts, segments, start);
    if spans.None? {
      return Err(InvalidStructure), cursor;
    }
    var output := "";
    var byteCursor: nat := 0;
    ghost var target := Copied(xml, spans.value, 0, segments, start);
    assert spans.value[0..] == spans.value;
    FrontTwice("", "", target);
    for k := 0 to |spans.value|
      invariant byteCursor <= |xml| && InOrder(spans.value[k..], byteCursor, |xml|) && cursor == start + k
      invariant target == Front(output, Copied(xml, spans.value[k..], byteCursor, segments, cursor))
    {
      var span := spans.value[k];
      assert spans.value[k..] == [span] + spans.value[k + 1..];
      CopiedStep(xml, span, spans.value[k + 1..], byteCursor, segments, cursor);
      if cursor >= |segments| {
        return Err(InvalidStructure), cursor;
      }
      var segment := segments[cursor];
      var source := Unescape(xml[span.start..span.end]);
      if source.None? || source.value != segment.source {
        return Err(InvalidStructure), cursor;
      }
      var shown := xml[span.start..span.end];
      if segment.prose {
        if segment.translated.None? {
          return Err(SegmentIncomplete(cursor)), cursor;
        }
        shown := Escape(segment.translated.value);
      }
      FrontTwice(output, xml[byteCursor..span.start] + shown, Copied(xml, spans.value[k + 1..], span.end, segments, cursor + 1));
      assert output + xml[byteCursor..span.start] + shown == output + (xml[byteCursor..span.start] + shown);
      output := output + xml[byteCursor..span.start] + shown;
      byteCursor := span.end;
      cursor := cursor + 1;
    }
    assert spans.value[|spans.value|..] == [];
    CopiedEnd(xml, byteCursor, segments, cursor);
    result := Ok(output + xml[byteCursor..]);
  }

  lemma CopiedStep(xml: string, span: TextSpan, rest: seq<TextSpan>, from: nat, segments: seq<Segment>, cursor: nat)
    requires from <= |xml| && InOrder([span] + rest, from, |xml|)
    ensures from <= span.start <= span.end <= |xml| && InOrder(rest, span.end, |xml|)
    ensures var raw := xml[span.start..span.end];
            Copied(xml, [span] + rest, from, segments, cursor) ==
              match ChooseOne(Unescape(raw), segments, cursor)
              case Err(e) => Err(e)
              case Ok(text) => Front(xml[from..span.start] + TranslatedPiece(Piece(raw, true), text).raw,
                                     Copied(xml, rest, span.end, segments, cursor + 1))
  {
    hide Unescape;
    assert ([span] + rest)[1..] == rest;
  }

  lemma CopiedEnd(xml: string, from: nat, segments: seq<Segment>, cursor: nat)
    requires from <= |xml|
    ensures InOrder([], from, |xml|) && Copied(xml, [], from, segments, cursor) == Ok(xml[from..])
  {
  }

  // ---------------------------------------------------------------------------------------------
  // The copied text is the text of the translated pieces.

  lemma SpansSplit(piece: Piece, rest: seq<Piece>, at: nat)
    ensures SpansOf([piece] + rest, at)
         == (if piece.visible then [TextSpan(at, at + |piece.raw|)] else []) + SpansOf(rest, at + |piece.raw|)
    ensures !piece.visible ==> SpansOf([piece] + rest, at) == SpansOf(rest, at + |piece.raw|)
    ensures Count([piece] + rest) == (if piece.visible then 1 else 0) + Count(rest)
  {
    assert ([piece] + rest)[1..] == rest;
  }

  lemma ChooseSplits(piece: Piece, rest: seq<Piece>, segments: seq<Segment>, cursor: nat)
    ensures Choose([piece] + rest, segments, cursor) ==
              if !piece.visible then Choose(rest, segments, cursor)
              else
                match ChooseOne(Unescape(piece.raw), segments, cursor)
                case Err(e) => Err(e)
                case Ok(text) =>
                  match Choose(rest, segments, cursor + 1)
                  case Err(e) => Err(e)
                  case Ok(others) => Ok([text] + others)
  {
    hide Unescape, ChooseOne;
    assert ([piece] + rest)[1..] == rest;
  }

  lemma TranslatedSplits(piece: Piece, rest: seq<Piece>, text: Option<string>, others: seq<Option<string>>)
    requires |others| == Count(rest) && (!piece.visible ==> text == None)
    ensures Count([piece] + rest) == (if piece.visible then 1 else 0) + Count(rest)
    ensures Translated([piece] + rest, (if piece.visible then [text] else []) + others)
         == [TranslatedPiece(piece, text)] + Translated(rest, others)
  {
    hide Escape;
    assert ([piece] + rest)[1..] == rest;
    assert [] + others == others && ([text] + others)[1..] == others;
  }

  function Rendered(pieces: seq<Piece>, texts: Result<seq<Option<string>>, DocumentError>): Result<string, DocumentError>
    requires texts.Ok? ==> |texts.value| == Count(pieces)
  {
    match texts
    case Err(e) => Err(e)
    case Ok(given) => Ok(Concat(Translated(pieces, given)))
  }

  lemma RenderedStep(piece: Piece, rest: seq<Piece>, segments: seq<Segment>, cursor: nat)
    ensures Rendered([piece] + rest, Choose([piece] + rest, segments, cursor)) ==
              if !piece.visible then Front(piece.raw, Rendered(rest, Choose(rest, segments, cursor)))
              else
                match ChooseOne(Unescape(piece.raw), segments, cursor)
                case Err(e) => Err(e)
                case Ok(text) => Front(TranslatedPiece(piece, text).raw, Rendered(rest, Choose(rest, segments, cursor + 1)))
  {
    hide Unescape, ChooseOne, Choose, Translated, Concat, Escape, Count;
    ChooseSplits(piece, rest, segments, cursor);
    var chosen := if piece.visible then ChooseOne(Unescape(piece.raw), segments, cursor) else Ok(None);
    var others := Choose(rest, segments, if piece.visible then cursor + 1 else cursor);
    if chosen.Ok? && others.Ok? {
      TranslatedSplits(piece, rest, chosen.value, others.value);
      assert [] + others.value == others.value;
      ConcatSplits(TranslatedPiece(piece, chosen.value), Translated(rest, others.value));
    }
  }

  lemma PieceInFront(xml: string, piece: Piece, rest: seq<Piece>, at: nat)
    requires at <= |xml| && xml[at..] == Concat([piece] + rest)
    ensures var end := at + |piece.raw|;
            end <= |xml| && xml[at..end] == piece.raw && xml[end..] == Concat(rest)
  {
    assert ([piece] + rest)[1..] == rest;
    assert xml[at..at + |piece.raw|] == xml[at..][..|piece.raw|];
    assert xml[at + |piece.raw|..] == xml[at..][|piece.raw|..];
  }

  lemma {:induction false} CopiedIsTranslated(xml: string, pieces: seq<Piece>, from: nat, at: nat, segments: seq<Segment>, cursor: nat)
    requires from <= at <= |xml| && xml[at..] == Concat(pieces)
    ensures InOrder(SpansOf(pieces, at), from, |xml|) && |SpansOf(pieces, at)| == Count(pieces)
    ensures Copied(xml, SpansOf(pieces, at), from, segments, cursor)
         == Front(xml[from..at], Rendered(pieces, Choose(pieces, segments, cursor)))
    decreases |pieces|
  {
    hide Concat, SpansOf, InOrder, Copied, Choose, ChooseOne, Rendered, Unescape, Front, Escape, Count;
    if pieces == [] {
      NothingCopied(xml, from, at, segments, cursor);
    } else {
      var piece, rest := pieces[0], pieces[1..];
      var end := at + |piece.raw|;
      assert pieces == [piece] + rest;
      PieceInFront(xml, piece, rest, at);
      SpansSplit(piece, rest, at);
      RenderedStep(piece, rest, segments, cursor);
      if !piece.visible {
        CopiedIsTranslated(xml, rest, from, end, segments, cursor);
        FrontTwice(xml[from..at], piece.raw, Rendered(rest, Choose(rest, segments, cursor)));
        assert xml[from..at] + piece.raw == xml[from..end];
      } else {
        CopiedIsTranslated(xml, rest, end, end, segments, cursor + 1);
        SpanCopied(xml, piece, rest, from, at, segments, cursor);
      }
    }
  }

  lemma SpanCopied(xml: string, piece: Piece, rest: seq<Piece>, from: nat, at: nat, segments: seq<Segment>, cursor: nat)
    requires piece.visible && from <= at && at + |piece.raw| <= |xml| && xml[at..at + |piece.raw|] == piece.raw
    requires var end := at + |piece.raw|;
             InOrder(SpansOf(rest, end), end, |xml|) &&
             Copied(xml, SpansOf(rest, end), end, segments, cursor + 1)
             == Front(xml[end..end], Rendered(rest, Choose(rest, segments, cursor + 1)))
    ensures var spans := [TextSpan(at, at + |piece.raw|)] + SpansOf(rest, at + |piece.raw|);
            && InOrder(spans, from, |xml|)
            && Copied(xml, spans, from, segments, cursor)
               == Front(xml[from..at], Rendered([piece] + rest, Choose([piece] + rest, segments, cursor)))
  {
    hide SpansOf, Copied, Choose, ChooseOne, Rendered, Unescape, Front, Escape;
    var end := at + |piece.raw|;
    var span, later := TextSpan(at, end), SpansOf(rest, end);
    assert ([span] + later)[1..] == later;
    CopiedStep(xml, span, later, from, segments, cursor);
    RenderedStep(piece, rest, segments, cursor);
    var others := Rendered(rest, Choose(rest, segments, cursor + 1));
    FrontTwice("", "", others);
    assert xml[end..end] == "";
    var chosen := ChooseOne(Unescape(piece.raw), segments, cursor);
    if chosen.Ok? {
      FrontTwice(xml[from..at], TranslatedPiece(piece, chosen.value).raw, others);
    } else {
      FrontOfError(xml[from..at], chosen.error);
    }
  }

  lemma FrontOfError(front: string, e: DocumentError)
    ensures Front(front, Err(e)) == Err(e)
  {
  }

  lemma NothingCopied(xml: string, from: nat, at: nat, segments: seq<Segment>, cursor: nat)
    requires from <= at <= |xml| && xml[at..] == Concat([])
    ensures InOrder(SpansOf([], at), from, |xml|) && |SpansOf([], at)| == Count([])
    ensures Copied(xml, SpansOf([], at), from, segments, cursor)
         == Front(xml[from..at], Rendered([], Choose([], segments, cursor)))
  {
    assert xml[from..] == xml[from..at] + xml[at..];
  }

  lemma ChapterBySpans(xml: string, accepts: string -> bool, segments: seq<Segment>, cursor: nat)
    ensures match Parse(xml, accepts)
            case None => RewriteChapter(xml, accepts, segments, cursor) == Err(InvalidStructure)
            case Some(pieces) =>
              var spans := SpansOf(pieces, 0);
              && InOrder(spans, 0, |xml|) && |spans| == Count(pieces)
              && RewriteChapter(xml, accepts, segments, cursor) == Copied(xml, spans, 0, segments, cursor)
  {
    hide Scan, Concat, SpansOf, InOrder, Copied, Choose, Translated;
    if Parse(xml, accepts).Some? {
      ScanTiles(xml, [], 0);
      assert xml[0..] == xml && xml[0..0] == "";
      var pieces := Parse(xml, accepts).value;
      CopiedIsTranslated(xml, pieces, 0, 0, segments, cursor);
      FrontTwice("", "", Rendered(pieces, Choose(pieces, segments, cursor)));
    }
  }

  // ---------------------------------------------------------------------------------------------
  // A complete job over its own chapter.

  /** The segment holds this source text, and a translation when it is prose. */
  predicate Holds(segments: seq<Segment>, i: nat, source: string) {
    i < |segments| && segments[i].source == source && (segments[i].prose ==> segments[i].translated.Some?)
  }

  predicate Carries(segments: seq<Segment>, cursor: nat, sources: seq<string>) {
    forall k | 0 <= k < |sources| :: Holds(segments, cursor + k, sources[k])
  }

  function TextOf(segment: Segment): Option<string> {
    if segment.prose then segment.translated else None
  }

  function TextsOf(segments: seq<Segment>, cursor: nat, count: nat): (texts: seq<Option<string>>)
    requires cursor + count <= |segments|
    ensures |texts| == count
  {
    seq(count, k requires 0 <= k < count => TextOf(segments[cursor + k]))
  }

  function TargetOf(source: string, text: Option<string>): string {
    match text case Some(t) => t case None => source
  }

  function Targets(sources: seq<string>, texts: seq<Option<string>>): (targets: seq<string>)
    requires |sources| == |texts|
    ensures |targets| == |sources|
  {
    seq(|sources|, k requires 0 <= k < |sources| => TargetOf(sources[k], texts[k]))
  }

  /** Every visible text takes the next segment. */
  lemma {:induction false} CompleteJobChooses(pieces: seq<Piece>, segments: seq<Segment>, cursor: nat)
    requires Sources(pieces).Some? && cursor <= |segments| && Carries(segments, cursor, Sources(pieces).value)
    ensures cursor + Count(pieces) <= |segments|
    ensures Choose(pieces, segments, cursor) == Ok(TextsOf(segments, cursor, Count(pieces)))
  {
    hide Unescape;
    if pieces != [] {
      var piece, rest := pieces[0], pieces[1..];
      if !piece.visible {
        CompleteJobChooses(rest, segments, cursor);
      } else {
        var sources, later := Sources(pieces).value, Sources(rest).value;
        assert Holds(segments, cursor + 0, sources[0]);
        forall k | 0 <= k < |later|
          ensures Holds(segments, cursor + 1 + k, later[k])
        {
          assert Holds(segments, cursor + (k + 1), sources[k + 1]);
        }
        CompleteJobChooses(rest, segments, cursor + 1);
        TextsFront(segments, cursor, Count(rest));
      }
    }
  }

  lemma TextsFront(segments: seq<Segment>, cursor: nat, n: nat)
    requires cursor + 1 + n <= |segments|
    ensures TextsOf(segments, cursor, 1 + n) == [TextOf(segments[cursor])] + TextsOf(segments, cursor + 1, n)
  {
    var all, later := TextsOf(segments, cursor, 1 + n), TextsOf(segments, cursor + 1, n);
    forall k | 0 <= k < n
      ensures all[k + 1] == later[k]
    {
      assert cursor + (k + 1) == cursor + 1 + k;
    }
  }

  /** The rewritten pieces read as their targets. */
  lemma {:induction false} TranslatedReads(pieces: seq<Piece>, texts: seq<Option<string>>)
    requires |texts| == Count(pieces) && Sources(pieces).Some?
    ensures Sources(Translated(pieces, texts)) == Some(Targets(Sources(pieces).value, texts))
  {
    hide Unescape, Escape;
    if pieces != [] {
      var piece, rest := pieces[0], pieces[1..];
      var after := Translated(pieces, texts);
      if piece.visible {
        TranslatedReads(rest, texts[1..]);
        assert after[1..] == Translated(rest, texts[1..]);
        if texts[0].Some? {
          EscapedReads(texts[0].value);
        }
        var sources := Sources(pieces).value;
        assert Targets(sources, texts) == [TargetOf(sources[0], texts[0])] + Targets(sources[1..], texts[1..]);
      } else {
        TranslatedReads(rest, texts);
        assert after[1..] == Translated(rest, texts);
      }
    }
  }

  lemma {:induction false} VisibleIsRead(pieces: seq<Piece>)
    requires forall piece | piece in pieces && piece.visible :: Unescape(piece.raw).Some?
    ensures Sources(pieces).Some?
  {
    hide Unescape;
    if pieces != [] {
      forall piece | piece in pieces[1..] && piece.visible
        ensures Unescape(piece.raw).Some?
      {
        assert piece in pieces;
      }
      VisibleIsRead(pieces[1..]);
    }
  }

  /**
   * A complete job over its own chapter is rewritten. When the XML library accepts the result, it
   * scans to the same markup and places exactly when no translation is blank or holds a NUL, and
   * then each visible text reads as its translation, or as its source where none was due.
   */
  lemma ChapterReadsBack(xml: string, accepts: string -> bool, segments: seq<Segment>, cursor: nat)
    requires Parse(xml, accepts).Some? && cursor <= |segments|
    requires Sources(Parse(xml, accepts).value).Some? ==> Carries(segments, cursor, Sources(Parse(xml, accepts).value).value)
    ensures var pieces := Parse(xml, accepts).value;
            && Sources(pieces).Some? && cursor + Count(pieces) <= |segments|
            && var texts := TextsOf(segments, cursor, Count(pieces));
               var after := Translated(pieces, texts);
               && RewriteChapter(xml, accepts, segments, cursor) == Ok(Concat(after))
               && Sources(after) == Some(Targets(Sources(pieces).value, texts))
               && (accepts(Concat(after)) ==>
                     (Parse(Concat(after), accepts) == Some(after) <==> AllKeep(texts)))
  {
    hide Scan, Concat, Translated, Choose, Sources, Carries, Targets, TextsOf, Unescape;
    var pieces := Parse(xml, accepts).value;
    ScanTiles(xml, [], 0);
    VisibleIsRead(pieces);
    CompleteJobChooses(pieces, segments, cursor);
    var texts := TextsOf(segments, cursor, Count(pieces));
    TranslatedReads(pieces, texts);
    if accepts(Concat(Translated(pieces, texts))) {
      RewriteKeepsChapter(xml, accepts, texts);
    }
  }
}
