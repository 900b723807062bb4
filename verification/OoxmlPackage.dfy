/** Inspecting and rebuilding all parts of a package with one cursor over the job's segments. */
module OoxmlPackage {
  import opened Texts
  import opened Documents
  import opened XmlText
  import opened Ooxml
  import opened OoxmlRebuilding
  import opened Splicing

  datatype PackagePart = PackagePart(name: string, data: string, translatable: bool)

  /** The texts of the text nodes, in order. */
  function Sources(pieces: seq<Piece>): (r: Option<seq<string>>)
    ensures r.Some? ==> |r.value| == Count(pieces)
  {
    if pieces == [] then Some([])
    else if pieces[0].Markup? then Sources(pieces[1..])
    else
      match (Unescape(pieces[0].raw), Sources(pieces[1..]))
      case (Some(text), Some(rest)) => Some([text] + rest)
      case _ => None
  }

  function InspectPart(xml: string, kind: Kind, accepts: string -> bool): Option<seq<string>> {
    match Parse(xml, kind, accepts) case None => None case Some(pieces) => Sources(pieces)
  }

  /** The source texts of a job: those of its translatable parts in a row. */
  function Inspect(parts: seq<PackagePart>, kind: Kind, accepts: string -> bool): Option<seq<string>> {
    if parts == [] then Some([])
    else if !parts[0].translatable then Inspect(parts[1..], kind, accepts)
    else
      match (InspectPart(parts[0].data, kind, accepts), Inspect(parts[1..], kind, accepts))
      case (Some(first), Some(rest)) => Some(first + rest)
      case _ => None
  }

  /** The replacement of each text node, taken from the segments at the cursor. */
  function Choose(pieces: seq<Piece>, segments: seq<Segment>, cursor: nat): (r: Result<seq<Option<string>>, DocumentError>)
    ensures r.Ok? ==> |r.value| == Count(pieces)
  {
    if pieces == [] then Ok([])
    else if pieces[0].Markup? then Choose(pieces[1..], segments, cursor)
    else if cursor >= |segments| || Unescape(pieces[0].raw) != Some(segments[cursor].source) then Err(InvalidStructure)
    else if segments[cursor].prose && segments[cursor].translated.None? then Err(SegmentIncomplete(cursor))
    else
      match Choose(pieces[1..], segments, cursor + 1)
      case Err(e) => Err(e)
      case Ok(rest) => Ok([if segments[cursor].prose then segments[cursor].translated else None] + rest)
  }

  function RewritePart(xml: string, kind: Kind, accepts: string -> bool, segments: seq<Segment>, cursor: nat): Result<string, DocumentError> {
    match Parse(xml, kind, accepts)
    case None => Err(InvalidStructure)
    case Some(pieces) =>
      match Choose(pieces, segments, cursor)
      case Err(e) => Err(e)
      case Ok(texts) => Ok(Concat(Translated(pieces, texts)))
  }

  function NodeCount(part: PackagePart, kind: Kind, accepts: string -> bool): nat {
    match Parse(part.data, kind, accepts) case None => 0 case Some(pieces) => Count(pieces)
  }

  datatype Rebuilt = Rebuilt(parts: seq<PackagePart>, cursor: nat)

  /** The parts rewritten in turn; each takes as many segments as it has text nodes. */
  function RewriteAll(parts: seq<PackagePart>, kind: Kind, accepts: string -> bool, segments: seq<Segment>, cursor: nat): (r: Result<Rebuilt, DocumentError>)
    ensures r.Ok? ==> |r.value.parts| == |parts|
  {
    if parts == [] then Ok(Rebuilt([], cursor))
    else
      var part := parts[0];
      var rewritten := if part.translatable then RewritePart(part.data, kind, accepts, segments, cursor) else Ok(part.data);
      match rewritten
      case Err(e) => Err(e)
      case Ok(data) =>
        match RewriteAll(parts[1..], kind, accepts, segments, cursor + if part.translatable then NodeCount(part, kind, accepts) else 0)
        case Err(e) => Err(e)
        case Ok(rest) => Ok(Rebuilt([part.(data := data)] + rest.parts, rest.cursor))
  }

  function Reconstruct(parts: seq<PackagePart>, kind: Kind, accepts: string -> bool, segments: seq<Segment>): Result<seq<PackagePart>, DocumentError> {
    match RewriteAll(parts, kind, accepts, segments, 0)
    case Err(e) => Err(e)
    case Ok(r) => if r.cursor == |segments| then Ok(r.parts) else Err(InvalidStructure)
  }

  // The job fits the package

  predicate IsReady(s: Segment) {
    s.prose ==> s.translated.Some? && '\0' !in s.translated.value
  }

  predicate Holds(segments: seq<Segment>, i: nat, source: string) {
    i < |segments| && segments[i].source == source && IsReady(segments[i])
  }

  /** The segments from the cursor on carry these source texts and are ready. */
  predicate Carries(segments: seq<Segment>, cursor: nat, sources: seq<string>) {
    cursor + |sources| <= |segments| &&
    forall k | 0 <= k < |sources| :: Holds(segments, cursor + k, sources[k])
  }

  function TargetOf(s: Segment): string {
    if s.prose && s.translated.Some? then s.translated.value else s.source
  }

  function Targets(segments: seq<Segment>, cursor: nat, count: nat): (r: seq<string>)
    requires cursor + count <= |segments|
    ensures |r| == count
  {
    seq(count, k requires 0 <= k < count => TargetOf(segments[cursor + k]))
  }

  lemma CarriesTail(segments: seq<Segment>, cursor: nat, first: seq<string>, rest: seq<string>)
    requires Carries(segments, cursor, first + rest)
    ensures Carries(segments, cursor, first) && Carries(segments, cursor + |first|, rest)
    ensures Targets(segments, cursor, |first + rest|) ==
              Targets(segments, cursor, |first|) + Targets(segments, cursor + |first|, |rest|)
  {
    hide Holds;
    var all := first + rest;
    forall k | 0 <= k < |first|
      ensures Holds(segments, cursor + k, first[k])
    {
      assert Holds(segments, cursor + k, all[k]);
    }
    forall k | 0 <= k < |rest|
      ensures Holds(segments, cursor + |first| + k, rest[k])
    {
      assert Holds(segments, cursor + (|first| + k), all[|first| + k]);
    }
    TargetsSplit(segments, cursor, |first|, |rest|);
  }

  lemma TargetsFront(segments: seq<Segment>, cursor: nat, n: nat)
    requires cursor + 1 + n <= |segments|
    ensures Targets(segments, cursor, 1 + n) == [TargetOf(segments[cursor])] + Targets(segments, cursor + 1, n)
  {
    TargetsSplit(segments, cursor, 1, n);
  }

  lemma TargetsSplit(segments: seq<Segment>, cursor: nat, m: nat, n: nat)
    requires cursor + m + n <= |segments|
    ensures Targets(segments, cursor, m + n) == Targets(segments, cursor, m) + Targets(segments, cursor + m, n)
  {
    hide TargetOf;
    var whole, second := Targets(segments, cursor, m + n), Targets(segments, cursor + m, n);
    forall k | 0 <= k < n
      ensures whole[m + k] == second[k]
    {
      assert whole[m + k] == TargetOf(segments[cursor + (m + k)]);
    }
  }

  /** Every text node takes the next segment, and its new content reads as that segment's target. */
  lemma {:induction false} ChosenReads(pieces: seq<Piece>, segments: seq<Segment>, cursor: nat)
    requires Sources(pieces).Some? && Carries(segments, cursor, Sources(pieces).value)
    ensures Choose(pieces, segments, cursor).Ok?
    ensures var texts := Choose(pieces, segments, cursor).value;
            Sources(Translated(pieces, texts)) == Some(Targets(segments, cursor, Count(pieces))) && NulFree(texts)
  {
    hide Escape, Unescape, Translated;
    if pieces == [] {
      NothingChosen(segments, cursor);
    } else {
      var piece, rest := pieces[0], pieces[1..];
      assert pieces == [piece] + rest;
      if piece.Markup? {
        ChosenReads(rest, segments, cursor);
        var texts := Choose(rest, segments, cursor).value;
        TranslatedSplits(piece, rest, texts);
        assert ([piece] + Translated(rest, texts))[1..] == Translated(rest, texts);
      } else {
        var source, others := Unescape(piece.raw).value, Sources(rest).value;
        CarriesTail(segments, cursor, [source], others);
        assert Holds(segments, cursor + 0, [source][0]);
        ChosenReads(rest, segments, cursor + 1);
        ChosenNode(piece, rest, segments, cursor);
      }
    }
  }

  lemma NothingChosen(segments: seq<Segment>, cursor: nat)
    requires cursor <= |segments|
    ensures Sources(Translated([], [])) == Some(Targets(segments, cursor, 0)) && Choose([], segments, cursor) == Ok([])
  {
  }

  lemma {:induction false} ChosenNode(piece: Piece, rest: seq<Piece>, segments: seq<Segment>, cursor: nat)
    requires piece.Content? && cursor < |segments| && cursor + 1 + Count(rest) <= |segments|
    requires Unescape(piece.raw) == Some(segments[cursor].source) && IsReady(segments[cursor])
    requires Choose(rest, segments, cursor + 1).Ok?
    requires Sources(Translated(rest, Choose(rest, segments, cursor + 1).value)) == Some(Targets(segments, cursor + 1, Count(rest)))
    requires NulFree(Choose(rest, segments, cursor + 1).value)
    ensures Count([piece] + rest) == 1 + Count(rest) && Choose([piece] + rest, segments, cursor).Ok?
    ensures var texts := Choose([piece] + rest, segments, cursor).value;
            Sources(Translated([piece] + rest, texts)) == Some(Targets(segments, cursor, 1 + Count(rest))) && NulFree(texts)
  {
    hide Escape, Unescape, Translated, Targets, NulFree;
    var segment, others := segments[cursor], Choose(rest, segments, cursor + 1).value;
    var text := if segment.prose then segment.translated else None;
    assert ([piece] + rest)[1..] == rest;
    var texts := [text] + others;
    TranslatedSplits(piece, rest, texts);
    NulSplits(texts);
    assert texts[1..] == others;
    if text.Some? {
      EscapedReads(text.value);
    }
    var after := [TranslatedContent(piece, text)] + Translated(rest, others);
    assert after[1..] == Translated(rest, others);
    TargetsFront(segments, cursor, Count(rest));
  }

  predicate AllAccepted(parts: seq<PackagePart>, accepts: string -> bool) {
    forall k | 0 <= k < |parts| && parts[k].translatable :: accepts(parts[k].data)
  }

  lemma PartReads(xml: string, kind: Kind, accepts: string -> bool, segments: seq<Segment>, cursor: nat)
    requires InspectPart(xml, kind, accepts).Some?
    requires Carries(segments, cursor, InspectPart(xml, kind, accepts).value)
    ensures RewritePart(xml, kind, accepts, segments, cursor).Ok?
    ensures var data := RewritePart(xml, kind, accepts, segments, cursor).value;
            accepts(data) ==> InspectPart(data, kind, accepts) ==
                                Some(Targets(segments, cursor, |InspectPart(xml, kind, accepts).value|))
  {
    hide Parse, Choose, Sources, Targets, Translated, Concat, Carries, NulFree;
    var pieces := Parse(xml, kind, accepts).value;
    ChosenReads(pieces, segments, cursor);
    var texts := Choose(pieces, segments, cursor).value;
    if accepts(Concat(Translated(pieces, texts))) {
      RewriteKeepsNodes(xml, kind, accepts, texts);
    }
  }

  /** A step of the loop over the parts. */
  lemma {:induction false} PartsRead(parts: seq<PackagePart>, kind: Kind, accepts: string -> bool, segments: seq<Segment>, cursor: nat)
    requires Inspect(parts, kind, accepts).Some? && Carries(segments, cursor, Inspect(parts, kind, accepts).value)
    ensures RewriteAll(parts, kind, accepts, segments, cursor).Ok?
    ensures var after := RewriteAll(parts, kind, accepts, segments, cursor).value;
            var count := |Inspect(parts, kind, accepts).value|;
            && after.cursor == cursor + count
            && (AllAccepted(after.parts, accepts) ==>
                  Inspect(after.parts, kind, accepts) == Some(Targets(segments, cursor, count)))
  {
    hide InspectPart, RewritePart, Carries, NodeCount, AllAccepted, Targets;
    if parts == [] {
      NoTargets(segments, cursor);
    } else {
      var part, rest := parts[0], parts[1..];
      if !part.translatable {
        PartsRead(rest, kind, accepts, segments, cursor);
        var after := RewriteAll(rest, kind, accepts, segments, cursor).value;
        PartInspected(part, after.parts, kind, accepts);
      } else {
        var first, others := InspectPart(part.data, kind, accepts).value, Inspect(rest, kind, accepts).value;
        CarriesTail(segments, cursor, first, others);
        NodesAreSources(part, kind, accepts);
        PartReads(part.data, kind, accepts, segments, cursor);
        PartsRead(rest, kind, accepts, segments, cursor + |first|);
        var data := RewritePart(part.data, kind, accepts, segments, cursor).value;
        var after := RewriteAll(rest, kind, accepts, segments, cursor + |first|).value;
        PartInspected(part.(data := data), after.parts, kind, accepts);
      }
    }
  }

  lemma NoTargets(segments: seq<Segment>, cursor: nat)
    requires Carries(segments, cursor, [])
    ensures cursor <= |segments| && Targets(segments, cursor, 0) == []
  {
  }

  lemma NodesAreSources(part: PackagePart, kind: Kind, accepts: string -> bool)
    requires InspectPart(part.data, kind, accepts).Some?
    ensures NodeCount(part, kind, accepts) == |InspectPart(part.data, kind, accepts).value|
  {
    hide Parse;
  }

  lemma PartInspected(part: PackagePart, rest: seq<PackagePart>, kind: Kind, accepts: string -> bool)
    ensures AllAccepted([part] + rest, accepts) ==> (part.translatable ==> accepts(part.data)) && AllAccepted(rest, accepts)
    ensures Inspect([part] + rest, kind, accepts) ==
              if !part.translatable then Inspect(rest, kind, accepts)
              else match (InspectPart(part.data, kind, accepts), Inspect(rest, kind, accepts))
                   case (Some(first), Some(others)) => Some(first + others)
                   case _ => None
  {
    hide InspectPart;
    var parts := [part] + rest;
    assert parts[1..] == rest;
    if AllAccepted(parts, accepts) {
      assert parts[0] == part;
      forall k | 0 <= k < |rest| && rest[k].translatable
        ensures accepts(rest[k].data)
      {
        assert parts[k + 1] == rest[k];
      }
    }
  }

  /** Rebuilding keeps names and flags of all parts and the data of those it does not translate. */
  lemma {:induction false} OtherPartsStay(parts: seq<PackagePart>, kind: Kind, accepts: string -> bool, segments: seq<Segment>, cursor: nat)
    requires RewriteAll(parts, kind, accepts, segments, cursor).Ok?
    ensures var after := RewriteAll(parts, kind, accepts, segments, cursor).value.parts;
            forall k | 0 <= k < |parts| ::
              after[k] == (if parts[k].translatable then parts[k].(data := after[k].data) else parts[k])
  {
    hide RewritePart, NodeCount;
    if parts != [] {
      var part := parts[0];
      OtherPartsStay(parts[1..], kind, accepts, segments,
                     cursor + if part.translatable then NodeCount(part, kind, accepts) else 0);
    }
  }

  /** A complete job over its own package is rebuilt: all segments are used up, and reading the rebuilt
      package gives the translations in the order of the sources. */
  lemma PackageReadsBack(parts: seq<PackagePart>, kind: Kind, accepts: string -> bool, segments: seq<Segment>)
    requires Inspect(parts, kind, accepts).Some? && |segments| == |Inspect(parts, kind, accepts).value|
    requires Carries(segments, 0, Inspect(parts, kind, accepts).value)
    ensures Reconstruct(parts, kind, accepts, segments).Ok?
    ensures var after := Reconstruct(parts, kind, accepts, segments).value;
            AllAccepted(after, accepts) ==> Inspect(after, kind, accepts) == Some(Targets(segments, 0, |segments|))
  {
    hide Inspect, Carries, RewriteAll, Targets, AllAccepted;
    PartsRead(parts, kind, accepts, segments, 0);
  }

  /** A job with a segment too many or too few is refused. */
  lemma CountMustFit(parts: seq<PackagePart>, kind: Kind, accepts: string -> bool, segments: seq<Segment>)
    requires Reconstruct(parts, kind, accepts, segments).Ok?
    ensures Inspect(parts, kind, accepts).Some? && |segments| == |Inspect(parts, kind, accepts).value|
  {
    hide Inspect, RewriteAll;
    RewritingCounts(parts, kind, accepts, segments, 0);
  }

  lemma {:induction false} ChoosingReads(pieces: seq<Piece>, segments: seq<Segment>, cursor: nat)
    requires Choose(pieces, segments, cursor).Ok?
    ensures Sources(pieces).Some?
  {
    if pieces != [] {
      ChoosingReads(pieces[1..], segments, if pieces[0].Markup? then cursor else cursor + 1);
    }
  }

  lemma {:induction false} RewritingCounts(parts: seq<PackagePart>, kind: Kind, accepts: string -> bool, segments: seq<Segment>, cursor: nat)
    requires RewriteAll(parts, kind, accepts, segments, cursor).Ok?
    ensures Inspect(parts, kind, accepts).Some?
    ensures RewriteAll(parts, kind, accepts, segments, cursor).value.cursor == cursor + |Inspect(parts, kind, accepts).value|
  {
    hide Parse, Choose, Translated, Concat, Sources;
    if parts != [] {
      var part := parts[0];
      if part.translatable {
        ChoosingReads(Parse(part.data, kind, accepts).value, segments, cursor);
      }
      RewritingCounts(parts[1..], kind, accepts, segments, cursor + if part.translatable then NodeCount(part, kind, accepts) else 0);
    }
  }

  // The loops

  datatype TextSpan = TextSpan(start: nat, end: nat, cell: Option<string>, shared: Option<nat>)

  function SpansOf(pieces: seq<Piece>, at: nat): (spans: seq<TextSpan>)
    ensures |spans| == Count(pieces)
  {
    if pieces == [] then []
    else
      (if pieces[0].Content? then [TextSpan(at, at + |pieces[0].raw|, pieces[0].cell, pieces[0].shared)] else []) +
      SpansOf(pieces[1..], at + |pieces[0].raw|)
  }

  function Found(spans: seq<TextSpan>, at: nat, rest: Option<seq<Piece>>): Option<seq<TextSpan>> {
    if rest.Some? then Some(spans + SpansOf(rest.value, at)) else None
  }

  lemma SpansSplit(piece: Piece, rest: seq<Piece>, at: nat)
    ensures SpansOf([piece] + rest, at) ==
              (if piece.Content? then [TextSpan(at, at + |piece.raw|, piece.cell, piece.shared)] else []) +
              SpansOf(rest, at + |piece.raw|)
  {
    assert ([piece] + rest)[1..] == rest;
  }

  /** A turn of the scanner that meets no text node. */
  lemma FoundTag(xml: string, cursor: nat, kind: Kind, cells: Cells, spans: seq<TextSpan>)
    requires cursor <= |xml| && '<' in xml[cursor..] && NextTag(xml[cursor..], kind, cells).Some?
    requires !NextTag(xml[cursor..], kind, cells).value.text
    ensures var head := NextTag(xml[cursor..], kind, cells).value;
            cursor + head.length <= |xml| &&
            Found(spans, cursor, Scan(xml[cursor..], kind, cells)) ==
              Found(spans, cursor + head.length, Scan(xml[cursor + head.length..], kind, head.cells))
  {
    hide Scan, NextTag, SpansOf;
    var s, head := xml[cursor..], NextTag(xml[cursor..], kind, cells).value;
    assert s[head.length..] == xml[cursor + head.length..];
    PlainTurn(s, kind, cells, head);
    var rest := Scan(s[head.length..], kind, head.cells);
    if rest.Some? {
      SpansSplit(Markup(s[..head.length]), rest.value, cursor);
      var tail := SpansOf(rest.value, cursor + head.length);
      assert [] + tail == tail;
    }
  }

  lemma PlainTurn(s: string, kind: Kind, cells: Cells, head: Head)
    requires '<' in s && NextTag(s, kind, cells) == Some(head) && !head.text
    ensures Scan(s, kind, cells) == Prepend([Markup(s[..head.length])], Scan(s[head.length..], kind, head.cells))
  {
    hide NextTag, ContentLength, CloseMarker;
  }

  lemma TextTurn(s: string, kind: Kind, cells: Cells, head: Head, n: nat)
    requires '<' in s && NextTag(s, kind, cells) == Some(head) && head.text
    requires ContentLength(s[head.length..], kind) == Some(n)
    ensures var rest := s[head.length..];
            Scan(s, kind, cells) ==
              Prepend([Markup(s[..head.length]), Content(rest[..n], head.cells.cell, head.cells.shared), Markup(CloseMarker(kind))],
                      Scan(rest[n + |CloseMarker(kind)|..], kind, head.cells))
  {
    hide NextTag, ContentLength, CloseMarker;
  }

  lemma FailedTurn(s: string, kind: Kind, cells: Cells)
    requires '<' in s
    requires NextTag(s, kind, cells).None? ||
             (NextTag(s, kind, cells).value.text && ContentLength(s[NextTag(s, kind, cells).value.length..], kind).None?)
    ensures Scan(s, kind, cells) == None
  {
    hide NextTag, ContentLength, CloseMarker;
  }

  lemma FoundText(xml: string, cursor: nat, kind: Kind, cells: Cells, spans: seq<TextSpan>, head: Head, n: nat)
    requires cursor <= |xml| && '<' in xml[cursor..] && NextTag(xml[cursor..], kind, cells) == Some(head) && head.text
    requires cursor + head.length <= |xml| && ContentLength(xml[cursor + head.length..], kind) == Some(n)
    ensures var start := cursor + head.length;
            var next := start + n + |CloseMarker(kind)|;
            next <= |xml| &&
            Found(spans, cursor, Scan(xml[cursor..], kind, cells)) ==
              Found(spans + [TextSpan(start, start + n, head.cells.cell, head.cells.shared)], next, Scan(xml[next..], kind, head.cells))
  {
    hide Scan, NextTag, SpansOf, ContentLength, CloseMarker;
    var s, start := xml[cursor..], cursor + head.length;
    var next := start + n + |CloseMarker(kind)|;
    assert s[head.length..] == xml[start..];
    TextTurn(s, kind, cells, head, n);
    var inner := xml[start..];
    assert inner[n + |CloseMarker(kind)|..] == xml[next..];
    var rest := Scan(xml[next..], kind, head.cells);
    if rest.Some? {
      var a, b, c := Markup(s[..head.length]), Content(inner[..n], head.cells.cell, head.cells.shared), Markup(CloseMarker(kind));
      AsOne(a, b, c, rest.value);
      SpansSplit(a, [b] + ([c] + rest.value), cursor);
      SpansSplit(b, [c] + rest.value, start);
      SpansSplit(c, rest.value, start + n);
      Regroup(spans, TextSpan(start, start + n, head.cells.cell, head.cells.shared), SpansOf(rest.value, next));
    }
  }

  lemma Regroup(spans: seq<TextSpan>, span: TextSpan, rest: seq<TextSpan>)
    ensures spans + ([] + ([span] + ([] + rest))) == spans + [span] + rest
  {
    assert [] + rest == rest;
  }

  lemma ScanStarts(xml: string, kind: Kind)
    ensures Found([], 0, Scan(xml[0..], kind, OUTSIDE)) ==
              match Scan(xml, kind, OUTSIDE) case None => None case Some(pieces) => Some(SpansOf(pieces, 0))
  {
    hide Scan, SpansOf;
    assert xml[0..] == xml;
    var all := Scan(xml, kind, OUTSIDE);
    assert all.Some? ==> [] + SpansOf(all.value, 0) == SpansOf(all.value, 0);
  }

  lemma ScanEnds(s: string, kind: Kind, cells: Cells, spans: seq<TextSpan>, at: nat)
    requires '<' !in s
    ensures Found(spans, at, Scan(s, kind, cells)) == Some(spans)
  {
    assert [Markup(s)][1..] == [];
    assert spans + [] == spans;
  }

  /** The scanner with its cursor and the enclosing cell. */
  method TextSpans(xml: string, kind: Kind, accepts: string -> bool) returns (result: Option<seq<TextSpan>>)
    ensures result == match Parse(xml, kind, accepts) case None => None case Some(pieces) => Some(SpansOf(pieces, 0))
  {
    hide Scan, NextTag, SpansOf, ContentLength, Found, CloseMarker;
    var spans: seq<TextSpan> := [];
    var cursor: nat := 0;
    var cells := OUTSIDE;
    ghost var target := Found([], 0, Scan(xml[0..], kind, OUTSIDE));
    ScanStarts(xml, kind);
    if !accepts(xml) {
      return None;
    }
    while '<' in xml[cursor..]
      invariant cursor <= |xml|
      invariant target == Found(spans, cursor, Scan(xml[cursor..], kind, cells))
      decreases |xml| - cursor
    {
      var s := xml[cursor..];
      var head := NextTag(s, kind, cells);
      if head.None? {
        FailedTurn(s, kind, cells);
        FoundNothing(spans, cursor);
        return None;
      }
      var start := cursor + head.value.length;
      assert s[head.value.length..] == xml[start..];
      if !head.value.text {
        FoundTag(xml, cursor, kind, cells, spans);
        cursor := start;
      } else {
        var n := ContentLength(xml[start..], kind);
        if n.None? {
          FailedTurn(s, kind, cells);
          FoundNothing(spans, cursor);
          return None;
        }
        FoundText(xml, cursor, kind, cells, spans, head.value, n.value);
        spans := spans + [TextSpan(start, start + n.value, head.value.cells.cell, head.value.cells.shared)];
        cursor := start + n.value + |CloseMarker(kind)|;
      }
      cells := head.value.cells;
    }
    ScanEnds(xml[cursor..], kind, cells, spans, cursor);
    if '\0' in xml {
      return None;
    }
    return Some(spans);
  }

  lemma FoundNothing(spans: seq<TextSpan>, at: nat)
    ensures Found(spans, at, None) == None
  {
  }

  function BoundsOnly(spans: seq<TextSpan>): (r: seq<Bounds>)
    ensures |r| == |spans|
  {
    seq(|spans|, k requires 0 <= k < |spans| => Bounds(spans[k].start, spans[k].end))
  }

  predicate SpansFit(spans: seq<TextSpan>, length: nat) {
    forall k | 0 <= k < |spans| :: spans[k].start <= spans[k].end <= length
  }

  function ChooseSpans(xml: string, spans: seq<TextSpan>, segments: seq<Segment>, cursor: nat): (r: Result<seq<Option<string>>, DocumentError>)
    requires SpansFit(spans, |xml|)
    ensures r.Ok? ==> |r.value| == |spans|
  {
    if spans == [] then Ok([])
    else if cursor >= |segments| || Unescape(xml[spans[0].start..spans[0].end]) != Some(segments[cursor].source) then
      Err(InvalidStructure)
    else if segments[cursor].prose && segments[cursor].translated.None? then Err(SegmentIncomplete(cursor))
    else
      match ChooseSpans(xml, spans[1..], segments, cursor + 1)
      case Err(e) => Err(e)
      case Ok(rest) => Ok([if segments[cursor].prose then segments[cursor].translated else None] + rest)
  }

  lemma {:induction false} SpansAreContents(xml: string, pieces: seq<Piece>, at: nat, segments: seq<Segment>, cursor: nat)
    requires at <= |xml| && xml[at..] == Concat(pieces)
    ensures SpansFit(SpansOf(pieces, at), |xml|)
    ensures ChooseSpans(xml, SpansOf(pieces, at), segments, cursor) == Choose(pieces, segments, cursor)
  {
    hide Unescape, SpansOf, Concat;
    if pieces == [] {
      NoSpans(at);
    } else {
      var piece, rest := pieces[0], pieces[1..];
      var end := at + |piece.raw|;
      assert pieces == [piece] + rest;
      ConcatSplits(piece, rest);
      assert xml[at..end] == xml[at..][..|piece.raw|] == piece.raw;
      assert xml[end..] == xml[at..][|piece.raw|..];
      SpansSplit(piece, rest, at);
      SpansAreContents(xml, rest, end, segments, if piece.Content? then cursor + 1 else cursor);
      if piece.Content? {
        assert SpansOf(pieces, at)[1..] == SpansOf(rest, end);
      } else {
        assert SpansOf(pieces, at) == SpansOf(rest, end);
      }
    }
  }

  lemma NoSpans(at: nat)
    ensures SpansOf([], at) == []
  {
  }

  lemma SpanStep(xml: string, spans: seq<TextSpan>, k: nat, segments: seq<Segment>, cursor: nat)
    requires SpansFit(spans, |xml|) && k < |spans|
    ensures SpansFit(spans[k..], |xml|) && SpansFit(spans[k + 1..], |xml|)
    ensures ChooseSpans(xml, spans[k..], segments, cursor) ==
              if cursor >= |segments| || Unescape(xml[spans[k].start..spans[k].end]) != Some(segments[cursor].source) then
                Err(InvalidStructure)
              else if segments[cursor].prose && segments[cursor].translated.None? then Err(SegmentIncomplete(cursor))
              else
                match ChooseSpans(xml, spans[k + 1..], segments, cursor + 1)
                case Err(e) => Err(e)
                case Ok(rest) => Ok([if segments[cursor].prose then segments[cursor].translated else None] + rest)
  {
    hide Unescape;
    assert spans[k..][1..] == spans[k + 1..];
  }

  function Chosen(done: seq<Option<string>>, rest: Result<seq<Option<string>>, DocumentError>): Result<seq<Option<string>>, DocumentError> {
    if rest.Ok? then Ok(done + rest.value) else rest
  }

  /** The segments for the spans, taken at the cursor, which moves past each of them. */
  method ChooseTexts(xml: string, spans: seq<TextSpan>, segments: seq<Segment>, start: nat)
      returns (texts: Result<seq<Option<string>>, DocumentError>, cursor: nat)
    requires SpansFit(spans, |xml|)
    ensures texts == ChooseSpans(xml, spans, segments, start)
    ensures texts.Ok? ==> cursor == start + |spans|
  {
    hide Unescape, ChooseSpans;
    var chosen: seq<Option<string>> := [];
    cursor := start;
    assert spans[0..] == spans;
    ghost var target := ChooseSpans(xml, spans, segments, start);
    assert target.Ok? ==> [] + target.value == target.value;
    for k := 0 to |spans|
      invariant cursor == start + k && |chosen| == k
      invariant SpansFit(spans[k..], |xml|) && target == Chosen(chosen, ChooseSpans(xml, spans[k..], segments, cursor))
    {
      SpanStep(xml, spans, k, segments, cursor);
      if cursor >= |segments| || Unescape(xml[spans[k].start..spans[k].end]) != Some(segments[cursor].source) {
        return Err(InvalidStructure), cursor;
      }
      var segment := segments[cursor];
      if segment.prose && segment.translated.None? {
        return Err(SegmentIncomplete(cursor)), cursor;
      }
      ghost var rest := ChooseSpans(xml, spans[k + 1..], segments, cursor + 1);
      var text := if segment.prose then segment.translated else None;
      assert rest.Ok? ==> chosen + ([text] + rest.value) == chosen + [text] + rest.value;
      chosen := chosen + [text];
      cursor := cursor + 1;
    }
    NothingLeft(xml, segments, cursor);
    assert chosen + [] == chosen;
    texts := Ok(chosen);
  }

  lemma NothingLeft(xml: string, segments: seq<Segment>, cursor: nat)
    ensures ChooseSpans(xml, [], segments, cursor) == Ok([])
  {
  }

  function Escaped(texts: seq<Option<string>>): (r: seq<Option<string>>)
    ensures |r| == |texts|
  {
    seq(|texts|, k requires 0 <= k < |texts| => if texts[k].Some? then Some(Escape(texts[k].value)) else None)
  }

  function PartsOf(pieces: seq<Piece>): seq<Part<char>> {
    if pieces == [] then [] else [Part(pieces[0].raw, pieces[0].Content?)] + PartsOf(pieces[1..])
  }

  lemma PartsSplit(piece: Piece, rest: seq<Piece>)
    ensures PartsOf([piece] + rest) == [Part(piece.raw, piece.Content?)] + PartsOf(rest)
  {
    assert ([piece] + rest)[1..] == rest;
  }

  lemma NoParts(texts: seq<Option<string>>)
    requires |texts| == Count([])
    ensures |texts| == 0 && PartsOf([]) == [] && Spans(PartsOf([])) == 0 && Joined(PartsOf([])) == Concat([])
    ensures Spliced(PartsOf([]), Escaped(texts)) == Concat(Translated([], texts))
  {
  }

  /** Copying around the spans writes the translated pieces. */
  lemma {:induction false} SpliceTranslates(pieces: seq<Piece>, texts: seq<Option<string>>)
    requires |texts| == Count(pieces)
    ensures Spans(PartsOf(pieces)) == |texts| && Joined(PartsOf(pieces)) == Concat(pieces)
    ensures Spliced(PartsOf(pieces), Escaped(texts)) == Concat(Translated(pieces, texts))
  {
    hide Concat, Translated, Joined, Spans, Spliced, Count, PartsOf, Escape;
    if pieces == [] {
      NoParts(texts);
    } else {
      var piece, rest := pieces[0], pieces[1..];
      assert pieces == [piece] + rest;
      TranslatedSplits(piece, rest, texts);
      var others := if piece.Content? then texts[1..] else texts;
      SpliceTranslates(rest, others);
      var part, parts := Part(piece.raw, piece.Content?), PartsOf(rest);
      PartsSplit(piece, rest);
      JoinedSplits(part, parts);
      SplicedSplits(part, parts, Escaped(texts));
      ConcatSplits(piece, rest);
      ConcatSplits(if piece.Content? then TranslatedContent(piece, texts[0]) else piece, Translated(rest, others));
      if piece.Content? {
        assert Escaped(texts)[1..] == Escaped(others);
      }
    }
  }

  lemma {:induction false} SpansAreBounds(pieces: seq<Piece>, at: nat)
    ensures BoundsOnly(SpansOf(pieces, at)) == BoundsOf(PartsOf(pieces), at)
  {
    hide BoundsOf, PartsOf, SpansOf;
    if pieces == [] {
      NoBounds(at);
    } else {
      var piece, rest := pieces[0], pieces[1..];
      assert pieces == [piece] + rest;
      SpansAreBounds(rest, at + |piece.raw|);
      PartsSplit(piece, rest);
      BoundsSplit(Part(piece.raw, piece.Content?), PartsOf(rest), at);
      SpansSplit(piece, rest, at);
    }
  }

  lemma NoBounds(at: nat)
    ensures SpansOf([], at) == [] && BoundsOf(PartsOf([]), at) == []
  {
  }

  /** A part is rewritten with the segments at the cursor, which moves past them. */
  method RewriteXml(xml: string, kind: Kind, accepts: string -> bool, segments: seq<Segment>, start: nat)
      returns (result: Result<string, DocumentError>, cursor: nat)
    ensures result == RewritePart(xml, kind, accepts, segments, start)
    ensures result.Ok? ==> cursor == start + Count(Parse(xml, kind, accepts).value)
  {
    hide Scan, SpansOf, Choose, ChooseSpans, SpansFit, Concat, Translated, Copied, Spliced, BoundsOf, PartsOf, Splicing.InOrder;
    var spans := TextSpans(xml, kind, accepts);
    if spans.None? {
      return Err(InvalidStructure), start;
    }
    ghost var pieces := Parse(xml, kind, accepts).value;
    ScanTiles(xml, kind, OUTSIDE);
    assert xml[0..] == xml;
    SpansAreContents(xml, pieces, 0, segments, start);
    var texts;
    texts, cursor := ChooseTexts(xml, spans.value, segments, start);
    if texts.Err? {
      return Err(texts.error), cursor;
    }
    SpliceTranslates(pieces, texts.value);
    SpansAreBounds(pieces, 0);
    CopySplices(xml, PartsOf(pieces), Escaped(texts.value));
    var output := Copy(xml, BoundsOnly(spans.value), Escaped(texts.value));
    result := Ok(output);
  }

  /** All parts in turn, the cursor carried from one to the next. */
  method ReconstructKind(parts: seq<PackagePart>, kind: Kind, accepts: string -> bool, segments: seq<Segment>)
      returns (result: Result<seq<PackagePart>, DocumentError>)
    ensures result == Reconstruct(parts, kind, accepts, segments)
  {
    hide RewritePart, RewriteAll, Parse;
    var rebuilt: seq<PackagePart> := [];
    var cursor: nat := 0;
    ghost var target := RewriteAll(parts, kind, accepts, segments, 0);
    assert parts[0..] == parts;
    assert target.Ok? ==> [] + target.value.parts == target.value.parts;
    for k := 0 to |parts|
      invariant target == AfterParts(rebuilt, RewriteAll(parts[k..], kind, accepts, segments, cursor))
    {
      var part := parts[k];
      assert parts[k..] == [part] + parts[k + 1..];
      PartStep(part, parts[k + 1..], kind, accepts, segments, cursor, rebuilt);
      if part.translatable {
        var data, next := RewriteXml(part.data, kind, accepts, segments, cursor);
        if data.Err? {
          return Err(data.error);
        }
        rebuilt := rebuilt + [part.(data := data.value)];
        RewrittenParses(part, kind, accepts, segments, cursor);
        cursor := next;
      } else {
        assert part.(data := part.data) == part;
        rebuilt := rebuilt + [part];
      }
    }
    NoPartsLeft(kind, accepts, segments, cursor, rebuilt);
    if cursor != |segments| {
      return Err(InvalidStructure);
    }
    return Ok(rebuilt);
  }

  function AfterParts(done: seq<PackagePart>, rest: Result<Rebuilt, DocumentError>): Result<Rebuilt, DocumentError> {
    if rest.Ok? then Ok(Rebuilt(done + rest.value.parts, rest.value.cursor)) else rest
  }

  lemma NoPartsLeft(kind: Kind, accepts: string -> bool, segments: seq<Segment>, cursor: nat, done: seq<PackagePart>)
    ensures AfterParts(done, RewriteAll([], kind, accepts, segments, cursor)) == Ok(Rebuilt(done, cursor))
  {
    assert done + [] == done;
  }

  lemma RewrittenParses(part: PackagePart, kind: Kind, accepts: string -> bool, segments: seq<Segment>, cursor: nat)
    requires RewritePart(part.data, kind, accepts, segments, cursor).Ok?
    ensures Parse(part.data, kind, accepts).Some? && NodeCount(part, kind, accepts) == Count(Parse(part.data, kind, accepts).value)
  {
    hide Parse;
  }

  lemma PartStep(part: PackagePart, rest: seq<PackagePart>, kind: Kind, accepts: string -> bool, segments: seq<Segment>, cursor: nat,
                 done: seq<PackagePart>)
    ensures var rewritten := if part.translatable then RewritePart(part.data, kind, accepts, segments, cursor) else Ok(part.data);
            var next := cursor + if part.translatable then NodeCount(part, kind, accepts) else 0;
            AfterParts(done, RewriteAll([part] + rest, kind, accepts, segments, cursor)) ==
              match rewritten
              case Err(e) => Err(e)
              case Ok(data) => AfterParts(done + [part.(data := data)], RewriteAll(rest, kind, accepts, segments, next))
  {
    hide RewritePart, NodeCount;
    assert ([part] + rest)[1..] == rest;
    var rewritten := if part.translatable then RewritePart(part.data, kind, accepts, segments, cursor) else Ok(part.data);
    var next := cursor + if part.translatable then NodeCount(part, kind, accepts) else 0;
    var tail := RewriteAll(rest, kind, accepts, segments, next);
    if rewritten.Ok? && tail.Ok? {
      var first := part.(data := rewritten.value);
      assert done + ([first] + tail.value.parts) == done + [first] + tail.value.parts;
    }
  }
}
