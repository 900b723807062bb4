/** When a job is rebuilt into its package, chapter or stream: its sources are found again and it is complete. */
module RebuildChecks {
  import opened Texts
  import opened Documents
  import XmlText
  import Ooxml
  import OoxmlRebuilding
  import OoxmlPackage
  import Xhtml
  import XhtmlRebuilding
  import Chapters
  import PdfContent
  import PdfRebuilding
  import Splicing

  predicate FitsAt(segments: seq<Segment>, i: nat, source: string) {
    i < |segments| && segments[i].source == source && (segments[i].prose ==> segments[i].translated.Some?)
  }

  /** The segments from the cursor on have these sources, and what is to be translated is. */
  predicate Fits(segments: seq<Segment>, cursor: nat, sources: seq<string>) {
    forall k | 0 <= k < |sources| :: FitsAt(segments, cursor + k, sources[k])
  }

  predicate IsIncomplete(segments: seq<Segment>, i: nat) {
    i < |segments| && segments[i].prose && segments[i].translated.None?
  }

  /** The error of the first segment that does not fit: it lacks its translation, or is missing or another one's. */
  predicate IsErrorAt(segments: seq<Segment>, cursor: nat, sources: seq<string>, k: nat, error: DocumentError)
    requires k < |sources|
  {
    var i := cursor + k;
    && Fits(segments, cursor, sources[..k]) && !FitsAt(segments, i, sources[k])
    && error == if i < |segments| && segments[i].source == sources[k] then SegmentIncomplete(i) else InvalidStructure
  }

  predicate IsFirstError(segments: seq<Segment>, cursor: nat, sources: seq<string>, error: DocumentError) {
    exists k | 0 <= k < |sources| :: IsErrorAt(segments, cursor, sources, k, error)
  }

  lemma ErrorInFront(segments: seq<Segment>, cursor: nat, first: seq<string>, rest: seq<string>, error: DocumentError)
    requires IsFirstError(segments, cursor, first, error)
    ensures IsFirstError(segments, cursor, first + rest, error)
  {
    hide Fits, FitsAt;
    var k :| 0 <= k < |first| && IsErrorAt(segments, cursor, first, k, error);
    assert (first + rest)[..k] == first[..k];
    assert IsErrorAt(segments, cursor, first + rest, k, error);
  }

  lemma ErrorBehind(segments: seq<Segment>, cursor: nat, first: seq<string>, rest: seq<string>, error: DocumentError)
    requires Fits(segments, cursor, first) && IsFirstError(segments, cursor + |first|, rest, error)
    ensures IsFirstError(segments, cursor, first + rest, error)
  {
    hide Fits, FitsAt;
    var k :| 0 <= k < |rest| && IsErrorAt(segments, cursor + |first|, rest, k, error);
    assert (first + rest)[..|first| + k] == first + rest[..k];
    FitsSplits(segments, cursor, first, rest[..k]);
    assert IsErrorAt(segments, cursor, first + rest, |first| + k, error);
  }

  lemma OneError(segments: seq<Segment>, cursor: nat, source: string, error: DocumentError)
    requires !FitsAt(segments, cursor, source)
    requires error == if cursor < |segments| && segments[cursor].source == source then SegmentIncomplete(cursor) else InvalidStructure
    ensures IsFirstError(segments, cursor, [source], error)
  {
    assert [source][..0] == [];
    assert IsErrorAt(segments, cursor, [source], 0, error);
  }

  lemma FitsSplits(segments: seq<Segment>, cursor: nat, first: seq<string>, rest: seq<string>)
    ensures Fits(segments, cursor, first + rest) <==> Fits(segments, cursor, first) && Fits(segments, cursor + |first|, rest)
  {
    hide FitsAt;
    var all, n := first + rest, |first|;
    if Fits(segments, cursor, all) {
      forall k | 0 <= k < |first| ensures FitsAt(segments, cursor + k, first[k]) {
        assert all[k] == first[k];
      }
      forall k | 0 <= k < |rest| ensures FitsAt(segments, cursor + n + k, rest[k]) {
        var i := n + k;
        assert all[i] == rest[k] && FitsAt(segments, cursor + i, all[i]);
      }
    }
    if Fits(segments, cursor, first) && Fits(segments, cursor + n, rest) {
      forall k | 0 <= k < |all| ensures FitsAt(segments, cursor + k, all[k]) {
        if k >= n {
          var i := k - n;
          assert all[k] == rest[i] && FitsAt(segments, cursor + n + i, rest[i]);
        }
      }
    }
  }

  lemma FitsOne(segments: seq<Segment>, cursor: nat, source: string)
    ensures Fits(segments, cursor, [source]) <==> FitsAt(segments, cursor, source)
  {
    hide FitsAt;
    var one := [source];
    if Fits(segments, cursor, one) {
      assert FitsAt(segments, cursor + 0, one[0]);
    }
  }

  lemma ErrorOfFront(segments: seq<Segment>, cursor: nat, source: string, rest: seq<string>, error: DocumentError)
    requires if FitsAt(segments, cursor, source) then IsFirstError(segments, cursor + 1, rest, error)
             else error == if cursor < |segments| && segments[cursor].source == source then SegmentIncomplete(cursor) else InvalidStructure
    ensures IsFirstError(segments, cursor, [source] + rest, error)
  {
    hide Fits, FitsAt, IsFirstError;
    FitsOne(segments, cursor, source);
    if FitsAt(segments, cursor, source) {
      ErrorBehind(segments, cursor, [source], rest, error);
    } else {
      OneError(segments, cursor, source, error);
      ErrorInFront(segments, cursor, [source], rest, error);
    }
  }

  // OOXML packages

  lemma {:induction false} NodesIff(pieces: seq<Ooxml.Piece>, segments: seq<Segment>, cursor: nat)
    ensures var chosen := OoxmlPackage.Choose(pieces, segments, cursor);
            && (chosen.Ok? <==> OoxmlPackage.Sources(pieces).Some? && Fits(segments, cursor, OoxmlPackage.Sources(pieces).value))
            && (chosen.Err? && OoxmlPackage.Sources(pieces).Some? ==> IsFirstError(segments, cursor, OoxmlPackage.Sources(pieces).value, chosen.error))
            && (chosen.Err? ==> IsRefusal(segments, chosen.error))
  {
    hide XmlText.Unescape, Fits, IsFirstError;
    if pieces == [] {
      NothingFits(segments, cursor);
    } else if pieces[0].Markup? {
      NodesIff(pieces[1..], segments, cursor);
    } else {
      NodesIff(pieces[1..], segments, cursor + 1);
      var chosen := OoxmlPackage.Choose(pieces, segments, cursor);
      var source, rest := XmlText.Unescape(pieces[0].raw), OoxmlPackage.Sources(pieces[1..]);
      if source.Some? && rest.Some? {
        FitsSplits(segments, cursor, [source.value], rest.value);
        FitsOne(segments, cursor, source.value);
        if chosen.Err? {
          ErrorOfFront(segments, cursor, source.value, rest.value, chosen.error);
        }
      }
    }
  }

  lemma NothingFits(segments: seq<Segment>, cursor: nat)
    ensures Fits(segments, cursor, [])
  {
  }

  /** A refusal names a segment without translation, or says that the job does not belong to the document. */
  predicate IsRefusal(segments: seq<Segment>, error: DocumentError) {
    error == InvalidStructure || (error.SegmentIncomplete? && IsIncomplete(segments, error.index))
  }

  lemma {:induction false} PartsIff(parts: seq<OoxmlPackage.PackagePart>, kind: Ooxml.Kind, accepts: string -> bool, segments: seq<Segment>, cursor: nat)
    ensures var after, sources := OoxmlPackage.RewriteAll(parts, kind, accepts, segments, cursor), OoxmlPackage.Inspect(parts, kind, accepts);
            && (after.Ok? <==> sources.Some? && Fits(segments, cursor, sources.value))
            && (after.Ok? ==> after.value.cursor == cursor + |sources.value|)
            && (after.Err? && sources.Some? ==> IsFirstError(segments, cursor, sources.value, after.error))
            && (after.Err? ==> IsRefusal(segments, after.error))
  {
    hide Fits, IsFirstError, OoxmlPackage.RewritePart, OoxmlPackage.InspectPart, OoxmlPackage.NodeCount;
    if parts == [] {
      NothingFits(segments, cursor);
    } else {
      var part, rest := parts[0], parts[1..];
      if !part.translatable {
        PartsIff(rest, kind, accepts, segments, cursor);
      } else {
        PartIff(part, kind, accepts, segments, cursor);
        var n := OoxmlPackage.NodeCount(part, kind, accepts);
        PartsIff(rest, kind, accepts, segments, cursor + n);
        var first, others := OoxmlPackage.InspectPart(part.data, kind, accepts), OoxmlPackage.Inspect(rest, kind, accepts);
        if first.Some? && others.Some? {
          FitsSplits(segments, cursor, first.value, others.value);
          var after := OoxmlPackage.RewriteAll(parts, kind, accepts, segments, cursor);
          if after.Err? && Fits(segments, cursor, first.value) {
            ErrorBehind(segments, cursor, first.value, others.value, after.error);
          } else if after.Err? {
            ErrorInFront(segments, cursor, first.value, others.value, after.error);
          }
        }
      }
    }
  }

  lemma PartIff(part: OoxmlPackage.PackagePart, kind: Ooxml.Kind, accepts: string -> bool, segments: seq<Segment>, cursor: nat)
    ensures var after, sources := OoxmlPackage.RewritePart(part.data, kind, accepts, segments, cursor),
                                  OoxmlPackage.InspectPart(part.data, kind, accepts);
            && (after.Ok? <==> sources.Some? && Fits(segments, cursor, sources.value))
            && (sources.Some? ==> OoxmlPackage.NodeCount(part, kind, accepts) == |sources.value|)
            && (after.Err? && sources.Some? ==> IsFirstError(segments, cursor, sources.value, after.error))
            && (after.Err? ==> IsRefusal(segments, after.error))
  {
    hide Ooxml.Parse, OoxmlPackage.Choose, OoxmlPackage.Sources, Fits, IsFirstError, OoxmlRebuilding.Translated, OoxmlRebuilding.Concat;
    var pieces := Ooxml.Parse(part.data, kind, accepts);
    if pieces.Some? {
      NodesIff(pieces.value, segments, cursor);
    }
  }

  /**
   * A job is rebuilt into a package if and only if the package can be read, the job has one segment
   * for each text in it with that source, in their order, and every segment to be translated has a
   * translation. Otherwise the error is that of the first segment that does not fit, if any.
   */
  lemma PackageIff(parts: seq<OoxmlPackage.PackagePart>, kind: Ooxml.Kind, accepts: string -> bool, segments: seq<Segment>)
    ensures var rebuilt, sources := OoxmlPackage.Reconstruct(parts, kind, accepts, segments), OoxmlPackage.Inspect(parts, kind, accepts);
            && (rebuilt.Ok? <==> sources.Some? && |segments| == |sources.value| && Fits(segments, 0, sources.value))
            && (rebuilt.Err? && sources.Some? ==>
                  if Fits(segments, 0, sources.value) then rebuilt.error == InvalidStructure
                  else IsFirstError(segments, 0, sources.value, rebuilt.error))
            && (rebuilt.Err? ==> IsRefusal(segments, rebuilt.error))
  {
    hide Fits, IsFirstError, OoxmlPackage.RewriteAll, OoxmlPackage.Inspect;
    PartsIff(parts, kind, accepts, segments, 0);
  }

  // EPUB chapters

  lemma {:induction false} VisibleIff(pieces: seq<Xhtml.Piece>, segments: seq<Segment>, cursor: nat)
    ensures var chosen := Chapters.Choose(pieces, segments, cursor);
            && (chosen.Ok? <==> Chapters.Sources(pieces).Some? && Fits(segments, cursor, Chapters.Sources(pieces).value))
            && (chosen.Err? && Chapters.Sources(pieces).Some? ==> IsFirstError(segments, cursor, Chapters.Sources(pieces).value, chosen.error))
            && (chosen.Err? ==> IsRefusal(segments, chosen.error))
  {
    hide XmlText.Unescape, Fits, IsFirstError;
    if pieces == [] {
      NothingFits(segments, cursor);
    } else if !pieces[0].visible {
      VisibleIff(pieces[1..], segments, cursor);
    } else {
      VisibleIff(pieces[1..], segments, cursor + 1);
      var chosen := Chapters.Choose(pieces, segments, cursor);
      var source, rest := XmlText.Unescape(pieces[0].raw), Chapters.Sources(pieces[1..]);
      if source.Some? && rest.Some? {
        FitsSplits(segments, cursor, [source.value], rest.value);
        FitsOne(segments, cursor, source.value);
        if chosen.Err? {
          ErrorOfFront(segments, cursor, source.value, rest.value, chosen.error);
        }
      }
    }
  }

  /** The same for a chapter and the segments from the cursor on; its visible texts can always be read. */
  lemma ChapterIff(xml: string, accepts: string -> bool, segments: seq<Segment>, cursor: nat)
    ensures var rewritten, pieces := Chapters.RewriteChapter(xml, accepts, segments, cursor), Xhtml.Parse(xml, accepts);
            && (rewritten.Ok? <==>
                  pieces.Some? && Chapters.Sources(pieces.value).Some? && Fits(segments, cursor, Chapters.Sources(pieces.value).value))
            && (rewritten.Err? && pieces.Some? && Chapters.Sources(pieces.value).Some? ==>
                  IsFirstError(segments, cursor, Chapters.Sources(pieces.value).value, rewritten.error))
            && (rewritten.Err? ==> IsRefusal(segments, rewritten.error))
  {
    hide Xhtml.Parse, Chapters.Choose, Chapters.Sources, Fits, IsFirstError, XhtmlRebuilding.Translated, XhtmlRebuilding.Concat;
    var pieces := Xhtml.Parse(xml, accepts);
    if pieces.Some? {
      VisibleIff(pieces.value, segments, cursor);
    }
  }

  // PDF streams

  /** The segment has the span's text, and its translation, if one is due, can be written. */
  predicate FitsSpan(segment: PdfRebuilding.PdfSegment, source: string) {
    segment.source == source && (segment.prose ==> segment.translated.Some? && forall k | 0 <= k < |segment.translated.value| :: segment.translated.value[k] < 128)
  }

  /** What the refusal says about some segment is so. */
  predicate IsPdfRefusal(spans: seq<PdfContent.PdfSpan>, segments: seq<PdfRebuilding.PdfSegment>, decode: Text -> string, error: DocumentError)
    requires |segments| == |spans|
  {
    match error
    case InvalidStructure => exists k | 0 <= k < |spans| :: segments[k].source != decode(spans[k].text)
    case SegmentIncomplete(index) => exists k | 0 <= k < |segments| :: segments[k].index == index && segments[k].prose && segments[k].translated.None?
    case PdfTextEncodingUnsupported =>
      exists k | 0 <= k < |segments| :: segments[k].prose && segments[k].translated.Some? && !PdfContent.IsAscii(segments[k].translated.value)
    case _ => false
  }

  lemma {:induction false} SpansIff(spans: seq<PdfContent.PdfSpan>, segments: seq<PdfRebuilding.PdfSegment>, decode: Text -> string)
    requires |segments| == |spans|
    ensures var chosen := PdfRebuilding.ChooseTexts(spans, segments, decode);
            && (chosen.Ok? <==> forall k | 0 <= k < |spans| :: FitsSpan(segments[k], decode(spans[k].text)))
            && (chosen.Err? ==> IsPdfRefusal(spans, segments, decode, chosen.error))
  {
    if spans != [] {
      var others, rest := segments[1..], spans[1..];
      SpansIff(rest, others, decode);
      assert forall k | 0 <= k < |rest| :: rest[k] == spans[k + 1] && others[k] == segments[k + 1];
      assert forall k | 1 <= k < |spans| :: spans[k] == rest[k - 1] && segments[k] == others[k - 1];
    }
  }

  /** A stream is rewritten if and only if each segment has its span's text and an ASCII translation where one is due. */
  lemma StreamIff(data: Text, spans: seq<PdfContent.PdfSpan>, segments: seq<PdfRebuilding.PdfSegment>, decode: Text -> string)
    requires |segments| == |spans| && Splicing.InOrder(PdfRebuilding.BoundsOnly(spans), 0, |data|)
    ensures var rewritten := PdfRebuilding.Rewritten(data, spans, segments, decode);
            && (rewritten.Ok? <==> forall k | 0 <= k < |spans| :: FitsSpan(segments[k], decode(spans[k].text)))
            && (rewritten.Err? ==> IsPdfRefusal(spans, segments, decode, rewritten.error))
  {
    hide PdfRebuilding.ChooseTexts, FitsSpan, IsPdfRefusal;
    SpansIff(spans, segments, decode);
  }
}
