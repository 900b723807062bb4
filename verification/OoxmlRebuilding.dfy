/** A rewritten OOXML part has the same text nodes in the same places, each reading as its translation. */
module OoxmlRebuilding {
  import opened Texts
  import opened Strings
  import opened Tags
  import opened XmlText
  import opened Ooxml

  function Concat(pieces: seq<Piece>): string {
    if pieces == [] then "" else pieces[0].raw + Concat(pieces[1..])
  }

  function Count(pieces: seq<Piece>): nat {
    if pieces == [] then 0 else (if pieces[0].Content? then 1 else 0) + Count(pieces[1..])
  }

  function TranslatedContent(piece: Piece, text: Option<string>): Piece
    requires piece.Content?
  {
    if text.Some? then piece.(raw := Escape(text.value)) else piece
  }

  /** The pieces after translation, with one entry of `texts` for each text node. */
  function Translated(pieces: seq<Piece>, texts: seq<Option<string>>): (r: seq<Piece>)
    requires |texts| == Count(pieces)
    ensures |r| == |pieces|
  {
    if pieces == [] then []
    else if pieces[0].Content? then [TranslatedContent(pieces[0], texts[0])] + Translated(pieces[1..], texts[1..])
    else [pieces[0]] + Translated(pieces[1..], texts)
  }

  lemma ConcatSplits(piece: Piece, rest: seq<Piece>)
    ensures Concat([piece] + rest) == piece.raw + Concat(rest)
  {
    assert ([piece] + rest)[1..] == rest;
  }

  lemma TranslatedSplits(piece: Piece, rest: seq<Piece>, texts: seq<Option<string>>)
    requires |texts| == Count([piece] + rest)
    ensures |texts| == (if piece.Content? then 1 else 0) + Count(rest)
    ensures Translated([piece] + rest, texts) ==
              if piece.Content? then [TranslatedContent(piece, texts[0])] + Translated(rest, texts[1..])
              else [piece] + Translated(rest, texts)
  {
    assert ([piece] + rest)[1..] == rest;
  }

  /** The next tag does not depend on what follows it. */
  lemma NextTagIsLocal(s: string, kind: Kind, cells: Cells, other: string)
    requires '<' in s && NextTag(s, kind, cells).Some?
    requires var n := NextTag(s, kind, cells).value.length; n <= |other| && other[..n] == s[..n]
    ensures '<' in other && NextTag(other, kind, cells) == NextTag(s, kind, cells)
  {
    hide AfterTag, OpensText;
    var n := NextTag(s, kind, cells).value.length;
    var at := IndexOf(s, '<', 0).value;
    assert forall k | 0 <= k < n :: other[k] == other[..n][k] == s[..n][k] == s[k];
    assert IndexOf(other, '<', 0) == Some(at);
    TagEndIsLocal(s, at + 1, None, other);
    assert other[at..n] == other[..n][at..] == s[..n][at..] == s[at..n];
  }

  /** Content without markup ends at the marker. */
  lemma ContentEnds(content: string, kind: Kind, rest: string)
    requires '<' !in content
    ensures ContentLength(content + (CloseMarker(kind) + rest), kind) == Some(|content|)
  {
    var marker := CloseMarker(kind);
    var s := content + (marker + rest);
    assert s[|content|..|content| + |marker|] == marker && s[..|content|] == content;
    forall at: nat | at < |content|
      ensures !Matches(s, marker, at)
    {
      assert s[at] == content[at] != '<';
      if Matches(s, marker, at) {
        MatchOpens(s, marker, at);
      }
    }
    assert Matches(s, marker, |content|);
  }

  lemma MatchOpens(s: string, p: string, at: nat)
    requires p != "" && Matches(s, p, at)
    ensures s[at] == p[0]
  {
    assert s[at] == s[at..at + |p|][0];
  }

  lemma TagStep(s: string, kind: Kind, cells: Cells)
    requires '<' in s && Scan(s, kind, cells).Some?
    ensures NextTag(s, kind, cells).Some?
    ensures var head := NextTag(s, kind, cells).value;
            var rest := s[head.length..];
            var marker := CloseMarker(kind);
            if !head.text then
              Scan(rest, kind, head.cells).Some? &&
              Scan(s, kind, cells).value == [Markup(s[..head.length])] + Scan(rest, kind, head.cells).value
            else
              ContentLength(rest, kind).Some? &&
              var n := ContentLength(rest, kind).value;
              Scan(rest[n + |marker|..], kind, head.cells).Some? &&
              Scan(s, kind, cells).value ==
                [Markup(s[..head.length]), Content(rest[..n], head.cells.cell, head.cells.shared), Markup(marker)] +
                Scan(rest[n + |marker|..], kind, head.cells).value
  {
    hide NextTag, ContentLength, CloseMarker;
  }

  lemma PlainStep(s: string, kind: Kind, cells: Cells, rest: seq<Piece>)
    requires '<' in s && NextTag(s, kind, cells).Some? && !NextTag(s, kind, cells).value.text
    requires var head := NextTag(s, kind, cells).value; Scan(s[head.length..], kind, head.cells) == Some(rest)
    ensures Scan(s, kind, cells) == Some([Markup(s[..NextTag(s, kind, cells).value.length])] + rest)
  {
    hide NextTag, ContentLength, CloseMarker;
  }

  lemma TextStep(s: string, kind: Kind, cells: Cells, n: nat, rest: seq<Piece>)
    requires '<' in s && NextTag(s, kind, cells).Some? && NextTag(s, kind, cells).value.text
    requires var head := NextTag(s, kind, cells).value;
             ContentLength(s[head.length..], kind) == Some(n) &&
             Scan(s[head.length..][n + |CloseMarker(kind)|..], kind, head.cells) == Some(rest)
    ensures var head := NextTag(s, kind, cells).value;
            Scan(s, kind, cells) ==
              Some([Markup(s[..head.length]), Content(s[head.length..][..n], head.cells.cell, head.cells.shared),
                    Markup(CloseMarker(kind))] + rest)
  {
    hide NextTag, ContentLength, CloseMarker;
  }

  lemma AsOne(a: Piece, b: Piece, c: Piece, rest: seq<Piece>)
    ensures [a, b, c] + rest == [a] + ([b] + ([c] + rest))
  {
  }

  lemma {:induction false} ScanTiles(s: string, kind: Kind, cells: Cells)
    requires Scan(s, kind, cells).Some?
    ensures Concat(Scan(s, kind, cells).value) == s
    decreases |s|
  {
    hide Scan, Concat, NextTag, ContentLength, CloseMarker;
    if '<' !in s {
      NoTags(s, kind, cells);
    } else {
      TagStep(s, kind, cells);
      var head := NextTag(s, kind, cells).value;
      var rest := s[head.length..];
      SplitAt(s, head.length);
      if !head.text {
        ScanTiles(rest, kind, head.cells);
        ConcatSplits(Markup(s[..head.length]), Scan(rest, kind, head.cells).value);
      } else {
        var marker, n := CloseMarker(kind), ContentLength(rest, kind).value;
        var more := rest[n + |marker|..];
        ScanTiles(more, kind, head.cells);
        MarkerFollows(rest, kind);
        var front, content := Markup(s[..head.length]), Content(rest[..n], head.cells.cell, head.cells.shared);
        ThreePieces(front, content, Markup(marker), Scan(more, kind, head.cells).value);
        AsOne(front, content, Markup(marker), Scan(more, kind, head.cells).value);
        assert rest == rest[..n] + (marker + more);
      }
    }
  }

  lemma SplitAt(s: string, n: nat)
    requires n <= |s|
    ensures s == s[..n] + s[n..]
  {
  }

  lemma NoTags(s: string, kind: Kind, cells: Cells)
    requires '<' !in s
    ensures Scan(s, kind, cells) == Some([Markup(s)]) && Concat([Markup(s)]) == s
  {
    assert [Markup(s)][1..] == [];
  }

  lemma MarkerFollows(s: string, kind: Kind)
    requires ContentLength(s, kind).Some?
    ensures var n, marker := ContentLength(s, kind).value, CloseMarker(kind);
            s == s[..n] + (marker + s[n + |marker|..]) && '<' !in s[..n]
  {
  }

  lemma ThreePieces(a: Piece, b: Piece, c: Piece, rest: seq<Piece>)
    ensures Concat([a] + ([b] + ([c] + rest))) == a.raw + (b.raw + (c.raw + Concat(rest)))
  {
    hide Concat;
    ConcatSplits(a, [b] + ([c] + rest));
    ConcatSplits(b, [c] + rest);
    ConcatSplits(c, rest);
  }

  /** The scan of a rewritten part finds the translated pieces, whatever the translations are. */
  lemma {:induction false} RescansFrom(s: string, kind: Kind, cells: Cells, texts: seq<Option<string>>)
    requires Scan(s, kind, cells).Some? && |texts| == Count(Scan(s, kind, cells).value)
    ensures var after := Translated(Scan(s, kind, cells).value, texts);
            Scan(Concat(after), kind, cells) == Some(after)
    decreases |s|
  {
    hide Scan, Concat, NextTag, ContentLength, CloseMarker, Translated, Count;
    if '<' !in s {
      NoTags(s, kind, cells);
      OneMarkup(s, texts);
    } else {
      TagStep(s, kind, cells);
      var head := NextTag(s, kind, cells).value;
      var front, rest := s[..head.length], s[head.length..];
      if !head.text {
        var pieces := Scan(rest, kind, head.cells).value;
        TranslatedSplits(Markup(front), pieces, texts);
        RescansFrom(rest, kind, head.cells, texts);
        var after := Translated(pieces, texts);
        ConcatSplits(Markup(front), after);
        var other := front + Concat(after);
        assert other[..head.length] == front && other[head.length..] == Concat(after);
        NextTagIsLocal(s, kind, cells, other);
        PlainStep(other, kind, cells, after);
      } else {
        RescansText(s, kind, cells, texts, head, rest);
      }
    }
  }

  lemma OneMarkup(s: string, texts: seq<Option<string>>)
    requires |texts| == Count([Markup(s)])
    ensures Translated([Markup(s)], texts) == [Markup(s)]
  {
    assert [Markup(s)][1..] == [];
  }

  lemma {:induction false} RescansText(s: string, kind: Kind, cells: Cells, texts: seq<Option<string>>, head: Head, rest: string)
    requires '<' in s && Scan(s, kind, cells).Some? && |texts| == Count(Scan(s, kind, cells).value)
    requires NextTag(s, kind, cells) == Some(head) && head.text && rest == s[head.length..]
    ensures var after := Translated(Scan(s, kind, cells).value, texts);
            Scan(Concat(after), kind, cells) == Some(after)
    decreases |s|, 0
  {
    hide Scan, Concat, NextTag, ContentLength, CloseMarker, Translated, Count, Escape;
    TagStep(s, kind, cells);
    var front, marker, n := s[..head.length], CloseMarker(kind), ContentLength(rest, kind).value;
    var more := rest[n + |marker|..];
    var pieces := Scan(more, kind, head.cells).value;
    var content := Content(rest[..n], head.cells.cell, head.cells.shared);
    AsOne(Markup(front), content, Markup(marker), pieces);
    TranslatedSplits(Markup(front), [content] + ([Markup(marker)] + pieces), texts);
    TranslatedSplits(content, [Markup(marker)] + pieces, texts);
    TranslatedSplits(Markup(marker), pieces, texts[1..]);
    RescansFrom(more, kind, head.cells, texts[1..]);
    var after := Translated(pieces, texts[1..]);
    var shown := TranslatedContent(content, texts[0]);
    ThreePieces(Markup(front), shown, Markup(marker), after);
    MarkerFollows(rest, kind);
    if texts[0].Some? {
      EscapedReads(texts[0].value);
    }
    AsOne(Markup(front), shown, Markup(marker), after);
    RereadText(s, kind, cells, head, shown.raw, Concat(after), after);
  }

  lemma RereadText(s: string, kind: Kind, cells: Cells, head: Head, shown: string, tail: string, after: seq<Piece>)
    requires '<' in s && NextTag(s, kind, cells) == Some(head) && head.text
    requires '<' !in shown && Scan(tail, kind, head.cells) == Some(after)
    ensures Scan(s[..head.length] + (shown + (CloseMarker(kind) + tail)), kind, cells) ==
              Some([Markup(s[..head.length]), Content(shown, head.cells.cell, head.cells.shared),
                    Markup(CloseMarker(kind))] + after)
  {
    hide Scan, NextTag, ContentLength, CloseMarker;
    var inner := shown + (CloseMarker(kind) + tail);
    var other := s[..head.length] + inner;
    assert other[..head.length] == s[..head.length] && other[head.length..] == inner;
    NextTagIsLocal(s, kind, cells, other);
    ContentEnds(shown, kind, tail);
    assert inner[..|shown|] == shown && inner[|shown| + |CloseMarker(kind)|..] == tail;
    TextStep(other, kind, cells, |shown|, after);
  }

  // NUL characters

  predicate NulFree(texts: seq<Option<string>>) {
    forall k | 0 <= k < |texts| && texts[k].Some? :: '\0' !in texts[k].value
  }

  lemma {:induction false} NulStays(pieces: seq<Piece>, texts: seq<Option<string>>)
    requires |texts| == Count(pieces) && '\0' !in Concat(pieces)
    ensures '\0' !in Concat(Translated(pieces, texts)) <==> NulFree(texts)
  {
    hide Escape;
    if pieces != [] {
      var piece, rest := pieces[0], pieces[1..];
      if piece.Content? {
        NulStays(rest, texts[1..]);
        assert NulFree(texts) <==> (texts[0].Some? ==> '\0' !in texts[0].value) && NulFree(texts[1..]) by {
          NulSplits(texts);
        }
        if texts[0].Some? {
          EscapedReads(texts[0].value);
        }
      } else {
        NulStays(rest, texts);
      }
    }
  }

  lemma NulSplits(texts: seq<Option<string>>)
    requires texts != []
    ensures NulFree(texts) <==> (texts[0].Some? ==> '\0' !in texts[0].value) && NulFree(texts[1..])
  {
    if (texts[0].Some? ==> '\0' !in texts[0].value) && NulFree(texts[1..]) {
      forall k | 0 <= k < |texts| && texts[k].Some?
        ensures '\0' !in texts[k].value
      {
        if k > 0 {
          assert texts[1..][k - 1] == texts[k];
        }
      }
    }
  }

  /** Every accepted part and every choice of translations, when the XML library accepts the rewritten
      part: it has the same text nodes, in the same cells and shared strings, with the same markup, exactly
      when no translation holds a NUL. */
  lemma RewriteKeepsNodes(xml: string, kind: Kind, accepts: string -> bool, texts: seq<Option<string>>)
    requires Parse(xml, kind, accepts).Some? && |texts| == Count(Parse(xml, kind, accepts).value)
    requires accepts(Concat(Translated(Parse(xml, kind, accepts).value, texts)))
    ensures Concat(Parse(xml, kind, accepts).value) == xml
    ensures var after := Translated(Parse(xml, kind, accepts).value, texts);
            Parse(Concat(after), kind, accepts) == Some(after) <==> NulFree(texts)
  {
    hide Scan, Concat, Translated, Count;
    ScanTiles(xml, kind, OUTSIDE);
    RescansFrom(xml, kind, OUTSIDE, texts);
    NulStays(Scan(xml, kind, OUTSIDE).value, texts);
  }
}
