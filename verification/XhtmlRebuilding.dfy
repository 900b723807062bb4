/** A rewritten chapter has the same markup and as many visible texts, each reading as its translation or as before. */
module XhtmlRebuilding {
  import opened Texts
  import opened Strings
  import opened Tags
  import opened XmlText
  import opened Xhtml

  function Concat(pieces: seq<Piece>): string {
    if pieces == [] then "" else pieces[0].raw + Concat(pieces[1..])
  }

  function Count(pieces: seq<Piece>): nat {
    if pieces == [] then 0 else (if pieces[0].visible then 1 else 0) + Count(pieces[1..])
  }

  function TranslatedPiece(piece: Piece, text: Option<string>): Piece {
    if text.Some? then piece.(raw := Escape(text.value)) else piece
  }

  /** The pieces after translation; each visible piece takes one text, or stays as it is. */
  function Translated(pieces: seq<Piece>, texts: seq<Option<string>>): (r: seq<Piece>)
    requires |texts| == Count(pieces)
    ensures |r| == |pieces|
  {
    if pieces == [] then []
    else if pieces[0].visible then [TranslatedPiece(pieces[0], texts[0])] + Translated(pieces[1..], texts[1..])
    else [pieces[0]] + Translated(pieces[1..], texts)
  }

  /** The first piece takes its text, and the others take the rest. */
  lemma TextsSplit(piece: Piece, rest: seq<Piece>, texts: seq<Option<string>>) returns (first: Option<string>, others: seq<Option<string>>)
    requires |texts| == Count([piece] + rest)
    ensures |others| == Count(rest)
    ensures if piece.visible then texts == [first] + others else texts == others && first == None
    ensures Translated([piece] + rest, texts) == [TranslatedPiece(piece, first)] + Translated(rest, others)
  {
    hide Escape;
    assert ([piece] + rest)[1..] == rest;
    if piece.visible {
      first, others := texts[0], texts[1..];
    } else {
      first, others := None, texts;
    }
  }

  /** No text that would be read as nothing. */
  predicate Shows(text: Option<string>) {
    text.Some? ==> !IsBlankText(text.value)
  }

  lemma ConcatSplits(piece: Piece, rest: seq<Piece>)
    ensures Concat([piece] + rest) == piece.raw + Concat(rest)
  {
    assert ([piece] + rest)[1..] == rest;
  }

  lemma ScanSplits(s: string, stack: seq<string>, spans: nat)
    requires s != "" && Scan(s, stack, spans).Some?
    ensures NextStep(s, stack, spans).Some?
    ensures var step := NextStep(s, stack, spans).value;
            var rest := Scan(s[step.length..], step.stack, spans + if step.visible then 1 else 0);
            rest.Some? && Scan(s, stack, spans) == Some([Piece(s[..step.length], step.visible)] + rest.value)
  {
    hide NextStep;
  }

  lemma ScanJoins(s: string, stack: seq<string>, spans: nat, step: Step, tail: string, rest: seq<Piece>)
    requires s != "" && NextStep(s, stack, spans) == Some(step) && s[step.length..] == tail
    requires Scan(tail, step.stack, spans + if step.visible then 1 else 0) == Some(rest)
    ensures Scan(s, stack, spans) == Some([Piece(s[..step.length], step.visible)] + rest)
  {
    hide NextStep;
  }

  lemma ScanNothing(stack: seq<string>, spans: nat)
    ensures Scan("", stack, spans) == if stack == [] then Some([]) else None
    ensures Concat([]) == "" && Count([]) == 0 && Translated([], []) == []
  {
  }

  /** Markup is read the same in front of any other text. */
  lemma MarkupIsLocal(s: string, stack: seq<string>, spans: nat, other: string)
    requires s != "" && s[0] == '<' && MarkupStep(s, stack, spans).Some?
    requires var n := MarkupStep(s, stack, spans).value.length; n <= |other| && other[..n] == s[..n]
    ensures other != "" && other[0] == '<' && MarkupStep(other, stack, spans) == MarkupStep(s, stack, spans)
  {
    hide AfterElement;
    var n := MarkupStep(s, stack, spans).value.length;
    assert other[0] == other[..n][0] == s[0];
    if StartsWith(s, "<!--") {
      FindIsLocal(s, "-->", 4, other);
      assert other[..4] == other[..n][..4] == s[..n][..4] == s[..4];
    } else {
      TagEndIsLocal(s, 1, None, other);
      assert n >= 2 ==> other[1] == other[..n][1] == s[..n][1] == s[1];
      if StartsWith(other, "<!--") {
        CommentNeedsFour(s, n, other);
      }
    }
  }

  predicate SameFront(a: string, b: string) {
    (a == "" <==> b == "") && (a != "" && a[0] == '<' ==> b != "" && b[0] == '<')
  }

  lemma RunEndsThere(run: string, rest: string)
    requires '<' !in run && (rest == "" || rest[0] == '<')
    ensures RunEnd(run + rest) == |run|
  {
    var s := run + rest;
    assert forall k | 0 <= k < |run| :: s[k] == run[k];
    if rest != "" {
      assert s[|run|] == '<';
    }
  }

  /** A text run is followed by markup or by the end. */
  lemma TextRereads(s: string, stack: seq<string>, run: string, text: string, other: string)
    requires run != "" && '<' !in run && (other == "" || other[0] == '<')
    requires !IsHidden(stack) ==> Unescape(run) == Some(text)
    ensures run + other != "" && (run + other)[0] != '<'
    ensures TextStep(run + other, stack) == Some(Step(|run|, stack, !IsHidden(stack) && !IsBlankText(text)))
  {
    hide Unescape;
    RunEndsThere(run, other);
    assert (run + other)[..|run|] == run && (run + other)[0] == run[0];
  }

  lemma StepAfterTranslation(s: string, stack: seq<string>, spans: nat, text: Option<string>, other: string)
    requires s != "" && NextStep(s, stack, spans).Some?
    requires SameFront(s[NextStep(s, stack, spans).value.length..], other)
    requires Shows(text) && (text.Some? ==> NextStep(s, stack, spans).value.visible)
    ensures var step := NextStep(s, stack, spans).value;
            var raw := TranslatedPiece(Piece(s[..step.length], step.visible), text).raw;
            raw != "" && (raw[0] == '<' <==> s[0] == '<') &&
            NextStep(raw + other, stack, spans) == Some(Step(|raw|, step.stack, step.visible))
  {
    hide Unescape, Escape, MarkupStep, IsBlankText;
    var step := NextStep(s, stack, spans).value;
    var raw := TranslatedPiece(Piece(s[..step.length], step.visible), text).raw;
    if s[0] == '<' {
      MarkupIsInvisible(s, stack, spans);
      var after := raw + other;
      assert after[..step.length] == raw;
      MarkupIsLocal(s, stack, spans, after);
      assert after[0] == raw[0];
    } else {
      assert step.length < |s| ==> s[step.length..][0] == s[step.length] == '<';
      if text.Some? {
        EscapedReads(text.value);
        BlankNothing();
        assert raw[0] in raw;
        TextRereads(s, stack, raw, text.value, other);
      } else {
        var source := Unescape(raw);
        assert raw[0] == s[0];
        TextRereads(s, stack, raw, if source.Some? then source.value else "", other);
      }
    }
  }

  lemma MarkupIsInvisible(s: string, stack: seq<string>, spans: nat)
    requires s != "" && s[0] == '<' && MarkupStep(s, stack, spans).Some?
    ensures !MarkupStep(s, stack, spans).value.visible
  {
  }

  lemma FrontIsKept(s: string, stack: seq<string>, spans: nat, texts: seq<Option<string>>)
    requires Scan(s, stack, spans).Some? && |texts| == Count(Scan(s, stack, spans).value)
    requires forall k | 0 <= k < |texts| :: Shows(texts[k])
    ensures SameFront(s, Concat(Translated(Scan(s, stack, spans).value, texts)))
  {
    hide Scan, Concat, Translated, NextStep, Count, TranslatedPiece, SameFront, IsBlankText;
    if s == "" {
      ScanNothing(stack, spans);
      assert SameFront("", "") by { SameEmpty(); }
    } else {
      ScanSplits(s, stack, spans);
      var step := NextStep(s, stack, spans).value;
      var rest := Scan(s[step.length..], step.stack, spans + if step.visible then 1 else 0).value;
      var first, others := TextsSplit(Piece(s[..step.length], step.visible), rest, texts);
      ConcatSplits(TranslatedPiece(Piece(s[..step.length], step.visible), first), Translated(rest, others));
      VisibleIsText(s, stack, spans);
      assert first.Some? ==> first == texts[0];
      PieceKeepsFront(s, step, first, Concat(Translated(rest, others)));
    }
  }

  lemma SameEmpty()
    ensures SameFront("", "")
  {
  }

  lemma PieceKeepsFront(s: string, step: Step, text: Option<string>, rest: string)
    requires s != "" && 0 < step.length <= |s| && Shows(text) && (text.Some? ==> s[0] != '<')
    ensures SameFront(s, TranslatedPiece(Piece(s[..step.length], step.visible), text).raw + rest)
  {
    hide Escape, IsBlankText;
    if text.Some? {
      ShownIsNotEmpty(text.value);
    }
  }

  lemma ShownIsNotEmpty(text: string)
    requires !IsBlankText(text)
    ensures Escape(text) != "" && '<' !in Escape(text)
  {
    hide Escape, Unescape;
    EscapedReads(text);
    BlankNothing();
  }

  lemma BlankNothing()
    ensures IsBlankText("")
  {
  }

  lemma VisibleIsText(s: string, stack: seq<string>, spans: nat)
    requires s != "" && NextStep(s, stack, spans).Some?
    ensures NextStep(s, stack, spans).value.visible ==> s[0] != '<'
  {
    hide TextStep;
    if s[0] == '<' {
      MarkupIsInvisible(s, stack, spans);
    }
  }

  lemma OthersAreTexts(texts: seq<Option<string>>, others: seq<Option<string>>, p: Option<string> -> bool)
    requires others == texts || (texts != [] && others == texts[1..])
    requires forall k | 0 <= k < |texts| :: p(texts[k])
    ensures forall k | 0 <= k < |others| :: p(others[k])
  {
  }

  lemma {:induction false} RescansFrom(s: string, stack: seq<string>, spans: nat, texts: seq<Option<string>>)
    requires Scan(s, stack, spans).Some? && |texts| == Count(Scan(s, stack, spans).value)
    requires forall k | 0 <= k < |texts| :: Shows(texts[k])
    ensures var after := Translated(Scan(s, stack, spans).value, texts);
            Scan(Concat(after), stack, spans) == Some(after)
    decreases |s|
  {
    hide Scan, Concat, Translated, NextStep, Count, Escape, IsBlankText;
    if s == "" {
      ScanNothing(stack, spans);
    } else {
      ScanSplits(s, stack, spans);
      var step := NextStep(s, stack, spans).value;
      var tail, next := s[step.length..], spans + if step.visible then 1 else 0;
      var rest := Scan(tail, step.stack, next).value;
      var first, others := TextsSplit(Piece(s[..step.length], step.visible), rest, texts);
      assert step.visible ==> first == texts[0];
      OthersAreTexts(texts, others, t => Shows(t));
      RescansFrom(tail, step.stack, next, others);
      FrontIsKept(tail, step.stack, next, others);
      var restAfter := Translated(rest, others);
      StepAfterTranslation(s, stack, spans, first, Concat(restAfter));
      var raw := TranslatedPiece(Piece(s[..step.length], step.visible), first).raw;
      ConcatSplits(Piece(raw, step.visible), restAfter);
      var after := raw + Concat(restAfter);
      assert after[..|raw|] == raw && after[|raw|..] == Concat(restAfter);
      ScanJoins(after, stack, spans, Step(|raw|, step.stack, step.visible), Concat(restAfter), restAfter);
    }
  }

  lemma {:induction false} ScanTiles(s: string, stack: seq<string>, spans: nat)
    requires Scan(s, stack, spans).Some?
    ensures Concat(Scan(s, stack, spans).value) == s
    ensures forall piece | piece in Scan(s, stack, spans).value && piece.visible ::
              Unescape(piece.raw).Some? && !IsBlankText(Unescape(piece.raw).value)
    decreases |s|
  {
    hide Scan, Concat, NextStep, Unescape, IsBlankText;
    if s == "" {
      ScanNothing(stack, spans);
    } else {
      ScanSplits(s, stack, spans);
      var step := NextStep(s, stack, spans).value;
      var next := spans + if step.visible then 1 else 0;
      ScanTiles(s[step.length..], step.stack, next);
      ConcatSplits(Piece(s[..step.length], step.visible), Scan(s[step.length..], step.stack, next).value);
      assert s == s[..step.length] + s[step.length..];
      if step.visible {
        VisibleHolds(s, stack, spans);
      }
    }
  }

  lemma VisibleHolds(s: string, stack: seq<string>, spans: nat)
    requires s != "" && NextStep(s, stack, spans).Some? && NextStep(s, stack, spans).value.visible
    ensures var text := Unescape(s[..NextStep(s, stack, spans).value.length]); text.Some? && !IsBlankText(text.value)
  {
    hide Unescape, IsBlankText;
    VisibleIsText(s, stack, spans);
  }

  lemma {:induction false} NulStays(pieces: seq<Piece>, texts: seq<Option<string>>)
    requires |texts| == Count(pieces) && '\0' !in Concat(pieces)
    ensures '\0' in Concat(Translated(pieces, texts)) <==>
            exists k | 0 <= k < |texts| :: texts[k].Some? && '\0' in texts[k].value
  {
    hide Escape, Translated, Concat, Count;
    if pieces == [] {
      ScanNothing([], 0);
    } else {
      var piece, rest := pieces[0], pieces[1..];
      assert pieces == [piece] + rest;
      var first, others := TextsSplit(piece, rest, texts);
      ConcatSplits(piece, rest);
      ConcatSplits(TranslatedPiece(piece, first), Translated(rest, others));
      NulStays(rest, others);
      if first.Some? {
        EscapedReads(first.value);
      }
      if piece.visible {
        assert texts[0] == first && forall k | 0 <= k < |others| :: texts[k + 1] == others[k];
      }
    }
  }

  lemma {:induction false} BlankIsLost(pieces: seq<Piece>, texts: seq<Option<string>>, k: nat)
    requires |texts| == Count(pieces) && k < |texts| && !Shows(texts[k])
    ensures exists piece :: piece in Translated(pieces, texts) && piece.visible &&
                            Unescape(piece.raw).Some? && IsBlankText(Unescape(piece.raw).value)
  {
    hide Escape, Translated, Unescape, IsBlankText, Count;
    ScanNothing([], 0);
    var piece, rest := pieces[0], pieces[1..];
    assert pieces == [piece] + rest;
    var first, others := TextsSplit(piece, rest, texts);
    if piece.visible && k == 0 {
      EscapedReads(first.value);
      assert Piece(Escape(first.value), true) in Translated(pieces, texts);
    } else {
      BlankIsLost(rest, others, if piece.visible then k - 1 else k);
      var lost :| lost in Translated(rest, others) && lost.visible && Unescape(lost.raw).Some? &&
                  IsBlankText(Unescape(lost.raw).value);
      assert lost in Translated(pieces, texts);
    }
  }

  /** A text that keeps its place: not blank, and without a NUL. */
  predicate Keeps(text: Option<string>) {
    text.Some? ==> !IsBlankText(text.value) && '\0' !in text.value
  }

  predicate AllKeep(texts: seq<Option<string>>) {
    forall k | 0 <= k < |texts| :: Keeps(texts[k])
  }

  /** Every accepted chapter and every choice of texts, when the XML library accepts the result: it has the
      same markup and the same visible places, exactly when no text is blank or holds a NUL. */
  lemma RewriteKeepsChapter(xml: string, accepts: string -> bool, texts: seq<Option<string>>)
    requires Parse(xml, accepts).Some? && |texts| == Count(Parse(xml, accepts).value)
    requires accepts(Concat(Translated(Parse(xml, accepts).value, texts)))
    ensures Concat(Parse(xml, accepts).value) == xml
    ensures var after := Translated(Parse(xml, accepts).value, texts);
            Parse(Concat(after), accepts) == Some(after) <==> AllKeep(texts)
  {
    hide Scan, Concat, Translated, Count, Escape, Unescape, IsBlankText;
    var pieces := Parse(xml, accepts).value;
    var after := Translated(pieces, texts);
    ScanTiles(xml, [], 0);
    NulStays(pieces, texts);
    if AllKeep(texts) {
      RescansFrom(xml, [], 0, texts);
      FrontIsKept(xml, [], 0, texts);
    } else if Parse(Concat(after), accepts) == Some(after) {
      ScanTiles(Concat(after), [], 0);
      var k :| 0 <= k < |texts| && !Keeps(texts[k]);
      if !Shows(texts[k]) {
        BlankIsLost(pieces, texts, k);
      }
    }
  }
}
