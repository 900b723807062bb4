/** Rewritten streams that keep their spans although a byte behind a replaced hexadecimal string is skipped. */
module PdfSpans {
  import opened Texts
  import opened PdfContent
  import opened PdfRebuilding

  /** What is offered for translation. */
  function SpanTexts(pieces: seq<Piece>): seq<Text> {
    if pieces == [] then []
    else (if pieces[0].Span? then [pieces[0].text] else []) + SpanTexts(pieces[1..])
  }

  predicate AllOperator(w: Text) {
    forall k | 0 <= k < |w| :: InOperator(w[k]) && w[k] != 37
  }

  predicate IsTextOperator(w: Text) {
    w == [66, 84] || w == [69, 84]
  }

  /** Length of the number at the front, or zero. */
  function NumberFront(w: Text): (d: nat)
    ensures d <= |w|
  {
    var digits := Run(w, IsNumeric);
    if digits > 0 && IsNumber(w[..digits]) then digits else 0
  }

  /** An operator that may lose its first byte: what remains does not begin or end a text. */
  predicate IsCutWord(raw: Text) {
    && |raw| >= 2 && AllOperator(raw) && NumberFront(raw) == 0 && !IsTextOperator(raw)
    && !IsTextOperator(raw[1..][NumberFront(raw[1..])..])
  }

  /** A number that stays one without its first byte. */
  predicate IsCutNumber(raw: Text) {
    |raw| >= 2 && NumberFront(raw) == |raw| && NumberFront(raw[1..]) == |raw| - 1
  }

  /** A token that the scanner may enter one byte late. */
  predicate Harmless(piece: Piece) {
    piece.Other? && (|piece.raw| == 1 || IsCutWord(piece.raw) || IsCutNumber(piece.raw))
  }

  predicate SpansKept(pieces: seq<Piece>, texts: seq<Option<Text>>, skip: bool)
    requires |texts| == Count(pieces)
  {
    pieces != [] ==>
      var piece, rest := pieces[0], pieces[1..];
      if skip then Harmless(piece) && SpansKept(rest, texts, false)
      else if piece.Span? then SpansKept(rest, texts[1..], piece.literal || texts[0].Some?)
      else (piece.raw == [LESS] ==> !OpensReplacedHex(rest, texts)) && SpansKept(rest, texts, IsLiteral(piece))
  }

  lemma SpansKeptSplits(piece: Piece, rest: seq<Piece>, texts: seq<Option<Text>>, text: Option<Text>, others: seq<Option<Text>>)
    requires |texts| == Count([piece] + rest) && |others| == Count(rest)
    requires texts == if piece.Span? then [text] + others else others
    ensures forall skip :: SpansKept([piece] + rest, texts, skip) ==
              if skip then Harmless(piece) && SpansKept(rest, others, false)
              else (piece == Other([LESS]) ==> !OpensReplacedHex(rest, others)) &&
                   SpansKept(rest, others, IsLiteral(piece) || (piece.Span? && text.Some?))
  {
    hide IsCutWord, IsCutNumber;
    assert ([piece] + rest)[1..] == rest;
    if piece.Span? {
      assert texts[0] == text && texts[1..] == others;
    }
  }

  lemma SpanTextsSplit(piece: Piece, rest: seq<Piece>)
    ensures SpanTexts([piece] + rest) == (if piece.Span? then [piece.text] else []) + SpanTexts(rest)
  {
    assert ([piece] + rest)[1..] == rest;
  }

  predicate EndsWord(other: Text) {
    other == [] || !InOperator(other[0])
  }

  lemma {:induction false} RunEnds(w: Text, other: Text, p: Byte -> bool)
    requires (Run(w, p) < |w|) || other == [] || !p(other[0])
    ensures Run(w + other, p) == Run(w, p)
  {
    if w == [] {
      assert w + other == other;
    } else {
      assert (w + other)[1..] == w[1..] + other;
      if p(w[0]) {
        RunEnds(w[1..], other, p);
      }
    }
  }

  lemma {:induction false} RunOfAll(w: Text, p: Byte -> bool)
    requires forall k | 0 <= k < |w| :: p(w[k])
    ensures Run(w, p) == |w|
  {
    if w != [] {
      RunOfAll(w[1..], p);
    }
  }

  /** A number in front of anything but a numeric byte is read as one. */
  lemma NumberReads(w: Text, other: Text, m: Mode)
    requires 0 < NumberFront(w) == |w| && (other == [] || !IsNumeric(other[0])) && !m.skip
    ensures First(w + other, m) == Some(Head(|w|, None, false, m))
  {
    hide IsNumber, Run, Literal, HexHead;
    var s := w + other;
    NumberIsNumeric(w);
    assert IsNumeric(w[0]) && s[0] == w[0];
    RunEnds(w, other, IsNumeric);
    assert s[..|w|] == w;
  }

  /** A stretch of operator bytes is read as a number at its front, or as one operator. */
  lemma WordReads(w: Text, other: Text, m: Mode)
    requires w != [] && AllOperator(w) && EndsWord(other) && !m.skip
    requires NumberFront(w) == 0 ==> m.operators < MAX_OPERATORS
    ensures First(w + other, m) ==
              Some(if NumberFront(w) > 0 then Head(NumberFront(w), None, false, m)
                   else Head(|w|, None, false, AfterOperator(w, m)))
  {
    hide IsNumber, AfterOperator, Run, Literal, HexHead;
    var s := w + other;
    assert InOperator(w[0]) && s[0] == w[0];
    RunOfAll(w, InOperator);
    RunEnds(w, other, InOperator);
    RunEnds(w, other, IsNumeric);
    assert s[..|w|] == w;
    var digits := Run(w, IsNumeric);
    assert s[..digits] == w[..digits];
  }

  /** The remains of a word hold no span and leave the scanner inside or outside a text as it was. */
  lemma CutReads(w: Text, other: Text, m: Mode) returns (pieces: seq<Piece>, after: Mode)
    requires w != [] && AllOperator(w) && EndsWord(other) && !m.skip
    requires !IsTextOperator(w[NumberFront(w)..])
    requires NumberFront(w) < |w| ==> m.operators < MAX_OPERATORS
    ensures SpanTexts(pieces) == [] && after.inText == m.inText && !after.skip
    ensures after.operators == m.operators + if NumberFront(w) < |w| then 1 else 0
    ensures Extract(other, after).Some? ==>
              Extract(w + other, m) == Some(pieces + Extract(other, after).value)
  {
    hide Extract, First, IsNumber;
    var d := NumberFront(w);
    var number, word := w[..d], w[d..];
    WordReads(w, other, m);
    if d == 0 {
      assert word == w;
      pieces, after := [Other(w)], AfterOperator(w, m);
      OneStep(w, other, m, Head(|w|, None, false, after));
    } else if d == |w| {
      assert number == w;
      pieces, after := [Other(w)], m;
      OneStep(w, other, m, Head(d, None, false, m));
    } else {
      TailIsWord(w, d);
      WordReads(word, other, m);
      after := AfterOperator(word, m);
      OneStep(word, other, m, Head(|word|, None, false, after));
      assert number + (word + other) == w + other;
      OneStep(number, word + other, m, Head(d, None, false, m));
      pieces := [Other(number)] + [Other(word)];
      assert pieces[1..] == [Other(word)];
      if Extract(other, after).Some? {
        assert [Other(number)] + ([Other(word)] + Extract(other, after).value) == pieces + Extract(other, after).value;
      }
    }
  }

  lemma OneStep(raw: Text, rest: Text, m: Mode, head: Head)
    requires raw != [] && First(raw + rest, m) == Some(head) && head.length == |raw| && head.span.None?
    ensures SpanTexts([Other(raw)]) == []
    ensures Extract(rest, head.mode).Some? ==> Extract(raw + rest, m) == Some([Other(raw)] + Extract(rest, head.mode).value)
  {
    hide Extract, First;
    assert (raw + rest)[..|raw|] == raw && (raw + rest)[|raw|..] == rest;
    if Extract(rest, head.mode).Some? {
      ExtractStep(raw + rest, m, head, Extract(rest, head.mode).value);
    }
  }

  lemma TailIsWord(w: Text, d: nat)
    requires AllOperator(w) && 0 < d == NumberFront(w) < |w|
    ensures w[d..] != [] && AllOperator(w[d..]) && NumberFront(w[d..]) == 0
  {
    forall k | 0 <= k < |w| - d
      ensures InOperator(w[d..][k]) && w[d..][k] != 37
    {
      assert w[d..][k] == w[d + k];
    }
    assert !IsNumeric(w[d]) && w[d..][0] == w[d];
  }

  /** What the scanner took for an operator is all of it. */
  lemma CutWordEnds(s: Text, source: Mode, raw: Text)
    requires s != [] && First(s, source).Some? && !source.skip
    requires raw == s[..First(s, source).value.length] && IsCutWord(raw)
    ensures EndsWord(s[|raw|..]) && source.operators < MAX_OPERATORS
    ensures First(s, source).value.mode == source.(operators := source.operators + 1)
  {
    hide IsNumber, Run, Literal, HexHead;
    assert raw[0] == s[0] && InOperator(raw[0]) && raw[0] != 37;
    var digits, word := Run(s, IsNumeric), Run(s, InOperator);
    assert raw[..|raw|] == raw;
    if digits > 0 && IsNumber(s[..digits]) {
      RunOfAll(raw, IsNumeric);
    }
    assert |raw| == word && s[..word] == raw;
    assert word < |s| ==> s[|raw|..][0] == s[word];
  }

  /** What the scanner took for a number is followed by no numeric byte. */
  lemma CutNumberEnds(s: Text, source: Mode, raw: Text)
    requires s != [] && First(s, source).Some? && !source.skip
    requires raw == s[..First(s, source).value.length] && IsCutNumber(raw)
    ensures s[|raw|..] == [] || !IsNumeric(s[|raw|..][0])
    ensures First(s, source).value.mode == source
  {
    hide IsNumber, Run, Literal, HexHead;
    var n := |raw|;
    assert forall k | 0 <= k < n :: IsNumeric(s[k]) by { NumberIsNumeric(raw); assert forall k | 0 <= k < n :: s[k] == raw[k]; }
    var digits, word := Run(s, IsNumeric), Run(s, InOperator);
    NumericIsWord(s);
    assert s[..n] == raw && raw[..n] == raw;
    assert digits >= n;
    assert n == digits && IsNumber(s[..digits]);
    assert n < |s| ==> s[n..][0] == s[n];
  }

  lemma NumberIsNumeric(raw: Text)
    requires 0 < NumberFront(raw) == |raw|
    ensures (forall k | 0 <= k < |raw| :: IsNumeric(raw[k])) && Run(raw, IsNumeric) == |raw| && IsNumber(raw)
  {
    assert raw[..|raw|] == raw;
  }

  /** The skipped byte of a harmless token, and what remains of the token. */
  lemma HarmlessReads(s: Text, source: Mode, m: Mode, other: Text) returns (pieces: seq<Piece>, after: Mode)
    requires s != [] && First(s, source).Some? && Trails(m, source) && m.skip
    requires var head := First(s, source).value;
             Harmless(PieceOf(head, s[..head.length])) && SameFront(s[head.length..], other)
    ensures var head := First(s, source).value;
            && SpanTexts(pieces) == [] && Trails(after, head.mode) && !after.skip
            && (Extract(other, after).Some? ==>
                  Extract(s[..head.length] + other, m) == Some(pieces + Extract(other, after).value))
  {
    hide Extract, First, IsCutWord, IsCutNumber, NumberFront, AfterOperator;
    var head := First(s, source).value;
    var raw := s[..head.length];
    var front, rest, unskipped := raw[..1], raw[1..], m.(skip := false);
    PieceOpens(s, source);
    SkipReads(front, rest + other, m);
    assert raw + other == front + (rest + other);
    if |raw| == 1 {
      OneByteKeepsText(s, source);
      assert rest + other == other;
      pieces, after := [Other(front)], unskipped;
    } else {
      assert !source.skip;
      var others: seq<Piece>;
      others, after := RestReads(s, source, unskipped, raw, other);
      pieces := [Other(front)] + others;
      SpanTextsSplit(Other(front), others);
      if Extract(other, after).Some? {
        var tail := Extract(other, after).value;
        assert [Other(front)] + (others + tail) == pieces + tail;
      }
    }
  }

  lemma SkipReads(front: Text, rest: Text, m: Mode)
    requires |front| == 1 && m.skip
    ensures SpanTexts([Other(front)]) == []
    ensures Extract(rest, m.(skip := false)).Some? ==>
              Extract(front + rest, m) == Some([Other(front)] + Extract(rest, m.(skip := false)).value)
  {
    hide Extract;
    OneStep(front, rest, m, Head(1, None, false, m.(skip := false)));
  }

  lemma RestReads(s: Text, source: Mode, m: Mode, raw: Text, other: Text) returns (pieces: seq<Piece>, after: Mode)
    requires s != [] && First(s, source).Some? && !source.skip && !m.skip
    requires m.inText == source.inText && m.operators <= source.operators
    requires raw == s[..First(s, source).value.length] && (IsCutWord(raw) || IsCutNumber(raw))
    requires SameFront(s[|raw|..], other)
    ensures SpanTexts(pieces) == [] && Trails(after, First(s, source).value.mode) && !after.skip
    ensures Extract(other, after).Some? ==> Extract(raw[1..] + other, m) == Some(pieces + Extract(other, after).value)
  {
    hide Extract, First, NumberFront, Run;
    if IsCutWord(raw) {
      CutWordEnds(s, source, raw);
      assert forall k | 0 <= k < |raw| - 1 :: raw[1..][k] == raw[k + 1];
      pieces, after := CutReads(raw[1..], other, m);
    } else {
      CutNumberEnds(s, source, raw);
      NumberReads(raw[1..], other, m);
      pieces, after := [Other(raw[1..])], m;
      OneStep(raw[1..], other, m, Head(|raw| - 1, None, false, m));
    }
  }

  /** A choice of texts that keeps the spans gives them back in their order, with the new texts. */
  lemma {:induction false} SpansReextractFrom(s: Text, source: Mode, m: Mode, texts: seq<Option<Text>>)
    requires Extract(s, source).Some? && |texts| == Count(Extract(s, source).value) && Trails(m, source)
    requires SpansKept(Extract(s, source).value, texts, m.skip) && Filled(Extract(s, source).value, texts)
    ensures var after := Translated(Extract(s, source).value, texts);
            Extract(Concat(after), m).Some? && SpanTexts(Extract(Concat(after), m).value) == SpanTexts(after)
    decreases |s|
  {
    hide Extract, First, Concat, SpansKept, Filled, Translated, Count, OpensReplacedHex, IsStray, SpanTexts, Harmless, Rereadable;
    if s == [] {
      ExtractNothing(source);
      ExtractNothing(m);
      NothingTranslated();
    } else {
      ExtractSplits(s, source);
      var head := First(s, source).value;
      var tail := s[head.length..];
      var rest, piece := Extract(tail, head.mode).value, PieceOf(head, s[..head.length]);
      var text, others := TextsSplit(piece, rest, texts);
      SpansKeptSplits(piece, rest, texts, text, others);
      FrontIsKept(tail, head.mode, others);
      var restAfter := Translated(rest, others);
      var first := if piece.Span? then TranslatedSpan(piece, text) else piece;
      var after := first.raw + Concat(restAfter);
      ConcatSplits(first, restAfter);
      SpanTextsSplit(first, restAfter);
      if m.skip {
        HarmlessIsOther(piece);
        var pieces, next := HarmlessReads(s, source, m, Concat(restAfter));
        SpansReextractFrom(tail, head.mode, next, others);
        SpanTextsJoin(pieces, Extract(Concat(restAfter), next).value);
      } else {
        StepIsAsked(s, source, m, text, others);
        FirstAfterTranslation(s, source, m, text, Concat(restAfter));
        var h := First(after, m).value;
        SpansReextractFrom(tail, head.mode, h.mode, others);
        assert after[..|first.raw|] == first.raw && after[|first.raw|..] == Concat(restAfter);
        ExtractStep(after, m, h, Extract(Concat(restAfter), h.mode).value);
        SpanTextsSplit(first, Extract(Concat(restAfter), h.mode).value);
      }
    }
  }

  lemma HarmlessIsOther(piece: Piece)
    requires Harmless(piece)
    ensures piece.Other?
  {
  }

  lemma {:induction false} SpanTextsJoin(a: seq<Piece>, b: seq<Piece>)
    ensures SpanTexts(a + b) == SpanTexts(a) + SpanTexts(b)
  {
    if a == [] {
      assert a + b == b;
    } else {
      assert (a + b)[1..] == a[1..] + b;
      SpanTextsJoin(a[1..], b);
    }
  }

  /** Every stream and every choice of non-empty texts: the rewritten stream has the source's spans in their
      order with the new texts, also when an operator or number behind a replaced hexadecimal string loses
      its first byte, as long as what remains of it opens or ends no text. */
  lemma RewriteKeepsSpanTexts(s: Text, texts: seq<Option<Text>>)
    requires Extract(s, START).Some? && |texts| == Count(Extract(s, START).value)
    requires SpansKept(Extract(s, START).value, texts, false) && Filled(Extract(s, START).value, texts)
    ensures var after := Translated(Extract(s, START).value, texts);
            Extract(Concat(after), START).Some? && SpanTexts(Extract(Concat(after), START).value) == SpanTexts(after)
  {
    SpansReextractFrom(s, START, START, texts);
  }
}
