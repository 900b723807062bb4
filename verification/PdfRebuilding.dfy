/** Replaced literal strings are read back, and the rest of the stream is read as before. */
module PdfRebuilding {
  import opened Texts
  import opened Documents
  import opened PdfContent
  import opened Splicing

  // A literal

  lemma EscapedByteReads(b: Byte, rest: Text, depth: nat)
    requires depth > 0
    ensures LiteralTail(EscapeByte(b) + rest, depth) == Then([b], |EscapeByte(b)|, LiteralTail(rest, depth))
  {
    var e := EscapeByte(b);
    var s := e + rest;
    assert s[|e|..] == rest && s[0] == e[0];
    if |e| == 2 {
      assert s[1] == e[1] && s[1..][0] == e[1];
    } else {
      assert s[1..] == rest;
    }
  }

  /** The literal for a text reads as that text and ends where it was closed, whatever follows. */
  lemma {:induction false} EscapedTailReads(t: Text, rest: Text)
    ensures LiteralTail(Escape(t) + [CLOSE] + rest, 1) == Some(Reading(t, |Escape(t)| + 1))
  {
    var s := Escape(t) + [CLOSE] + rest;
    if t == [] {
      assert s[0] == CLOSE;
    } else {
      var more := Escape(t[1..]) + [CLOSE] + rest;
      assert s == EscapeByte(t[0]) + more;
      EscapedByteReads(t[0], more, 1);
      EscapedTailReads(t[1..], rest);
      assert [t[0]] + t[1..] == t;
    }
  }

  function Written(t: Text): Text {
    [OPEN] + Escape(t) + [CLOSE]
  }

  lemma LiteralRoundTrip(t: Text, rest: Text)
    ensures Literal(Written(t) + rest) == Some(Reading(t, |Written(t)|))
  {
    hide LiteralTail;
    var s := Written(t) + rest;
    assert s[1..] == Escape(t) + [CLOSE] + rest;
    EscapedTailReads(t, rest);
    assert [] + t == t;
  }

  // Reading depends on the token and a little on the byte behind it

  /** The same byte, or the opening of a hexadecimal string that became the opening of a literal. */
  predicate Alike(a: Byte, b: Byte) {
    a == b || (a == LESS && b == OPEN)
  }

  predicate Agree(s: Text, other: Text, n: nat) {
    && n <= |s| && n <= |other| && s[..n] == other[..n]
    && (n < |s| <==> n < |other|) && (n < |s| ==> Alike(s[n], other[n]))
  }

  lemma AgreeAt(s: Text, other: Text, n: nat, k: nat)
    requires Agree(s, other, n) && k <= n
    ensures (k < |s| <==> k < |other|) && (k < |s| ==> Alike(s[k], other[k])) && (k < n ==> s[k] == other[k])
    ensures Agree(s, other, k)
    ensures Agree(s[k..], other[k..], n - k)
  {
    if k < n {
      assert s[k] == s[..n][k] == other[..n][k] == other[k];
    }
    assert s[..k] == s[..n][..k] == other[..n][..k] == other[..k];
    assert s[k..][..n - k] == s[..n][k..] == other[..n][k..] == other[k..][..n - k];
    if n < |s| {
      assert s[k..][n - k] == s[n] && other[k..][n - k] == other[n];
    }
  }

  /** A set of bytes that holds neither of the two openings. */
  predicate OpensNothing(p: Byte -> bool) {
    !p(LESS) && !p(OPEN)
  }

  lemma {:induction false} RunIsLocal(s: Text, other: Text, p: Byte -> bool, n: nat)
    requires Agree(s, other, n) && Run(s, p) <= n && OpensNothing(p)
    ensures Run(other, p) == Run(s, p)
  {
    AgreeAt(s, other, n, 0);
    if s != [] && p(s[0]) {
      AgreeAt(s, other, n, 1);
      RunIsLocal(s[1..], other[1..], p, n - 1);
    }
  }

  lemma {:induction false} FindIsLocal(s: Text, other: Text, b: Byte, n: nat)
    requires Agree(s, other, n) && (if Find(s, b).Some? then Find(s, b).value < n else n == |s|)
    ensures Find(other, b) == Find(s, b)
  {
    if n == |s| {
      assert s == other;
    } else {
      AgreeAt(s, other, n, 0);
      if s != [] && s[0] != b {
        AgreeAt(s, other, n, 1);
        FindIsLocal(s[1..], other[1..], b, n - 1);
      }
    }
  }

  lemma EscapeIsLocal(s: Text, other: Text, n: nat)
    requires Agree(s, other, n) && EscapeAt(s).Some? && EscapeAt(s).value.length <= n
    ensures EscapeAt(other) == EscapeAt(s)
  {
    var k := EscapeAt(s).value.length;
    AgreeAt(s, other, n, 0);
    AgreeAt(s, other, n, 1);
    AgreeAt(s, other, n, k);
    if IsOctal(s[0]) && k >= 2 {
      AgreeAt(s, other, n, 2);
    }
  }

  /** A literal's tail byte by byte. */
  lemma LiteralTailSplits(s: Text, depth: nat)
    requires depth > 0
    ensures LiteralTail(s, depth) ==
              if s == [] then None
              else if s[0] == OPEN then Then([OPEN], 1, LiteralTail(s[1..], depth + 1))
              else if s[0] == CLOSE then
                if depth == 1 then Some(Reading([], 1)) else Then([CLOSE], 1, LiteralTail(s[1..], depth - 1))
              else if s[0] == BACKSLASH then
                if EscapeAt(s[1..]).None? then None
                else
                  var e := EscapeAt(s[1..]).value;
                  Then(e.text, 1 + e.length, LiteralTail(s[1 + e.length..], depth))
              else Then([s[0]], 1, LiteralTail(s[1..], depth))
  {
    hide EscapeAt;
  }

  lemma {:induction false} LiteralTailIsLocal(s: Text, other: Text, depth: nat, n: nat)
    requires depth > 0 && Agree(s, other, n)
    requires LiteralTail(s, depth).Some? && LiteralTail(s, depth).value.length <= n
    ensures LiteralTail(other, depth) == LiteralTail(s, depth)
    decreases |s|
  {
    hide EscapeAt, Agree, Alike, LiteralTail;
    AgreeAt(s, other, n, 0);
    LiteralTailSplits(s, depth);
    LiteralTailSplits(other, depth);
    AgreeAt(s, other, n, 1);
    if s[0] == OPEN {
      LiteralTailIsLocal(s[1..], other[1..], depth + 1, n - 1);
    } else if s[0] == CLOSE {
      if depth > 1 {
        LiteralTailIsLocal(s[1..], other[1..], depth - 1, n - 1);
      }
    } else if s[0] == BACKSLASH {
      var e := EscapeAt(s[1..]).value;
      EscapeIsLocal(s[1..], other[1..], n - 1);
      AgreeAt(s, other, n, 1 + e.length);
      LiteralTailIsLocal(s[1 + e.length..], other[1 + e.length..], depth, n - 1 - e.length);
    } else {
      LiteralTailIsLocal(s[1..], other[1..], depth, n - 1);
    }
  }

  lemma LiteralIsLocal(s: Text, other: Text)
    requires Literal(s).Some? && Agree(s, other, Literal(s).value.length)
    ensures Literal(other) == Literal(s)
  {
    hide LiteralTail;
    var n := Literal(s).value.length;
    AgreeAt(s, other, n, 0);
    AgreeAt(s, other, n, 1);
    LiteralTailIsLocal(s[1..], other[1..], 1, n - 1);
  }

  lemma HexIsLocal(s: Text, other: Text, mode: Mode)
    requires s != [] && HexHead(s, mode).Some? && Agree(s, other, HexHead(s, mode).value.length)
    ensures other != [] && HexHead(other, mode) == HexHead(s, mode)
  {
    var n := HexHead(s, mode).value.length;
    AgreeAt(s, other, n, 1);
    FindIsLocal(s[1..], other[1..], GREATER, n - 1);
    var inner, otherInner := s[..n][1..n - 1], other[..n][1..n - 1];
    assert inner == s[1..n - 1];
    assert otherInner == other[1..n - 1];
    assert s[1..][..n - 2] == inner && other[1..][..n - 2] == otherInner;
  }

  lemma WordIsLocal(s: Text, other: Text, mode: Mode)
    requires s != [] && WordHead(s, mode).Some? && Agree(s, other, WordHead(s, mode).value.length)
    ensures other != [] && WordHead(other, mode) == WordHead(s, mode)
  {
    hide Agree, IsNumber, AfterOperator;
    var n := WordHead(s, mode).value.length;
    var digits, word := Run(s, IsNumeric), Run(s, InOperator);
    AgreeAt(s, other, n, 0);
    NumericIsWord(s);
    RunIsLocal(s, other, IsNumeric, n);
    SamePrefix(s, other, n, digits);
    if !(digits > 0 && IsNumber(s[..digits])) {
      RunIsLocal(s, other, InOperator, n);
      SamePrefix(s, other, n, word);
    }
  }

  lemma SamePrefix(s: Text, other: Text, n: nat, k: nat)
    requires Agree(s, other, n) && k <= n
    ensures k <= |s| && k <= |other| && s[..k] == other[..k]
  {
    AgreeAt(s, other, n, k);
  }

  lemma {:induction false} NumericIsWord(s: Text)
    ensures Run(s, IsNumeric) <= Run(s, InOperator)
  {
    if s != [] && IsNumeric(s[0]) {
      NumericIsWord(s[1..]);
    }
  }

  /** A `<` that the scanner reads as a stray byte because another one follows. */
  predicate IsStray(s: Text, mode: Mode) {
    |s| >= 2 && s[0] == LESS && s[1] == LESS && !mode.skip
  }

  /** A token is read the same in front of another text that opens alike, except that a stray `<` needs
      the `<` behind it. */
  lemma FirstIsLocal(s: Text, other: Text, mode: Mode)
    requires s != [] && First(s, mode).Some? && Agree(s, other, First(s, mode).value.length)
    requires IsStray(s, mode) ==> |other| >= 2 && other[1] == LESS
    ensures other != [] && First(other, mode) == First(s, mode)
  {
    hide Literal, HexHead, WordHead;
    var n := First(s, mode).value.length;
    AgreeAt(s, other, n, 0);
    AgreeAt(s, other, n, 1);
    if mode.skip || IsSpace(s[0]) {
    } else if s[0] == 37 {
      FindIsLocal(s, other, LF, n);
    } else if s[0] == OPEN {
      LiteralIsLocal(s, other);
    } else if s[0] == LESS && !(|s| >= 2 && s[1] == LESS) {
      HexHeadIsLong(s, mode);
      HexIsLocal(s, other, mode);
    } else {
      WordIsLocal(s, other, mode);
    }
  }

  lemma HexHeadIsLong(s: Text, mode: Mode)
    requires s != [] && HexHead(s, mode).Some?
    ensures HexHead(s, mode).value.length >= 2
  {
  }

  /** Where the scanner of the rewritten stream may be: it saw no more operators, and it may have a byte to
      skip behind a literal that was a hexadecimal string. */
  predicate Trails(m: Mode, source: Mode) {
    m.inText == source.inText && m.operators <= source.operators && (source.skip ==> m.skip)
  }

  lemma FirstWithFewerOperators(s: Text, source: Mode, m: Mode)
    requires s != [] && First(s, source).Some? && Trails(m, source) && m.skip == source.skip
    ensures First(s, m).Some?
    ensures var h, head := First(s, m).value, First(s, source).value;
            h == head.(mode := h.mode) && Trails(h.mode, head.mode) && h.mode.skip == head.mode.skip
  {
    hide Literal, HexBytes, Run, Find, IsNumber, IsSpace;
  }

  // The stream

  function Concat(pieces: seq<Piece>): Text {
    if pieces == [] then [] else pieces[0].raw + Concat(pieces[1..])
  }

  function Count(pieces: seq<Piece>): nat {
    if pieces == [] then 0 else (if pieces[0].Span? then 1 else 0) + Count(pieces[1..])
  }

  function TranslatedSpan(piece: Piece, text: Option<Text>): Piece
    requires piece.Span?
  {
    if text.Some? then Span(Written(text.value), text.value, true) else piece
  }

  /** The pieces after translation, with one entry of `texts` for each span. */
  function Translated(pieces: seq<Piece>, texts: seq<Option<Text>>): (r: seq<Piece>)
    requires |texts| == Count(pieces)
    ensures |r| == |pieces|
  {
    if pieces == [] then []
    else if pieces[0].Span? then [TranslatedSpan(pieces[0], texts[0])] + Translated(pieces[1..], texts[1..])
    else [pieces[0]] + Translated(pieces[1..], texts)
  }

  predicate IsLiteral(piece: Piece) {
    match piece
    case Span(_, _, literal) => literal
    case Other(raw) => |raw| >= 2 && raw[0] == OPEN
  }

  predicate OpensReplacedHex(pieces: seq<Piece>, texts: seq<Option<Text>>)
    requires |texts| == Count(pieces)
  {
    pieces != [] && pieces[0].Span? && !pieces[0].literal && texts[0].Some?
  }

  /**
   * The source pieces and the choice of replacements allow the rewritten stream to be read piece by piece:
   * behind a hexadecimal span that becomes a literal comes nothing or a token of one byte, which is then
   * skipped; and in front of one stands no `<` that counts as a stray byte only because of the next `<`.
   * `skip` says that the byte in front is skipped.
   */
  predicate Rereadable(pieces: seq<Piece>, texts: seq<Option<Text>>, skip: bool)
    requires |texts| == Count(pieces)
  {
    pieces != [] ==>
      var piece, rest := pieces[0], pieces[1..];
      if skip then piece.Other? && |piece.raw| == 1 && Rereadable(rest, texts, false)
      else if piece.Span? then Rereadable(rest, texts[1..], piece.literal || texts[0].Some?)
      else (piece.raw == [LESS] ==> !OpensReplacedHex(rest, texts)) && Rereadable(rest, texts, IsLiteral(piece))
  }

  /** No span is replaced by nothing. */
  predicate Filled(pieces: seq<Piece>, texts: seq<Option<Text>>)
    requires |texts| == Count(pieces)
  {
    pieces != [] ==>
      if pieces[0].Span? then texts[0] != Some([]) && Filled(pieces[1..], texts[1..])
      else Filled(pieces[1..], texts)
  }

  lemma ExtractSplits(s: Text, mode: Mode)
    requires s != [] && Extract(s, mode).Some?
    ensures First(s, mode).Some?
    ensures var head := First(s, mode).value;
            var rest := Extract(s[head.length..], head.mode);
            rest.Some? && Extract(s, mode) == Some([PieceOf(head, s[..head.length])] + rest.value)
  {
  }

  lemma ExtractStep(s: Text, mode: Mode, head: Head, rest: seq<Piece>)
    requires s != [] && First(s, mode) == Some(head) && Extract(s[head.length..], head.mode) == Some(rest)
    ensures Extract(s, mode) == Some([PieceOf(head, s[..head.length])] + rest)
  {
  }

  lemma ExtractNothing(mode: Mode)
    ensures Extract([], mode) == Some([])
  {
  }

  /** The first piece takes its text, and the others take the rest. */
  lemma TextsSplit(piece: Piece, rest: seq<Piece>, texts: seq<Option<Text>>) returns (first: Option<Text>, others: seq<Option<Text>>)
    requires |texts| == Count([piece] + rest)
    ensures |others| == Count(rest)
    ensures texts == if piece.Span? then [first] + others else others
    ensures Translated([piece] + rest, texts) ==
              [if piece.Span? then TranslatedSpan(piece, first) else piece] + Translated(rest, others)
    ensures forall skip :: Rereadable([piece] + rest, texts, skip) ==
              if skip then piece.Other? && |piece.raw| == 1 && Rereadable(rest, others, false)
              else (piece == Other([LESS]) ==> !OpensReplacedHex(rest, others)) &&
                   Rereadable(rest, others, IsLiteral(piece) || (piece.Span? && first.Some?))
    ensures Filled([piece] + rest, texts) == ((piece.Span? ==> first != Some([])) && Filled(rest, others))
  {
    assert ([piece] + rest)[1..] == rest;
    if piece.Span? {
      first, others := texts[0], texts[1..];
    } else {
      first, others := None, texts;
    }
  }

  predicate SameFront(a: Text, b: Text) {
    (a == [] <==> b == []) && (a != [] ==> Alike(a[0], b[0]))
  }

  /** What a token tells about the byte it opens with and about the scanner behind it. */
  lemma PieceOpens(s: Text, mode: Mode)
    requires s != [] && First(s, mode).Some?
    ensures var head := First(s, mode).value;
            var piece := PieceOf(head, s[..head.length]);
            && (head.span.Some? ==> mode.inText && !mode.skip)
            && (piece.Span? ==> s[0] == if piece.literal then OPEN else LESS)
            && (piece.Span? && piece.literal ==> head.mode == mode.(skip := true))
            && (piece.Span? && !piece.literal ==> head.mode == mode)
            && (!mode.skip ==> head.mode.skip == IsLiteral(piece))
            && (mode.skip ==> piece == Other([s[0]]) && head.mode == mode.(skip := false))
  {
    hide Literal, LiteralTail;
  }

  /** A token of one byte does not change whether the scanner is inside a text. */
  lemma OneByteKeepsText(s: Text, mode: Mode)
    requires s != [] && First(s, mode).Some? && First(s, mode).value.length == 1 && First(s, mode).value.span.None?
    ensures var after := First(s, mode).value.mode;
            after.inText == mode.inText && after.operators >= mode.operators && !after.skip
  {
    hide Literal, HexBytes;
    if !mode.skip && s[0] == OPEN && Literal(s).Some? {
      assert Literal(s).value.length > 1;
    }
  }

  /** The translated tail opens as the source's tail does, or with a literal for a hexadecimal string. */
  lemma FrontIsKept(s: Text, mode: Mode, texts: seq<Option<Text>>)
    requires Extract(s, mode).Some? && |texts| == Count(Extract(s, mode).value)
    ensures var pieces := Extract(s, mode).value;
            var other := Concat(Translated(pieces, texts));
            SameFront(s, other) && (!OpensReplacedHex(pieces, texts) && s != [] ==> other[0] == s[0])
  {
    hide Extract, First;
    if s == [] {
      ExtractNothing(mode);
    } else {
      ExtractSplits(s, mode);
      PieceOpens(s, mode);
    }
  }

  /** What is asked of one token: it is skipped, or replaced, or it stays and needs no `<` that is gone. */
  predicate StepAsked(s: Text, source: Mode, m: Mode, text: Option<Text>, other: Text)
    requires s != [] && First(s, source).Some?
  {
    var head := First(s, source).value;
    var piece := PieceOf(head, s[..head.length]);
    && Trails(m, source) && SameFront(s[head.length..], other)
    && if m.skip then piece.Other? && head.length == 1
       else if piece.Span? && text.Some? then text.value != []
       else IsStray(s, m) ==> other != [] && other[0] == LESS
  }

  /** One token of the rewritten stream is read as the token it came from, and the scanner stays in step. */
  lemma FirstAfterTranslation(s: Text, source: Mode, m: Mode, text: Option<Text>, other: Text)
    requires s != [] && First(s, source).Some? && StepAsked(s, source, m, text, other)
    ensures var head := First(s, source).value;
            var piece := PieceOf(head, s[..head.length]);
            var shown := if piece.Span? then TranslatedSpan(piece, text) else piece;
            var after := shown.raw + other;
            && after != [] && First(after, m).Some?
            && var h := First(after, m).value;
               && h.length == |shown.raw| && PieceOf(h, shown.raw) == shown
               && Trails(h.mode, head.mode)
               && h.mode.skip == (!m.skip && (IsLiteral(piece) || (piece.Span? && text.Some?)))
  {
    hide Literal, HexHead, WordHead;
    var head := First(s, source).value;
    var piece := PieceOf(head, s[..head.length]);
    PieceOpens(s, source);
    if m.skip {
      OneByteKeepsText(s, source);
      assert (piece.raw + other)[0] == piece.raw[0];
    } else if piece.Span? && text.Some? {
      ReplacedSpanReads(text.value, other, m);
    } else {
      var n := head.length;
      var after := s[..n] + other;
      assert after[..n] == s[..n];
      assert n < |s| ==> s[n..][0] == s[n];
      StrayKeepsLess(s, source, m, other);
      FirstIsLocal(s, after, source);
      FirstWithFewerOperators(after, source, m);
    }
  }

  lemma ReplacedSpanReads(t: Text, other: Text, m: Mode)
    requires t != [] && m.inText && !m.skip
    ensures Written(t) + other != [] &&
            First(Written(t) + other, m) == Some(Head(|Written(t)|, Some(t), true, m.(skip := true)))
  {
    hide Literal;
    LiteralRoundTrip(t, other);
    assert (Written(t) + other)[0] == OPEN;
  }

  /** A stray byte is followed by the byte that makes it one. */
  lemma StrayKeepsLess(s: Text, source: Mode, m: Mode, other: Text)
    requires s != [] && First(s, source).Some? && !m.skip && Trails(m, source)
    requires IsStray(s, m) ==> other != [] && other[0] == LESS
    ensures var after := s[..First(s, source).value.length] + other;
            IsStray(s, source) ==> |after| >= 2 && after[1] == LESS
  {
    if IsStray(s, source) {
      assert Run(s, InOperator) == 0 && Run(s, IsNumeric) == 0;
      assert First(s, source).value.length == 1;
    }
  }

  /** A stray `<` is a token of its own. */
  lemma StrayIsPiece(s: Text, mode: Mode)
    requires s != [] && First(s, mode).Some? && !mode.skip
    ensures var head := First(s, mode).value;
            IsStray(s, mode) <==> PieceOf(head, s[..head.length]) == Other([LESS])
  {
    hide Literal;
    var head := First(s, mode).value;
    if IsStray(s, mode) {
      assert Run(s, InOperator) == 0 && Run(s, IsNumeric) == 0;
    } else if s[0] == LESS {
      HexHeadIsLong(s, mode);
    } else {
      assert s[..head.length][0] == s[0];
    }
  }

  /** A `<` in front of a literal opens a hexadecimal string, whatever it was before. */
  lemma LessBeforeLiteral(other: Text, m: Mode)
    requires |other| >= 2 && other[0] == LESS && other[1] == OPEN && !m.skip && First(other, m).Some?
    ensures First(other, m).value.length >= 2
  {
    HexHeadIsLong(other, m);
  }

  /** A choice of texts that allows it is read back piece by piece. */
  lemma {:induction false} ReextractsFrom(s: Text, source: Mode, m: Mode, texts: seq<Option<Text>>)
    requires Extract(s, source).Some? && |texts| == Count(Extract(s, source).value) && Trails(m, source)
    requires Rereadable(Extract(s, source).value, texts, m.skip) && Filled(Extract(s, source).value, texts)
    ensures var after := Translated(Extract(s, source).value, texts);
            Extract(Concat(after), m) == Some(after)
    decreases |s|
  {
    hide Extract, First, Concat, Rereadable, Filled, Translated, Count, OpensReplacedHex, IsStray;
    if s == [] {
      ExtractNothing(source);
      ExtractNothing(m);
      NothingTranslated();
    } else {
      ExtractSplits(s, source);
      var head := First(s, source).value;
      var tail := s[head.length..];
      var rest, piece := Extract(tail, head.mode).value, PieceOf(head, s[..head.length]);
      var text, others := TextsSplit(piece, rest, texts);
      FrontIsKept(tail, head.mode, others);
      var restAfter := Translated(rest, others);
      StepIsAsked(s, source, m, text, others);
      FirstAfterTranslation(s, source, m, text, Concat(restAfter));
      var first := if piece.Span? then TranslatedSpan(piece, text) else piece;
      var after := first.raw + Concat(restAfter);
      var h := First(after, m).value;
      ReextractsFrom(tail, head.mode, h.mode, others);
      ConcatSplits(first, restAfter);
      assert after[..|first.raw|] == first.raw && after[|first.raw|..] == Concat(restAfter);
      ExtractStep(after, m, h, restAfter);
    }
  }

  /** The condition on the pieces gives what a step asks. */
  lemma StepIsAsked(s: Text, source: Mode, m: Mode, text: Option<Text>, others: seq<Option<Text>>)
    requires s != [] && First(s, source).Some? && Trails(m, source)
    requires var head := First(s, source).value; Extract(s[head.length..], head.mode).Some?
    requires var head := First(s, source).value;
             var piece, rest := PieceOf(head, s[..head.length]), Extract(s[head.length..], head.mode).value;
             && |others| == Count(rest) && (piece.Span? ==> text != Some([]))
             && if m.skip then piece.Other? && |piece.raw| == 1
                else piece == Other([LESS]) ==> !OpensReplacedHex(rest, others)
    ensures var head := First(s, source).value;
            StepAsked(s, source, m, text, Concat(Translated(Extract(s[head.length..], head.mode).value, others)))
  {
    hide Extract, First, Concat, Translated, Count, OpensReplacedHex, IsStray;
    var head := First(s, source).value;
    var tail := s[head.length..];
    FrontIsKept(tail, head.mode, others);
    if !m.skip {
      StrayIsPiece(s, source);
      StrayHasLess(s, source, m);
    }
  }

  lemma StrayHasLess(s: Text, source: Mode, m: Mode)
    requires s != [] && First(s, source).Some? && Trails(m, source) && !m.skip
    ensures IsStray(s, m) == IsStray(s, source)
    ensures IsStray(s, source) ==> var n := First(s, source).value.length; n < |s| && s[n..][0] == LESS
  {
    if IsStray(s, source) {
      assert Run(s, InOperator) == 0 && Run(s, IsNumeric) == 0;
    }
  }

  /** Only such a choice is read back: where the condition first fails, the rewritten stream has another token. */
  lemma {:induction false} OnlyRereadable(s: Text, source: Mode, m: Mode, texts: seq<Option<Text>>)
    requires Extract(s, source).Some? && |texts| == Count(Extract(s, source).value) && Trails(m, source)
    requires Filled(Extract(s, source).value, texts)
    requires var after := Translated(Extract(s, source).value, texts); Extract(Concat(after), m) == Some(after)
    ensures Rereadable(Extract(s, source).value, texts, m.skip)
    decreases |s|
  {
    hide Extract, First, Concat, Rereadable, Filled, Translated, Count, OpensReplacedHex, IsStray, Trails;
    if s == [] {
      ExtractNothing(source);
      NothingRereadable(m.skip);
    } else {
      ExtractSplits(s, source);
      var head := First(s, source).value;
      var tail := s[head.length..];
      var rest, piece := Extract(tail, head.mode).value, PieceOf(head, s[..head.length]);
      var text, others := TextsSplit(piece, rest, texts);
      var restAfter := Translated(rest, others);
      var first := if piece.Span? then TranslatedSpan(piece, text) else piece;
      ConcatSplits(first, restAfter);
      FrontIsKept(tail, head.mode, others);
      TokenIsRereadable(s, source, m, text, others, first, restAfter);
      StepIsAsked(s, source, m, text, others);
      FirstAfterTranslation(s, source, m, text, Concat(restAfter));
      var after := first.raw + Concat(restAfter);
      ExtractSplits(after, m);
      assert after[|first.raw|..] == Concat(restAfter);
      assert Extract(after, m).value == [first] + restAfter;
      assert ([first] + restAfter)[1..] == restAfter;
      OnlyRereadable(tail, head.mode, First(after, m).value.mode, others);
    }
  }

  lemma NothingRereadable(skip: bool)
    ensures Count([]) == 0 && Rereadable([], [], skip)
  {
  }

  /** The first token of the rewritten stream is the first translated piece only under the condition. */
  lemma TokenIsRereadable(s: Text, source: Mode, m: Mode, text: Option<Text>, others: seq<Option<Text>>, first: Piece, restAfter: seq<Piece>)
    requires s != [] && First(s, source).Some? && Trails(m, source)
    requires var head := First(s, source).value;
             var piece := PieceOf(head, s[..head.length]);
             && first == (if piece.Span? then TranslatedSpan(piece, text) else piece)
             && Extract(s[head.length..], head.mode).Some?
             && |others| == Count(Extract(s[head.length..], head.mode).value)
             && restAfter == Translated(Extract(s[head.length..], head.mode).value, others)
    requires Extract(first.raw + Concat(restAfter), m) == Some([first] + restAfter)
    ensures var head := First(s, source).value;
            var piece, rest := PieceOf(head, s[..head.length]), Extract(s[head.length..], head.mode).value;
            if m.skip then piece.Other? && |piece.raw| == 1
            else piece == Other([LESS]) ==> !OpensReplacedHex(rest, others)
  {
    hide Extract, First, Translated, Concat, Count;
    var after := first.raw + Concat(restAfter);
    RawIsNotEmpty(s, source, first, text);
    ExtractSplits(after, m);
    var h := First(after, m).value;
    var read := [PieceOf(h, after[..h.length])] + Extract(after[h.length..], h.mode).value;
    assert read[0] == ([first] + restAfter)[0] == first;
    if m.skip {
      PieceOpens(after, m);
    } else {
      var head := First(s, source).value;
      var rest := Extract(s[head.length..], head.mode).value;
      if first == Other([LESS]) && OpensReplacedHex(rest, others) {
        ReplacedHexOpens(rest, others);
        assert after[0] == LESS && after[1] == Concat(restAfter)[0];
        LessBeforeLiteral(after, m);
      }
    }
  }

  lemma RawIsNotEmpty(s: Text, source: Mode, first: Piece, text: Option<Text>)
    requires s != [] && First(s, source).Some?
    requires var head := First(s, source).value;
             var piece := PieceOf(head, s[..head.length]);
             first == if piece.Span? then TranslatedSpan(piece, text) else piece
    ensures first.raw != []
  {
    hide First;
  }

  lemma ReplacedHexOpens(pieces: seq<Piece>, texts: seq<Option<Text>>)
    requires |texts| == Count(pieces) && OpensReplacedHex(pieces, texts)
    ensures var other := Concat(Translated(pieces, texts)); other != [] && other[0] == OPEN
  {
  }

  lemma NothingTranslated()
    ensures Count([]) == 0 && Translated([], []) == [] && Concat([]) == []
  {
  }

  lemma ConcatSplits(piece: Piece, rest: seq<Piece>)
    ensures Concat([piece] + rest) == piece.raw + Concat(rest)
  {
    assert ([piece] + rest)[1..] == rest;
  }

  lemma {:induction false} PiecesTile(s: Text, mode: Mode)
    requires Extract(s, mode).Some?
    ensures Concat(Extract(s, mode).value) == s
    ensures forall piece | piece in Extract(s, mode).value :: piece.Span? ==> piece.text != []
    decreases |s|
  {
    hide First, Extract, Concat;
    if s == [] {
      ExtractNothing(mode);
      NothingTranslated();
    } else {
      ExtractSplits(s, mode);
      var head := First(s, mode).value;
      PiecesTile(s[head.length..], head.mode);
      ConcatSplits(PieceOf(head, s[..head.length]), Extract(s[head.length..], head.mode).value);
      assert s == s[..head.length] + s[head.length..];
    }
  }

  lemma {:induction false} UnfilledLeavesEmpty(pieces: seq<Piece>, texts: seq<Option<Text>>)
    requires |texts| == Count(pieces) && !Filled(pieces, texts)
    ensures exists piece :: piece in Translated(pieces, texts) && piece.Span? && piece.text == []
  {
    hide Translated, Filled, Count;
    NothingFilled();
    var piece, rest := pieces[0], pieces[1..];
    assert pieces == [piece] + rest;
    var text, others := TextsSplit(piece, rest, texts);
    if piece.Span? && text == Some([]) {
      assert TranslatedSpan(piece, text) in Translated(pieces, texts);
    } else {
      UnfilledLeavesEmpty(rest, others);
      var empty :| empty in Translated(rest, others) && empty.Span? && empty.text == [];
      assert empty in Translated(pieces, texts);
    }
  }

  lemma NothingFilled()
    ensures Count([]) == 0 && Filled([], [])
  {
  }

  /** Every stream and every choice of texts for its spans: the rewritten stream has the same tokens, each
      replaced span reading as its new text, exactly when no new text is empty and the source allows a
      literal in the place of each replaced hexadecimal string. */
  lemma RewriteReextracts(s: Text, texts: seq<Option<Text>>)
    requires Extract(s, START).Some? && |texts| == Count(Extract(s, START).value)
    ensures Concat(Extract(s, START).value) == s
    ensures var pieces := Extract(s, START).value;
            var after := Translated(pieces, texts);
            Extract(Concat(after), START) == Some(after) <==> Filled(pieces, texts) && Rereadable(pieces, texts, false)
  {
    hide Extract, Concat, Rereadable, Filled, Translated, Count;
    PiecesTile(s, START);
    var pieces := Extract(s, START).value;
    var after := Translated(pieces, texts);
    if Filled(pieces, texts) && Rereadable(pieces, texts, false) {
      ReextractsFrom(s, START, START, texts);
    } else if Extract(Concat(after), START) == Some(after) {
      if Filled(pieces, texts) {
        OnlyRereadable(s, START, START, texts);
      } else {
        UnfilledLeavesEmpty(pieces, texts);
        PiecesTile(Concat(after), START);
      }
    }
  }

  /** A choice that replaces literals only is always allowed. */
  lemma {:induction false} LiteralsAreRereadable(s: Text, mode: Mode, texts: seq<Option<Text>>)
    requires Extract(s, mode).Some? && |texts| == Count(Extract(s, mode).value)
    requires OnLiterals(Extract(s, mode).value, texts)
    ensures Rereadable(Extract(s, mode).value, texts, mode.skip)
    decreases |s|
  {
    hide Extract, First;
    if s == [] {
      ExtractNothing(mode);
    } else {
      ExtractSplits(s, mode);
      PieceOpens(s, mode);
      var head := First(s, mode).value;
      var piece, rest := PieceOf(head, s[..head.length]), Extract(s[head.length..], head.mode).value;
      assert ([piece] + rest)[1..] == rest;
      LiteralsAreRereadable(s[head.length..], head.mode, if piece.Span? then texts[1..] else texts);
    }
  }

  /** Only literal strings are replaced. */
  predicate OnLiterals(pieces: seq<Piece>, texts: seq<Option<Text>>)
    requires |texts| == Count(pieces)
  {
    pieces != [] ==>
      if pieces[0].Span? then (texts[0].Some? ==> pieces[0].literal) && OnLiterals(pieces[1..], texts[1..])
      else OnLiterals(pieces[1..], texts)
  }

  // Positions

  function PartsOf(pieces: seq<Piece>): seq<Part<Byte>> {
    if pieces == [] then [] else [Part(pieces[0].raw, pieces[0].Span?)] + PartsOf(pieces[1..])
  }

  function Replacements(texts: seq<Option<Text>>): (r: seq<Option<Text>>)
    ensures |r| == |texts|
  {
    seq(|texts|, k requires 0 <= k < |texts| => if texts[k].Some? then Some(Written(texts[k].value)) else None)
  }

  function BoundsOnly(spans: seq<PdfSpan>): (r: seq<Bounds>)
    ensures |r| == |spans|
  {
    seq(|spans|, k requires 0 <= k < |spans| => Bounds(spans[k].start, spans[k].end))
  }

  /** Copying around the spans writes the translated pieces. */
  lemma {:induction false} SpliceTranslates(pieces: seq<Piece>, texts: seq<Option<Text>>)
    requires |texts| == Count(pieces)
    ensures Spans(PartsOf(pieces)) == |texts| && Joined(PartsOf(pieces)) == Concat(pieces)
    ensures Spliced(PartsOf(pieces), Replacements(texts)) == Concat(Translated(pieces, texts))
  {
    hide Concat, Translated, Joined, Spans, Spliced, Count, Rereadable, Filled, PartsOf, Written, Replacements;
    if pieces == [] {
      NoParts(texts);
    } else {
      var piece, rest := pieces[0], pieces[1..];
      assert pieces == [piece] + rest;
      var text, others := TextsSplit(piece, rest, texts);
      SpliceTranslates(rest, others);
      var part, parts := Part(piece.raw, piece.Span?), PartsOf(rest);
      PartsSplit(piece, rest);
      JoinedSplits(part, parts);
      SplicedSplits(part, parts, Replacements(texts));
      ConcatSplits(piece, rest);
      ConcatSplits(if piece.Span? then TranslatedSpan(piece, text) else piece, Translated(rest, others));
      if piece.Span? {
        ReplacementsSplit(text, others);
      }
    }
  }

  lemma ReplacementsSplit(text: Option<Text>, others: seq<Option<Text>>)
    ensures Replacements([text] + others)[0] == (if text.Some? then Some(Written(text.value)) else None)
    ensures Replacements([text] + others)[1..] == Replacements(others)
  {
  }

  lemma PartsSplit(piece: Piece, rest: seq<Piece>)
    ensures PartsOf([piece] + rest) == [Part(piece.raw, piece.Span?)] + PartsOf(rest)
  {
    assert ([piece] + rest)[1..] == rest;
  }

  lemma NoParts(texts: seq<Option<Text>>)
    requires |texts| == Count([])
    ensures |texts| == 0 && PartsOf([]) == [] && Spans(PartsOf([])) == 0 && Joined(PartsOf([])) == Concat([])
    ensures Spliced(PartsOf([]), Replacements(texts)) == Concat(Translated([], texts))
  {
  }

  lemma {:induction false} SpansAreBounds(pieces: seq<Piece>, at: nat)
    ensures BoundsOnly(SpansOf(pieces, at)) == BoundsOf(PartsOf(pieces), at)
    ensures |SpansOf(pieces, at)| == Count(pieces)
  {
    hide BoundsOf, PartsOf, SpansOf;
    if pieces == [] {
      NoSpans(at);
    } else {
      var piece, rest := pieces[0], pieces[1..];
      var end := at + |piece.raw|;
      assert pieces == [piece] + rest;
      SpansAreBounds(rest, end);
      PartsSplit(piece, rest);
      BoundsSplit(Part(piece.raw, piece.Span?), PartsOf(rest), at);
      SpansSplit(piece, rest, at);
    }
  }

  lemma NoSpans(at: nat)
    ensures SpansOf([], at) == [] && BoundsOf(PartsOf([]), at) == []
  {
  }

  lemma SpansSplit(piece: Piece, rest: seq<Piece>, at: nat)
    ensures SpansOf([piece] + rest, at) ==
              (if piece.Span? then [PdfSpan(at, at + |piece.raw|, piece.text)] else []) + SpansOf(rest, at + |piece.raw|)
  {
    assert ([piece] + rest)[1..] == rest;
  }

  // The job's segments

  /** `translated` holds the UTF-8 bytes of the translation. */
  datatype PdfSegment = PdfSegment(index: nat, prose: bool, source: string, translated: Option<Text>)

  function SegmentError(span: PdfSpan, segment: PdfSegment, decode: Text -> string): Option<DocumentError> {
    if decode(span.text) != segment.source then Some(InvalidStructure)
    else if !segment.prose then None
    else if segment.translated.None? then Some(SegmentIncomplete(segment.index))
    else if !IsAscii(segment.translated.value) then Some(PdfTextEncodingUnsupported)
    else None
  }

  function TextOf(segment: PdfSegment): Option<Text> {
    if segment.prose then segment.translated else None
  }

  /** The text for each span, or the first error; `decode` turns the bytes of a string into characters. */
  function ChooseTexts(spans: seq<PdfSpan>, segments: seq<PdfSegment>, decode: Text -> string): (r: Result<seq<Option<Text>>, DocumentError>)
    requires |segments| == |spans|
    ensures r.Ok? ==> |r.value| == |spans|
  {
    if spans == [] then Ok([])
    else
      match SegmentError(spans[0], segments[0], decode)
      case Some(e) => Err(e)
      case None =>
        match ChooseTexts(spans[1..], segments[1..], decode)
        case Err(e) => Err(e)
        case Ok(rest) => Ok([TextOf(segments[0])] + rest)
  }

  function Chosen(done: seq<Option<Text>>, rest: Result<seq<Option<Text>>, DocumentError>): Result<seq<Option<Text>>, DocumentError> {
    if rest.Ok? then Ok(done + rest.value) else rest
  }

  lemma ChooseStep(spans: seq<PdfSpan>, segments: seq<PdfSegment>, decode: Text -> string, k: nat, done: seq<Option<Text>>)
    requires |segments| == |spans| && k < |spans|
    ensures Chosen(done, ChooseTexts(spans[k..], segments[k..], decode)) ==
              match SegmentError(spans[k], segments[k], decode)
              case Some(e) => Err(e)
              case None => Chosen(done + [TextOf(segments[k])], ChooseTexts(spans[k + 1..], segments[k + 1..], decode))
  {
    hide SegmentError, TextOf;
    assert spans[k..][1..] == spans[k + 1..] && segments[k..][1..] == segments[k + 1..];
    var rest := ChooseTexts(spans[k + 1..], segments[k + 1..], decode);
    if rest.Ok? {
      assert done + ([TextOf(segments[k])] + rest.value) == done + [TextOf(segments[k])] + rest.value;
    }
  }

  lemma ChooseEnds(spans: seq<PdfSpan>, segments: seq<PdfSegment>, decode: Text -> string, done: seq<Option<Text>>)
    requires |segments| == |spans|
    ensures Chosen(done, ChooseTexts(spans[|spans|..], segments[|spans|..], decode)) == Ok(done)
    ensures Chosen([], ChooseTexts(spans[0..], segments[0..], decode)) == ChooseTexts(spans, segments, decode)
  {
    hide SegmentError;
    assert spans[0..] == spans && segments[0..] == segments;
    assert done + [] == done;
    var all := ChooseTexts(spans, segments, decode);
    assert all.Ok? ==> [] + all.value == all.value;
  }

  /** The stream copied around the spans, or the error of the first segment that does not fit. */
  function Rewritten(data: Text, spans: seq<PdfSpan>, segments: seq<PdfSegment>, decode: Text -> string): Result<Text, DocumentError>
    requires |segments| == |spans| && InOrder(BoundsOnly(spans), 0, |data|)
  {
    match ChooseTexts(spans, segments, decode)
    case Err(e) => Err(e)
    case Ok(texts) => Ok(Copied(data, 0, BoundsOnly(spans), Replacements(texts)))
  }

  /** The loop over the spans: each is checked against its segment and replaced by the escaped translation. */
  method RewriteStream(data: Text, spans: seq<PdfSpan>, segments: seq<PdfSegment>, decode: Text -> string)
      returns (result: Result<Text, DocumentError>)
    requires |segments| == |spans| && InOrder(BoundsOnly(spans), 0, |data|)
    ensures result == Rewritten(data, spans, segments, decode)
  {
    hide ChooseTexts, Copied, InOrder, BoundsOnly, Escape, IsAscii;
    ghost var texts: seq<Option<Text>> := [];
    var replacements: seq<Option<Text>> := [];
    ghost var target := ChooseTexts(spans, segments, decode);
    ChooseEnds(spans, segments, decode, []);
    for k := 0 to |spans|
      invariant |texts| == k && replacements == Replacements(texts)
      invariant target == Chosen(texts, ChooseTexts(spans[k..], segments[k..], decode))
    {
      var span, segment := spans[k], segments[k];
      ChooseStep(spans, segments, decode, k, texts);
      if decode(span.text) != segment.source {
        return Err(InvalidStructure);
      }
      var replacement := None;
      if segment.prose {
        if segment.translated.None? {
          return Err(SegmentIncomplete(segment.index));
        }
        var escaped := PdfEscape(segment.translated.value);
        if escaped.None? {
          return Err(PdfTextEncodingUnsupported);
        }
        replacement := Some([OPEN] + escaped.value + [CLOSE]);
      }
      texts := texts + [TextOf(segment)];
      replacements := replacements + [replacement];
    }
    ChooseEnds(spans, segments, decode, texts);
    var output := Copy(data, BoundsOnly(spans), replacements);
    result := Ok(output);
  }

  predicate IsReady(segment: PdfSegment) {
    segment.prose ==> segment.translated.Some? && IsAscii(segment.translated.value)
  }

  /** The segments were made from these spans and are complete. */
  predicate Carries(segments: seq<PdfSegment>, spans: seq<PdfSpan>, decode: Text -> string) {
    |segments| == |spans| &&
    forall k | 0 <= k < |spans| :: segments[k].source == decode(spans[k].text) && IsReady(segments[k])
  }

  function TextsOf(segments: seq<PdfSegment>): (r: seq<Option<Text>>)
    ensures |r| == |segments|
  {
    seq(|segments|, k requires 0 <= k < |segments| => TextOf(segments[k]))
  }

  lemma {:induction false} CompleteJobChooses(spans: seq<PdfSpan>, segments: seq<PdfSegment>, decode: Text -> string)
    requires Carries(segments, spans, decode)
    ensures ChooseTexts(spans, segments, decode) == Ok(TextsOf(segments))
  {
    hide IsAscii;
    if spans != [] {
      assert segments[0].source == decode(spans[0].text) && IsReady(segments[0]);
      CompleteJobChooses(spans[1..], segments[1..], decode);
      assert TextsOf(segments) == [TextOf(segments[0])] + TextsOf(segments[1..]);
    }
  }

  /** Extraction, a complete job, rewriting, and extraction again, in terms of positions: the rewriting
      succeeds, and it is read back with the job's texts exactly under the condition on the source. */
  lemma RewriteKeepsSpans(data: Text, segments: seq<PdfSegment>, decode: Text -> string)
    requires Extract(data, START).Some?
    requires Carries(segments, SpansOf(Extract(data, START).value, 0), decode)
    ensures var pieces := Extract(data, START).value;
            var spans, texts := SpansOf(pieces, 0), TextsOf(segments);
            && |texts| == Count(pieces) == |BoundsOnly(spans)| && InOrder(BoundsOnly(spans), 0, |data|)
            && var after := Translated(pieces, texts);
               && Rewritten(data, spans, segments, decode) == Ok(Concat(after))
               && (Extract(Concat(after), START) == Some(after) <==> Filled(pieces, texts) && Rereadable(pieces, texts, false))
  {
    hide Extract, Concat, Rereadable, Filled, Copied, SpansOf, InOrder, BoundsOnly, Translated, Count, Carries, ChooseTexts, TextsOf;
    var pieces := Extract(data, START).value;
    var texts := TextsOf(segments);
    SpansAreBounds(pieces, 0);
    CarriesCounts(segments, SpansOf(pieces, 0), decode);
    CompleteJobChooses(SpansOf(pieces, 0), segments, decode);
    RewriteReextracts(data, texts);
    SpliceTranslates(pieces, texts);
    CopySplices(data, PartsOf(pieces), Replacements(texts));
  }

  lemma CarriesCounts(segments: seq<PdfSegment>, spans: seq<PdfSpan>, decode: Text -> string)
    requires Carries(segments, spans, decode)
    ensures |segments| == |spans|
  {
  }

  // A hexadecimal span

  lemma WordThenRest(word: Text, rest: Text, mode: Mode, after: Mode, pieces: seq<Piece>, all: seq<Piece>)
    requires all == [Other(word)] + pieces
    requires word != [] && |word| <= 2 && forall k | 0 <= k < |word| :: InOperator(word[k]) && word[k] >= 65
    requires rest == [] || !InOperator(rest[0])
    requires !mode.skip && mode.operators < MAX_OPERATORS && after == AfterOperator(word, mode)
    requires Extract(rest, after) == Some(pieces)
    ensures Extract(word + rest, mode) == Some(all)
  {
    hide Extract, AfterOperator, Literal, HexHead;
    var s := word + rest;
    assert s[..|word|] == word && s[|word|..] == rest && s[0] == word[0];
    assert rest != [] ==> s[|word|] == rest[0];
    assert forall k | 0 <= k < |word| :: s[k] == word[k];
    var n := Run(s, InOperator);
    assert n == |word|;
    assert Run(s, IsNumeric) == 0;
    ExtractStep(s, mode, Head(|word|, None, false, after), pieces);
  }

  lemma LiteralThenRest(t: Text, rest: Text, mode: Mode, pieces: seq<Piece>, all: seq<Piece>)
    requires all == [Span(Written(t), t, true)] + pieces
    requires t != [] && mode.inText && !mode.skip && Extract(rest, mode.(skip := true)) == Some(pieces)
    ensures Extract(Written(t) + rest, mode) == Some(all)
  {
    hide Extract, Literal;
    var s := Written(t) + rest;
    LiteralRoundTrip(t, rest);
    assert s[0] == OPEN && s[..|Written(t)|] == Written(t) && s[|Written(t)|..] == rest;
    ExtractStep(s, mode, Head(|Written(t)|, Some(t), true, mode.(skip := true)), pieces);
  }

  lemma HexThenRest(rest: Text, mode: Mode, pieces: seq<Piece>, all: seq<Piece>)
    requires all == [Span([LESS, 52, 49, GREATER], [65], false)] + pieces
    requires mode.inText && !mode.skip && Extract(rest, mode) == Some(pieces)
    ensures Extract([LESS, 52, 49, GREATER] + rest, mode) == Some(all)
  {
    hide Extract;
    var s := [LESS, 52, 49, GREATER] + rest;
    var a, b, c := s[1..], s[1..][1..], s[1..][1..][1..];
    assert a[0] == 52 && b[0] == 49 && c[0] == GREATER;
    assert Find(c, GREATER) == Some(0);
    assert Find(b, GREATER) == Some(1);
    assert Find(a, GREATER) == Some(2);
    assert HexBytes([], None) == Some([]);
    var low: Text := [49];
    assert low[1..] == [];
    assert HexValue(49) == Some(1) && HexValue(52) == Some(4);
    var letter: Text := [65];
    assert letter + [] == letter && HexBytes(low[1..], None) == Some([]);
    assert HexBytes(low, Some(4)) == Some([65]);
    var pair: Text := [52, 49];
    assert s[1..3] == pair;
    assert |pair[1..]| == 1 && pair[1..][0] == 49;
    assert pair[1..] == low;
    assert pair[0] == 52 && !IsSpace(52) && HexValue(pair[0]) == Some(4);
    assert HexBytes(pair[1..], Some(4)) == Some([65]);
    assert HexBytes(pair, None) == Some([65]);
    assert s[..4] == [LESS, 52, 49, GREATER] && s[4..] == rest;
    ExtractStep(s, mode, Head(4, Some([65]), false, mode), pieces);
  }

  /** An input where the condition fails: `BT<41>(B)` has two spans. With the first one written as a literal the parenthesis behind it is
      passed over, and the second span is lost. */
  lemma ReplacedHexHidesTheNextSpan()
    ensures Extract([66, 84] + ([LESS, 52, 49, GREATER] + (Written([66]) + [])), START) ==
              Some([Other([66, 84]), Span([LESS, 52, 49, GREATER], [65], false), Span(Written([66]), [66], true)])
    ensures Extract([66, 84] + (Written([65]) + Written([66])), START) ==
              Some([Other([66, 84]), Span(Written([65]), [65], true), Other([OPEN]), Other([66]), Other([CLOSE])])
  {
    hide Extract;
    var m, n := Mode(true, 1, false), Mode(true, 2, false);
    var a, b, c, o := Span(Written([66]), [66], true), Span([LESS, 52, 49, GREATER], [65], false), Other([CLOSE]), Other([OPEN]);
    ExtractNothing(m.(skip := true));
    LiteralThenRest([66], [], m, [], [a]);
    HexThenRest(Written([66]) + [], m, [a], [b, a]);
    WordThenRest([66, 84], [LESS, 52, 49, GREATER] + (Written([66]) + []), START, m, [b, a], [Other([66, 84]), b, a]);
    ExtractNothing(n);
    var close: Text, word: Text := [CLOSE], [66];
    assert close[1..] == [] && close[..1] == close && !InOperator(CLOSE) && !IsNumeric(CLOSE);
    assert First(close, n) == Some(Head(1, None, false, n));
    ExtractStep(close, n, Head(1, None, false, n), []);
    assert [Other(close)] + [] == [c];
    assert InOperator(word[0]);
    WordThenRest(word, close, m, n, [c], [Other(word), c]);
    var second: Text := Written(word);
    assert second[1..] == word + close && second[..1] == [OPEN];
    ExtractStep(second, m.(skip := true), Head(1, None, false, m), [Other(word), c]);
    assert [o] + [Other(word), c] == [o, Other(word), c];
    var d := Span(Written([65]), [65], true);
    LiteralThenRest([65], second, m, [o, Other(word), c], [d, o, Other(word), c]);
    WordThenRest([66, 84], Written([65]) + second, START, m, [d, o, Other(word), c], [Other([66, 84]), d, o, Other(word), c]);
  }
}
