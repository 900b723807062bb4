/** Which strings of a content stream are offered as text: those shown between BT and ET, and all of them. */
module PdfShown {
  import opened Texts
  import opened PdfContent
  import opened PdfRebuilding
  import opened PdfStrings

  const BT: Piece := Other([66, 84])
  const ET: Piece := Other([69, 84])

  /** The last of these two operators in front of piece `k` opened a text object. */
  ghost predicate InText(pieces: seq<Piece>, k: nat)
    requires k <= |pieces|
  {
    exists j: nat :: j < k && pieces[j] == BT && forall m | j < m < k :: pieces[m] != ET
  }

  /** Piece `k` is the byte behind a literal string, which is skipped. */
  predicate IsSkipped(pieces: seq<Piece>, k: nat)
    requires k <= |pieces|
    decreases k
  {
    k > 0 && pieces[k - 1].raw != [] && pieces[k - 1].raw[0] == OPEN && !IsSkipped(pieces, k - 1)
  }

  /** The string is offered when it shows something in a text object. */
  predicate IsOffered(piece: Piece, t: Text, literal: bool, inText: bool) {
    piece == if inText && t != [] then Span(piece.raw, t, literal) else Other(piece.raw)
  }

  ghost predicate IsLiteralPiece(piece: Piece, inText: bool) {
    exists t :: IsLiteralOf(piece.raw, t) && IsOffered(piece, t, true, inText)
  }

  /** Angle brackets around digits; outside of text objects nobody looks at the digits. */
  ghost predicate IsHexPiece(piece: Piece, inText: bool) {
    var n := |piece.raw|;
    && n >= 2 && piece.raw[0] == LESS && piece.raw[n - 1] == GREATER
    && (forall k | 0 < k < n - 1 :: piece.raw[k] != GREATER)
    && if inText then exists t :: IsHexOf(Dense(piece.raw[1..n - 1]), t) && IsOffered(piece, t, false, true) else piece.Other?
  }

  /** A byte of an operator or a number: no white space, no bracket and no parenthesis. */
  predicate InWord(b: Byte) {
    !IsWhite(b) && b != 91 && b != 93 && b != OPEN && b != CLOSE && b != LESS
  }

  /** What stands at each place: nothing but comments hides a string, and nothing but strings is offered. */
  ghost predicate IsToken(piece: Piece, next: Option<Byte>, inText: bool, skipped: bool) {
    var raw := piece.raw;
    && raw != []
    && if skipped then |raw| == 1 && piece.Other?
       else if raw[0] == OPEN then IsLiteralPiece(piece, inText)
       else if raw == [LESS] && next == Some(LESS) then piece.Other?
       else if raw[0] == LESS then IsHexPiece(piece, inText)
       else if raw[0] == 37 then
         piece.Other? && (forall k | 0 <= k < |raw| - 1 :: raw[k] != LF) && (raw[|raw| - 1] == LF || next == None)
       else piece.Other? && (|raw| == 1 || forall k | 0 <= k < |raw| :: InWord(raw[k]))
  }

  function NextByte(s: Text): Option<Byte> {
    if s == [] then None else Some(s[0])
  }

  /** One token of the scanner. */
  lemma FirstIsToken(s: Text, mode: Mode)
    requires s != [] && First(s, mode).Some?
    ensures var head := First(s, mode).value;
            var raw := s[..head.length];
            && IsToken(PieceOf(head, raw), NextByte(s[head.length..]), mode.inText, mode.skip)
            && (head.mode.skip <==> !mode.skip && raw[0] == OPEN)
            && (head.mode.inText <==> PieceOf(head, raw) == BT || (mode.inText && PieceOf(head, raw) != ET))
  {
    hide Literal, HexHead, WordHead, IsLiteralPiece, IsHexPiece, Find;
    var head := First(s, mode).value;
    var raw := s[..head.length];
    assert raw[0] == s[0];
    if mode.skip || IsSpace(s[0]) {
      assert |raw| == 1 && |BT.raw| == 2 && |ET.raw| == 2;
    } else if s[0] == 37 {
      assert BT.raw[0] != 37 && ET.raw[0] != 37;
      CommentIsToken(s);
    } else if s[0] == OPEN {
      assert BT.raw[0] != OPEN && ET.raw[0] != OPEN;
      LiteralIsToken(s, mode);
    } else if s[0] == LESS && !(|s| >= 2 && s[1] == LESS) {
      assert BT.raw[0] != LESS && ET.raw[0] != LESS;
      HexIsToken(s, mode);
    } else {
      WordIsToken(s, mode);
    }
  }

  lemma CommentIsToken(s: Text)
    requires s != []
    ensures var n := match Find(s, LF) case None => |s| case Some(k) => k + 1;
            0 < n <= |s| && (forall k | 0 <= k < n - 1 :: s[..n][k] != LF) && (s[..n][n - 1] == LF || s[n..] == [])
  {
    FindIsFirst(s, LF);
  }

  lemma {:induction false} FindIsFirst(s: Text, b: Byte)
    ensures match Find(s, b)
            case None => forall k | 0 <= k < |s| :: s[k] != b
            case Some(at) => forall k | 0 <= k < at :: s[k] != b
  {
    if s != [] && s[0] != b {
      FindIsFirst(s[1..], b);
      forall k | 0 < k < |s| && (Find(s, b).Some? ==> k < Find(s, b).value)
        ensures s[k] != b
      {
        assert s[k] == s[1..][k - 1];
      }
    }
  }

  lemma LiteralIsToken(s: Text, mode: Mode)
    requires Literal(s).Some?
    ensures var l := Literal(s).value; var raw := s[..l.length];
            forall piece: Piece | piece.raw == raw && IsOffered(piece, l.text, true, mode.inText) :: IsLiteralPiece(piece, mode.inText)
  {
    hide Literal, IsLiteralOf;
    var l := Literal(s).value;
    assert s == s[..l.length] + s[l.length..];
    LiteralIffSpelled(s[..l.length], l.text, s[l.length..]);
  }

  lemma HexIsToken(s: Text, mode: Mode)
    requires s != [] && s[0] == LESS && HexHead(s, mode).Some?
    ensures var head := HexHead(s, mode).value;
            IsHexPiece(PieceOf(head, s[..head.length]), mode.inText) && head.mode == mode && head.length >= 2
  {
    hide IsHexOf, Dense, Find;
    var head := HexHead(s, mode).value;
    var raw := s[..head.length];
    var k := Find(s[1..], GREATER).value;
    FindIsFirst(s[1..], GREATER);
    assert raw[k + 1] == s[1..][k];
    forall m | 0 < m < |raw| - 1
      ensures raw[m] != GREATER
    {
      assert raw[m] == s[1..][m - 1];
    }
    if mode.inText {
      var inside := raw[1..|raw| - 1];
      assert inside == s[1..k + 1];
      var t := HexBytes(inside, None).value;
      HexIffDigits(inside, t);
      assert IsOffered(PieceOf(head, raw), t, false, true);
    }
  }

  lemma WordIsToken(s: Text, mode: Mode)
    requires s != [] && WordHead(s, mode).Some?
    ensures var head := WordHead(s, mode).value;
            var raw := s[..head.length];
            && head.span.None? && head.mode.skip == mode.skip
            && (|raw| == 1 || forall k | 0 <= k < |raw| :: InWord(raw[k]))
            && (head.mode.inText <==> raw == BT.raw || (mode.inText && raw != ET.raw))
  {
    var head := WordHead(s, mode).value;
    var raw := s[..head.length];
    NumericIsWord(s);
    forall k | 0 <= k < |raw|
      ensures |raw| == 1 || InWord(raw[k])
    {
      assert raw[k] == s[k];
      WhiteIs(s[k]);
    }
    if Run(s, IsNumeric) == head.length {
      assert IsNumeric(s[0]) && raw[0] == s[0];
    }
  }

  lemma {:induction false} StaysInText(pieces: seq<Piece>, k: nat)
    requires k < |pieces|
    ensures InText(pieces, k + 1) <==> pieces[k] == BT || (InText(pieces, k) && pieces[k] != ET)
  {
    if pieces[k] == BT {
      assert InText(pieces, k + 1);
    } else if InText(pieces, k) && pieces[k] != ET {
      var j: nat :| j < k && pieces[j] == BT && forall m | j < m < k :: pieces[m] != ET;
      assert forall m | j < m < k + 1 :: pieces[m] != ET;
    }
  }

  function NextRaw(pieces: seq<Piece>, k: nat): Option<Byte>
    requires k < |pieces|
  {
    if k + 1 == |pieces| || pieces[k + 1].raw == [] then None else Some(pieces[k + 1].raw[0])
  }

  ghost predicate TokenAt(pieces: seq<Piece>, k: nat)
    requires k < |pieces|
  {
    IsToken(pieces[k], NextRaw(pieces, k), InText(pieces, k), IsSkipped(pieces, k))
  }

  lemma {:induction false} TokensFrom(done: seq<Piece>, s: Text, mode: Mode)
    requires Extract(s, mode).Some?
    requires (mode.inText <==> InText(done, |done|)) && (mode.skip <==> IsSkipped(done, |done|))
    ensures var all := done + Extract(s, mode).value;
            forall k | |done| <= k < |all| :: TokenAt(all, k)
    decreases |s|
  {
    hide Extract, First, IsToken, InText, IsSkipped;
    if s == [] {
      ExtractNothing(mode);
    } else {
      ExtractSplits(s, mode);
      var head := First(s, mode).value;
      var tail := s[head.length..];
      var piece, rest := PieceOf(head, s[..head.length]), Extract(tail, head.mode).value;
      var more, all := done + [piece], done + Extract(s, mode).value;
      assert all == more + rest;
      FirstIsToken(s, mode);
      PrefixDecides(done, all);
      PrefixDecides(more, all);
      PrefixDecides(done, more);
      StaysInText(more, |done|);
      SkipNext(more, |done|);
      TokensFrom(more, tail, head.mode);
      RestOpens(tail, head.mode);
      assert NextRaw(all, |done|) == NextByte(tail);
    }
  }

  lemma RestOpens(s: Text, mode: Mode)
    requires Extract(s, mode).Some?
    ensures var rest := Extract(s, mode).value;
            if s == [] then rest == [] else rest != [] && rest[0].raw != [] && rest[0].raw[0] == s[0]
  {
    hide First;
    if s != [] {
      ExtractSplits(s, mode);
    }
  }

  lemma SkipNext(pieces: seq<Piece>, k: nat)
    requires k < |pieces| && pieces[k].raw != []
    ensures IsSkipped(pieces, k + 1) <==> pieces[k].raw[0] == OPEN && !IsSkipped(pieces, k)
  {
  }

  /** Only what stands in front decides. */
  lemma {:induction false} PrefixDecides(done: seq<Piece>, all: seq<Piece>)
    requires |done| <= |all| && done == all[..|done|]
    ensures InText(done, |done|) <==> InText(all, |done|)
    ensures IsSkipped(done, |done|) <==> IsSkipped(all, |done|)
  {
    forall k | 0 <= k < |done| ensures done[k] == all[k] {}
    SkipPrefix(done, all, |done|);
    if j: nat :| j < |done| && done[j] == BT && forall m | j < m < |done| :: done[m] != ET {
      assert all[j] == BT && forall m | j < m < |done| :: all[m] != ET;
    }
    if j: nat :| j < |done| && all[j] == BT && forall m | j < m < |done| :: all[m] != ET {
      assert done[j] == BT && forall m | j < m < |done| :: done[m] != ET;
    }
  }

  lemma {:induction false} SkipPrefix(done: seq<Piece>, all: seq<Piece>, k: nat)
    requires k <= |done| <= |all| && forall i | 0 <= i < |done| :: done[i] == all[i]
    ensures IsSkipped(done, k) <==> IsSkipped(all, k)
  {
    if k > 0 {
      SkipPrefix(done, all, k - 1);
    }
  }

  /**
   * The pieces of an accepted stream: every string outside comments and skipped bytes is read as it
   * is spelled, it is offered exactly when it stands in a text object and shows something, and
   * nothing else is offered.
   */
  lemma OfferedAreShown(s: Text)
    requires Extract(s, START).Some?
    ensures var pieces := Extract(s, START).value;
            Concat(pieces) == s && forall k | 0 <= k < |pieces| :: TokenAt(pieces, k)
  {
    hide Extract, TokenAt;
    PiecesTile(s, START);
    NothingInFront();
    TokensFrom([], s, START);
    assert [] + Extract(s, START).value == Extract(s, START).value;
  }

  lemma NothingInFront()
    ensures !InText([], 0) && !IsSkipped([], 0)
  {
  }
}
