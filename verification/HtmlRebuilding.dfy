/** Translated HTML keeps the tags, comments, scripts and blank text of its source. */
module HtmlRebuilding {
  import opened Texts
  import opened Strings
  import opened Documents
  import opened Tags
  import opened HtmlDocument

  function Replace(s: string, c: char, entity: string): string {
    if s == "" then "" else (if s[0] == c then entity else [s[0]]) + Replace(s[1..], c, entity)
  }

  function EncodeHtml(translated: string): string {
    Replace(Replace(Replace(translated, '&', "&amp;"), '<', "&lt;"), '>', "&gt;")
  }

  /** What a browser shows for a text with the three entities. */
  function DecodeHtml(s: string): string
    decreases |s|
  {
    if s == "" then ""
    else if StartsWith(s, "&amp;") then "&" + DecodeHtml(s[5..])
    else if StartsWith(s, "&lt;") then "<" + DecodeHtml(s[4..])
    else if StartsWith(s, "&gt;") then ">" + DecodeHtml(s[4..])
    else [s[0]] + DecodeHtml(s[1..])
  }

  function Entity(c: char): (e: string)
    ensures e != ""
  {
    match c
    case '&' => "&amp;"
    case '<' => "&lt;"
    case '>' => "&gt;"
    case _ => [c]
  }

  lemma {:induction false} ReplaceJoins(a: string, b: string, c: char, entity: string)
    ensures Replace(a + b, c, entity) == Replace(a, c, entity) + Replace(b, c, entity)
  {
    if a == "" {
      assert a + b == b;
    } else {
      assert (a + b)[1..] == a[1..] + b;
      ReplaceJoins(a[1..], b, c, entity);
    }
  }

  lemma ReplaceChar(x: char, c: char, entity: string)
    ensures Replace([x], c, entity) == if x == c then entity else [x]
  {
    assert [x][1..] == "";
  }

  /** The three passes in their order escape each character once. */
  lemma EncodeByChar(t: string)
    ensures t == "" ==> EncodeHtml(t) == ""
    ensures t != "" ==> EncodeHtml(t) == Entity(t[0]) + EncodeHtml(t[1..])
  {
    if t != "" {
      var amp, lt := Replace(t[1..], '&', "&amp;"), Replace(Replace(t[1..], '&', "&amp;"), '<', "&lt;");
      var first := Replace([t[0]], '&', "&amp;");
      ReplaceChar(t[0], '&', "&amp;");
      assert [t[0]] + t[1..] == t;
      ReplaceJoins([t[0]], t[1..], '&', "&amp;");
      ReplaceJoins(first, amp, '<', "&lt;");
      ReplaceJoins(Replace(first, '<', "&lt;"), lt, '>', "&gt;");
      EntityPasses(t[0]);
    }
  }

  lemma EntityPasses(c: char)
    ensures EncodeHtml([c]) == Entity(c)
  {
    hide Replace;
    ReplaceChar(c, '&', "&amp;");
    ReplaceChar(c, '<', "&lt;");
    ReplaceChar(c, '>', "&gt;");
    if c == '&' {
      Untouched("&amp;", '<', "&lt;");
      Untouched("&amp;", '>', "&gt;");
    } else if c == '<' {
      Untouched("&lt;", '>', "&gt;");
    }
  }

  lemma {:induction false} Untouched(s: string, c: char, entity: string)
    requires c !in s
    ensures Replace(s, c, entity) == s
  {
    if s != "" {
      Untouched(s[1..], c, entity);
    }
  }

  lemma {:induction false} EncodedHasNoMarkup(t: string)
    ensures '<' !in EncodeHtml(t) && '>' !in EncodeHtml(t)
    ensures EncodeHtml(t) == "" <==> t == ""
    ensures IsBlankText(EncodeHtml(t)) <==> IsBlankText(t)
  {
    hide EncodeHtml;
    EncodeByChar(t);
    if t != "" {
      EncodedHasNoMarkup(t[1..]);
      var e, rest := Entity(t[0]), EncodeHtml(t[1..]);
      assert t == [t[0]] + t[1..];
      BlankJoins(e, rest);
      BlankJoins([t[0]], t[1..]);
      BlankEntity(t[0]);
    }
  }

  lemma BlankEntity(c: char)
    ensures IsBlankText(Entity(c)) <==> IsBlankText([c])
  {
    assert !IsSpace('&') && !IsSpace('<') && !IsSpace('>');
    if c == '&' || c == '<' || c == '>' {
      assert !IsSpace(Entity(c)[0]);
      assert !IsSpace([c][0]);
    }
  }

  lemma BlankJoins(a: string, b: string)
    ensures IsBlankText(a + b) <==> IsBlankText(a) && IsBlankText(b)
  {
    if IsBlankText(a + b) {
      forall k | 0 <= k < |a| ensures IsSpace(a[k]) { assert a[k] == (a + b)[k]; }
      forall k | 0 <= k < |b| ensures IsSpace(b[k]) { assert b[k] == (a + b)[|a| + k]; }
    }
  }

  /** A translation is shown as it was given, whatever it contains. */
  lemma {:induction false} EncodedReadsBack(t: string)
    ensures DecodeHtml(EncodeHtml(t)) == t
  {
    hide EncodeHtml, DecodeHtml;
    EncodeByChar(t);
    if t == "" {
      DecodeNothing();
    } else {
      EncodedReadsBack(t[1..]);
      DecodeEntity(t[0], EncodeHtml(t[1..]));
    }
  }

  lemma DecodeNothing()
    ensures DecodeHtml("") == ""
  {
  }

  lemma DecodeEntity(c: char, rest: string)
    ensures DecodeHtml(Entity(c) + rest) == [c] + DecodeHtml(rest)
  {
    var e, s := Entity(c), Entity(c) + rest;
    assert s[..|e|] == e && s[|e|..] == rest;
    assert s[0] == e[0];
    if c == '<' || c == '>' {
      assert s[1] == e[1] && s[2] == e[2];
      assert |s| >= 5 ==> s[..5][1] == e[1];
      assert s[..4][1] == e[1];
    } else if c != '&' {
      assert |s| >= 5 ==> s[..5][0] == c;
      assert |s| >= 4 ==> s[..4][0] == c;
    }
  }

  function Concat(pieces: seq<Piece>): string {
    if pieces == [] then "" else pieces[0].text + Concat(pieces[1..])
  }

  /** The pieces after translation: markup and blank text stay, visible text is encoded. */
  function Translated(pieces: seq<Piece>, translations: seq<string>): (r: seq<Piece>)
    requires |pieces| == |translations|
    ensures |r| == |pieces|
  {
    if pieces == [] then []
    else [TranslatedPiece(pieces[0], translations[0])] + Translated(pieces[1..], translations[1..])
  }

  function TranslatedPiece(piece: Piece, translation: string): Piece {
    if piece.translatable then Piece(EncodeHtml(translation), !IsBlankText(translation)) else piece
  }

  /** A tag or comment is read the same in front of any other text. */
  lemma TagOrCommentIsLocal(s: string, stack: seq<string>, other: string)
    requires s != "" && s[0] == '<' && TagOrComment(s, stack).Ok?
    requires var n := TagOrComment(s, stack).value.length; n <= |other| && other[..n] == s[..n]
    ensures other != "" && other[0] == '<' && TagOrComment(other, stack) == TagOrComment(s, stack)
  {
    var n := TagOrComment(s, stack).value.length;
    assert other[0] == other[..n][0] == s[0];
    if StartsWith(s, "<!--") {
      FindIsLocal(s, "-->", 4, other);
      assert other[..4] == other[..n][..4] == s[..n][..4] == s[..4];
    } else {
      TagEndIsLocal(s, 1, None, other);
      if StartsWith(other, "<!--") {
        CommentNeedsFour(s, n, other);
      }
    }
  }

  lemma MatchIsLocal(s: string, p: string, at: nat, other: string, end: nat)
    requires at + |p| <= end <= |s| && end <= |other| && other[..end] == s[..end]
    ensures MatchesIgnoreCase(other, p, at) <==> MatchesIgnoreCase(s, p, at)
  {
    forall k | 0 <= k < end
      ensures other[k] == s[k]
    {
      assert other[k] == other[..end][k] == s[..end][k];
    }
  }

  lemma FindIgnoreCaseIsLocal(s: string, p: string, other: string)
    requires FindIgnoreCase(s, p, 0).Some?
    requires var end := FindIgnoreCase(s, p, 0).value + |p|; end <= |other| && other[..end] == s[..end]
    ensures FindIgnoreCase(other, p, 0) == FindIgnoreCase(s, p, 0)
  {
    hide FindIgnoreCase, MatchesIgnoreCase;
    var at := FindIgnoreCase(s, p, 0).value;
    MatchFits(s, p, at);
    FoundMoves(s, p, at, other);
  }

  lemma FoundMoves(s: string, p: string, at: nat, other: string)
    requires FindIgnoreCase(s, p, 0) == Some(at) && at + |p| <= |s|
    requires at + |p| <= |other| && other[..at + |p|] == s[..at + |p|]
    ensures FindIgnoreCase(other, p, 0) == Some(at)
  {
    hide FindIgnoreCase, MatchesIgnoreCase;
    MatchIsLocal(s, p, at, other, at + |p|);
    forall b: nat | b < at
      ensures !MatchesIgnoreCase(other, p, b)
    {
      NoMatchMoves(s, p, at, other, b);
    }
    FoundAt(other, p, at);
  }

  lemma NoMatchMoves(s: string, p: string, at: nat, other: string, b: nat)
    requires FindIgnoreCase(s, p, 0) == Some(at) && b < at && at + |p| <= |s|
    requires at + |p| <= |other| && other[..at + |p|] == s[..at + |p|]
    ensures !MatchesIgnoreCase(other, p, b)
  {
    hide FindIgnoreCase, MatchesIgnoreCase;
    NoMatchBefore(s, p, at, b);
    MatchIsLocal(s, p, b, other, at + |p|);
  }

  lemma MatchFits(s: string, p: string, at: nat)
    requires MatchesIgnoreCase(s, p, at)
    ensures at + |p| <= |s|
  {
  }

  lemma NoMatchBefore(s: string, p: string, at: nat, b: nat)
    requires FindIgnoreCase(s, p, 0) == Some(at) && b < at
    ensures !MatchesIgnoreCase(s, p, b)
  {
  }

  lemma FoundAt(s: string, p: string, at: nat)
    requires MatchesIgnoreCase(s, p, at) && forall b: nat | b < at :: !MatchesIgnoreCase(s, p, b)
    ensures FindIgnoreCase(s, p, 0) == Some(at)
  {
    hide MatchesIgnoreCase;
  }

  /** The tag that ends a script or style element contains the text that was searched for. */
  lemma CloseTagCoversPattern(s: string, stack: seq<string>)
    requires InRawText(stack) && s != "" && s[0] == '<' && MatchesIgnoreCase(s, RawClose(stack), 0)
    requires TagOrComment(s, stack).Ok?
    ensures |RawClose(stack)| < TagOrComment(s, stack).value.length
  {
    var p := RawClose(stack);
    assert ToLower(s[0 + 1]) == ToLower(p[1]) == '/';
    assert |s| >= 4 ==> s[..4][1] == s[1];
    assert !StartsWith(s, "<!--");
    forall k | 0 <= k < |p|
      ensures s[k] != '>'
    {
      assert ToLower(s[0 + k]) == ToLower(p[k]) != '>';
    }
    assert s[TagEnd(s, 1, None).value - 1] == '>';
  }

  /** A token that opens with `<` is never translated, and it holds the close tag that ends raw text. */
  lemma MarkupStays(s: string, stack: seq<string>)
    requires s != "" && s[0] == '<' && First(s, stack).Ok?
    ensures !First(s, stack).value.translatable
    ensures InRawText(stack) && MatchesIgnoreCase(s, RawClose(stack), 0) ==>
              |RawClose(stack)| < First(s, stack).value.length
  {
    if InRawText(stack) && MatchesIgnoreCase(s, RawClose(stack), 0) {
      CloseTagCoversPattern(s, stack);
    }
  }

  lemma RawCloseOpens(s: string, stack: seq<string>)
    requires s != ""
    ensures InRawText(stack) && MatchesIgnoreCase(s, RawClose(stack), 0) ==> s[0] == '<'
  {
    if InRawText(stack) && MatchesIgnoreCase(s, RawClose(stack), 0) {
      assert ToLower(s[0 + 0]) == ToLower(RawClose(stack)[0]) == '<';
    }
  }

  /** What a token's reader saw behind the token is still there after the tail was translated. */
  ghost predicate SameFront(tail: string, other: string, stack: seq<string>) {
    && (tail == "" ==> other == "")
    && (tail != "" && tail[0] == '<' ==> other != "" && other[0] == '<')
    && (InRawText(stack) && |RawClose(stack)| <= |tail| && MatchesIgnoreCase(tail, RawClose(stack), 0) ==>
          |RawClose(stack)| <= |other| && other[..|RawClose(stack)|] == tail[..|RawClose(stack)|])
  }

  function Shown(head: Head, text: string, translation: string): string {
    if head.translatable then EncodeHtml(translation) else text
  }

  /** One token of the translated text is read as the token it came from. */
  lemma FirstAfterTranslation(s: string, stack: seq<string>, translation: string, other: string)
    requires s != "" && First(s, stack).Ok? && (First(s, stack).value.translatable ==> translation != "")
    requires SameFront(s[First(s, stack).value.length..], other, First(s, stack).value.stack)
    ensures var head := First(s, stack).value;
            var shown := Shown(head, s[..head.length], translation);
            shown != "" && (head.translatable ==> shown[0] != '<') &&
            First(shown + other, stack) ==
              Ok(Head(|shown|, head.translatable && !IsBlankText(translation), head.stack))
    ensures var head := First(s, stack).value;
            var shown := Shown(head, s[..head.length], translation);
            shown != "" && (shown[0] == '<' <==> s[0] == '<')
  {
    var head := First(s, stack).value;
    var n := head.length;
    var shown := Shown(head, s[..n], translation);
    EncodedHasNoMarkup(translation);
    var after := shown + other;
    assert after[..|shown|] == shown;
    RawCloseOpens(s, stack);
    if InRawText(stack) && FindIgnoreCase(s, RawClose(stack), 0).value > 0 {
      RawAfterTranslation(s, stack, other);
    } else if s[0] == '<' {
      if InRawText(stack) {
        CloseTagCoversPattern(s, stack);
        assert after[..|RawClose(stack)|] == shown[..|RawClose(stack)|] == s[..|RawClose(stack)|];
        FindIgnoreCaseIsLocal(s, RawClose(stack), after);
      }
      TagOrCommentIsLocal(s, stack, after);
    } else {
      if n < |s| {
        assert s[n..][0] == s[n];
      }
      TextAfterTranslation(s, stack, shown, other);
    }
  }

  lemma RawAfterTranslation(s: string, stack: seq<string>, other: string)
    requires s != "" && InRawText(stack) && FindIgnoreCase(s, RawClose(stack), 0).Some?
    requires FindIgnoreCase(s, RawClose(stack), 0).value > 0
    requires SameFront(s[FindIgnoreCase(s, RawClose(stack), 0).value..], other, stack)
    ensures First(s[..FindIgnoreCase(s, RawClose(stack), 0).value] + other, stack) ==
              Ok(Head(FindIgnoreCase(s, RawClose(stack), 0).value, false, stack))
  {
    hide FindIgnoreCase, RawClose, TagOrComment, TextRun;
    var p := RawClose(stack);
    var n := FindIgnoreCase(s, p, 0).value;
    MatchFits(s, p, n);
    CloseIsKept(s, p, n, other);
    FindIgnoreCaseIsLocal(s, p, s[..n] + other);
  }

  lemma CloseIsKept(s: string, p: string, n: nat, other: string)
    requires MatchesIgnoreCase(s, p, n) && n + |p| <= |s|
    requires |p| <= |s[n..]| && MatchesIgnoreCase(s[n..], p, 0) ==> |p| <= |other| && other[..|p|] == s[n..][..|p|]
    ensures var after := s[..n] + other;
            n + |p| <= |after| && after[..n + |p|] == s[..n + |p|]
  {
    var tail, after := s[n..], s[..n] + other;
    assert forall k | 0 <= k < |p| :: tail[k] == s[n + k];
    assert MatchesIgnoreCase(tail, p, 0);
    assert after[..n + |p|] == s[..n] + other[..|p|];
    assert s[..n + |p|] == s[..n] + tail[..|p|];
  }

  lemma TextAfterTranslation(s: string, stack: seq<string>, shown: string, other: string)
    requires s != "" && s[0] != '<' && !InRawText(stack)
    requires shown != "" && '<' !in shown && (other == "" || other[0] == '<')
    ensures First(shown + other, stack) ==
              Ok(Head(|shown|, !HasRawTag(stack) && !IsBlankText(shown), stack))
  {
    var after := shown + other;
    assert after[..|shown|] == shown;
    assert after[0] == shown[0];
    assert forall k | 0 <= k < |shown| :: after[k] == shown[k];
    if other != "" {
      assert after[|shown|] == '<';
    }
  }

  /** The translated tail opens as the source's tail does. */
  lemma FrontIsKept(s: string, stack: seq<string>, count: nat, translations: seq<string>)
    requires ParseFrom(s, stack, count).Ok? && |translations| == |ParseFrom(s, stack, count).value|
    ensures SameFront(s, Concat(Translated(ParseFrom(s, stack, count).value, translations)), stack)
  {
    if s != "" && (s[0] == '<' || (InRawText(stack) && MatchesIgnoreCase(s, RawClose(stack), 0))) {
      var head := First(s, stack).value;
      var other := Concat(Translated(ParseFrom(s, stack, count).value, translations));
      RawCloseOpens(s, stack);
      MarkupStays(s, stack);
      assert other[..head.length] == s[..head.length];
      assert other[0] == other[..head.length][0];
      if InRawText(stack) && MatchesIgnoreCase(s, RawClose(stack), 0) {
        var k := |RawClose(stack)|;
        assert other[..k] == other[..head.length][..k] == s[..head.length][..k] == s[..k];
      }
    }
  }

  /** Every choice of translations leaves the structure as it was, piece by piece. */
  lemma {:induction false} ReparsesFrom(s: string, stack: seq<string>, count: nat, translations: seq<string>)
    requires ParseFrom(s, stack, count).Ok? && |translations| == |ParseFrom(s, stack, count).value|
    requires Filled(ParseFrom(s, stack, count).value, translations)
    ensures var after := Translated(ParseFrom(s, stack, count).value, translations);
            ParseFrom(Concat(after), stack, count) == Ok(after)
    decreases |s|
  {
    hide ParseFrom;
    if s == "" {
      ParseNothing(stack, count);
    } else {
      ParseFront(s, stack, count);
      var head := First(s, stack).value;
      var tail, pieces := s[head.length..], ParseFrom(s, stack, count).value;
      var rest := ParseFrom(tail, head.stack, count + 1).value;
      assert pieces[1..] == rest;
      ReparsesFrom(tail, head.stack, count + 1, translations[1..]);
      FrontIsKept(tail, head.stack, count + 1, translations[1..]);
      var tailAfter := Translated(rest, translations[1..]);
      ReparsesFirst(s, stack, count, translations[0], tailAfter);
      var piece := TranslatedPiece(Piece(s[..head.length], head.translatable), translations[0]);
      TranslatedSplits(pieces[0], rest, translations);
      ConcatSplits(piece, tailAfter);
    }
  }

  lemma ParseNothing(stack: seq<string>, count: nat)
    ensures ParseFrom("", stack, count) == if stack == [] then Ok([]) else Err(InvalidStructure)
  {
  }

  lemma ParseFront(s: string, stack: seq<string>, count: nat)
    requires s != "" && ParseFrom(s, stack, count).Ok?
    ensures First(s, stack).Ok? && !TooMany(s, stack, count + 1)
    ensures var head := First(s, stack).value; var tail := ParseFrom(s[head.length..], head.stack, count + 1);
            tail.Ok? && ParseFrom(s, stack, count).value == [Piece(s[..head.length], head.translatable)] + tail.value
  {
  }

  lemma ParseStep(s: string, stack: seq<string>, count: nat, head: Head, tail: string, rest: seq<Piece>)
    requires s != "" && First(s, stack) == Ok(head) && !TooMany(s, stack, count + 1)
    requires s[head.length..] == tail && ParseFrom(tail, head.stack, count + 1) == Ok(rest)
    ensures ParseFrom(s, stack, count) == Ok([Piece(s[..head.length], head.translatable)] + rest)
  {
  }

  lemma TranslatedSplits(piece: Piece, rest: seq<Piece>, translations: seq<string>)
    requires |translations| == |rest| + 1
    ensures Translated([piece] + rest, translations) ==
              [TranslatedPiece(piece, translations[0])] + Translated(rest, translations[1..])
  {
    assert ([piece] + rest)[1..] == rest;
  }

  lemma ConcatSplits(piece: Piece, rest: seq<Piece>)
    ensures Concat([piece] + rest) == piece.text + Concat(rest)
  {
    assert ([piece] + rest)[1..] == rest;
  }

  /** No visible text is translated to nothing. */
  predicate Filled(pieces: seq<Piece>, translations: seq<string>)
    requires |pieces| == |translations|
  {
    pieces != [] ==>
      && (pieces[0].translatable ==> translations[0] != "")
      && Filled(pieces[1..], translations[1..])
  }

  /** The tokens cover the text without gap or overlap. */
  lemma {:induction false} PiecesTile(s: string, stack: seq<string>, count: nat)
    requires ParseFrom(s, stack, count).Ok?
    ensures Concat(ParseFrom(s, stack, count).value) == s
    decreases |s|
  {
    hide ParseFrom, First, Concat;
    if s == "" {
      ParseNothing(stack, count);
      ConcatNothing();
    } else {
      ParseFront(s, stack, count);
      var head := First(s, stack).value;
      var rest := ParseFrom(s[head.length..], head.stack, count + 1).value;
      PiecesTile(s[head.length..], head.stack, count + 1);
      ConcatSplits(Piece(s[..head.length], head.translatable), rest);
      assert s == s[..head.length] + s[head.length..];
    }
  }

  lemma ConcatNothing()
    ensures Concat([]) == ""
  {
  }

  /** The front token of the translated text, given that its tail is read back. */
  lemma ReparsesFirst(s: string, stack: seq<string>, count: nat, translation: string, tailAfter: seq<Piece>)
    requires s != "" && First(s, stack).Ok? && !TooMany(s, stack, count + 1)
    requires First(s, stack).value.translatable ==> translation != ""
    requires var head := First(s, stack).value;
             SameFront(s[head.length..], Concat(tailAfter), head.stack) &&
             ParseFrom(Concat(tailAfter), head.stack, count + 1) == Ok(tailAfter)
    ensures var head := First(s, stack).value;
            var piece := TranslatedPiece(Piece(s[..head.length], head.translatable), translation);
            ParseFrom(piece.text + Concat(tailAfter), stack, count) == Ok([piece] + tailAfter)
  {
    hide ParseFrom, First, Concat;
    var head, tail := First(s, stack).value, Concat(tailAfter);
    var piece := TranslatedPiece(Piece(s[..head.length], head.translatable), translation);
    FirstAfterTranslation(s, stack, translation, tail);
    var shown := piece.text;
    var after := shown + tail;
    assert after[..|shown|] == shown && after[|shown|..] == tail;
    assert after[0] == shown[0];
    assert !TooMany(after, stack, count + 1);
    ParseStep(after, stack, count, Head(|shown|, piece.translatable, head.stack), tail, tailAfter);
  }

  /** Every token holds at least one character. */
  lemma {:induction false} TokensAreNotEmpty(s: string, stack: seq<string>, count: nat)
    requires ParseFrom(s, stack, count).Ok?
    ensures forall piece | piece in ParseFrom(s, stack, count).value :: piece.text != ""
    decreases |s|
  {
    if s != "" {
      TokensAreNotEmpty(s[First(s, stack).value.length..], First(s, stack).value.stack, count + 1);
    }
  }

  lemma {:induction false} UnfilledLeavesEmpty(pieces: seq<Piece>, translations: seq<string>)
    requires |pieces| == |translations| && !Filled(pieces, translations)
    ensures exists piece :: piece in Translated(pieces, translations) && piece.text == ""
  {
    if pieces[0].translatable && translations[0] == "" {
      EncodedHasNoMarkup("");
      assert TranslatedPiece(pieces[0], translations[0]) in Translated(pieces, translations);
    } else {
      UnfilledLeavesEmpty(pieces[1..], translations[1..]);
      var piece :| piece in Translated(pieces[1..], translations[1..]) && piece.text == "";
      assert piece in Translated(pieces, translations);
    }
  }

  /** Every accepted text and every choice of translations: the rebuilt text is accepted with one token
      for each token of the source, markup and blank text unchanged and every translation encoded in
      its place, exactly when no visible text is translated to nothing. */
  lemma TranslationKeepsStructure(text: string, translations: seq<string>)
    requires Parse(text).Ok? && |translations| == |Parse(text).value|
    ensures Concat(Parse(text).value) == text
    ensures var after := Translated(Parse(text).value, translations);
            Parse(Concat(after)) == Ok(after) <==> Filled(Parse(text).value, translations)
  {
    var pieces := Parse(text).value;
    var after := Translated(pieces, translations);
    PiecesTile(text, [], 0);
    if Filled(pieces, translations) {
      ReparsesFrom(text, [], 0, translations);
      TokensAreNotEmpty(text, [], 0);
      assert after != [];
      FilledIsNotEmpty(pieces, translations);
    } else {
      UnfilledLeavesEmpty(pieces, translations);
      if Parse(Concat(after)) == Ok(after) {
        TokensAreNotEmpty(Concat(after), [], 0);
      }
    }
  }

  lemma FilledIsNotEmpty(pieces: seq<Piece>, translations: seq<string>)
    requires |pieces| == |translations| && pieces != [] && Filled(pieces, translations)
    requires pieces[0].text != ""
    ensures Concat(Translated(pieces, translations)) != ""
  {
    EncodedHasNoMarkup(translations[0]);
  }
}
