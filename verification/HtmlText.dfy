/** Which HTML texts are accepted and what in them may be translated, said over the pieces of the text. */
module HtmlText {
  import opened Texts
  import opened Strings
  import opened Documents
  import opened Tags
  import opened TagShapes
  import opened HtmlDocument
  import opened HtmlRebuilding
  import opened Nesting

  /** What a tag or comment does to the elements; none when its name is malformed. */
  function TagOf(text: string): Option<Tag> {
    if StartsWith(text, "<!--") then Some(Neutral)
    else if |text| < 2 then None
    else
      match ParseTagName(text)
      case Err(_) => None
      case Ok(tag) =>
        if tag.name.None? then Some(Neutral)
        else if tag.closing then Some(Closing(tag.name.value))
        else if tag.selfClosing || HoldsNothing(tag.name.value) then Some(Neutral)
        else Some(Opening(tag.name.value))
  }

  /** Elements whose content is not markup, and elements without content. */
  predicate HoldsRawText(name: string) {
    name == "script" || name == "style"
  }

  predicate HoldsNothing(name: string) {
    name in {"area", "base", "br", "col", "embed", "hr", "img", "input", "link", "meta", "param", "source", "track", "wbr"}
  }

  /** The text starts with the end tag of this element, in letters of either case. */
  predicate OpensClose(text: string, name: string) {
    |name| + 2 <= |text| && LowerCase(text[..|name| + 2]) == "</" + name
  }

  /** The script or style element that was opened and not yet closed in front of piece `k`. */
  function RawAt(pieces: seq<Piece>, k: nat): (raw: Option<string>)
    requires k <= |pieces|
    ensures raw.Some? ==> HoldsRawText(raw.value)
    decreases k
  {
    if k == 0 then None
    else
      var text, before := pieces[k - 1].text, RawAt(pieces, k - 1);
      RawNext(text, before)
  }

  function RawNext(text: string, before: Option<string>): (raw: Option<string>)
    requires before.Some? ==> HoldsRawText(before.value)
    ensures raw.Some? ==> HoldsRawText(raw.value)
  {
    if before.Some? then if OpensClose(text, before.value) then None else before
    else if !IsRun(text) && TagOf(text).Some? && TagOf(text).value.Opening? && HoldsRawText(TagOf(text).value.name)
    then Some(TagOf(text).value.name)
    else None
  }

  /** Raw content is neither text nor markup. */
  predicate IsContent(text: string, raw: Option<string>) {
    raw.Some? && !OpensClose(text, raw.value)
  }

  function TagIn(text: string, raw: Option<string>): Tag {
    if IsContent(text, raw) || IsRun(text) || TagOf(text).None? then Neutral else TagOf(text).value
  }

  function TagsOf(pieces: seq<Piece>): (tags: seq<Tag>)
    ensures |tags| == |pieces|
  {
    seq(|pieces|, k requires 0 <= k < |pieces| => TagIn(pieces[k].text, RawAt(pieces, k)))
  }

  /** What a piece must be, with this raw element open, `count` pieces in front and `tail` behind. */
  predicate Fits(piece: Piece, raw: Option<string>, count: nat, tail: string) {
    var text := piece.text;
    if IsContent(text, raw) then
      && !piece.translatable && text != "" && OpensClose(tail, raw.value)
      && forall at | 0 <= at < |text| :: !OpensClose(text[at..], raw.value)
    else if IsRun(text) then
      (tail == "" || tail[0] == '<') && (piece.translatable <==> !IsBlankText(text)) && count < MAX_SEGMENTS
    else IsMarkup(text) && TagOf(text).Some? && !piece.translatable
  }

  ghost predicate IsPieceOfHtml(pieces: seq<Piece>, k: nat)
    requires k < |pieces|
  {
    Fits(pieces[k], RawAt(pieces, k), k, Concat(pieces[k + 1..]))
  }

  ghost predicate IsHtml(pieces: seq<Piece>) {
    (forall k | 0 <= k < |pieces| :: IsPieceOfHtml(pieces, k)) && IsForest(TagsOf(pieces))
  }

  // One token

  /** The scanner's stack: a script or style element can only be the innermost one. */
  predicate Matches(stack: seq<string>, raw: Option<string>) {
    && (forall k | 0 <= k < |stack| - 1 :: !IsRawTag(stack[k]))
    && raw == if InRawText(stack) then Some(stack[|stack| - 1]) else None
  }

  lemma TagStepAlone(text: string, stack: seq<string>, next: seq<string>, translatable: bool)
    requires text != "" && text[0] == '<'
    ensures TagOrComment(text, stack) == Ok(Head(|text|, translatable, next)) <==>
              IsMarkup(text) && !translatable && TagOf(text).Some? && Push(TagOf(text).value, stack) == Some(next)
  {
    hide ParseTagName, TagEnd;
    assert text[..|text|] == text;
    if !StartsWith(text, "<!--") && TagEnd(text, 1, None) == Some(|text|) && ParseTagName(text).Ok? {
      PushIsAfter(stack, ParseTagName(text).value);
    }
  }

  lemma PushIsAfter(stack: seq<string>, tag: TagName)
    ensures AfterTag(stack, tag) ==
              match Push(if tag.name.None? then Neutral else if tag.closing then Closing(tag.name.value)
                         else if tag.selfClosing || HoldsNothing(tag.name.value) then Neutral else Opening(tag.name.value), stack)
              case None => Err(InvalidStructure)
              case Some(next) => Ok(next)
  {
    hide IsVoidTag, HoldsNothing;
    if tag.name.Some? {
      RawTagsAre(tag.name.value);
    }
  }

  lemma TagStep(text: string, tail: string, stack: seq<string>, next: seq<string>, translatable: bool)
    requires text != "" && text[0] == '<'
    ensures TagOrComment(text + tail, stack) == Ok(Head(|text|, translatable, next)) <==>
              IsMarkup(text) && !translatable && TagOf(text).Some? && Push(TagOf(text).value, stack) == Some(next)
  {
    hide TagOrComment, IsMarkup, Push, TagOf;
    var s := text + tail;
    assert s[..|text|] == text && text[..|text|] == text && s[0] == text[0];
    TagStepAlone(text, stack, next, translatable);
    if TagOrComment(text, stack) == Ok(Head(|text|, translatable, next)) {
      TagOrCommentIsLocal(text, stack, s);
    }
    if TagOrComment(s, stack) == Ok(Head(|text|, translatable, next)) {
      TagOrCommentIsLocal(s, stack, text);
    }
  }

  lemma CloseIs(text: string, name: string)
    requires HoldsRawText(name)
    ensures OpensClose(text, name) <==> CloseMatches(text, name)
  {
    var p, n := "</" + name, |name| + 2;
    assert forall k | 0 <= k < n :: ToLower(p[k]) == p[k];
    if n <= |text| {
      var front := LowerCase(text[..n]);
      assert forall k | 0 <= k < n :: front[k] == ToLower(text[0 + k]);
      if CloseMatches(text, name) {
        assert forall k | 0 <= k < n :: front[k] == p[k];
        assert front == p;
      }
      if front == p {
        forall k | 0 <= k < n ensures ToLower(text[0 + k]) == ToLower(p[k]) {
          assert front[k] == p[k];
        }
      }
    }
  }

  lemma ClosesAre(text: string, name: string)
    requires HoldsRawText(name)
    ensures (forall at | 0 <= at < |text| :: !OpensClose(text[at..], name)) <==>
              forall at | 0 <= at < |text| :: !MatchesIgnoreCase(text, "</" + name, at)
  {
    forall at | 0 <= at < |text|
      ensures OpensClose(text[at..], name) <==> MatchesIgnoreCase(text, "</" + name, at)
    {
      CloseIs(text[at..], name);
      TailMatches(text[..at], text[at..], "</" + name);
      assert text == text[..at] + text[at..];
    }
  }

  predicate CloseMatches(text: string, name: string) {
    MatchesIgnoreCase(text, "</" + name, 0)
  }

  lemma RawTagsAre(name: string)
    ensures IsRawTag(name) <==> HoldsRawText(name)
    ensures IsVoidTag(name) <==> HoldsNothing(name)
  {
  }

  lemma CloseInFront(text: string, tail: string, name: string)
    ensures CloseMatches(text, name) ==> CloseMatches(text + tail, name)
    ensures CloseMatches(text + tail, name) && |name| + 2 <= |text| ==> CloseMatches(text, name)
  {
    var s := text + tail;
    assert forall k | 0 <= k < |text| :: s[k] == text[k];
  }

  /** Raw content ends where the end tag opens, and nowhere earlier. */
  lemma ContentEnds(text: string, tail: string, name: string)
    requires IsRawTag(name) && text != ""
    ensures FindIgnoreCase(text + tail, "</" + name, 0) == Some(|text|) <==>
              CloseMatches(tail, name) && forall at | 0 <= at < |text| :: !MatchesIgnoreCase(text, "</" + name, at)
  {
    hide FindIgnoreCase;
    var s, p := text + tail, "</" + name;
    assert forall k | 0 <= k < |text| :: s[k] == text[k];
    assert forall k | 0 <= k < |tail| :: s[|text| + k] == tail[k];
    TailMatches(text, tail, p);
    if CloseMatches(tail, name) && forall at | 0 <= at < |text| :: !MatchesIgnoreCase(text, p, at) {
      forall at: nat | at < |text|
        ensures !MatchesIgnoreCase(s, p, at)
      {
        NoOverlap(text, tail, name, at);
      }
      HtmlRebuilding.FoundAt(s, p, |text|);
    }
    if FindIgnoreCase(s, p, 0) == Some(|text|) {
      forall at | 0 <= at < |text|
        ensures !MatchesIgnoreCase(text, p, at)
      {
        HtmlRebuilding.NoMatchBefore(s, p, |text|, at);
        InFrontMatches(text, tail, p, at);
      }
      FoundMatches(s, p);
    }
  }

  lemma FoundMatches(s: string, p: string)
    requires FindIgnoreCase(s, p, 0).Some?
    ensures MatchesIgnoreCase(s, p, FindIgnoreCase(s, p, 0).value)
  {
    hide MatchesIgnoreCase;
  }

  lemma TailMatches(text: string, tail: string, p: string)
    ensures MatchesIgnoreCase(text + tail, p, |text|) <==> MatchesIgnoreCase(tail, p, 0)
  {
    var s := text + tail;
    assert forall k | 0 <= k < |tail| :: s[|text| + k] == tail[k];
    if MatchesIgnoreCase(s, p, |text|) {
      forall k | 0 <= k < |p| ensures ToLower(tail[0 + k]) == ToLower(p[k]) {
        assert s[|text| + k] == tail[k];
      }
    }
    if MatchesIgnoreCase(tail, p, 0) {
      forall k | 0 <= k < |p| ensures ToLower(s[|text| + k]) == ToLower(p[k]) {
        assert tail[0 + k] == s[|text| + k];
      }
    }
  }

  lemma InFrontMatches(text: string, tail: string, p: string, at: nat)
    ensures MatchesIgnoreCase(text, p, at) ==> MatchesIgnoreCase(text + tail, p, at)
  {
    var s := text + tail;
    assert forall k | 0 <= k < |text| :: s[k] == text[k];
  }

  /** An end tag holds one bracket only. */
  lemma OverlapFails(text: string, tail: string, name: string, at: nat)
    requires IsRawTag(name) && at < |text| < at + |name| + 2 && CloseMatches(tail, name)
    ensures !MatchesIgnoreCase(text + tail, "</" + name, at)
  {
    var s, p := text + tail, "</" + name;
    var k := |text| - at;
    assert ToLower(tail[0 + 0]) == ToLower(p[0]) == '<';
    assert s[at + k] == tail[0] && ToLower(p[k]) != '<';
  }

  lemma NoOverlap(text: string, tail: string, name: string, at: nat)
    requires IsRawTag(name) && at < |text| && CloseMatches(tail, name) && !MatchesIgnoreCase(text, "</" + name, at)
    ensures !MatchesIgnoreCase(text + tail, "</" + name, at)
  {
    var s, p := text + tail, "</" + name;
    if MatchesIgnoreCase(s, p, at) {
      if at + |p| <= |text| {
        forall k | 0 <= k < |p| ensures ToLower(text[at + k]) == ToLower(p[k]) {
          assert s[at + k] == text[at + k];
        }
      } else {
        OverlapFails(text, tail, name, at);
      }
    }
  }

  /** In a script or style element the scanner takes the content, or the end tag. */
  lemma RawStepIff(piece: Piece, tail: string, stack: seq<string>, next: seq<string>, count: nat)
    requires piece.text != "" && InRawText(stack)
    ensures var raw := Some(stack[|stack| - 1]);
            First(piece.text + tail, stack) == Ok(Head(|piece.text|, piece.translatable, next)) <==>
              Fits(piece, raw, count, tail) && Push(TagIn(piece.text, raw), stack) == Some(next)
  {
    hide TagOrComment, TextRun, FindIgnoreCase, MatchesIgnoreCase, TagOf, IsMarkup, OpensClose;
    var name := stack[|stack| - 1];
    var text, s := piece.text, piece.text + tail;
    RawTagsAre(name);
    CloseIs(text, name);
    CloseIs(tail, name);
    ClosesAre(text, name);
    RawRun(s, stack);
    assert RawClose(stack) == "</" + name;
    if CloseMatches(text, name) {
      CloseInFront(text, tail, name);
      FoundAtStart(s, "</" + name);
      CloseIsMarkup(text, name);
      assert s[0] == text[0];
      TagStep(text, tail, stack, next, piece.translatable);
    } else {
      ContentEnds(text, tail, name);
      if FindIgnoreCase(s, "</" + name, 0) == Some(0) {
        TagCovers(piece, tail, stack, next);
      }
    }
  }

  lemma FoundAtStart(s: string, p: string)
    requires MatchesIgnoreCase(s, p, 0)
    ensures FindIgnoreCase(s, p, 0) == Some(0)
  {
  }

  lemma CloseIsMarkup(text: string, name: string)
    requires CloseMatches(text, name)
    ensures text != "" && text[0] == '<' && !IsRun(text)
  {
    assert ToLower(text[0 + 0]) == ToLower(("</" + name)[0]) == '<';
  }

  lemma TagCovers(piece: Piece, tail: string, stack: seq<string>, next: seq<string>)
    requires piece.text != "" && InRawText(stack) && !CloseMatches(piece.text, stack[|stack| - 1])
    requires FindIgnoreCase(piece.text + tail, RawClose(stack), 0) == Some(0)
    ensures First(piece.text + tail, stack) != Ok(Head(|piece.text|, piece.translatable, next))
  {
    hide TagOrComment, TextRun, FindIgnoreCase, MatchesIgnoreCase;
    var s := piece.text + tail;
    RawRun(s, stack);
    FoundMatches(s, RawClose(stack));
    if TagOrComment(s, stack).Ok? {
      CloseTagCoversPattern(s, stack);
      CloseInFront(piece.text, tail, stack[|stack| - 1]);
    }
  }

  lemma OpenStepIff(piece: Piece, tail: string, stack: seq<string>, next: seq<string>, count: nat)
    requires piece.text != "" && !HasRawTag(stack)
    ensures First(piece.text + tail, stack) == Ok(Head(|piece.text|, piece.translatable, next))
            && !TooMany(piece.text + tail, stack, count + 1) <==>
              Fits(piece, None, count, tail) && Push(TagIn(piece.text, None), stack) == Some(next)
  {
    hide TagOrComment, FindIgnoreCase, TagOf, IsMarkup, IsBlankText;
    var text, s := piece.text, piece.text + tail;
    assert s[0] == text[0];
    RawIsHeld(stack);
    if text[0] == '<' {
      assert text[0] in text;
      Markup(s, stack);
      TagStep(text, tail, stack, next, piece.translatable);
    } else {
      RunStepIff(piece, tail, stack, next);
    }
  }

  lemma RawIsHeld(stack: seq<string>)
    ensures !HasRawTag(stack) ==> !InRawText(stack)
  {
  }

  lemma RunStepIff(piece: Piece, tail: string, stack: seq<string>, next: seq<string>)
    requires piece.text != "" && piece.text[0] != '<' && !HasRawTag(stack) && !InRawText(stack)
    ensures First(piece.text + tail, stack) == Ok(Head(|piece.text|, piece.translatable, next)) <==>
              IsRun(piece.text) && (tail == "" || tail[0] == '<') && (piece.translatable <==> !IsBlankText(piece.text)) && next == stack
    ensures !IsRun(piece.text) ==> !IsMarkup(piece.text)
  {
    hide TagOrComment, FindIgnoreCase, IsBlankText, HasRawTag;
    var text, s := piece.text, piece.text + tail;
    assert forall k | 0 <= k < |text| :: s[k] == text[k];
    assert s[0] != '<';
    var head := TextRun(s, stack);
    if head.length == |text| {
      assert s[..|text|] == text;
      assert tail != "" ==> s[|text|] == tail[0];
    }
    if IsRun(text) && (tail == "" || tail[0] == '<') {
      assert tail != "" ==> s[|text|] == tail[0];
      assert head.length == |text|;
    }
  }

  lemma StepIff(piece: Piece, raw: Option<string>, tail: string, stack: seq<string>, next: seq<string>, count: nat)
    requires piece.text != "" && Matches(stack, raw)
    ensures First(piece.text + tail, stack) == Ok(Head(|piece.text|, piece.translatable, next))
            && !TooMany(piece.text + tail, stack, count + 1) <==>
              Fits(piece, raw, count, tail) && Push(TagIn(piece.text, raw), stack) == Some(next)
  {
    hide First, Fits, TagIn, Push;
    if InRawText(stack) {
      RawStepIff(piece, tail, stack, next, count);
    } else {
      OpenStepIff(piece, tail, stack, next, count);
    }
  }

  lemma CloseCloses(text: string, name: string)
    requires IsRawTag(name) && CloseMatches(text, name) && TagOf(text).Some? && IsMarkup(text)
    ensures TagOf(text).value.Closing?
  {
    hide NameEnd, TagEnd;
    var p := "</" + name;
    assert ToLower(text[0 + 0]) == ToLower(p[0]) && ToLower(text[0 + 1]) == ToLower(p[1]) && ToLower(text[0 + 2]) == ToLower(p[2]) == 's';
    assert text[1] == '/' && text[2] != '!' && text[2] != '?' && text[2] != '>';
    assert !StartsWith(text, "<!--") by { assert |text| >= 4 ==> text[..4][1] == text[1]; }
    LastBracket(text);
    var inner := text[1..|text| - 1];
    assert inner[0] == '/' && inner[1] == text[2];
    var trimmed := Trim(inner);
    TrimKeepsFront(inner);
    assert !IsSpace(inner[1]);
    assert TrimStart(trimmed[1..]) == trimmed[1..];
  }

  lemma LastBracket(text: string)
    requires IsMarkup(text) && !StartsWith(text, "<!--")
    ensures text[|text| - 1] == '>'
  {
  }

  /** Characters that are no white space stay at the front. */
  lemma TrimKeepsFront(s: string)
    requires |s| >= 2 && !IsSpace(s[0]) && !IsSpace(s[1])
    ensures |Trim(s)| >= 2 && Trim(s)[0] == s[0] && Trim(s)[1] == s[1]
  {
    hide IsSpace;
    var blank := EndTrimmedIs(s);
    var kept := TrimEnd(s);
    assert s == kept + blank;
    assert forall k | |kept| <= k < |s| :: s[k] == blank[k - |kept|];
  }

  lemma RawMatchesNext(piece: Piece, raw: Option<string>, tail: string, stack: seq<string>, next: seq<string>, count: nat)
    requires Matches(stack, raw) && Fits(piece, raw, count, tail) && Push(TagIn(piece.text, raw), stack) == Some(next)
    ensures Matches(next, RawNext(piece.text, raw))
  {
    hide TagOf, IsMarkup, OpensClose, CloseMatches, MatchesIgnoreCase, IsRawTag, HoldsRawText;
    forall name
      ensures IsRawTag(name) <==> HoldsRawText(name)
    {
      RawTagsAre(name);
    }
    if raw.Some? && OpensClose(piece.text, raw.value) {
      CloseIs(piece.text, raw.value);
      CloseIsMarkup(piece.text, raw.value);
      CloseCloses(piece.text, raw.value);
    }
  }

  // All tokens

  lemma {:induction false} RawPrefix(a: seq<Piece>, b: seq<Piece>, k: nat)
    requires k <= |a|
    ensures RawAt(a + b, k) == RawAt(a, k)
  {
    hide RawNext;
    if k > 0 {
      RawPrefix(a, b, k - 1);
      assert (a + b)[k - 1] == a[k - 1];
    }
  }

  lemma TagsPrefix(a: seq<Piece>, b: seq<Piece>)
    ensures TagsOf(a + b)[..|a|] == TagsOf(a)
  {
    hide RawAt, TagIn;
    forall k | 0 <= k < |a|
      ensures TagsOf(a + b)[k] == TagsOf(a)[k]
    {
      RawPrefix(a, b, k);
      assert (a + b)[k] == a[k];
    }
  }

  lemma TagsNext(done: seq<Piece>, piece: Piece)
    ensures TagsOf(done + [piece]) == TagsOf(done) + [TagIn(piece.text, RawAt(done, |done|))]
    ensures RawAt(done + [piece], |done| + 1) == RawNext(piece.text, RawAt(done, |done|))
  {
    hide TagIn, RawNext, RawAt, TagsOf;
    TagsPrefix(done, [piece]);
    LastTag(done, piece);
    RawAfter(done, piece);
    LastSplits(TagsOf(done + [piece]), |done|);
  }

  lemma LastSplits(tags: seq<Tag>, n: nat)
    requires |tags| == n + 1
    ensures tags == tags[..n] + [tags[n]]
  {
  }

  lemma LastTag(done: seq<Piece>, piece: Piece)
    ensures TagsOf(done + [piece])[|done|] == TagIn(piece.text, RawAt(done, |done|))
  {
    hide TagIn, RawAt;
    RawPrefix(done, [piece], |done|);
  }

  lemma RawAfter(done: seq<Piece>, piece: Piece)
    ensures RawAt(done + [piece], |done| + 1) == RawNext(piece.text, RawAt(done, |done|))
  {
    hide RawNext;
    RawPrefix(done, [piece], |done|);
  }

  ghost predicate RestFits(done: seq<Piece>, rest: seq<Piece>) {
    var all := done + rest;
    && (forall k | |done| <= k < |all| :: IsPieceOfHtml(all, k))
    && Fold(TagsOf(all), []) == Some([])
  }

  lemma RestFitsStep(done: seq<Piece>, piece: Piece, rest: seq<Piece>)
    ensures RestFits(done, [piece] + rest) <==>
              Fits(piece, RawAt(done, |done|), |done|, Concat(rest)) && RestFits(done + [piece], rest)
  {
    hide Fits, Fold, TagsOf, RawAt, Concat;
    var all := done + [piece] + rest;
    assert done + ([piece] + rest) == all == done + ([piece] + rest);
    RawPrefix(done, [piece] + rest, |done|);
    assert all[|done|] == piece && all[|done| + 1..] == rest;
    assert IsPieceOfHtml(all, |done|) <==> Fits(piece, RawAt(done, |done|), |done|, Concat(rest));
  }

  lemma FoldsOn(done: seq<Piece>, piece: Piece, rest: seq<Piece>, stack: seq<string>)
    requires Fold(TagsOf(done), []) == Some(stack)
    ensures Fold(TagsOf(done + [piece]), []) == Push(TagIn(piece.text, RawAt(done, |done|)), stack)
    ensures Fold(TagsOf(done + [piece]), []).None? ==> !RestFits(done + [piece], rest)
  {
    hide Fold, Push, TagIn, RawAt, TagsOf, RestFits;
    TagsNext(done, piece);
    FoldLast(TagsOf(done), TagIn(piece.text, RawAt(done, |done|)), []);
    NoneStays(done + [piece], rest);
  }

  lemma NoneStays(done: seq<Piece>, rest: seq<Piece>)
    ensures Fold(TagsOf(done), []).None? ==> !RestFits(done, rest)
  {
    hide Fold, TagsOf, IsPieceOfHtml;
    TagsPrefix(done, rest);
    var tags := TagsOf(done + rest);
    assert tags == tags[..|done|] + tags[|done|..];
    FoldJoins(tags[..|done|], tags[|done|..], []);
  }

  lemma ParseTakes(piece: Piece, tail: string, others: seq<Piece>, stack: seq<string>, count: nat)
    requires piece.text != ""
    ensures var s := piece.text + tail;
            ParseFrom(s, stack, count) == Ok([piece] + others) <==>
              && First(s, stack).Ok?
              && var head := First(s, stack).value;
                 && head == Head(|piece.text|, piece.translatable, head.stack) && !TooMany(s, stack, count + 1)
                 && ParseFrom(tail, head.stack, count + 1) == Ok(others)
  {
    hide First, ParseFrom, TooMany;
    var s := piece.text + tail;
    if ParseFrom(s, stack, count).Ok? {
      ParseFront(s, stack, count);
      var head := First(s, stack).value;
      var rest := ParseFrom(s[head.length..], head.stack, count + 1).value;
      if ParseFrom(s, stack, count) == Ok([piece] + others) {
        assert ([Piece(s[..head.length], head.translatable)] + rest)[0] == ([piece] + others)[0] == piece;
        assert ([Piece(s[..head.length], head.translatable)] + rest)[1..] == rest && ([piece] + others)[1..] == others;
        assert s[head.length..] == tail;
      }
    }
    if First(s, stack).Ok? && First(s, stack).value.length == |piece.text| && !TooMany(s, stack, count + 1) {
      var head := First(s, stack).value;
      assert s[..head.length] == piece.text && s[head.length..] == tail;
      if ParseFrom(tail, head.stack, count + 1) == Ok(others) {
        ParseStep(s, stack, count, head, tail, others);
      }
    }
  }

  lemma EmptyDoesNotFit(piece: Piece, raw: Option<string>, count: nat, tail: string, others: seq<Piece>, stack: seq<string>)
    requires piece.text == ""
    ensures !Fits(piece, raw, count, tail) && ParseFrom(tail, stack, count) != Ok([piece] + others)
  {
    hide First, ParseFrom;
    if raw.Some? {
      assert !CloseMatches("", raw.value);
    }
    if tail != "" && ParseFrom(tail, stack, count).Ok? {
      ParseFront(tail, stack, count);
      var head := First(tail, stack).value;
      assert tail[..head.length] != "";
      assert ([piece] + others)[0] == piece;
    } else {
      ParseNothing(stack, count);
    }
  }

  /** The piece is taken exactly when it fits there and its tag does. */
  lemma GoodFront(piece: Piece, raw: Option<string>, others: seq<Piece>, tail: string, stack: seq<string>, count: nat)
    requires piece.text != "" && Matches(stack, raw)
    ensures var next := Push(TagIn(piece.text, raw), stack);
            ParseFrom(piece.text + tail, stack, count) == Ok([piece] + others) <==>
              Fits(piece, raw, count, tail) && next.Some? && ParseFrom(tail, next.value, count + 1) == Ok(others)
  {
    hide First, ParseFrom, Fits, TagIn, Push, TooMany, Matches;
    ParseTakes(piece, tail, others, stack, count);
    var head, next := First(piece.text + tail, stack), Push(TagIn(piece.text, raw), stack);
    if next.Some? {
      StepIff(piece, raw, tail, stack, next.value, count);
    }
    if head.Ok? {
      StepIff(piece, raw, tail, stack, head.value.stack, count);
    }
  }

  /** The scanner cuts the text into exactly these pieces if and only if they fit behind those before them. */
  lemma {:induction false} ParseIff(done: seq<Piece>, rest: seq<Piece>, stack: seq<string>)
    requires Fold(TagsOf(done), []) == Some(stack) && Matches(stack, RawAt(done, |done|))
    ensures ParseFrom(Concat(rest), stack, |done|) == Ok(rest) <==> RestFits(done, rest)
    decreases |rest|
  {
    hide ParseFrom, Fits, Fold, TagsOf, TagIn, Push, RestFits, Concat, Matches, RawAt, RawNext;
    if rest == [] {
      ParseNothing(stack, |done|);
      ConcatNothing();
      NothingFits(done, stack);
    } else {
      var piece, others := rest[0], rest[1..];
      var raw, tail := RawAt(done, |done|), Concat(others);
      assert rest == [piece] + others;
      ConcatSplits(piece, others);
      RestFitsStep(done, piece, others);
      if piece.text == "" {
        assert piece.text + tail == tail;
        EmptyDoesNotFit(piece, raw, |done|, tail, others, stack);
      } else {
        GoodFront(piece, raw, others, tail, stack, |done|);
        FoldsOn(done, piece, others, stack);
        TagsNext(done, piece);
        var next := Push(TagIn(piece.text, raw), stack);
        if next.Some? && Fits(piece, raw, |done|, tail) {
          RawMatchesNext(piece, raw, tail, stack, next.value, |done|);
          ParseIff(done + [piece], others, next.value);
        }
      }
    }
  }

  lemma NothingFits(done: seq<Piece>, stack: seq<string>)
    requires Fold(TagsOf(done), []) == Some(stack)
    ensures RestFits(done, []) <==> stack == []
  {
    hide IsPieceOfHtml, Fold, TagsOf;
    assert done + [] == done;
  }

  /**
   * An HTML text is accepted exactly when it is made of comments, well-named tags, maximal runs of
   * text and the contents of script and style elements, and its tags nest as a forest of elements;
   * and what may be translated is every run that shows something, and nothing else. There is one way
   * at most to cut a text like that.
   */
  lemma HtmlIff(text: string, pieces: seq<Piece>)
    ensures HtmlDocument.Parse(text) == Ok(pieces) <==> text != "" && Concat(pieces) == text && IsHtml(pieces)
  {
    hide ParseFrom, Fold, Concat, RestFits, IsHtml;
    NothingPushed();
    ParseIff([], pieces, []);
    FitsWhole(pieces);
    if ParseFrom(text, [], 0) == Ok(pieces) {
      PiecesTile(text, [], 0);
    }
  }

  lemma NothingPushed()
    ensures Fold(TagsOf([]), []) == Some([]) && Matches([], RawAt([], 0))
  {
  }

  lemma FitsWhole(pieces: seq<Piece>)
    ensures RestFits([], pieces) <==> IsHtml(pieces)
  {
    hide Fold, IsForest, IsPieceOfHtml, TagsOf;
    var done: seq<Piece> := [];
    assert done + pieces == pieces && |done| == 0;
    EvenIffForest(TagsOf(pieces));
  }
}
