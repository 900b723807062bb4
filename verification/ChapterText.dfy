/** Which chapters are accepted and what is visible in them, said over the pieces of the text. */
module ChapterText {
  import opened Texts
  import opened Strings
  import opened Tags
  import opened TagShapes
  import opened XmlText
  import Ooxml
  import opened Xhtml
  import opened XhtmlRebuilding
  import opened Nesting

  /** Neither a comment nor a declaration nor a processing instruction. */
  predicate IsElementTag(raw: string) {
    |raw| >= 2 && raw[0] == '<' && raw[1] != '!' && raw[1] != '?'
  }

  function TagOf(raw: string): Tag {
    if !IsElementTag(raw) then Neutral
    else
      match Ooxml.ElementName(raw)
      case None => Neutral
      case Some(name) =>
        if raw[1] == '/' then Closing(LowerCase(name))
        else if raw[|raw| - 2..] == "/>" then Neutral
        else Opening(LowerCase(name))
  }

  function TagsOf(pieces: seq<Piece>): (tags: seq<Tag>)
    ensures |tags| == |pieces|
  {
    seq(|pieces|, k requires 0 <= k < |pieces| => TagOf(pieces[k].raw))
  }

  /** Piece `k` lies inside a script or a style element. */
  ghost predicate IsConcealed(pieces: seq<Piece>, k: nat)
    requires k <= |pieces|
  {
    exists j: nat :: j < k && Nesting.Inside(TagsOf(pieces), j, k) &&
                     (TagsOf(pieces)[j] == Opening("script") || TagsOf(pieces)[j] == Opening("style"))
  }

  /** Text runs are maximal and readable; a run is visible unless it is concealed or shows nothing. */
  ghost predicate IsPieceOfChapter(pieces: seq<Piece>, k: nat)
    requires k < |pieces|
  {
    var raw, visible := pieces[k].raw, pieces[k].visible;
    if IsRun(raw) then
      && (k + 1 < |pieces| ==> !IsRun(pieces[k + 1].raw))
      && (IsConcealed(pieces, k) ==> !visible)
      && (!IsConcealed(pieces, k) ==> Unescape(raw).Some? && (visible <==> IsShown(raw)))
    else
      IsMarkup(raw) && !visible && (IsElementTag(raw) ==> Count(pieces[..k]) <= MAX_SEGMENTS)
  }

  ghost predicate IsChapter(pieces: seq<Piece>) {
    && (forall k | 0 <= k < |pieces| :: IsPieceOfChapter(pieces, k))
    && IsForest(TagsOf(pieces))
  }

  // One token

  /** What a piece must be for the scanner to take it, with these elements open and so many spans found. */
  predicate Fits(raw: string, visible: bool, stack: seq<string>, spans: nat) {
    if IsRun(raw) then
      && (IsHidden(stack) ==> !visible)
      && (!IsHidden(stack) ==> Unescape(raw).Some? && (visible <==> IsShown(raw)))
    else
      IsMarkup(raw) && !visible && (IsElementTag(raw) ==> spans <= MAX_SEGMENTS)
  }

  /** The scanner takes a piece, and no other, exactly when the piece fits and its tag does. */
  lemma StepIff(raw: string, visible: bool, tail: string, stack: seq<string>, next: seq<string>, spans: nat)
    requires raw != "" && (IsRun(raw) ==> tail == "" || tail[0] == '<')
    ensures NextStep(raw + tail, stack, spans) == Some(Step(|raw|, next, visible)) <==>
              Fits(raw, visible, stack, spans) && Push(TagOf(raw), stack) == Some(next)
  {
    hide MarkupStep, TextStep, Push, TagOf;
    var s := raw + tail;
    assert s[0] == raw[0];
    if IsRun(raw) {
      assert raw[0] in raw;
      RunStep(raw, tail, stack);
      RunIsNeutral(raw, stack);
    } else if raw[0] == '<' {
      MarkupStepIff(raw, visible, tail, stack, next, spans);
    } else {
      NoRun(raw, tail, stack);
    }
  }

  lemma RunIsNeutral(raw: string, stack: seq<string>)
    requires IsRun(raw)
    ensures Push(TagOf(raw), stack) == Some(stack)
  {
    assert raw[0] in raw;
  }

  lemma RunStep(raw: string, tail: string, stack: seq<string>)
    requires IsRun(raw) && (tail == "" || tail[0] == '<')
    requires (raw + tail)[0] != '<'
    ensures TextStep(raw + tail, stack) ==
              if IsHidden(stack) then Some(Step(|raw|, stack, false))
              else if Unescape(raw).None? then None else Some(Step(|raw|, stack, IsShown(raw)))
  {
    hide Unescape, IsHidden, IsBlankText;
    RunEndsThere(raw, tail);
    assert (raw + tail)[..|raw|] == raw;
  }

  lemma NoRun(raw: string, tail: string, stack: seq<string>)
    requires raw != "" && raw[0] != '<' && !IsRun(raw)
    ensures TextStep(raw + tail, stack).Some? ==> TextStep(raw + tail, stack).value.length != |raw|
  {
    hide Unescape, IsHidden, IsBlankText;
    var s := raw + tail;
    var k :| 0 <= k < |raw| && raw[k] == '<';
    assert s[k] == '<';
  }

  lemma MarkupStepIff(raw: string, visible: bool, tail: string, stack: seq<string>, next: seq<string>, spans: nat)
    requires raw != "" && raw[0] == '<'
    ensures MarkupStep(raw + tail, stack, spans) == Some(Step(|raw|, next, visible)) <==>
              IsMarkup(raw) && !visible && (IsElementTag(raw) ==> spans <= MAX_SEGMENTS) && Push(TagOf(raw), stack) == Some(next)
  {
    hide AfterElement, Push, TagOf, IsMarkup;
    var s := raw + tail;
    assert s[..|raw|] == raw && raw[..|raw|] == raw && s[0] == raw[0];
    MarkupAlone(raw, stack, next, visible, spans);
    if MarkupStep(raw, stack, spans) == Some(Step(|raw|, next, visible)) {
      MarkupIsLocal(raw, stack, spans, s);
    }
    if MarkupStep(s, stack, spans) == Some(Step(|raw|, next, visible)) {
      MarkupIsLocal(s, stack, spans, raw);
    }
  }

  lemma MarkupAlone(raw: string, stack: seq<string>, next: seq<string>, visible: bool, spans: nat)
    requires raw != "" && raw[0] == '<'
    ensures MarkupStep(raw, stack, spans) == Some(Step(|raw|, next, visible)) <==>
              IsMarkup(raw) && !visible && (IsElementTag(raw) ==> spans <= MAX_SEGMENTS) && Push(TagOf(raw), stack) == Some(next)
  {
    hide AfterElement, Push, TagOf;
    assert raw[..|raw|] == raw;
    if StartsWith(raw, "<!--") {
      assert raw[1] == raw[..4][1];
      NeutralStays(raw, stack);
    } else if TagEnd(raw, 1, None) == Some(|raw|) {
      assert |raw| >= 2;
      if IsElementTag(raw) {
        ElementPushes(raw, stack);
      } else {
        NeutralStays(raw, stack);
      }
    }
  }

  lemma NeutralStays(raw: string, stack: seq<string>)
    requires !IsElementTag(raw)
    ensures Push(TagOf(raw), stack) == Some(stack)
  {
  }

  lemma ElementPushes(raw: string, stack: seq<string>)
    requires IsElementTag(raw)
    ensures AfterElement(raw, stack) == Push(TagOf(raw), stack)
  {
    assert raw[..2] == [raw[0], raw[1]];
    assert Ooxml.IsClosing(raw) <==> raw[1] == '/';
  }

  // All tokens

  lemma TagsJoin(a: seq<Piece>, b: seq<Piece>)
    ensures TagsOf(a + b) == TagsOf(a) + TagsOf(b)
  {
    hide TagOf;
  }

  lemma CountJoins(a: seq<Piece>, last: Piece)
    ensures Count(a + [last]) == Count(a) + if last.visible then 1 else 0
  {
    if a == [] {
      assert [] + [last] == [last] && [last][1..] == [];
    } else {
      CountJoins(a[1..], last);
      assert (a + [last])[1..] == a[1..] + [last];
    }
  }

  /** The open elements at piece `k`, and whether script or style is among them. */
  lemma ConcealedIffHidden(pieces: seq<Piece>, k: nat, stack: seq<string>)
    requires k <= |pieces| && Fold(TagsOf(pieces[..k]), []) == Some(stack)
    ensures IsConcealed(pieces, k) <==> IsHidden(stack)
  {
    hide Fold, Nesting.Inside, TagOf;
    var tags := TagsOf(pieces);
    assert tags[..k] == TagsOf(pieces[..k]);
    StackIffInside(tags, k, stack, "script");
    StackIffInside(tags, k, stack, "style");
    assert IsHidden(stack) <==> "script" in stack || "style" in stack;
  }

  /** The piece behind those already scanned is the piece that the scanner takes there. */
  lemma PieceIff(done: seq<Piece>, piece: Piece, rest: seq<Piece>, stack: seq<string>)
    requires Fold(TagsOf(done), []) == Some(stack)
    ensures var all := done + [piece] + rest;
            IsPieceOfChapter(all, |done|) <==>
              Fits(piece.raw, piece.visible, stack, Count(done)) &&
              (IsRun(piece.raw) && rest != [] ==> !IsRun(rest[0].raw))
  {
    hide Fold, IsConcealed, IsHidden, IsMarkup, Count, IsElementTag, Unescape, IsShown, TagOf;
    var all := done + [piece] + rest;
    assert all[..|done|] == done && all[|done|] == piece;
    assert rest != [] ==> all[|done| + 1] == rest[0];
    ConcealedIffHidden(all, |done|, stack);
  }

  ghost predicate RestFits(done: seq<Piece>, rest: seq<Piece>) {
    var all := done + rest;
    && (forall k | |done| <= k < |all| :: IsPieceOfChapter(all, k))
    && Fold(TagsOf(all), []) == Some([])
  }

  lemma RestFitsStep(done: seq<Piece>, piece: Piece, rest: seq<Piece>)
    ensures RestFits(done, [piece] + rest) <==>
              IsPieceOfChapter(done + [piece] + rest, |done|) && RestFits(done + [piece], rest)
  {
    hide IsPieceOfChapter, Fold, TagsOf;
    assert done + ([piece] + rest) == done + [piece] + rest;
  }

  lemma FoldsOn(done: seq<Piece>, rest: seq<Piece>, stack: seq<string>)
    requires Fold(TagsOf(done), []) == Some(stack)
    ensures Fold(TagsOf(done + rest), []) == Fold(TagsOf(rest), stack)
    ensures rest != [] ==> Fold(TagsOf(done + [rest[0]]), []) == Push(TagOf(rest[0].raw), stack)
    ensures rest != [] && Push(TagOf(rest[0].raw), stack).None? ==> Fold(TagsOf(done + rest), []).None?
  {
    hide Fold, Push, TagOf;
    TagsJoin(done, rest);
    FoldJoins(TagsOf(done), TagsOf(rest), []);
    if rest != [] {
      TagsJoin(done, [rest[0]]);
      assert TagsOf([rest[0]]) == [TagOf(rest[0].raw)];
      FoldLast(TagsOf(done), TagOf(rest[0].raw), []);
      assert TagsOf(rest) == [TagOf(rest[0].raw)] + TagsOf(rest[1..]);
      FoldStep(TagOf(rest[0].raw), TagsOf(rest[1..]), stack);
    }
  }

  lemma ScanTakes(piece: Piece, tail: string, others: seq<Piece>, stack: seq<string>, spans: nat)
    requires piece.raw != ""
    ensures var s := piece.raw + tail;
            Scan(s, stack, spans) == Some([piece] + others) <==>
              && NextStep(s, stack, spans).Some?
              && var step := NextStep(s, stack, spans).value;
                 && step == Step(|piece.raw|, step.stack, piece.visible)
                 && Scan(tail, step.stack, spans + if piece.visible then 1 else 0) == Some(others)
  {
    hide NextStep, Scan;
    var s := piece.raw + tail;
    if Scan(s, stack, spans).Some? {
      ScanSplits(s, stack, spans);
      var step := NextStep(s, stack, spans).value;
      var rest := Scan(s[step.length..], step.stack, spans + if step.visible then 1 else 0).value;
      if Scan(s, stack, spans) == Some([piece] + others) {
        assert ([Piece(s[..step.length], step.visible)] + rest)[0] == ([piece] + others)[0] == piece;
        assert ([Piece(s[..step.length], step.visible)] + rest)[1..] == rest && ([piece] + others)[1..] == others;
        assert s[step.length..] == tail;
      }
    }
    if NextStep(s, stack, spans).Some? && NextStep(s, stack, spans).value.length == |piece.raw| {
      var step := NextStep(s, stack, spans).value;
      assert s[..step.length] == piece.raw && s[step.length..] == tail;
      if Scan(tail, step.stack, spans + if step.visible then 1 else 0) == Some(others) {
        ScanJoins(s, stack, spans, step, tail, others);
      }
    }
  }

  /** Two runs in a row are one, so that no cut lies between them. */
  predicate IsBadFront(piece: Piece, tail: string) {
    piece.raw == "" || (IsRun(piece.raw) && tail != "" && tail[0] != '<')
  }

  lemma RunGoesOn(raw: string, tail: string, stack: seq<string>, spans: nat)
    requires IsRun(raw) && tail != "" && tail[0] != '<'
    ensures NextStep(raw + tail, stack, spans).Some? ==> NextStep(raw + tail, stack, spans).value.length != |raw|
  {
    hide Unescape, IsHidden, IsBlankText, MarkupStep;
    var s := raw + tail;
    assert s[0] == raw[0] && raw[0] in raw;
    assert s[|raw|] == tail[0];
  }

  lemma {:induction false} BadFrontIsNotScanned(piece: Piece, others: seq<Piece>, stack: seq<string>, spans: nat)
    requires IsBadFront(piece, Concat(others))
    ensures Scan(piece.raw + Concat(others), stack, spans) != Some([piece] + others)
  {
    hide NextStep, Scan, Concat;
    var tail := Concat(others);
    var s := piece.raw + tail;
    if piece.raw != "" {
      ScanTakes(piece, tail, others, stack, spans);
      RunGoesOn(piece.raw, tail, stack, spans);
    } else if s == "" {
      ScanNothing(stack, spans);
    } else if Scan(s, stack, spans).Some? {
      ScanSplits(s, stack, spans);
      var step := NextStep(s, stack, spans).value;
      assert s[..step.length] != "";
      assert ([piece] + others)[0] == piece;
    }
  }

  lemma BadFrontDoesNotFit(done: seq<Piece>, piece: Piece, others: seq<Piece>)
    requires IsBadFront(piece, Concat(others))
    ensures !RestFits(done, [piece] + others)
  {
    hide Fold, IsConcealed, Count, IsElementTag, Unescape, IsShown, TagsOf;
    var all := done + ([piece] + others);
    assert all[|done|] == piece;
    if piece.raw == "" {
      assert !IsPieceOfChapter(all, |done|);
    } else if others != [] {
      assert all[|done| + 1] == others[0];
      assert others[0].raw != "" ==> Concat(others)[0] == others[0].raw[0];
      assert !(IsPieceOfChapter(all, |done|) && IsPieceOfChapter(all, |done| + 1));
    }
  }

  lemma NothingFits(done: seq<Piece>, stack: seq<string>)
    requires Fold(TagsOf(done), []) == Some(stack)
    ensures RestFits(done, []) <==> stack == []
  {
    hide IsPieceOfChapter, Fold, TagsOf;
    assert done + [] == done;
  }

  /** The scanner cuts the text into exactly these pieces if and only if they fit behind those before them. */
  lemma {:induction false} ScanIff(done: seq<Piece>, rest: seq<Piece>, stack: seq<string>)
    requires Fold(TagsOf(done), []) == Some(stack)
    ensures Scan(Concat(rest), stack, Count(done)) == Some(rest) <==> RestFits(done, rest)
    decreases |rest|
  {
    hide Scan, NextStep, Fold, TagsOf, TagOf, Push, IsPieceOfChapter, RestFits, Concat, Count, IsBadFront, Fits;
    if rest == [] {
      ScanNothing(stack, Count(done));
      NothingFits(done, stack);
    } else {
      var piece, others := rest[0], rest[1..];
      assert rest == [piece] + others;
      ConcatSplits(piece, others);
      if IsBadFront(piece, Concat(others)) {
        BadFrontIsNotScanned(piece, others, stack, Count(done));
        BadFrontDoesNotFit(done, piece, others);
      } else {
        FoldsOn(done, rest, stack);
        RestFitsStep(done, piece, others);
        GoodFront(done, piece, others, stack);
        var next := Push(TagOf(piece.raw), stack);
        if next.Some? {
          CountJoins(done, piece);
          ScanIff(done + [piece], others, next.value);
        } else {
          PushedOut(done, rest, stack);
        }
      }
    }
  }

  lemma PushedOut(done: seq<Piece>, rest: seq<Piece>, stack: seq<string>)
    requires Fold(TagsOf(done + rest), []).None?
    ensures !RestFits(done, rest)
  {
    hide Fold, TagsOf, IsPieceOfChapter;
  }

  /** The piece is taken exactly when it fits there and its tag does. */
  lemma GoodFront(done: seq<Piece>, piece: Piece, others: seq<Piece>, stack: seq<string>)
    requires Fold(TagsOf(done), []) == Some(stack) && !IsBadFront(piece, Concat(others))
    ensures var next := Push(TagOf(piece.raw), stack);
            Scan(piece.raw + Concat(others), stack, Count(done)) == Some([piece] + others) <==>
              && IsPieceOfChapter(done + [piece] + others, |done|)
              && next.Some?
              && Scan(Concat(others), next.value, Count(done) + if piece.visible then 1 else 0) == Some(others)
  {
    hide Scan, NextStep, Fold, TagsOf, TagOf, Push, IsPieceOfChapter, Fits, Count;
    var tail := Concat(others);
    ScanTakes(piece, tail, others, stack, Count(done));
    PieceIff(done, piece, others, stack);
    GoodStep(piece, tail, stack, Count(done));
    if IsRun(piece.raw) && others != [] {
      RunInFront(piece, others);
    }
  }

  lemma RunInFront(piece: Piece, others: seq<Piece>)
    requires !IsBadFront(piece, Concat(others)) && IsRun(piece.raw) && others != []
    ensures !IsRun(others[0].raw)
  {
  }

  lemma GoodStep(piece: Piece, tail: string, stack: seq<string>, spans: nat)
    requires !IsBadFront(piece, tail)
    ensures var step, next := NextStep(piece.raw + tail, stack, spans), Push(TagOf(piece.raw), stack);
            step.Some? && step.value == Step(|piece.raw|, step.value.stack, piece.visible) <==>
              Fits(piece.raw, piece.visible, stack, spans) && next.Some?
    ensures var step, next := NextStep(piece.raw + tail, stack, spans), Push(TagOf(piece.raw), stack);
            step.Some? && step.value == Step(|piece.raw|, step.value.stack, piece.visible) ==> next == Some(step.value.stack)
  {
    hide NextStep, TagOf, Push, Fits;
    var step, next := NextStep(piece.raw + tail, stack, spans), Push(TagOf(piece.raw), stack);
    if next.Some? {
      StepIff(piece.raw, piece.visible, tail, stack, next.value, spans);
    }
    if step.Some? {
      StepIff(piece.raw, piece.visible, tail, stack, step.value.stack, spans);
    }
  }

  lemma {:induction false} ScanTiles(s: string, stack: seq<string>, spans: nat)
    requires Scan(s, stack, spans).Some?
    ensures Concat(Scan(s, stack, spans).value) == s
    decreases |s|
  {
    hide Scan, NextStep, Concat;
    if s == "" {
      ScanNothing(stack, spans);
    } else {
      ScanSplits(s, stack, spans);
      var step := NextStep(s, stack, spans).value;
      var more := spans + if step.visible then 1 else 0;
      ScanTiles(s[step.length..], step.stack, more);
      ConcatSplits(Piece(s[..step.length], step.visible), Scan(s[step.length..], step.stack, more).value);
    }
  }

  /**
   * A chapter is accepted exactly when it is made of comments, tags and maximal runs of text, its tags
   * nest as a forest of elements, its visible text can be read and there is not too much of it; and
   * the visible pieces are the runs outside script and style elements that show something. There is
   * one way at most to cut a text like that.
   */
  lemma ChapterIff(xml: string, accepts: string -> bool, pieces: seq<Piece>)
    ensures Parse(xml, accepts) == Some(pieces) <==>
              accepts(xml) && xml != "" && '\0' !in xml && Concat(pieces) == xml && IsChapter(pieces)
  {
    hide Scan, Fold, Concat, IsPieceOfChapter, RestFits, Count, TagOf;
    NothingPushed();
    ScanIff([], pieces, []);
    FitsWhole(pieces);
    if Scan(xml, [], 0) == Some(pieces) {
      ScanTiles(xml, [], 0);
    }
    ParseScans(xml, accepts);
  }

  lemma ParseScans(xml: string, accepts: string -> bool)
    ensures Parse(xml, accepts) == if accepts(xml) && xml != "" && '\0' !in xml then Scan(xml, [], 0) else None
  {
    hide Scan;
  }

  lemma FitsWhole(pieces: seq<Piece>)
    ensures RestFits([], pieces) <==> IsChapter(pieces)
  {
    hide Fold, IsForest, IsPieceOfChapter, TagsOf;
    var done: seq<Piece> := [];
    assert done + pieces == pieces && |done| == 0;
    EvenIffForest(TagsOf(pieces));
  }

  lemma NothingPushed()
    ensures Fold(TagsOf([]), []) == Some([]) && Count([]) == 0
  {
  }
}
