/** What a successful split guarantees, and exactly when splitting succeeds. */
module Splitting {
  import opened Texts
  import opened Utf8
  import opened Chunking

  ghost predicate Once(text: Text, token: Text) {
    forall p, q :: OccursAt(text, token, p) && OccursAt(text, token, q) ==> p == q
  }

  ghost predicate Clear(text: Text, t: Text, u: Text) {
    forall p, q :: OccursAt(text, t, p) && OccursAt(text, u, q) ==> p + |t| <= q || q + |u| <= p
  }

  /** Each token occurs at most once, and occurrences of different tokens are disjoint. */
  ghost predicate Separate(text: Text, tokens: seq<Text>) {
    && (forall j {:trigger Once(text, tokens[j])} :: 0 <= j < |tokens| ==> Once(text, tokens[j]))
    && (forall i, j {:trigger Clear(text, tokens[i], tokens[j])} ::
          0 <= i < |tokens| && 0 <= j < |tokens| && i != j ==> Clear(text, tokens[i], tokens[j]))
  }

  /** Position `at` is not strictly inside an occurrence of a token. */
  ghost predicate Outside(text: Text, tokens: seq<Text>, at: nat) {
    forall j, p :: 0 <= j < |tokens| && OccursAt(text, tokens[j], p) ==> at <= p || p + |tokens[j]| <= at
  }

  /** Every token that occurs at all fits in a piece. */
  ghost predicate AllFit(text: Text, tokens: seq<Text>, max: nat) {
    forall j, p :: 0 <= j < |tokens| && OccursAt(text, tokens[j], p) ==> |tokens[j]| <= max
  }

  lemma StraddlerIsFound(text: Text, tokens: seq<Text>, start: nat, limit: nat, j: nat, p: int)
    requires j < |tokens| && Once(text, tokens[j]) && OccursAt(text, tokens[j], p)
    requires start <= p < limit < p + |tokens[j]|
    ensures Straddles(text, tokens[j], start, limit)
  {
    var found := FindFrom(text, tokens[j], start);
    assert OccursAt(text, tokens[j], found.value);
  }

  lemma InsideIsTokenByte(text: Text, tokens: seq<Text>, j: nat, p: int, at: nat)
    requires AsciiTokens(tokens) && j < |tokens| && OccursAt(text, tokens[j], p)
    requires p < at < p + |tokens[j]|
    ensures IsTokenByte(text[at - 1])
  {
    OccursBytes(text, tokens[j], p);
    assert text[p + (at - 1 - p)] == tokens[j][at - 1 - p];
  }

  /** Behind a break byte, and at the end of a limit outside all tokens, no token is cut. */
  lemma BreakIsOutside(text: Text, tokens: seq<Text>, at: nat)
    requires AsciiTokens(tokens) && IsBreak(text, at)
    ensures Outside(text, tokens, at)
  {
    forall j, p | 0 <= j < |tokens| && OccursAt(text, tokens[j], p)
      ensures at <= p || p + |tokens[j]| <= at
    {
      if p < at < p + |tokens[j]| {
        InsideIsTokenByte(text, tokens, j, p, at);
      }
    }
  }

  lemma UncrossedIsOutside(text: Text, tokens: seq<Text>, start: nat, limit: nat)
    requires Separate(text, tokens) && Outside(text, tokens, start) && start <= limit
    requires CrossingSpan(text, tokens, start, limit).None?
    ensures Outside(text, tokens, limit)
  {
    forall j, p | 0 <= j < |tokens| && OccursAt(text, tokens[j], p)
      ensures limit <= p || p + |tokens[j]| <= limit
    {
      assert Once(text, tokens[j]);
      if start <= p < limit < p + |tokens[j]| {
        StraddlerIsFound(text, tokens, start, limit, j, p);
      }
    }
  }

  lemma CrossedIsOutside(text: Text, tokens: seq<Text>, start: nat, limit: nat)
    requires Separate(text, tokens)
    requires CrossingSpan(text, tokens, start, limit).Some?
    ensures Outside(text, tokens, CrossingSpan(text, tokens, start, limit).value.start)
  {
    var at := CrossingSpan(text, tokens, start, limit).value.start;
    var i :| 0 <= i < |tokens| && OccursAt(text, tokens[i], at)
             && CrossingSpan(text, tokens, start, limit).value.end == at + |tokens[i]|;
    forall j, p | 0 <= j < |tokens| && OccursAt(text, tokens[j], p)
      ensures at <= p || p + |tokens[j]| <= at
    {
      assert Once(text, tokens[i]);
      assert i != j ==> Clear(text, tokens[i], tokens[j]);
    }
  }

  /** A piece is short enough and ends outside every token. */
  lemma CutIsClean(text: Text, max: nat, tokens: seq<Text>, start: nat)
    requires 0 < max && Cuttable(text, start) && start < |text| && AsciiTokens(tokens)
    requires Separate(text, tokens) && Outside(text, tokens, start)
    requires CutAfter(text, max, tokens, start).Ok?
    ensures var end := CutAfter(text, max, tokens, start).value;
            end - start <= max && Outside(text, tokens, end)
  {
    hide IsUtf8, SemanticBoundary, Separate, Outside, AsciiTokens, CrossingSpan;
    var limit := FloorBoundary(text, start, Smaller(start + max, |text|));
    var end := CutAfter(text, max, tokens, start).value;
    if IsBreak(text, end) {
      BreakIsOutside(text, tokens, end);
    } else if CrossingSpan(text, tokens, start, limit).Some? {
      CrossedIsOutside(text, tokens, start, limit);
    } else {
      UncrossedIsOutside(text, tokens, start, limit);
    }
  }

  /** With room for the widest character, a piece can be cut unless a token is too long. */
  lemma CutSucceeds(text: Text, max: nat, tokens: seq<Text>, start: nat)
    requires 4 <= max && Cuttable(text, start) && start < |text| && AsciiTokens(tokens)
    requires AllFit(text, tokens, max)
    ensures CutAfter(text, max, tokens, start).Ok?
  {
    hide IsUtf8, SemanticBoundary;
    var top := Smaller(start + max, |text|);
    var limit := FloorBoundary(text, start, top);
    CharAt(text, start);
    var next := start + CharLength(text[start]);
    assert IsBoundary(text, next) && next <= top;
    assert start < limit;
    if CrossingSpan(text, tokens, start, limit).Some? {
      var range := CrossingSpan(text, tokens, start, limit).value;
      var j :| 0 <= j < |tokens| && OccursAt(text, tokens[j], range.start) && range.end == range.start + |tokens[j]|;
      TokenBoundaries(text, tokens[j], range.start);
    }
  }

  /** Consecutive pieces of `text`, none empty, too long or ill-formed, none cutting a token. */
  ghost predicate CleanPieces(text: Text, max: nat, tokens: seq<Text>, pieces: seq<Text>)
    decreases |pieces|
  {
    if pieces == [] then text == []
    else
      && 0 < |pieces[0]| <= max
      && IsUtf8(pieces[0])
      && |pieces[0]| <= |text| && text[..|pieces[0]|] == pieces[0]
      && Outside(text, tokens, |pieces[0]|)
      && CleanPieces(text[|pieces[0]|..], max, tokens, pieces[1..])
  }

  lemma OutsideTail(text: Text, tokens: seq<Text>, start: nat, at: nat)
    requires start <= at <= |text| && Outside(text, tokens, at)
    ensures Outside(text[start..], tokens, at - start)
  {
    var tail := text[start..];
    assert tail == text[start..|text|];
    forall j, p | 0 <= j < |tokens| && OccursAt(tail, tokens[j], p)
      ensures at - start <= p || p + |tokens[j]| <= at - start
    {
      OccursInSlice(text, start, |text|, tokens[j], p);
    }
  }

  lemma {:induction false} SplitFromIsClean(text: Text, max: nat, tokens: seq<Text>, start: nat)
    requires 0 < max && Cuttable(text, start) && AsciiTokens(tokens)
    requires Separate(text, tokens) && Outside(text, tokens, start)
    ensures SplitFrom(text, max, tokens, start).Ok? ==>
              CleanPieces(text[start..], max, tokens, SplitFrom(text, max, tokens, start).value)
    decreases |text| - start
  {
    hide IsUtf8, Separate, Outside, AsciiTokens, CutAfter, CleanPieces;
    if SplitFrom(text, max, tokens, start).Ok? {
      if start == |text| {
        NoPieceIsClean(text[start..], max, tokens);
      } else {
        var end := CutAfter(text, max, tokens, start).value;
        CutIsClean(text, max, tokens, start);
        SplitFromIsClean(text, max, tokens, end);
        SliceUtf8(text, start, end);
        OutsideTail(text, tokens, start, end);
        FirstPieceIsClean(text, max, tokens, start, end, SplitFrom(text, max, tokens, end).value);
      }
    }
  }

  lemma NoPieceIsClean(text: Text, max: nat, tokens: seq<Text>)
    requires text == []
    ensures CleanPieces(text, max, tokens, [])
  {
  }

  lemma FirstPieceIsClean(text: Text, max: nat, tokens: seq<Text>, start: nat, end: nat, rest: seq<Text>)
    requires start < end <= |text| && end - start <= max && IsUtf8(text[start..end])
    requires Outside(text[start..], tokens, end - start) && CleanPieces(text[end..], max, tokens, rest)
    ensures CleanPieces(text[start..], max, tokens, [text[start..end]] + rest)
  {
    hide IsUtf8, Outside;
    assert text[start..][..end - start] == text[start..end];
    assert text[start..][end - start..] == text[end..];
    assert ([text[start..end]] + rest)[1..] == rest;
  }

  lemma {:induction false} SplitFromSucceeds(text: Text, max: nat, tokens: seq<Text>, start: nat)
    requires 4 <= max && Cuttable(text, start) && AsciiTokens(tokens)
    requires AllFit(text, tokens, max)
    ensures SplitFrom(text, max, tokens, start).Ok?
    decreases |text| - start
  {
    hide IsUtf8, AllFit, AsciiTokens, CutAfter;
    if start < |text| {
      CutSucceeds(text, max, tokens, start);
      SplitFromSucceeds(text, max, tokens, CutAfter(text, max, tokens, start).value);
    }
  }

  /** A token that is not cut lies within one piece, so it is no longer than a piece may be. */
  lemma {:induction false} UncutTokensFit(text: Text, max: nat, tokens: seq<Text>, pieces: seq<Text>, j: nat, p: nat)
    requires CleanPieces(text, max, tokens, pieces)
    requires j < |tokens| && tokens[j] != [] && OccursAt(text, tokens[j], p)
    ensures |tokens[j]| <= max
    decreases |pieces|
  {
    if pieces != [] {
      var n := |pieces[0]|;
      if n <= p {
        assert text[n..] == text[n..|text|];
        OccursWithin(text, n, |text|, tokens[j], p);
        UncutTokensFit(text[n..], max, tokens, pieces[1..], j, p - n);
      }
    }
  }

  /**
   * For a text longer than the limit and a limit of at least one full character: the split
   * succeeds if and only if every token that occurs fits in a piece. The pieces of a successful
   * split, at any limit, are non-empty, at most the limit, UTF-8, joined together the text, and
   * cut no token.
   */
  lemma SplitIsExact(text: Text, max: nat, tokens: seq<Text>)
    requires IsUtf8(text) && AsciiTokens(tokens) && Separate(text, tokens) && text != []
    ensures Split(text, max, tokens).Ok? ==> CleanPieces(text, max, tokens, Split(text, max, tokens).value)
    ensures 4 <= max ==> (Split(text, max, tokens).Ok? <==> AllFit(text, tokens, max))
  {
    var pieces := Split(text, max, tokens);
    if |text| <= max {
      if 0 < max {
        assert text[|text|..] == [] && pieces.value[1..] == [];
      }
    } else if 0 < max {
      assert text[0..] == text;
      SplitFromIsCleanAtStart(text, max, tokens);
      if 4 <= max && AllFit(text, tokens, max) {
        SplitFromSucceeds(text, max, tokens, 0);
      }
      if pieces.Ok? {
        forall j, p | 0 <= j < |tokens| && OccursAt(text, tokens[j], p)
          ensures |tokens[j]| <= max
        {
          UncutTokensFit(text, max, tokens, pieces.value, j, p);
        }
      }
    }
  }

  lemma SplitFromIsCleanAtStart(text: Text, max: nat, tokens: seq<Text>)
    requires 0 < max && IsUtf8(text) && AsciiTokens(tokens) && Separate(text, tokens)
    ensures SplitFrom(text, max, tokens, 0).Ok? ==> CleanPieces(text, max, tokens, SplitFrom(text, max, tokens, 0).value)
  {
    assert text[0..] == text;
    if SplitFrom(text, max, tokens, 0).Ok? {
      SplitFromIsClean(text, max, tokens, 0);
    }
  }
}
