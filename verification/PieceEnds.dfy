/** Where the chunker ends a piece, said without its searches, and that no other cutting meets this. */
module PieceEnds {
  import opened Texts
  import opened Utf8
  import opened Chunking

  // ---------------------------------------------------------------------------------------------
  // What a piece may reach.

  /** The last character boundary within the limit; `start` itself when there is none behind it. */
  ghost predicate IsFloor(text: Text, max: nat, start: nat, floor: nat) {
    && start <= floor <= |text| && floor <= start + max
    && (floor == start || IsBoundary(text, floor))
    && forall at :: floor < at <= |text| && at <= start + max ==> !IsBoundary(text, at)
  }

  ghost predicate IsFirst(text: Text, token: Text, start: nat, at: nat) {
    && start <= at && OccursAt(text, token, at)
    && forall other :: start <= other < at ==> !OccursAt(text, token, other)
  }

  /** The first occurrence of the token behind `start` begins before `floor` and ends behind it. */
  ghost predicate Crosses(text: Text, token: Text, start: nat, floor: nat, at: nat) {
    at < floor < at + |token| && IsFirst(text, token, start, at)
  }

  /** The token with index `j` is the first of the list that crosses. */
  ghost predicate FirstCrossing(text: Text, tokens: seq<Text>, start: nat, floor: nat, j: nat, at: nat)
    requires j < |tokens|
  {
    && Crosses(text, tokens[j], start, floor, at)
    && forall i, other :: 0 <= i < j ==> !Crosses(text, tokens[i], start, floor, other)
  }

  /** How far the piece that starts at `start` may reach: to the floor, or to the token that crosses it. */
  ghost predicate Reaches(text: Text, tokens: seq<Text>, start: nat, floor: nat, reach: nat) {
    if exists j, at {:trigger Crosses(text, tokens[j], start, floor, at)} ::
         0 <= j < |tokens| && Crosses(text, tokens[j], start, floor, at)
    then exists j :: 0 <= j < |tokens| && FirstCrossing(text, tokens, start, floor, j, reach)
    else reach == floor
  }

  // ---------------------------------------------------------------------------------------------
  // Where phrases end.

  /** One character, from one boundary to the next. */
  ghost predicate IsChar(text: Text, from: nat, to: nat) {
    && from < to <= |text| && IsBoundary(text, from) && IsBoundary(text, to) && StartsWithChar(text[from..to])
    && forall at :: from < at < to ==> !IsBoundary(text, at)
  }

  /** White space, a line feed, or one of `. ! ?` and their full-width forms. */
  predicate ClosesPhrase(scalar: int) {
    || IsWhitespace(scalar)
    || scalar == '\n' as int || scalar == '.' as int || scalar == '!' as int || scalar == '?' as int
    || scalar == '\U{3002}' as int || scalar == '\U{FF01}' as int || scalar == '\U{FF1F}' as int
  }

  /** The character that ends at `to` closes a phrase. */
  ghost predicate PhraseEndsAt(text: Text, to: nat) {
    exists from: nat :: IsChar(text, from, to) && ClosesPhrase(Scalar(text[from..to]))
  }

  /** The piece ends behind the last phrase within reach, or at the reach when no phrase ends within it. */
  ghost predicate EndsWell(text: Text, max: nat, tokens: seq<Text>, start: nat, end: nat) {
    exists floor, reach ::
      && IsFloor(text, max, start, floor) && Reaches(text, tokens, start, floor, reach)
      && EndsWithin(text, start, reach, end)
  }

  ghost predicate EndsWithin(text: Text, start: nat, reach: nat, end: nat) {
    && start < end <= reach
    && (forall at :: end < at <= reach ==> !PhraseEndsAt(text, at))
    && (PhraseEndsAt(text, end) || (end == reach && forall at :: start < at <= reach ==> !PhraseEndsAt(text, at)))
  }

  lemma PhraseIsChar(text: Text, at: nat, to: nat)
    requires IsChar(text, at, to)
    ensures PhraseEndsAt(text, to) <==> EndsPhrase(Scalar(text[at..to]))
  {
    hide IsWhitespace, Scalar, StartsWithChar;
    forall from: nat | IsChar(text, from, to)
      ensures from == at
    {
      assert !(from < at < to) && !(at < from < to);
    }
  }

  lemma {:induction false} LastBreakIsLast(text: Text, at: nat, limit: nat, preferred: Option<nat>)
    requires at <= limit && Cuttable(text, at) && Cuttable(text, limit)
    ensures var found := LastBreak(text, at, limit, preferred);
            if exists to :: at < to <= limit && PhraseEndsAt(text, to)
            then found.Some? && at < found.value <= limit && PhraseEndsAt(text, found.value)
                 && forall to :: found.value < to <= limit ==> !PhraseEndsAt(text, to)
            else found == preferred
    decreases limit - at
  {
    hide IsUtf8, EndsPhrase, PhraseEndsAt, Scalar, CharLength;
    if at < limit {
      CharAt(text, at);
      var end := at + CharLength(text[at]);
      PhraseIsChar(text, at, end);
      forall to | at < to < end
        ensures !PhraseEndsAt(text, to)
      {
        NoPhraseInside(text, to);
      }
      LastBreakIsLast(text, end, limit, if EndsPhrase(Scalar(text[at..end])) then Some(end) else preferred);
    }
  }

  lemma NoPhraseInside(text: Text, to: nat)
    requires !IsBoundary(text, to)
    ensures !PhraseEndsAt(text, to)
  {
  }

  lemma BoundaryEndsWithin(text: Text, start: nat, limit: nat)
    requires start < limit && Cuttable(text, start) && Cuttable(text, limit)
    ensures EndsWithin(text, start, limit, SemanticBoundary(text, start, limit))
  {
    hide PhraseEndsAt, LastBreak, IsUtf8;
    LastBreakIsLast(text, start, limit, None);
  }

  // ---------------------------------------------------------------------------------------------
  // Pieces.

  lemma FloorIsFloor(text: Text, max: nat, start: nat)
    requires Cuttable(text, start)
    ensures IsFloor(text, max, start, FloorBoundary(text, start, Smaller(start + max, |text|)))
  {
    hide IsUtf8;
  }

  lemma FirstIsFound(text: Text, token: Text, start: nat, floor: nat)
    ensures Straddles(text, token, start, floor) <==> exists at: nat :: Crosses(text, token, start, floor, at)
    ensures forall at: nat :: Crosses(text, token, start, floor, at) ==> FindFrom(text, token, start) == Some(at)
    ensures Straddles(text, token, start, floor) ==> Crosses(text, token, start, floor, FindFrom(text, token, start).value)
  {
    hide OccursAt;
    forall at: nat | Crosses(text, token, start, floor, at)
      ensures FindFrom(text, token, start) == Some(at)
    {
      var found := FindFrom(text, token, start);
      assert found.Some?;
      assert !(found.value < at) && !(at < found.value);
    }
    if Straddles(text, token, start, floor) {
      assert Crosses(text, token, start, floor, FindFrom(text, token, start).value);
    }
  }

  lemma {:induction false} CrossingIsFirst(text: Text, tokens: seq<Text>, start: nat, floor: nat, i: nat)
    requires i <= |tokens|
    requires forall j, at: nat :: 0 <= j < i ==> !Crosses(text, tokens[j], start, floor, at)
    ensures var found := CrossingSpan(text, tokens, start, floor, i);
            if found.Some?
            then exists j :: 0 <= j < |tokens| && FirstCrossing(text, tokens, start, floor, j, found.value.start)
            else forall j, at: nat :: 0 <= j < |tokens| ==> !Crosses(text, tokens[j], start, floor, at)
    decreases |tokens| - i
  {
    hide Crosses, Straddles, OccursAt, FindFrom;
    if i < |tokens| {
      FirstIsFound(text, tokens[i], start, floor);
      if Straddles(text, tokens[i], start, floor) {
        var at := FindFrom(text, tokens[i], start).value;
        assert FirstCrossing(text, tokens, start, floor, i, at);
      } else {
        CrossingIsFirst(text, tokens, start, floor, i + 1);
      }
    }
  }

  /** The first piece of what is left ends as said. */
  lemma CutEndsWell(text: Text, max: nat, tokens: seq<Text>, start: nat)
    requires 0 < max && Cuttable(text, start) && start < |text| && AsciiTokens(tokens)
    requires CutAfter(text, max, tokens, start).Ok?
    ensures EndsWell(text, max, tokens, start, CutAfter(text, max, tokens, start).value)
  {
    hide IsUtf8, SemanticBoundary, AsciiTokens, FloorBoundary, CrossingSpan, Crosses, EndsWithin, IsFloor, FirstCrossing;
    var floor := FloorBoundary(text, start, Smaller(start + max, |text|));
    FloorIsFloor(text, max, start);
    CrossingIsFirst(text, tokens, start, floor, 0);
    var crossing := CrossingSpan(text, tokens, start, floor);
    var reach := if crossing.Some? then crossing.value.start else floor;
    if crossing.Some? {
      CrossingIsCuttable(text, tokens, start, floor);
      CrossingReaches(text, tokens, start, floor, reach);
    }
    assert Reaches(text, tokens, start, floor, reach);
    BoundaryEndsWithin(text, start, reach);
  }

  lemma CrossingReaches(text: Text, tokens: seq<Text>, start: nat, floor: nat, reach: nat)
    requires exists j :: 0 <= j < |tokens| && FirstCrossing(text, tokens, start, floor, j, reach)
    ensures Reaches(text, tokens, start, floor, reach)
  {
    hide Crosses;
  }

  /** Pieces of the text behind `start`, each ending as said. */
  ghost predicate AllEndWell(text: Text, max: nat, tokens: seq<Text>, start: nat, pieces: seq<Text>)
    decreases |pieces|
  {
    if pieces == [] then start == |text|
    else
      var end := start + |pieces[0]|;
      && end <= |text| && pieces[0] == text[start..end]
      && EndsWell(text, max, tokens, start, end)
      && AllEndWell(text, max, tokens, end, pieces[1..])
  }

  lemma {:induction false} SplitFromEndsWell(text: Text, max: nat, tokens: seq<Text>, start: nat)
    requires 0 < max && Cuttable(text, start) && AsciiTokens(tokens)
    requires SplitFrom(text, max, tokens, start).Ok?
    ensures AllEndWell(text, max, tokens, start, SplitFrom(text, max, tokens, start).value)
    decreases |text| - start
  {
    hide IsUtf8, AsciiTokens, CutAfter, EndsWell;
    if start < |text| {
      var end := CutAfter(text, max, tokens, start).value;
      CutEndsWell(text, max, tokens, start);
      SplitFromEndsWell(text, max, tokens, end);
      var rest := SplitFrom(text, max, tokens, end).value;
      assert ([text[start..end]] + rest)[1..] == rest;
    }
  }

  // ---------------------------------------------------------------------------------------------
  // There is no other such cutting.

  lemma FloorIsUnique(text: Text, max: nat, start: nat, a: nat, b: nat)
    requires IsFloor(text, max, start, a) && IsFloor(text, max, start, b)
    ensures a == b
  {
  }

  lemma FirstIsUnique(text: Text, token: Text, start: nat, floor: nat, a: nat, b: nat)
    requires Crosses(text, token, start, floor, a) && Crosses(text, token, start, floor, b)
    ensures a == b
  {
    hide OccursAt;
  }

  lemma ReachIsUnique(text: Text, tokens: seq<Text>, start: nat, floor: nat, a: nat, b: nat)
    requires Reaches(text, tokens, start, floor, a) && Reaches(text, tokens, start, floor, b)
    ensures a == b
  {
    hide Crosses;
    if exists j, at {:trigger Crosses(text, tokens[j], start, floor, at)} ::
         0 <= j < |tokens| && Crosses(text, tokens[j], start, floor, at) {
      var i :| 0 <= i < |tokens| && FirstCrossing(text, tokens, start, floor, i, a);
      var j :| 0 <= j < |tokens| && FirstCrossing(text, tokens, start, floor, j, b);
      assert !(i < j) && !(j < i);
      FirstIsUnique(text, tokens[i], start, floor, a, b);
    }
  }

  lemma EndIsUnique(text: Text, max: nat, tokens: seq<Text>, start: nat, a: nat, b: nat)
    requires EndsWell(text, max, tokens, start, a) && EndsWell(text, max, tokens, start, b)
    ensures a == b
  {
    hide IsFloor, Reaches, PhraseEndsAt;
    var f, r :| IsFloor(text, max, start, f) && Reaches(text, tokens, start, f, r) && EndsWithin(text, start, r, a);
    var g, q :| IsFloor(text, max, start, g) && Reaches(text, tokens, start, g, q) && EndsWithin(text, start, q, b);
    FloorIsUnique(text, max, start, f, g);
    ReachIsUnique(text, tokens, start, f, r, q);
  }

  lemma {:induction false} PiecesAreUnique(text: Text, max: nat, tokens: seq<Text>, start: nat, a: seq<Text>, b: seq<Text>)
    requires AllEndWell(text, max, tokens, start, a) && AllEndWell(text, max, tokens, start, b)
    ensures a == b
    decreases |a|
  {
    hide EndsWell;
    if a == [] {
      NothingBehind(text, max, tokens, start, b);
    } else if b == [] {
      NothingBehind(text, max, tokens, start, a);
    } else {
      EndIsUnique(text, max, tokens, start, start + |a[0]|, start + |b[0]|);
      PiecesAreUnique(text, max, tokens, start + |a[0]|, a[1..], b[1..]);
      assert a == [a[0]] + a[1..] && b == [b[0]] + b[1..];
    }
  }

  lemma NothingBehind(text: Text, max: nat, tokens: seq<Text>, start: nat, pieces: seq<Text>)
    requires start == |text| && AllEndWell(text, max, tokens, start, pieces)
    ensures pieces == []
  {
    hide IsFloor, Reaches, PhraseEndsAt;
  }

  /**
   * Every text longer than the limit: a successful split ends each piece behind the last phrase within
   * its reach, or at its reach when no phrase ends within it, and it is the only way to cut the text
   * that does. A text within the limit stays whole.
   */
  lemma PiecesEndAtPhrases(text: Text, max: nat, tokens: seq<Text>)
    requires IsUtf8(text) && AsciiTokens(tokens) && Split(text, max, tokens).Ok?
    ensures var pieces := Split(text, max, tokens).value;
            if |text| <= max then pieces == [text]
            else AllEndWell(text, max, tokens, 0, pieces) && forall other :: AllEndWell(text, max, tokens, 0, other) ==> other == pieces
  {
    hide IsUtf8, AsciiTokens, SplitFrom, AllEndWell;
    if |text| > max {
      var pieces := Split(text, max, tokens).value;
      StartIsCuttable(text);
      SplitFromEndsWell(text, max, tokens, 0);
      forall other | AllEndWell(text, max, tokens, 0, other)
        ensures other == pieces
      {
        PiecesAreUnique(text, max, tokens, 0, other, pieces);
      }
    }
  }

  lemma StartIsCuttable(text: Text)
    requires IsUtf8(text)
    ensures Cuttable(text, 0)
  {
  }
}
