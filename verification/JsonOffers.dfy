/** What a JSON job offers: the value literals whose paths are selected, as the tree of the text has them. */
module JsonOffers {
  import opened Texts
  import opened JsonDocument
  import opened JsonRebuilding
  import opened JsonParsing
  import opened JsonTree
  import opened JsonTreeReading
  import opened JsonJobs

  /** The value literals with a selected path. */
  function Selected(leaves: seq<Leaf>, selected: Path -> bool): seq<string> {
    if leaves == [] then []
    else (if !leaves[0].isKey && selected(leaves[0].path) then [leaves[0].raw] else []) + Selected(leaves[1..], selected)
  }

  lemma SelectedFront(leaf: Leaf, rest: seq<Leaf>, selected: Path -> bool)
    ensures Selected([leaf] + rest, selected)
         == (if !leaf.isKey && selected(leaf.path) then [leaf.raw] else []) + Selected(rest, selected)
  {
    assert ([leaf] + rest)[1..] == rest;
  }

  lemma ChosenFront(text: string, token: Token, rest: seq<Token>, from: nat, selected: Path -> bool)
    requires InOrder([token] + rest, from, |text|)
    ensures from <= token.start < token.end <= |text| && InOrder(rest, token.end, |text|)
    ensures Chosen(text, [token] + rest, from, selected)
         == (if !token.isKey && selected(token.path) then [text[token.start..token.end]] else [])
            + Chosen(text, rest, token.end, selected)
  {
    OrderedFit([token] + rest, from, |text|);
    assert ([token] + rest)[1..] == rest;
  }

  lemma {:induction false} ChosenAreLeaves(text: string, pieces: seq<Piece>, at: nat, from: nat, selected: Path -> bool)
    requires from <= at <= |text| && text[at..] == Concat(pieces) && InOrder(TokensOf(pieces, at), from, |text|)
    ensures Chosen(text, TokensOf(pieces, at), from, selected) == Selected(LeavesOf(pieces), selected)
    decreases |pieces|
  {
    hide Concat, TokensOf, InOrder, Chosen, Selected, LeavesOf;
    if pieces == [] {
      NothingChosen(text, at, from, selected);
    } else {
      var piece, rest := pieces[0], pieces[1..];
      var end := at + |piece.raw|;
      assert pieces == [piece] + rest;
      PieceInFront(text, piece, rest, at);
      TokensSplit(piece, rest, at);
      LeavesFront(piece, rest);
      if piece.Str? {
        var token := Token(at, end, piece.path, piece.isKey);
        ChosenFront(text, token, TokensOf(rest, end), from, selected);
        SelectedFront(Leaf(piece.raw, piece.path, piece.isKey), LeavesOf(rest), selected);
        ChosenAreLeaves(text, rest, end, end, selected);
      } else {
        assert TokensOf(pieces, at) == TokensOf(rest, end) && LeavesOf(pieces) == LeavesOf(rest);
        ChosenAreLeaves(text, rest, end, from, selected);
      }
    }
  }

  lemma NothingChosen(text: string, at: nat, from: nat, selected: Path -> bool)
    requires InOrder(TokensOf([], at), from, |text|)
    ensures Chosen(text, TokensOf([], at), from, selected) == Selected(LeavesOf([]), selected)
  {
  }

  /** The segments that a job over `text` offers are the tree's literals with a selected path, in order. */
  lemma JobOffersSelected(text: string, fits: string -> bool, selected: Path -> bool, n: Node)
    requires IsTextOf(text, n, fits)
    ensures JsonDocument.Parse(text, fits).Some?
    ensures var tokens := TokensOf(JsonDocument.Parse(text, fits).value, 0);
            && InOrder(tokens, 0, |text|)
            && SourceText(SegmentsFrom(text, tokens, 0, selected)) == text
            && Offered(SegmentsFrom(text, tokens, 0, selected)) == Selected(Leaves(n, []), selected)
  {
    hide JsonDocument.Parse, IsTextOf, Leaves, Selected, Chosen, InOrder, SegmentsFrom, SourceText, Offered;
    TextIsRead(text, n, fits);
    var pieces := JsonDocument.Parse(text, fits).value;
    ParsedTokensInOrder(text, fits);
    TranslationKeepsTokens(text, fits, seq(|pieces|, _ => None));
    assert text[0..] == text;
    SegmentsHoldText(text, TokensOf(pieces, 0), 0, selected);
    ChosenAreLeaves(text, pieces, 0, 0, selected);
  }
}
