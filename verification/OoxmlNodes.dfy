/** Which stretches of an OOXML part are text nodes, and in which cell or shared string each stands. */
module OoxmlNodes {
  import opened Texts
  import opened Strings
  import opened Tags
  import opened Ooxml
  import opened OoxmlRebuilding
  import TagShapes

  /** Text without markup, and one tag behind it. */
  predicate IsTagged(raw: string) {
    '<' in raw && TagEnd(raw, IndexOf(raw, '<', 0).value + 1, None) == Some(|raw|)
  }

  function TagIn(raw: string): (tag: string)
    requires '<' in raw
    ensures 0 < |tag| <= |raw| && tag[0] == '<' && raw == raw[..|raw| - |tag|] + tag && '<' !in raw[..|raw| - |tag|]
  {
    var at := IndexOf(raw, '<', 0).value;
    assert raw == raw[..at] + raw[at..];
    raw[at..]
  }

  /** The piece ends with a tag of this name. */
  predicate HasTag(piece: Piece, name: string) {
    piece.Markup? && '<' in piece.raw && ElementName(TagIn(piece.raw)) == Some(name)
  }

  predicate IsEndTag(piece: Piece)
    requires '<' in piece.raw
  {
    |TagIn(piece.raw)| > 1 && TagIn(piece.raw)[1] == '/'
  }

  predicate Opens(piece: Piece, name: string) {
    HasTag(piece, name) && !IsEndTag(piece)
  }

  /** The element that holds text: `w:t`, `a:t` or `t`. */
  predicate HoldsText(kind: Kind, name: string) {
    match kind case Docx => name == "w:t" case Pptx => name == "a:t" case Xlsx => name == "t"
  }

  predicate OpensNode(piece: Piece, kind: Kind) {
    && (Opens(piece, "w:t") || Opens(piece, "a:t") || Opens(piece, "t"))
    && HoldsText(kind, ElementName(TagIn(piece.raw)).value)
    && !(|TagIn(piece.raw)| >= 2 && TagIn(piece.raw)[|TagIn(piece.raw)| - 2..] == "/>")
  }

  /** The last tag of this name in front of piece `k`. */
  predicate IsLast(pieces: seq<Piece>, k: nat, name: string, j: nat)
    requires k <= |pieces|
  {
    j < k && HasTag(pieces[j], name) && forall m | j < m < k :: !HasTag(pieces[m], name)
  }

  function Opened(pieces: seq<Piece>, name: string): nat {
    if pieces == [] then 0
    else Opened(pieces[..|pieces| - 1], name) + if Opens(pieces[|pieces| - 1], name) then 1 else 0
  }

  /** The last cell tag opened a cell with this reference. */
  ghost predicate InCell(pieces: seq<Piece>, k: nat, cell: string)
    requires k <= |pieces|
  {
    exists j: nat :: IsLast(pieces, k, "c", j) && !IsEndTag(pieces[j]) && Attribute(TagIn(pieces[j].raw), "r") == Some(cell)
  }

  /** The last tag of a shared string opened the one with this number. */
  ghost predicate InShared(pieces: seq<Piece>, k: nat, number: nat)
    requires k <= |pieces|
  {
    exists j: nat :: IsLast(pieces, k, "si", j) && !IsEndTag(pieces[j]) && number == Opened(pieces[..j], "si")
  }

  /** A text node stands where the last tags say; only spreadsheets have cells. */
  ghost predicate IsPlaced(pieces: seq<Piece>, k: nat, kind: Kind, cell: Option<string>, shared: Option<nat>)
    requires k <= |pieces|
  {
    && (forall c :: cell == Some(c) <==> kind.Xlsx? && InCell(pieces, k, c))
    && (forall n: nat :: shared == Some(n) <==> kind.Xlsx? && InShared(pieces, k, n))
  }

  /** What piece `k` is: the content of a text node, and the markup around it. */
  ghost predicate IsPieceOfPart(pieces: seq<Piece>, k: nat, kind: Kind)
    requires k < |pieces|
  {
    match pieces[k]
    case Content(raw, cell, shared) =>
      && '<' !in raw && k > 0 && OpensNode(pieces[k - 1], kind)
      && k + 1 < |pieces| && pieces[k + 1] == Markup("</" + TextName(kind) + ">") && HoldsText(kind, TextName(kind))
      && IsPlaced(pieces, k, kind, cell, shared)
    case Markup(raw) =>
      && (if k + 1 == |pieces| then '<' !in raw else IsTagged(raw))
      && (OpensNode(pieces[k], kind) ==> pieces[k + 1].Content?)
  }

  // One piece more

  function AfterPiece(piece: Piece, kind: Kind, cells: Cells): Cells {
    if piece.Markup? && '<' in piece.raw then AfterTag(TagIn(piece.raw), kind, cells) else cells
  }

  ghost predicate CellsAt(pieces: seq<Piece>, k: nat, kind: Kind, cells: Cells)
    requires k <= |pieces|
  {
    IsPlaced(pieces, k, kind, cells.cell, cells.shared) && (kind.Xlsx? ==> cells.next == Opened(pieces[..k], "si"))
  }

  lemma LastNext(pieces: seq<Piece>, k: nat, name: string, j: nat)
    requires k < |pieces|
    ensures IsLast(pieces, k + 1, name, j) <==> if HasTag(pieces[k], name) then j == k else IsLast(pieces, k, name, j)
  {
    hide HasTag;
    if IsLast(pieces, k + 1, name, j) && j < k {
      assert !HasTag(pieces[k], name);
    }
  }

  lemma OpenedNext(pieces: seq<Piece>, k: nat, name: string)
    requires k < |pieces|
    ensures Opened(pieces[..k + 1], name) == Opened(pieces[..k], name) + if Opens(pieces[k], name) then 1 else 0
  {
    hide Opens;
    assert pieces[..k + 1][..k] == pieces[..k];
  }

  /** The tag of a piece moves the state to the tag's own cell and shared string. */
  lemma CellsNext(pieces: seq<Piece>, k: nat, kind: Kind, cells: Cells)
    requires k < |pieces| && CellsAt(pieces, k, kind, cells)
    ensures CellsAt(pieces, k + 1, kind, AfterPiece(pieces[k], kind, cells))
  {
    hide AfterTag, InCell, InShared, Opened, HasTag, IsEndTag;
    var after := AfterPiece(pieces[k], kind, cells);
    OpenedNext(pieces, k, "si");
    CellNext(pieces, k, k + 1);
    SharedNext(pieces, k, k + 1);
    AfterIs(pieces[k], kind, cells);
  }

  lemma AfterIs(piece: Piece, kind: Kind, cells: Cells)
    ensures var after := AfterPiece(piece, kind, cells);
            if !kind.Xlsx? then after == cells
            else
              && after.cell == (if !HasTag(piece, "c") then cells.cell else if IsEndTag(piece) then None else Attribute(TagIn(piece.raw), "r"))
              && after.shared == (if !HasTag(piece, "si") then cells.shared else if IsEndTag(piece) then None else Some(cells.next))
              && after.next == cells.next + if Opens(piece, "si") then 1 else 0
  {
    hide ElementName, Attribute;
    if piece.Markup? && '<' in piece.raw {
      var tag := TagIn(piece.raw);
      assert IsClosing(tag) <==> |tag| > 1 && tag[1] == '/' by {
        if |tag| > 1 {
          assert tag[..2] == [tag[0], tag[1]];
        }
      }
    }
  }

  lemma CellNext(pieces: seq<Piece>, k: nat, next: nat)
    requires k < |pieces| && next == k + 1
    ensures forall c :: InCell(pieces, next, c) <==>
              if HasTag(pieces[k], "c") then !IsEndTag(pieces[k]) && Attribute(TagIn(pieces[k].raw), "r") == Some(c)
              else InCell(pieces, k, c)
  {
    hide IsEndTag, Attribute, ElementName;
    LastMoves(pieces, k, next, "c");
  }

  lemma LastMoves(pieces: seq<Piece>, k: nat, next: nat, name: string)
    requires k < |pieces| && next == k + 1
    ensures forall j: nat :: IsLast(pieces, next, name, j) <==> if HasTag(pieces[k], name) then j == k else IsLast(pieces, k, name, j)
  {
    hide HasTag, IsLast;
    forall j: nat
      ensures IsLast(pieces, next, name, j) <==> if HasTag(pieces[k], name) then j == k else IsLast(pieces, k, name, j)
    {
      LastNext(pieces, k, name, j);
    }
  }

  lemma SharedNext(pieces: seq<Piece>, k: nat, next: nat)
    requires k < |pieces| && next == k + 1
    ensures forall n: nat :: InShared(pieces, next, n) <==>
              if HasTag(pieces[k], "si") then !IsEndTag(pieces[k]) && n == Opened(pieces[..k], "si")
              else InShared(pieces, k, n)
  {
    hide IsEndTag, Opened, ElementName;
    LastMoves(pieces, k, next, "si");
  }

  // All pieces

  ghost predicate PiecesFit(pieces: seq<Piece>, from: nat, kind: Kind) {
    forall k | from <= k < |pieces| :: IsPieceOfPart(pieces, k, kind)
  }

  lemma OpensIs(raw: string, kind: Kind)
    requires '<' in raw
    ensures OpensNode(Markup(raw), kind) <==> OpensText(TagIn(raw), kind)
  {
    hide ElementName, TagIn;
    var tag := TagIn(raw);
    assert |tag| >= 2 ==> tag[..2] == [tag[0], tag[1]];
  }

  /** The tag that NextTag takes, with the text in front of it. */
  lemma TagIsPiece(s: string, kind: Kind, cells: Cells)
    requires '<' in s && NextTag(s, kind, cells).Some?
    ensures var head := NextTag(s, kind, cells).value;
            var piece := Markup(s[..head.length]);
            && IsTagged(piece.raw) && head.cells == AfterPiece(piece, kind, cells)
            && (head.text <==> OpensNode(piece, kind))
  {
    hide AfterTag, OpensText, OpensNode, TagEnd;
    var head := NextTag(s, kind, cells).value;
    var raw := s[..head.length];
    TagIsIn(s);
    OpensIs(raw, kind);
  }

  lemma TagIsIn(s: string)
    requires '<' in s && TagEnd(s, IndexOf(s, '<', 0).value + 1, None).Some?
    ensures var at := IndexOf(s, '<', 0).value;
            var end := TagEnd(s, at + 1, None).value;
            IsTagged(s[..end]) && TagIn(s[..end]) == s[at..end]
  {
    hide TagEnd;
    var at := IndexOf(s, '<', 0).value;
    var end := TagEnd(s, at + 1, None).value;
    var raw := s[..end];
    assert forall k | 0 <= k < |raw| :: raw[k] == s[k];
    assert raw[at] == '<';
    assert IndexOf(raw, '<', 0) == Some(at);
    assert raw[at..] == s[at..end];
    TagEndIsLocal(s, at + 1, None, raw);
  }

  lemma MarkerIsPiece(kind: Kind, cells: Cells)
    ensures var piece := Markup(CloseMarker(kind));
            && IsTagged(piece.raw) && !OpensNode(piece, kind) && AfterPiece(piece, kind, cells) == cells
            && piece.raw == "</" + TextName(kind) + ">" && HoldsText(kind, TextName(kind))
  {
    hide ElementName, TagEnd, TagIn, AfterTag, OpensText, OpensNode;
    var raw := CloseMarker(kind);
    MarkerIsTag(kind);
    MarkerIsNamed(kind);
    OpensIs(raw, kind);
    MarkerOpensNothing(kind, cells);
  }

  lemma MarkerOpensNothing(kind: Kind, cells: Cells)
    requires ElementName(CloseMarker(kind)) == Some(TextName(kind))
    ensures !OpensText(CloseMarker(kind), kind) && AfterTag(CloseMarker(kind), kind, cells) == cells
  {
    hide ElementName;
    var raw := CloseMarker(kind);
    assert raw[..2] == "</";
  }

  lemma MarkerIsTag(kind: Kind)
    ensures '<' in CloseMarker(kind) && IsTagged(CloseMarker(kind)) && TagIn(CloseMarker(kind)) == CloseMarker(kind)
  {
    hide TagEnd;
    var raw := CloseMarker(kind);
    assert raw[0] == '<' && raw[0..] == raw;
    assert IndexOf(raw, '<', 0) == Some(0);
    MarkerEnds(raw, 1);
  }

  lemma MarkerIsNamed(kind: Kind)
    ensures ElementName(CloseMarker(kind)) == Some(TextName(kind))
  {
    hide ElementName;
    var name := TextName(kind);
    assert CloseMarker(kind) == "<" + "/" + "" + name + ">";
    assert forall k | 0 <= k < |name| :: !TagShapes.EndsName(name[k]);
    TagShapes.NamedIs(CloseMarker(kind), "/", "", name, ">");
  }

  lemma {:induction false} MarkerEnds(raw: string, i: nat)
    requires i < |raw| && raw[|raw| - 1] == '>' && forall k | i <= k < |raw| - 1 :: raw[k] != '>' && raw[k] != '"' && raw[k] != '\''
    ensures TagEnd(raw, i, None) == Some(|raw|)
    decreases |raw| - i
  {
    if raw[i] != '>' {
      MarkerEnds(raw, i + 1);
    }
  }

  lemma PrefixDecides(pieces: seq<Piece>, all: seq<Piece>, kind: Kind, cells: Cells)
    requires |pieces| <= |all| && pieces == all[..|pieces|]
    ensures CellsAt(pieces, |pieces|, kind, cells) <==> CellsAt(all, |pieces|, kind, cells)
  {
    hide HasTag, IsEndTag, Attribute, Opened;
    assert pieces[..|pieces|] == all[..|pieces|];
    forall name, j: nat
      ensures IsLast(pieces, |pieces|, name, j) <==> IsLast(all, |pieces|, name, j)
    {
      assert forall m | 0 <= m < |pieces| :: pieces[m] == all[m];
    }
    forall j: nat | j <= |pieces|
      ensures pieces[..j] == all[..j]
    {
    }
    assert forall j: nat | j < |pieces| :: pieces[j] == all[j];
  }

  lemma {:induction false} ScanFits(done: seq<Piece>, s: string, kind: Kind, cells: Cells)
    requires Scan(s, kind, cells).Some? && CellsAt(done, |done|, kind, cells)
    ensures PiecesFit(done + Scan(s, kind, cells).value, |done|, kind)
    decreases |s|
  {
    hide CellsAt, IsPieceOfPart, AfterPiece, Scan, NextTag, ContentLength, OpensNode;
    var all := done + Scan(s, kind, cells).value;
    if '<' !in s {
      LastFits(done, s, kind, cells);
    } else {
      TagStep(s, kind, cells);
      TagIsPiece(s, kind, cells);
      var head := NextTag(s, kind, cells).value;
      var piece, rest := Markup(s[..head.length]), s[head.length..];
      var one := done + [piece];
      OneMore(done, piece, kind, cells);
      if !head.text {
        assert all == one + Scan(rest, kind, head.cells).value;
        ScanGives(rest, kind, head.cells);
        ScanFits(one, rest, kind, head.cells);
        PlainFits(all, |done|, kind);
      } else {
        var n := ContentLength(rest, kind).value;
        var content, tail := Content(rest[..n], head.cells.cell, head.cells.shared), rest[n + |CloseMarker(kind)|..];
        var three := one + [content] + [Markup(CloseMarker(kind))];
        assert all == three + Scan(tail, kind, head.cells).value;
        NodeKeeps(one, content, kind, head.cells);
        ScanFits(three, tail, kind, head.cells);
        ScanGives(tail, kind, head.cells);
        ContentIsPlain(rest, kind);
        NodeIsPlaced(done, piece, content, Scan(tail, kind, head.cells).value, kind, head.cells);
      }
    }
  }

  lemma NodeKeeps(one: seq<Piece>, content: Piece, kind: Kind, cells: Cells)
    requires content.Content? && CellsAt(one, |one|, kind, cells)
    ensures CellsAt(one + [content] + [Markup(CloseMarker(kind))], |one| + 2, kind, cells)
  {
    hide CellsAt, AfterPiece, OpensNode, IsTagged, CloseMarker;
    ContentKeeps(content, kind, cells);
    OneMore(one, content, kind, cells);
    MarkerIsPiece(kind, cells);
    OneMore(one + [content], Markup(CloseMarker(kind)), kind, cells);
  }

  lemma NodeIsPlaced(done: seq<Piece>, piece: Piece, content: Piece, rest: seq<Piece>, kind: Kind, cells: Cells)
    requires piece.Markup? && IsTagged(piece.raw) && OpensNode(piece, kind) && rest != []
    requires content.Content? && '<' !in content.raw && content.cell == cells.cell && content.shared == cells.shared
    requires CellsAt(done + [piece], |done| + 1, kind, cells)
    requires PiecesFit(done + [piece] + [content] + [Markup(CloseMarker(kind))] + rest, |done| + 3, kind)
    ensures PiecesFit(done + [piece] + [content] + [Markup(CloseMarker(kind))] + rest, |done|, kind)
  {
    hide CellsAt, IsTagged, OpensNode, PiecesFit, IsPlaced, AfterPiece, CloseMarker;
    var one, marker := done + [piece], Markup(CloseMarker(kind));
    var all := one + [content] + [marker] + rest;
    assert one == all[..|one|];
    PlacedIn(one, all, kind, cells);
    MarkerIsPiece(kind, cells);
    assert all[|done|] == piece && all[|done| + 1] == content && all[|done| + 2] == marker;
    NodeFits(all, |done|, kind);
  }

  lemma ScanGives(s: string, kind: Kind, cells: Cells)
    requires Scan(s, kind, cells).Some?
    ensures Scan(s, kind, cells).value != []
  {
    hide NextTag, ContentLength;
  }

  lemma PlacedIn(one: seq<Piece>, all: seq<Piece>, kind: Kind, cells: Cells)
    requires |one| <= |all| && one == all[..|one|] && CellsAt(one, |one|, kind, cells)
    ensures IsPlaced(all, |one|, kind, cells.cell, cells.shared)
  {
    hide IsPlaced;
    PrefixDecides(one, all, kind, cells);
  }

  lemma ContentKeeps(content: Piece, kind: Kind, cells: Cells)
    requires content.Content?
    ensures AfterPiece(content, kind, cells) == cells
  {
  }

  lemma ContentIsPlain(rest: string, kind: Kind)
    requires ContentLength(rest, kind).Some?
    ensures '<' !in rest[..ContentLength(rest, kind).value]
  {
  }

  lemma OneMore(done: seq<Piece>, piece: Piece, kind: Kind, cells: Cells)
    requires CellsAt(done, |done|, kind, cells)
    ensures CellsAt(done + [piece], |done| + 1, kind, AfterPiece(piece, kind, cells))
  {
    hide CellsAt, AfterPiece;
    var more := done + [piece];
    assert done == more[..|done|];
    PrefixDecides(done, more, kind, cells);
    CellsNext(more, |done|, kind, cells);
  }

  lemma LastFits(done: seq<Piece>, s: string, kind: Kind, cells: Cells)
    requires '<' !in s
    ensures Scan(s, kind, cells) == Some([Markup(s)]) && PiecesFit(done + [Markup(s)], |done|, kind)
  {
  }

  lemma PlainFits(all: seq<Piece>, k: nat, kind: Kind)
    requires k + 1 < |all| && all[k].Markup? && IsTagged(all[k].raw) && !OpensNode(all[k], kind) && PiecesFit(all, k + 1, kind)
    ensures PiecesFit(all, k, kind)
  {
  }

  lemma NodeFits(all: seq<Piece>, k: nat, kind: Kind)
    requires k + 3 < |all| && all[k].Markup? && IsTagged(all[k].raw) && OpensNode(all[k], kind)
    requires all[k + 1].Content? && '<' !in all[k + 1].raw && IsPlaced(all, k + 1, kind, all[k + 1].cell, all[k + 1].shared)
    requires all[k + 2] == Markup("</" + TextName(kind) + ">") && IsTagged(all[k + 2].raw) && !OpensNode(all[k + 2], kind)
    requires HoldsText(kind, TextName(kind)) && PiecesFit(all, k + 3, kind)
    ensures PiecesFit(all, k, kind)
  {
    hide OpensNode, IsTagged, IsPlaced, HoldsText;
    assert IsPieceOfPart(all, k, kind);
    assert IsPieceOfPart(all, k + 1, kind);
    assert IsPieceOfPart(all, k + 2, kind);
  }

  /**
   * The text nodes of a part are the contents of its text elements, all of them: each piece of markup
   * ends with a tag; behind an open tag of a text element, and only there, stands a text node without
   * markup, closed by its close tag; and in a spreadsheet it is placed in the cell and the shared
   * string that the last tags in front of it opened, shared strings being counted from zero.
   */
  lemma NodesAreContents(xml: string, kind: Kind, accepts: string -> bool)
    requires Parse(xml, kind, accepts).Some?
    ensures var pieces := Parse(xml, kind, accepts).value;
            Concat(pieces) == xml && forall k | 0 <= k < |pieces| :: IsPieceOfPart(pieces, k, kind)
  {
    hide Scan, IsPieceOfPart, CellsAt;
    ScanTiles(xml, kind, OUTSIDE);
    NothingBefore(kind);
    ScanFits([], xml, kind, OUTSIDE);
    assert [] + Scan(xml, kind, OUTSIDE).value == Scan(xml, kind, OUTSIDE).value;
  }

  lemma NothingBefore(kind: Kind)
    ensures CellsAt([], 0, kind, OUTSIDE)
  {
  }
}
