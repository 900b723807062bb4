/** Translated JSON parses to the same tokens and paths, and each replaced literal decodes to its translation. */
module JsonRebuilding {
  import opened Texts
  import opened JsonText
  import opened JsonDocument

  function Concat(pieces: seq<Piece>): string {
    if pieces == [] then "" else pieces[0].raw + Concat(pieces[1..])
  }

  lemma {:induction false} ConcatJoins(a: seq<Piece>, b: seq<Piece>)
    ensures Concat(a + b) == Concat(a) + Concat(b)
  {
    if a == [] {
      assert a + b == b;
    } else {
      assert (a + b)[1..] == a[1..] + b;
      ConcatJoins(a[1..], b);
    }
  }

  lemma {:induction false} LiteralsJoin(a: seq<Piece>, b: seq<Piece>)
    ensures Literals(a + b) == Literals(a) + Literals(b)
  {
    if a == [] {
      assert a + b == b;
    } else {
      assert (a + b)[1..] == a[1..] + b;
      LiteralsJoin(a[1..], b);
    }
  }

  /** `after` is the piece, or it is the encoded literal of a translation in the place of a value. */
  ghost predicate Translates(piece: Piece, after: Piece) {
    after == piece || (piece.Str? && !piece.isKey && exists t: string :: after == piece.(raw := Encode(t)))
  }

  ghost predicate AllTranslate(pieces: seq<Piece>, after: seq<Piece>) {
    |pieces| == |after| && forall k | 0 <= k < |pieces| :: Translates(pieces[k], after[k])
  }

  lemma AllTranslateSplits(a: seq<Piece>, b: seq<Piece>, after: seq<Piece>)
    requires AllTranslate(a + b, after)
    ensures |after| == |a| + |b| && AllTranslate(a, after[..|a|]) && AllTranslate(b, after[|a|..])
    ensures after == after[..|a|] + after[|a|..]
  {
    hide Translates;
    forall k | 0 <= k < |b|
      ensures Translates(b[k], after[|a|..][k])
    {
      assert (a + b)[|a| + k] == b[k];
    }
    forall k | 0 <= k < |a|
      ensures Translates(a[k], after[..|a|][k])
    {
      assert (a + b)[k] == a[k];
    }
  }

  lemma {:induction false} TranslationKeepsLiterals(a: seq<Piece>, after: seq<Piece>)
    requires AllTranslate(a, after)
    ensures Literals(after) == Literals(a)
  {
    if a != [] {
      assert Translates(a[0], after[0]);
      assert AllTranslate(a[1..], after[1..]) by {
        forall k | 0 <= k < |a| - 1
          ensures Translates(a[1..][k], after[1..][k])
        {
          assert Translates(a[k + 1], after[k + 1]);
        }
      }
      TranslationKeepsLiterals(a[1..], after[1..]);
    }
  }

  predicate SameFront(a: string, b: string) {
    (a == "" <==> b == "") && (a != "" ==> a[0] == b[0])
  }

  lemma NothingTranslates(after: seq<Piece>)
    requires AllTranslate([], after)
    ensures after == []
  {
  }

  lemma FirstTranslates(a: seq<Piece>, after: seq<Piece>)
    requires AllTranslate(a, after) && a != []
    ensures after != [] && (after[0] == a[0] || (a[0].Str? && after[0].raw != "" && after[0].raw[0] == '"'))
  {
    assert Translates(a[0], after[0]);
    if after[0] != a[0] {
      var t: string :| after[0] == a[0].(raw := Encode(t));
      EncodedOpens(t);
    }
  }

  lemma EncodedOpens(t: string)
    ensures Encode(t) != "" && Encode(t)[0] == '"'
  {
  }

  /** Literals open with a quote. */
  predicate Quoted(pieces: seq<Piece>) {
    forall k | 0 <= k < |pieces| && pieces[k].Str? :: pieces[k].raw != "" && pieces[k].raw[0] == '"'
  }

  lemma {:induction false} TranslationKeepsFront(a: seq<Piece>, after: seq<Piece>, tail: string, other: string)
    requires AllTranslate(a, after) && Quoted(a) && SameFront(tail, other)
    ensures SameFront(Concat(a) + tail, Concat(after) + other)
  {
    hide AllTranslate;
    if a == [] {
      NothingTranslates(after);
      assert Concat(a) + tail == tail && Concat(after) + other == other;
    } else {
      FirstTranslates(a, after);
      AllTranslateSplits([a[0]], a[1..], after) by { assert [a[0]] + a[1..] == a; }
      TranslationKeepsFront(a[1..], after[1..], tail, other);
      assert Concat(a) + tail == a[0].raw + (Concat(a[1..]) + tail);
      assert Concat(after) + other == after[0].raw + (Concat(after[1..]) + other);
    }
  }

  // The rules, taken apart and put together

  predicate MembersParts(s: string, path: Path, count: nat, fits: string -> bool,
                         key: Parsed, colon: Parsed, value: Parsed, more: Parsed) {
    && StringToken(s, path, true, count) == Some(key)
    && Symbol(s[key.length..], ':') == Some(colon)
    && Value(s[key.length..][colon.length..], path + [Key(Decode(key.pieces[1].raw).value)], count + 1, fits) == Some(value)
    && MoreMembers(s[key.length..][colon.length..][value.length..], path, count + 1 + Literals(value.pieces), fits) == Some(more)
  }

  lemma MembersFront(s: string, path: Path, count: nat, fits: string -> bool)
      returns (key: Parsed, colon: Parsed, value: Parsed, more: Parsed)
    ensures Members(s, path, count, fits).Some? ==>
              MembersParts(s, path, count, fits, key, colon, value, more) &&
              Members(s, path, count, fits) == Join(key, Join(colon, Join(value, Some(more))))
  {
    hide Value, StringToken, Symbol, MoreMembers;
    if Members(s, path, count, fits).None? {
      key, colon, value, more := Parsed([], 0), Parsed([], 0), Parsed([], 0), Parsed([], 0);
      return;
    }
    key := StringToken(s, path, true, count).value;
    var s1 := s[key.length..];
    colon := Symbol(s1, ':').value;
    var s2 := s1[colon.length..];
    value := Value(s2, path + [Key(Decode(key.pieces[1].raw).value)], count + 1, fits).value;
    more := MoreMembers(s2[value.length..], path, count + 1 + Literals(value.pieces), fits).value;
  }

  lemma MembersStep(s: string, path: Path, count: nat, fits: string -> bool,
                    key: Parsed, colon: Parsed, value: Parsed, more: Parsed)
    requires MembersParts(s, path, count, fits, key, colon, value, more)
    ensures Members(s, path, count, fits) == Join(key, Join(colon, Join(value, Some(more))))
  {
    hide Value, StringToken, Symbol, MoreMembers;
  }

  lemma CommaFront(s: string, c: char)
    requires Symbol(s, ',').Some? && c != ','
    ensures Symbol(s, c).None?
  {
  }

  /** What follows an opening bracket is not the closing one when there are contents. */
  lemma ContentsAreOpen(s: string, path: Path, i: nat, count: nat, fits: string -> bool)
    ensures Members(s, path, count, fits).Some? ==> Symbol(s, '}').None?
    ensures Items(s, path, i, count, fits).Some? ==> Symbol(s, ']').None?
  {
    hide StringToken, Value, MoreItems, Symbol;
    OpensWith(s, '}');
    OpensWith(s, ']');
    StringOpens(s, path, true, count);
    ValueOpens(s, path + [Index(i)], count, fits);
  }

  lemma StringOpens(s: string, path: Path, isKey: bool, count: nat)
    ensures StringToken(s, path, isKey, count).Some? ==> Blanks(s) < |s| && s[Blanks(s)] == '"'
  {
  }

  lemma ValueOpens(s: string, path: Path, count: nat, fits: string -> bool)
    ensures Value(s, path, count, fits).Some? ==> Blanks(s) < |s| && s[Blanks(s)] != ']'
  {
  }

  // Every rule returns pieces that tile what it consumed

  ghost predicate Tiles(s: string, p: Parsed) {
    p.length <= |s| && Concat(p.pieces) == s[..p.length] && Quoted(p.pieces)
  }

  lemma TilesJoin(s: string, a: Parsed, b: Parsed)
    requires Tiles(s, a) && Tiles(s[a.length..], b)
    ensures Tiles(s, Join(a, Some(b)).value)
  {
    ConcatJoins(a.pieces, b.pieces);
    assert s[..a.length] + s[a.length..][..b.length] == s[..a.length + b.length];
    forall k | 0 <= k < |a.pieces + b.pieces| && (a.pieces + b.pieces)[k].Str?
      ensures (a.pieces + b.pieces)[k].raw != "" && (a.pieces + b.pieces)[k].raw[0] == '"'
    {
      if k < |a.pieces| {
        assert a.pieces[k].Str?;
      } else {
        assert b.pieces[k - |a.pieces|].Str?;
      }
    }
  }

  lemma SymbolTiles(s: string, c: char)
    requires Symbol(s, c).Some?
    ensures Tiles(s, Symbol(s, c).value)
  {
    ConcatOne(Symbol(s, c).value.pieces[0]);
  }

  lemma ConcatOne(piece: Piece)
    ensures Concat([piece]) == piece.raw
  {
    assert [piece][1..] == [];
  }

  lemma ConcatTwo(a: Piece, b: Piece)
    ensures Concat([a, b]) == a.raw + b.raw
  {
    assert [a, b][1..] == [b];
    ConcatOne(b);
  }

  lemma StringTiles(s: string, path: Path, isKey: bool, count: nat)
    requires StringToken(s, path, isKey, count).Some?
    ensures Tiles(s, StringToken(s, path, isKey, count).value)
  {
    hide Decode, InnerLength, Concat, Blanks;
    var p := StringToken(s, path, isKey, count).value;
    var w := Blanks(s);
    ConcatTwo(p.pieces[0], p.pieces[1]);
    assert s[..w] + s[w..p.length] == s[..p.length];
  }

  lemma PrimitiveTiles(s: string, fits: string -> bool)
    requires Primitive(s, fits).Some?
    ensures Tiles(s, Primitive(s, fits).value)
  {
    ConcatOne(Primitive(s, fits).value.pieces[0]);
  }

  lemma {:induction false} ValueTiles(s: string, path: Path, count: nat, fits: string -> bool)
    requires Value(s, path, count, fits).Some?
    ensures Tiles(s, Value(s, path, count, fits).value)
    decreases |s|, 1
  {
    hide Tiles, Primitive, StringToken, Members, Items, Symbol;
    var w := Blanks(s);
    if s[w] == '{' {
      OpensWith(s, '{');
      var open := Symbol(s, '{').value;
      SymbolTiles(s, '{');
      var rest := s[open.length..];
      if Symbol(rest, '}').Some? {
        SymbolTiles(rest, '}');
        TilesJoin(s, open, Symbol(rest, '}').value);
      } else {
        MembersTiles(rest, path, count, fits);
        TilesJoin(s, open, Members(rest, path, count, fits).value);
      }
    } else if s[w] == '[' {
      OpensWith(s, '[');
      var open := Symbol(s, '[').value;
      SymbolTiles(s, '[');
      var rest := s[open.length..];
      if Symbol(rest, ']').Some? {
        SymbolTiles(rest, ']');
        TilesJoin(s, open, Symbol(rest, ']').value);
      } else {
        ItemsTiles(rest, path, 0, count, fits);
        TilesJoin(s, open, Items(rest, path, 0, count, fits).value);
      }
    } else if s[w] == '"' {
      StringTiles(s, path, false, count);
    } else {
      PrimitiveTiles(s, fits);
    }
  }

  lemma OpensWith(s: string, c: char)
    ensures Symbol(s, c).Some? <==> Blanks(s) < |s| && s[Blanks(s)] == c
    ensures Symbol(s, c).Some? ==> Symbol(s, c).value.length > 0
  {
  }

  lemma {:induction false} MembersTiles(s: string, path: Path, count: nat, fits: string -> bool)
    ensures Members(s, path, count, fits).Some? ==> Tiles(s, Members(s, path, count, fits).value)
    decreases |s|, 0
  {
    hide Tiles, StringToken, Members, MoreMembers, Symbol, Value;
    if Members(s, path, count, fits).None? {
      return;
    }
    var key, colon, value, more := MembersFront(s, path, count, fits);
    var s1 := s[key.length..];
    var s2 := s1[colon.length..];
    StringTiles(s, path, true, count);
    SymbolTiles(s1, ':');
    ValueTiles(s2, path + [Key(Decode(key.pieces[1].raw).value)], count + 1, fits);
    MoreMembersTiles(s2[value.length..], path, count + 1 + Literals(value.pieces), fits);
    TilesJoin(s2, value, more);
    TilesJoin(s1, colon, Join(value, Some(more)).value);
    TilesJoin(s, key, Join(colon, Join(value, Some(more))).value);
  }

  lemma {:induction false} MoreMembersTiles(s: string, path: Path, count: nat, fits: string -> bool)
    requires MoreMembers(s, path, count, fits).Some?
    ensures Tiles(s, MoreMembers(s, path, count, fits).value)
    decreases |s|, 2
  {
    hide Tiles, Members, Symbol;
    if Symbol(s, '}').Some? {
      SymbolTiles(s, '}');
    } else {
      var comma := Symbol(s, ',').value;
      SymbolTiles(s, ',');
      MembersTiles(s[comma.length..], path, count, fits);
      TilesJoin(s, comma, Members(s[comma.length..], path, count, fits).value);
    }
  }

  lemma {:induction false} ItemsTiles(s: string, path: Path, i: nat, count: nat, fits: string -> bool)
    requires Items(s, path, i, count, fits).Some?
    ensures Tiles(s, Items(s, path, i, count, fits).value)
    decreases |s|, 2
  {
    hide Tiles, Value, MoreItems;
    ValueTiles(s, path + [Index(i)], count, fits);
    var value := Value(s, path + [Index(i)], count, fits).value;
    var rest, n := s[value.length..], count + Literals(value.pieces);
    MoreItemsTiles(rest, path, i + 1, n, fits);
    TilesJoin(s, value, MoreItems(rest, path, i + 1, n, fits).value);
  }

  lemma {:induction false} MoreItemsTiles(s: string, path: Path, i: nat, count: nat, fits: string -> bool)
    requires MoreItems(s, path, i, count, fits).Some?
    ensures Tiles(s, MoreItems(s, path, i, count, fits).value)
    decreases |s|, 1
  {
    hide Tiles, Items, Symbol;
    if Symbol(s, ']').Some? {
      SymbolTiles(s, ']');
    } else {
      var comma := Symbol(s, ',').value;
      SymbolTiles(s, ',');
      ItemsTiles(s[comma.length..], path, i, count, fits);
      TilesJoin(s, comma, Items(s[comma.length..], path, i, count, fits).value);
    }
  }

  // Every rule reads its translated text as the translated pieces

  function Whole(pieces: seq<Piece>): Parsed {
    Parsed(pieces, |Concat(pieces)|)
  }

  /** What a rule is asked: the source was read as `p`, and `other` opens like the text behind it. */
  ghost predicate Asked(s: string, p: Option<Parsed>, after: seq<Piece>, other: string) {
    p.Some? && p.value.length <= |s| && AllTranslate(p.value.pieces, after) && SameFront(s[p.value.length..], other)
  }

  lemma FrontOfRest(s: string, p: Parsed, after: seq<Piece>, other: string)
    requires Asked(s, Some(p), after, other) && Tiles(s, p)
    ensures SameFront(s, Concat(after) + other)
  {
    TranslationKeepsFront(p.pieces, after, s[p.length..], other);
    assert s == s[..p.length] + s[p.length..];
  }

  /** The pieces of two rules in a row are translated each on its own. */
  lemma AskedParts(s: string, a: Parsed, b: Parsed, after: seq<Piece>, other: string)
    returns (first: seq<Piece>, second: seq<Piece>)
    requires Asked(s, Join(a, Some(b)), after, other) && Tiles(s, a) && Tiles(s[a.length..], b)
    ensures after == first + second && AllTranslate(a.pieces, first) && Concat(after) == Concat(first) + Concat(second)
    ensures Asked(s[a.length..], Some(b), second, other)
    ensures Asked(s, Some(a), first, Concat(second) + other)
  {
    AllTranslateSplits(a.pieces, b.pieces, after);
    first, second := after[..|a.pieces|], after[|a.pieces|..];
    ConcatJoins(first, second);
    assert s[a.length..][b.length..] == s[a.length + b.length..];
    FrontOfRest(s[a.length..], b, second, other);
  }

  lemma {:induction false} BlanksInFront(x: string, rest: string)
    requires forall k | 0 <= k < |x| :: IsBlank(x[k])
    requires rest == "" || !IsBlank(rest[0])
    ensures Blanks(x + rest) == |x|
  {
    if x == "" {
      assert x + rest == rest;
    } else {
      BlanksInFront(x[1..], rest);
      assert (x + rest)[1..] == x[1..] + rest;
    }
  }

  lemma GapsStay(pieces: seq<Piece>, after: seq<Piece>)
    requires AllTranslate(pieces, after) && forall k | 0 <= k < |pieces| :: pieces[k].Gap? || pieces[k].isKey
    ensures after == pieces
  {
    forall k | 0 <= k < |pieces|
      ensures after[k] == pieces[k]
    {
      assert Translates(pieces[k], after[k]);
    }
  }

  lemma SymbolReads(s: string, c: char, after: seq<Piece>, other: string)
    requires !IsBlank(c) && Asked(s, Symbol(s, c), after, other)
    ensures Symbol(Concat(after) + other, c) == Some(Whole(after))
  {
    var p := Symbol(s, c).value;
    GapsStay(p.pieces, after);
    var w, x := Blanks(s), s[..p.length];
    ConcatOne(after[0]);
    assert x + other == s[..w] + ([c] + other);
    BlanksInFront(s[..w], [c] + other);
    assert (x + other)[..w + 1] == x;
  }

  lemma SourceLiteralSpans(s: string, raw: string, other: string)
    requires |s| > 0 && InnerLength(s[1..]).Some?
    requires raw == s[..InnerLength(s[1..]).value + 2]
    ensures InnerLength((raw + other)[1..]) == Some(|raw| - 2)
  {
    var n := InnerLength(s[1..]).value;
    assert (raw + other)[1..][..n + 1] == raw[1..] == s[1..][..n + 1];
    InnerIsLocal(s[1..], (raw + other)[1..]);
  }

  lemma EncodedLiteralSpans(t: string, other: string)
    ensures InnerLength((Encode(t) + other)[1..]) == Some(|Encode(t)| - 2)
    ensures Decode(Encode(t)) == Some(t)
  {
    hide EncodeInner, InnerLength, Decode;
    EncodedSpans(t, other);
    EncodedDecodes(t);
    assert (Encode(t) + other)[1..] == EncodeInner(t) + "\"" + other;
  }

  /** Blanks in front of a literal. */
  lemma BlankLiteralReads(x: string, raw: string, other: string, path: Path, isKey: bool, count: nat)
    requires (forall k | 0 <= k < |x| :: IsBlank(x[k])) && count < MAX_TOKENS
    requires |raw| >= 2 && raw[0] == '"'
    requires InnerLength((raw + other)[1..]) == Some(|raw| - 2) && Decode(raw).Some?
    ensures StringToken(x + (raw + other), path, isKey, count) ==
              Some(Parsed([Gap(x), Str(raw, path, isKey)], |x| + |raw|))
  {
    hide Decode, InnerLength;
    BlanksInFront(x, raw + other);
    var s := x + (raw + other);
    assert s[|x| + 1..] == (raw + other)[1..];
    assert s[|x|..|x| + |raw|] == raw && s[..|x|] == x;
  }

  lemma StringReads(s: string, path: Path, isKey: bool, count: nat, after: seq<Piece>, other: string)
    requires Asked(s, StringToken(s, path, isKey, count), after, other)
    ensures StringToken(Concat(after) + other, path, isKey, count) == Some(Whole(after))
    ensures isKey ==> after == StringToken(s, path, isKey, count).value.pieces
  {
    hide Decode, InnerLength, Encode, StringToken, AllTranslate, Concat;
    var p := StringToken(s, path, isKey, count).value;
    var x, raw := StringFront(s, path, isKey, count, other);
    TwoTranslate(p.pieces[0], p.pieces[1], after);
    var shown := after[1].raw;
    if shown != raw {
      var t: string :| after[1] == p.pieces[1].(raw := Encode(t));
      EncodedLiteralSpans(t, other);
      EncodedIsQuoted(t);
    }
    BlankLiteralReads(x, shown, other, path, isKey, count);
    ConcatTwo(after[0], after[1]);
    assert x + shown + other == x + (shown + other);
  }

  lemma TwoTranslate(a: Piece, b: Piece, after: seq<Piece>)
    requires AllTranslate([a, b], after)
    ensures |after| == 2 && after == [after[0], after[1]] && Translates(a, after[0]) && Translates(b, after[1])
  {
    assert Translates([a, b][0], after[0]) && Translates([a, b][1], after[1]);
  }

  lemma StringFront(s: string, path: Path, isKey: bool, count: nat, other: string) returns (x: string, raw: string)
    requires StringToken(s, path, isKey, count).Some?
    ensures StringToken(s, path, isKey, count) == Some(Parsed([Gap(x), Str(raw, path, isKey)], |x| + |raw|))
    ensures (forall k | 0 <= k < |x| :: IsBlank(x[k])) && count < MAX_TOKENS
    ensures |raw| >= 2 && raw[0] == '"' && Decode(raw).Some? && InnerLength((raw + other)[1..]) == Some(|raw| - 2)
  {
    hide Decode, InnerLength;
    var w := Blanks(s);
    var n := InnerLength(s[w + 1..]).value;
    x, raw := s[..w], s[w..w + n + 2];
    assert s[w..][1..] == s[w + 1..];
    assert raw == s[w..][..n + 2];
    SourceLiteralSpans(s[w..], raw, other);
  }

  lemma EncodedIsQuoted(t: string)
    ensures |Encode(t)| >= 2 && Encode(t)[0] == '"'
  {
  }

  lemma {:induction false} PrimitiveLengthInFront(x: string, rest: string)
    requires forall k | 0 <= k < |x| :: !EndsPrimitive(x[k])
    requires rest == "" || EndsPrimitive(rest[0])
    ensures PrimitiveLength(x + rest) == |x|
  {
    if x == "" {
      assert x + rest == rest;
    } else {
      PrimitiveLengthInFront(x[1..], rest);
      assert (x + rest)[1..] == x[1..] + rest;
    }
  }

  lemma PrimitiveReads(s: string, fits: string -> bool, after: seq<Piece>, other: string)
    requires Asked(s, Primitive(s, fits), after, other)
    ensures Primitive(Concat(after) + other, fits) == Some(Whole(after))
  {
    hide IsPrimitive, Primitive;
    var p := Primitive(s, fits).value;
    var x, word := PrimitiveFront(s, fits);
    GapsStay(p.pieces, after);
    ConcatOne(after[0]);
    BlankPrimitiveReads(x, word, other, fits);
    assert x + word + other == x + (word + other);
  }

  /** A primitive opens with the same character as in the source. */
  lemma PrimitiveOpens(s: string, fits: string -> bool, after: seq<Piece>, other: string)
    requires Asked(s, Primitive(s, fits), after, other)
    ensures var text := Concat(after) + other;
            Blanks(text) < |text| && Blanks(s) < |s| && text[Blanks(text)] == s[Blanks(s)]
  {
    hide IsPrimitive, Primitive, Blanks, Concat, AllTranslate;
    var p := Primitive(s, fits).value;
    var x, word := PrimitiveFront(s, fits);
    GapsStay(p.pieces, after);
    ConcatOne(after[0]);
    BlankPrimitiveReads(x, word, other, fits);
    assert x + word + other == x + (word + other);
  }

  lemma PrimitiveFront(s: string, fits: string -> bool) returns (x: string, word: string)
    requires Primitive(s, fits).Some?
    ensures Primitive(s, fits) == Some(Parsed([Gap(x + word)], |x| + |word|))
    ensures (forall k | 0 <= k < |x| :: IsBlank(x[k])) && word != "" && forall k | 0 <= k < |word| :: !EndsPrimitive(word[k])
    ensures IsPrimitive(word, fits)
    ensures |x| + |word| < |s| ==> EndsPrimitive(s[|x| + |word|..][0])
    ensures Blanks(s) < |s| && word[0] == s[Blanks(s)]
  {
    hide IsPrimitive;
    var w := Blanks(s);
    var n := PrimitiveLength(s[w..]);
    x, word := s[..w], s[w..w + n];
    assert s[..w] + s[w..w + n] == s[..w + n];
    assert word == s[w..][..n];
    assert w + n < |s| ==> s[w + n..][0] == s[w..][n];
  }

  lemma BlankPrimitiveReads(x: string, word: string, other: string, fits: string -> bool)
    requires (forall k | 0 <= k < |x| :: IsBlank(x[k])) && word != "" && forall k | 0 <= k < |word| :: !EndsPrimitive(word[k])
    requires IsPrimitive(word, fits) && (other == "" || EndsPrimitive(other[0]))
    ensures Primitive(x + (word + other), fits) == Some(Parsed([Gap(x + word)], |x| + |word|))
    ensures Blanks(x + (word + other)) == |x| && (x + (word + other))[|x|] == word[0]
  {
    hide IsPrimitive, PrimitiveLength, Blanks, EndsPrimitive;
    PrimitiveLengthInFront(word, other);
    WordIsNotBlank(word);
    BlanksInFront(x, word + other);
    ThreeSlices(x, word, other);
  }

  lemma WordIsNotBlank(word: string)
    requires word != "" && !EndsPrimitive(word[0])
    ensures !IsBlank(word[0])
  {
  }

  lemma ThreeSlices(x: string, word: string, other: string)
    ensures var s, n := x + (word + other), |x| + |word|;
            s[|x|..] == word + other && s[|x|..n] == word && s[..n] == x + word
  {
  }

  // The rules together

  /** Brackets, and what stands between them. */
  lemma BracketStep(s: string, path: Path, count: nat, fits: string -> bool, open: Parsed)
    ensures Symbol(s, '{') == Some(open) ==>
              var rest := s[open.length..];
              Value(s, path, count, fits) ==
                Join(open, if Symbol(rest, '}').Some? then Symbol(rest, '}') else Members(rest, path, count, fits))
    ensures Symbol(s, '[') == Some(open) ==>
              var rest := s[open.length..];
              Value(s, path, count, fits) ==
                Join(open, if Symbol(rest, ']').Some? then Symbol(rest, ']') else Items(rest, path, 0, count, fits))
  {
    hide Symbol, Members, Items;
    OpensWith(s, '{');
    OpensWith(s, '[');
  }

  lemma OtherValues(s: string, path: Path, count: nat, fits: string -> bool)
    requires Blanks(s) < |s| && s[Blanks(s)] != '{' && s[Blanks(s)] != '['
    ensures Value(s, path, count, fits) ==
              if s[Blanks(s)] == '"' then StringToken(s, path, false, count)
              else if StartsPrimitive(s[Blanks(s)]) then Primitive(s, fits)
              else None
  {
  }

  /** Two rules in a row, the second one read first. */
  lemma WholeJoin(first: seq<Piece>, second: seq<Piece>)
    ensures Join(Whole(first), Some(Whole(second))) == Some(Whole(first + second))
  {
    ConcatJoins(first, second);
  }

  lemma FrontCut(first: seq<Piece>, second: seq<Piece>, other: string)
    ensures Concat(first + second) + other == Concat(first) + (Concat(second) + other)
    ensures (Concat(first) + (Concat(second) + other))[Whole(first).length..] == Concat(second) + other
  {
    ConcatJoins(first, second);
  }

  lemma {:induction false} ObjectReads(s: string, path: Path, count: nat, fits: string -> bool, after: seq<Piece>, other: string)
    requires Symbol(s, '{').Some? && Asked(s, Value(s, path, count, fits), after, other)
    ensures Value(Concat(after) + other, path, count, fits) == Some(Whole(after))
    decreases |s|, 0
  {
    hide Symbol, Members, Value, Asked, Tiles, Whole, Concat;
    var open := Symbol(s, '{').value;
    OpensWith(s, '{');
    BracketStep(s, path, count, fits, open);
    SymbolTiles(s, '{');
    var rest := s[open.length..];
    var inner := if Symbol(rest, '}').Some? then Symbol(rest, '}') else Members(rest, path, count, fits);
    assert inner.Some? by { JoinedParts(s, open, inner, after, other); }
    if Symbol(rest, '}').Some? {
      SymbolTiles(rest, '}');
    } else {
      MembersTiles(rest, path, count, fits);
    }
    var first, second := AskedParts(s, open, inner.value, after, other);
    var tail := Concat(second) + other;
    if Symbol(rest, '}').Some? {
      SymbolReads(rest, '}', second, other);
    } else {
      MembersReads(rest, path, count, fits, second, other);
      ContentsAreOpen(tail, path, 0, count, fits);
    }
    SymbolReads(s, '{', first, tail);
    FrontCut(first, second, other);
    BracketStep(Concat(first) + tail, path, count, fits, Whole(first));
    WholeJoin(first, second);
  }

  lemma JoinedParts(s: string, a: Parsed, b: Option<Parsed>, after: seq<Piece>, other: string)
    requires Asked(s, Join(a, b), after, other)
    ensures b.Some?
  {
  }

  lemma {:induction false} ArrayReads(s: string, path: Path, count: nat, fits: string -> bool, after: seq<Piece>, other: string)
    requires Symbol(s, '[').Some? && Asked(s, Value(s, path, count, fits), after, other)
    ensures Value(Concat(after) + other, path, count, fits) == Some(Whole(after))
    decreases |s|, 0
  {
    hide Symbol, Items, Value, Asked, Tiles, Whole, Concat;
    var open := Symbol(s, '[').value;
    OpensWith(s, '[');
    BracketStep(s, path, count, fits, open);
    SymbolTiles(s, '[');
    var rest := s[open.length..];
    var inner := if Symbol(rest, ']').Some? then Symbol(rest, ']') else Items(rest, path, 0, count, fits);
    assert inner.Some? by { JoinedParts(s, open, inner, after, other); }
    if Symbol(rest, ']').Some? {
      SymbolTiles(rest, ']');
    } else {
      ItemsTiles(rest, path, 0, count, fits);
    }
    var first, second := AskedParts(s, open, inner.value, after, other);
    var tail := Concat(second) + other;
    if Symbol(rest, ']').Some? {
      SymbolReads(rest, ']', second, other);
    } else {
      ItemsReads(rest, path, 0, count, fits, second, other);
      ContentsAreOpen(tail, path, 0, count, fits);
    }
    SymbolReads(s, '[', first, tail);
    FrontCut(first, second, other);
    BracketStep(Concat(first) + tail, path, count, fits, Whole(first));
    WholeJoin(first, second);
  }

  lemma {:induction false} ValueReads(s: string, path: Path, count: nat, fits: string -> bool, after: seq<Piece>, other: string)
    requires Asked(s, Value(s, path, count, fits), after, other)
    ensures Value(Concat(after) + other, path, count, fits) == Some(Whole(after))
    decreases |s|, 1
  {
    hide Symbol, Members, Items, StringToken, Primitive, Concat, Whole, Value, StartsPrimitive;
    ValueOpens(s, path, count, fits);
    OpensWith(s, '{');
    OpensWith(s, '[');
    var c := s[Blanks(s)];
    if c == '{' {
      ObjectReads(s, path, count, fits, after, other);
    } else if c == '[' {
      ArrayReads(s, path, count, fits, after, other);
    } else {
      OtherValues(s, path, count, fits);
      var text := Concat(after) + other;
      if c == '"' {
        StringReads(s, path, false, count, after, other);
        StringOpens(text, path, false, count);
      } else {
        PrimitiveReads(s, fits, after, other);
        PrimitiveOpens(s, fits, after, other);
      }
      OtherValues(text, path, count, fits);
    }
  }

  lemma {:induction false} MembersReads(s: string, path: Path, count: nat, fits: string -> bool, after: seq<Piece>, other: string)
    requires Asked(s, Members(s, path, count, fits), after, other)
    ensures Members(Concat(after) + other, path, count, fits) == Some(Whole(after))
    decreases |s|, 0
  {
    hide Symbol, Members, MoreMembers, Value, StringToken, Asked, Tiles, Whole, Concat, AllTranslate;
    assert Members(s, path, count, fits).Some? by { AskedIsSome(s, Members(s, path, count, fits), after, other); }
    var key, colon, value, more := MembersFront(s, path, count, fits);
    var s1 := s[key.length..];
    var s2 := s1[colon.length..];
    var s3 := s2[value.length..];
    var inner := path + [Key(Decode(key.pieces[1].raw).value)];
    StringTiles(s, path, true, count);
    SymbolTiles(s1, ':');
    ValueTiles(s2, inner, count + 1, fits);
    MoreMembersTiles(s3, path, count + 1 + Literals(value.pieces), fits);
    TilesJoin(s2, value, more);
    TilesJoin(s1, colon, Join(value, Some(more)).value);
    var k, rest1 := AskedParts(s, key, Join(colon, Join(value, Some(more))).value, after, other);
    var c, rest2 := AskedParts(s1, colon, Join(value, Some(more)).value, rest1, other);
    var v, m := AskedParts(s2, value, more, rest2, other);
    var t3 := Concat(m) + other;
    MoreMembersReads(s3, path, count + 1 + Literals(value.pieces), fits, m, other);
    ValueReads(s2, inner, count + 1, fits, v, t3);
    FrontCut(v, m, other);
    SymbolReads(s1, ':', c, Concat(rest2) + other);
    FrontCut(c, rest2, other);
    StringReads(s, path, true, count, k, Concat(rest1) + other);
    FrontCut(k, rest1, other);
    TranslationKeepsLiterals(value.pieces, v);
    WholePieces(k);
    WholePieces(v);
    MembersStep(Concat(after) + other, path, count, fits, Whole(k), Whole(c), Whole(v), Whole(m));
    WholeJoin(v, m);
    WholeJoin(c, rest2);
    WholeJoin(k, rest1);
  }

  lemma AskedIsSome(s: string, p: Option<Parsed>, after: seq<Piece>, other: string)
    requires Asked(s, p, after, other)
    ensures p.Some?
  {
  }

  lemma {:induction false} MoreMembersReads(s: string, path: Path, count: nat, fits: string -> bool, after: seq<Piece>, other: string)
    requires Asked(s, MoreMembers(s, path, count, fits), after, other)
    ensures MoreMembers(Concat(after) + other, path, count, fits) == Some(Whole(after))
    decreases |s|, 2
  {
    hide Symbol, Members, Asked, Tiles, Whole, Concat;
    if Symbol(s, '}').Some? {
      SymbolReads(s, '}', after, other);
    } else {
      assert Symbol(s, ',').Some? by { AskedIsSome(s, MoreMembers(s, path, count, fits), after, other); }
      var comma := Symbol(s, ',').value;
      var rest := s[comma.length..];
      assert Members(rest, path, count, fits).Some? by {
        JoinedParts(s, comma, Members(rest, path, count, fits), after, other);
      }
      SymbolTiles(s, ',');
      MembersTiles(rest, path, count, fits);
      var first, second := AskedParts(s, comma, Members(rest, path, count, fits).value, after, other);
      MembersReads(rest, path, count, fits, second, other);
      SymbolReads(s, ',', first, Concat(second) + other);
      FrontCut(first, second, other);
      CommaFront(Concat(after) + other, '}');
      WholeJoin(first, second);
    }
  }

  lemma {:induction false} ItemsReads(s: string, path: Path, i: nat, count: nat, fits: string -> bool, after: seq<Piece>, other: string)
    requires Asked(s, Items(s, path, i, count, fits), after, other)
    ensures Items(Concat(after) + other, path, i, count, fits) == Some(Whole(after))
    decreases |s|, 2
  {
    hide Value, MoreItems, Asked, Tiles, Whole, Concat, AllTranslate;
    var inner := path + [Index(i)];
    assert Value(s, inner, count, fits).Some? by { AskedIsSome(s, Items(s, path, i, count, fits), after, other); }
    var value := Value(s, inner, count, fits).value;
    var rest, n := s[value.length..], count + Literals(value.pieces);
    assert MoreItems(rest, path, i + 1, n, fits).Some? by {
      JoinedParts(s, value, MoreItems(rest, path, i + 1, n, fits), after, other);
    }
    ValueTiles(s, inner, count, fits);
    MoreItemsTiles(rest, path, i + 1, n, fits);
    var first, second := AskedParts(s, value, MoreItems(rest, path, i + 1, n, fits).value, after, other);
    MoreItemsReads(rest, path, i + 1, n, fits, second, other);
    ValueReads(s, inner, count, fits, first, Concat(second) + other);
    FrontCut(first, second, other);
    TranslationKeepsLiterals(value.pieces, first);
    WholePieces(first);
    WholeJoin(first, second);
  }

  lemma WholePieces(pieces: seq<Piece>)
    ensures Whole(pieces).pieces == pieces
  {
  }

  lemma {:induction false} MoreItemsReads(s: string, path: Path, i: nat, count: nat, fits: string -> bool, after: seq<Piece>, other: string)
    requires Asked(s, MoreItems(s, path, i, count, fits), after, other)
    ensures MoreItems(Concat(after) + other, path, i, count, fits) == Some(Whole(after))
    decreases |s|, 1
  {
    hide Symbol, Items, Asked, Tiles, Whole, Concat;
    if Symbol(s, ']').Some? {
      SymbolReads(s, ']', after, other);
    } else {
      assert Symbol(s, ',').Some? by { AskedIsSome(s, MoreItems(s, path, i, count, fits), after, other); }
      var comma := Symbol(s, ',').value;
      var rest := s[comma.length..];
      assert Items(rest, path, i, count, fits).Some? by {
        JoinedParts(s, comma, Items(rest, path, i, count, fits), after, other);
      }
      SymbolTiles(s, ',');
      ItemsTiles(rest, path, i, count, fits);
      var first, second := AskedParts(s, comma, Items(rest, path, i, count, fits).value, after, other);
      ItemsReads(rest, path, i, count, fits, second, other);
      SymbolReads(s, ',', first, Concat(second) + other);
      FrontCut(first, second, other);
      CommaFront(Concat(after) + other, ']');
      WholeJoin(first, second);
    }
  }

  // The document

  function TranslatedPiece(piece: Piece, translation: Option<string>): Piece {
    if piece.Str? && !piece.isKey && translation.Some? then piece.(raw := Encode(translation.value)) else piece
  }

  /** Value literals may be replaced; keys, paths and all other text stay. */
  function Translated(pieces: seq<Piece>, translations: seq<Option<string>>): (r: seq<Piece>)
    requires |pieces| == |translations|
    ensures |r| == |pieces|
  {
    seq(|pieces|, k requires 0 <= k < |pieces| => TranslatedPiece(pieces[k], translations[k]))
  }

  /** Every accepted text and every choice of translations for value strings: the rebuilt text is accepted
      with the same tokens, paths and key flags, unchanged text elsewhere, and every replaced literal
      decodes to its translation. */
  lemma TranslationKeepsTokens(text: string, fits: string -> bool, translations: seq<Option<string>>)
    requires Parse(text, fits).Some? && |translations| == |Parse(text, fits).value|
    ensures Concat(Parse(text, fits).value) == text
    ensures var after := Translated(Parse(text, fits).value, translations);
            Parse(Concat(after), fits) == Some(after)
    ensures forall k | 0 <= k < |translations| && translations[k].Some? ::
              var piece := Parse(text, fits).value[k];
              piece.Str? && !piece.isKey ==>
                Decode(Translated(Parse(text, fits).value, translations)[k].raw) == translations[k]
  {
    hide Value, Encode, Decode, AllTranslate, Concat;
    var value := Value(text, [], 0, fits).value;
    var tail := text[value.length..];
    var pieces := value.pieces + [Gap(tail)];
    var after := Translated(pieces, translations);
    ValueTiles(text, [], 0, fits);
    TilesText(text, value);
    TranslatedTranslates(pieces, translations);
    AllTranslateSplits(value.pieces, [Gap(tail)], after);
    var first, last := after[..|value.pieces|], after[|value.pieces|..];
    GapsStay([Gap(tail)], last);
    ConcatOne(Gap(tail));
    ConcatJoins(first, last);
    assert SameFront(tail, tail);
    ValueReads(text, [], 0, fits, first, tail);
    assert (Concat(first) + tail)[|Concat(first)|..] == tail;
    forall k | 0 <= k < |translations| && translations[k].Some? && pieces[k].Str? && !pieces[k].isKey
      ensures Decode(after[k].raw) == translations[k]
    {
      EncodedDecodes(translations[k].value);
    }
  }

  lemma TilesText(s: string, p: Parsed)
    requires Tiles(s, p)
    ensures Concat(p.pieces + [Gap(s[p.length..])]) == s
  {
    ConcatJoins(p.pieces, [Gap(s[p.length..])]);
    ConcatOne(Gap(s[p.length..]));
  }

  lemma TranslatedTranslates(pieces: seq<Piece>, translations: seq<Option<string>>)
    requires |pieces| == |translations|
    ensures AllTranslate(pieces, Translated(pieces, translations))
  {
  }
}
