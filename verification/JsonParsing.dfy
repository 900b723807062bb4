/** The JSON parser as the object it is: a cursor and a list of tokens, moved by one method per rule. */
module JsonParsing {
  import opened Texts
  import opened JsonText
  import opened JsonDocument
  import opened JsonRebuilding

  datatype Token = Token(start: nat, end: nat, path: Path, isKey: bool)

  /** The positions of the literals among pieces that start at `at`. */
  function TokensOf(pieces: seq<Piece>, at: nat): (tokens: seq<Token>)
    ensures |tokens| == Literals(pieces)
  {
    if pieces == [] then []
    else
      var piece := pieces[0];
      (if piece.Str? then [Token(at, at + |piece.raw|, piece.path, piece.isKey)] else []) +
      TokensOf(pieces[1..], at + |piece.raw|)
  }

  lemma TokensSplit(piece: Piece, rest: seq<Piece>, at: nat)
    ensures TokensOf([piece] + rest, at) ==
              (if piece.Str? then [Token(at, at + |piece.raw|, piece.path, piece.isKey)] else []) +
              TokensOf(rest, at + |piece.raw|)
  {
    assert ([piece] + rest)[1..] == rest;
  }

  lemma {:induction false} TokensJoin(a: seq<Piece>, b: seq<Piece>, at: nat)
    ensures TokensOf(a + b, at) == TokensOf(a, at) + TokensOf(b, at + |Concat(a)|)
  {
    hide TokensOf, Concat;
    if a == [] {
      assert a + b == b;
      NoTokens(at);
      ConcatJoins([], b);
    } else {
      var next := at + |a[0].raw|;
      ConcatJoins([a[0]], a[1..]);
      ConcatOne(a[0]);
      TokensSplit(a[0], a[1..], at);
      TokensSplit(a[0], a[1..] + b, at);
      assert a == [a[0]] + a[1..] && a + b == [a[0]] + (a[1..] + b);
      TokensJoin(a[1..], b, next);
    }
  }

  lemma NoTokens(at: nat)
    ensures TokensOf([], at) == []
  {
  }

  /** A rule read `done` between two positions and added its tokens. */
  ghost predicate Took(text: string, from: nat, before: seq<Token>, done: Parsed, index: nat, tokens: seq<Token>) {
    && from <= |text| && Tiles(text[from..], done)
    && index == from + done.length && tokens == before + TokensOf(done.pieces, from)
  }

  /** The outcome of a rule: it succeeds when the grammar does, and then it moved the cursor past what it read. */
  ghost predicate Follows(ok: bool, text: string, from: nat, before: seq<Token>, p: Option<Parsed>, index: nat, tokens: seq<Token>) {
    ok == p.Some? && (ok ==> Took(text, from, before, p.value, index, tokens))
  }

  lemma TookBoth(text: string, from: nat, before: seq<Token>, done: Parsed, index: nat, tokens: seq<Token>,
                 next: Parsed, index2: nat, tokens2: seq<Token>)
    requires Took(text, from, before, done, index, tokens) && Took(text, index, tokens, next, index2, tokens2)
    ensures Took(text, from, before, Join(done, Some(next)).value, index2, tokens2)
    ensures index2 <= |text| && |tokens2| == |tokens| + Literals(next.pieces)
  {
    hide TokensOf, Quoted;
    assert text[from..][done.length..] == text[index..];
    TilesJoin(text[from..], done, next);
    TokensJoin(done.pieces, next.pieces, from);
    assert text[from..][..done.length] == text[from..index];
    assert before + (TokensOf(done.pieces, from) + TokensOf(next.pieces, index)) ==
           before + TokensOf(done.pieces, from) + TokensOf(next.pieces, index);
  }

  lemma JoinAssociates(a: Parsed, b: Parsed, c: Option<Parsed>)
    ensures Join(a, Join(b, c)) == Join(Join(a, Some(b)).value, c)
  {
    if c.Some? {
      assert a.pieces + (b.pieces + c.value.pieces) == a.pieces + b.pieces + c.value.pieces;
    }
  }

  /** The next rule went on where the last one stopped. */
  lemma TookNext(text: string, from: nat, before: seq<Token>, done: Parsed, at: nat, tokens0: seq<Token>,
                 next: Parsed, index: nat, tokens: seq<Token>, rest: Option<Parsed>)
    requires Took(text, from, before, done, at, tokens0) && Took(text, at, tokens0, next, index, tokens)
    ensures Took(text, from, before, Join(done, Some(next)).value, index, tokens)
    ensures index <= |text| && text[index..] == text[at..][next.length..] && |tokens| == |tokens0| + Literals(next.pieces)
    ensures Join(done, Join(next, rest)) == Join(Join(done, Some(next)).value, rest)
  {
    hide Took, Join, Literals;
    TookPart(text, at, tokens0, next, index, tokens);
    TookBoth(text, from, before, done, at, tokens0, next, index, tokens);
    JoinAssociates(done, next, rest);
  }

  lemma TookSymbol(text: string, at: nat, c: char, tokens: seq<Token>)
    requires at <= |text|
    ensures var w := at + Blanks(text[at..]);
            (Symbol(text[at..], c).Some? <==> w < |text| && text[w] == c) &&
            (Symbol(text[at..], c).Some? ==> Took(text, at, tokens, Symbol(text[at..], c).value, w + 1, tokens))
  {
    hide Tiles;
    var s := text[at..];
    if Symbol(s, c).Some? {
      SymbolTiles(s, c);
      GapHasNoToken(Symbol(s, c).value.pieces[0], at, tokens);
    }
  }

  class JsonParser {
    const text: string
    const fits: string -> bool
    var index: nat
    var tokens: seq<Token>

    constructor (text: string, fits: string -> bool)
      ensures this.text == text && this.fits == fits && index == 0 && tokens == []
    {
      this.text, this.fits := text, fits;
      index, tokens := 0, [];
    }

    method SkipWhitespace()
      requires index <= |text|
      modifies this`index
      ensures index == old(index) + Blanks(text[old(index)..]) && index <= |text|
    {
      while index < |text| && IsBlank(text[index])
        invariant old(index) <= index <= |text|
        invariant Blanks(text[old(index)..]) == index - old(index) + Blanks(text[index..])
      {
        assert text[index..][1..] == text[index + 1..];
        index := index + 1;
      }
    }

    method ConsumeByte(expected: char) returns (taken: bool)
      requires index <= |text|
      modifies this`index
      ensures taken == (old(index) < |text| && text[old(index)] == expected)
      ensures index == (if taken then old(index) + 1 else old(index)) <= |text|
    {
      taken := index < |text| && text[index] == expected;
      if taken {
        index := index + 1;
      }
    }

    /** The position behind the closing quote of the literal whose inside starts at `start`. */
    method ScanLiteral(start: nat) returns (end: Option<nat>)
      requires start <= |text|
      ensures end == match InnerLength(text[start..]) case None => None case Some(n) => Some(start + n + 1)
    {
      hide InnerLength;
      var cursor := start;
      InnerEnd(text, |text|);
      while cursor < |text| && text[cursor] != '"'
        invariant start <= cursor
        invariant cursor <= |text| ==>
                    InnerLength(text[start..]) ==
                      match InnerLength(text[cursor..]) case None => None case Some(n) => Some(cursor - start + n)
        invariant cursor > |text| ==> InnerLength(text[start..]) == None
        decreases |text| - cursor
      {
        InnerStep(text, cursor);
        if text[cursor] == '\\' {
          cursor := cursor + 2;
        } else if text[cursor] < ' ' {
          return None;
        } else {
          cursor := cursor + 1;
        }
      }
      InnerEnd(text, cursor);
      if cursor >= |text| {
        return None;
      }
      return Some(cursor + 1);
    }

    method ParseString(path: Path, isKey: bool) returns (ok: bool, start: nat)
      requires index <= |text|
      modifies this`index, this`tokens
      ensures |old(tokens)| <= MAX_TOKENS ==> |tokens| <= MAX_TOKENS
      ensures Follows(ok, text, old(index), old(tokens), StringToken(text[old(index)..], path, isKey, |old(tokens)|), index, tokens)
      ensures index <= |text|
      ensures ok ==> start < index && text[start..index] ==
                                        StringToken(text[old(index)..], path, isKey, |old(tokens)|).value.pieces[1].raw
      ensures ok ==> old(index) < index
    {
      hide Tiles, Decode, StringToken, InnerLength, Took, Blanks;
      ghost var from := index;
      SkipWhitespace();
      start := index;
      StringSplits(text, from, start, path, isKey, |tokens|);
      var quoted := ConsumeByte('"');
      if !quoted {
        return false, start;
      }
      var end := ScanLiteral(index);
      if end.None? {
        return false, start;
      }
      index := end.value;
      if |tokens| >= MAX_TOKENS || Decode(text[start..index]).None? {
        return false, start;
      }
      StringTaken(text, from, start, path, isKey, tokens, index);
      tokens := tokens + [Token(start, index, path, isKey)];
      return true, start;
    }

    /** Skips white space and consumes the symbol; the cursor stays when another character follows. */
    method TakeSymbol(c: char) returns (taken: bool)
      requires index <= |text|
      modifies this`index
      ensures index <= |text|
      ensures Follows(taken, text, old(index), tokens, Symbol(text[old(index)..], c), index, tokens)
      ensures !taken ==> index == old(index)
      ensures taken ==> old(index) < index
    {
      hide Symbol, Took;
      ghost var from := index;
      var start := index;
      TookSymbol(text, from, c, tokens);
      SkipWhitespace();
      taken := ConsumeByte(c);
      if !taken {
        index := start;
      }
    }

    method ParsePrimitive(ghost from: nat) returns (ok: bool)
      requires from <= index <= |text| && index == from + Blanks(text[from..])
      modifies this`index
      ensures index <= |text|
      ensures Follows(ok, text, from, tokens, Primitive(text[from..], fits), index, tokens)
      ensures ok ==> from < index
    {
      hide IsPrimitive, Took;
      var start := index;
      while index < |text| && !EndsPrimitive(text[index])
        invariant start <= index <= |text|
        invariant PrimitiveLength(text[start..]) == index - start + PrimitiveLength(text[index..])
      {
        assert text[index..][1..] == text[index + 1..];
        index := index + 1;
      }
      PrimitiveTaken(text, from, start, index, fits, tokens);
      ok := start < index && IsPrimitive(text[start..index], fits);
    }

    /** A key, a colon and a value. */
    method ParseMember(path: Path) returns (ok: bool)
      requires index <= |text|
      modifies this`index, this`tokens
      ensures |old(tokens)| <= MAX_TOKENS ==> |tokens| <= MAX_TOKENS
      ensures index <= |text|
      ensures Follows(ok, text, old(index), old(tokens), Member(text[old(index)..], path, |old(tokens)|, fits), index, tokens)
      ensures ok ==> old(index) < index
      decreases |text| - index, 0
    {
      hide StringToken, Symbol, Value, Took, Decode, Literals;
      ghost var from, before := index, tokens;
      ghost var key := StringToken(text[from..], path, true, |before|);
      var start;
      ok, start := ParseString(path, true);
      if !ok {
        return;
      }
      var name := Decode(text[start..index]).value;
      HeadLiterals(text[from..], text[index..], path, |before|);
      TookPart(text, from, before, key.value, index, tokens);
      ghost var at1, tokens1 := index, tokens;
      ok := TakeSymbol(':');
      if !ok {
        return;
      }
      ghost var colon := Symbol(text[at1..], ':').value;
      TookPart(text, at1, tokens1, colon, index, tokens);
      TookBoth(text, from, before, key.value, at1, tokens1, colon, index, tokens);
      ghost var at2 := index;
      ok := ParseValue(path + [Key(name)]);
      ghost var value := Value(text[at2..], path + [Key(name)], |tokens1|, fits);
      if ok {
        TookBoth(text, from, before, Join(key.value, Some(colon)).value, at2, tokens1, value.value, index, tokens);
        JoinAssociates(key.value, colon, value);
      }
    }

    method ParseObject(path: Path) returns (ok: bool)
      requires index <= |text| && Symbol(text[index..], '{').Some?
      modifies this`index, this`tokens
      ensures |old(tokens)| <= MAX_TOKENS ==> |tokens| <= MAX_TOKENS
      ensures index <= |text|
      ensures Follows(ok, text, old(index), old(tokens), Value(text[old(index)..], path, |old(tokens)|, fits), index, tokens)
      ensures ok ==> old(index) < index
      decreases |text| - index, 1
    {
      hide Symbol, Value, Took, Members, Member, Tiles, TokensOf, Blanks, Literals;
      ghost var from, before := index, tokens;
      ghost var open := Symbol(text[from..], '{').value;
      BracketStep(text[from..], path, |tokens|, fits, open);
      var taken := TakeSymbol('{');
      TookPart(text, from, before, open, index, tokens);
      ghost var at := index;
      ok := TakeSymbol('}');
      if ok {
        TookBoth(text, from, before, open, at, before, Symbol(text[at..], '}').value, index, tokens);
        return;
      }
      ghost var done := open;
      while true
        invariant from < index <= |text| && Took(text, from, before, done, index, tokens)
        invariant |before| <= MAX_TOKENS ==> |tokens| <= MAX_TOKENS
        invariant Value(text[from..], path, |before|, fits) == Join(done, Members(text[index..], path, |tokens|, fits))
        decreases |text| - index
      {
        at := index;
        ghost var tokens0 := tokens;
        MembersAsMember(text[at..], path, |tokens|, fits);
        ok := ParseMember(path);
        if !ok {
          return;
        }
        ghost var member := Member(text[at..], path, |tokens0|, fits).value;
        TookNext(text, from, before, done, at, tokens0, member, index, tokens, MoreMembers(text[index..], path, |tokens|, fits));
        done := Join(done, Some(member)).value;
        at := index;
        ok := TakeSymbol('}');
        if ok {
          TookBoth(text, from, before, done, at, tokens, Symbol(text[at..], '}').value, index, tokens);
          return;
        }
        ok := TakeSymbol(',');
        if !ok {
          return;
        }
        ghost var comma := Symbol(text[at..], ',').value;
        TookNext(text, from, before, done, at, tokens, comma, index, tokens, Members(text[index..], path, |tokens|, fits));
        done := Join(done, Some(comma)).value;
      }
    }

    method ParseArray(path: Path) returns (ok: bool)
      requires index <= |text| && Symbol(text[index..], '[').Some?
      modifies this`index, this`tokens
      ensures |old(tokens)| <= MAX_TOKENS ==> |tokens| <= MAX_TOKENS
      ensures index <= |text|
      ensures Follows(ok, text, old(index), old(tokens), Value(text[old(index)..], path, |old(tokens)|, fits), index, tokens)
      ensures ok ==> old(index) < index
      decreases |text| - index, 1
    {
      hide Symbol, Value, Took, Literals, Tiles, TokensOf, Blanks;
      ghost var from, before := index, tokens;
      ghost var open := Symbol(text[from..], '[').value;
      BracketStep(text[from..], path, |tokens|, fits, open);
      var taken := TakeSymbol('[');
      TookPart(text, from, before, open, index, tokens);
      ghost var at := index;
      ok := TakeSymbol(']');
      if ok {
        TookBoth(text, from, before, open, at, before, Symbol(text[at..], ']').value, index, tokens);
        return;
      }
      ghost var done := open;
      var item: nat := 0;
      while true
        invariant from < index <= |text| && Took(text, from, before, done, index, tokens)
        invariant |before| <= MAX_TOKENS ==> |tokens| <= MAX_TOKENS
        invariant Value(text[from..], path, |before|, fits) == Join(done, Items(text[index..], path, item, |tokens|, fits))
        decreases |text| - index
      {
        at := index;
        ghost var tokens0 := tokens;
        ok := ParseValue(path + [Index(item)]);
        if !ok {
          return;
        }
        ghost var value := Value(text[at..], path + [Index(item)], |tokens0|, fits).value;
        TookNext(text, from, before, done, at, tokens0, value, index, tokens, MoreItems(text[index..], path, item + 1, |tokens|, fits));
        done := Join(done, Some(value)).value;
        item := item + 1;
        at := index;
        ok := TakeSymbol(']');
        if ok {
          TookBoth(text, from, before, done, at, tokens, Symbol(text[at..], ']').value, index, tokens);
          return;
        }
        ok := TakeSymbol(',');
        if !ok {
          return;
        }
        ghost var comma := Symbol(text[at..], ',').value;
        TookNext(text, from, before, done, at, tokens, comma, index, tokens, Items(text[index..], path, item, |tokens|, fits));
        done := Join(done, Some(comma)).value;
      }
    }

    method ParseValue(path: Path) returns (ok: bool)
      requires index <= |text|
      modifies this`index, this`tokens
      ensures |old(tokens)| <= MAX_TOKENS ==> |tokens| <= MAX_TOKENS
      ensures index <= |text|
      ensures Follows(ok, text, old(index), old(tokens), Value(text[old(index)..], path, |old(tokens)|, fits), index, tokens)
      ensures ok ==> old(index) < index
      decreases |text| - index, 2
    {
      hide StringToken, Symbol, Primitive, Took, Value;
      var from := index;
      SkipWhitespace();
      NextOpens(text, from, path, |tokens|, fits);
      if index == |text| {
        return false;
      }
      var c := text[index];
      if c == '{' {
        index := from;
        ok := ParseObject(path);
      } else if c == '[' {
        index := from;
        ok := ParseArray(path);
      } else if c == '"' {
        index := from;
        var start;
        ok, start := ParseString(path, false);
      } else if StartsPrimitive(c) {
        ok := ParsePrimitive(from);
      } else {
        return false;
      }
    }

    /** The whole text: on success the tokens are the literals of the grammar's parse, at their positions. */
    method Parse() returns (ok: bool)
      requires index == 0 && tokens == []
      modifies this`index, this`tokens
      ensures ok == JsonDocument.Parse(text, fits).Some?
      ensures ok ==> tokens == TokensOf(JsonDocument.Parse(text, fits).value, 0)
      ensures |tokens| <= MAX_TOKENS
    {
      hide Value, Tiles;
      assert text[0..] == text;
      ok := ParseValue([]);
      if !ok {
        return false;
      }
      ghost var value := Value(text, [], 0, fits).value;
      ghost var rest := text[index..];
      SkipWhitespace();
      LastGap(value.pieces, Gap(rest));
      return index == |text|;
    }
  }

  lemma InnerStep(text: string, cursor: nat)
    requires cursor < |text| && text[cursor] != '"'
    ensures text[cursor] == '\\' && cursor + 1 < |text| ==>
              InnerLength(text[cursor..]) ==
                match InnerLength(text[cursor + 2..]) case None => None case Some(n) => Some(n + 2)
    ensures text[cursor] == '\\' && cursor + 1 == |text| ==> InnerLength(text[cursor..]) == None
    ensures text[cursor] != '\\' && text[cursor] < ' ' ==> InnerLength(text[cursor..]) == None
    ensures text[cursor] != '\\' && text[cursor] >= ' ' ==>
              InnerLength(text[cursor..]) ==
                match InnerLength(text[cursor + 1..]) case None => None case Some(n) => Some(n + 1)
  {
    var s := text[cursor..];
    assert s[1..] == text[cursor + 1..];
    if |s| >= 2 {
      assert s[2..] == text[cursor + 2..];
    }
  }

  lemma InnerEnd(text: string, cursor: nat)
    ensures cursor < |text| && text[cursor] == '"' ==> InnerLength(text[cursor..]) == Some(0)
    ensures cursor == |text| ==> InnerLength(text[cursor..]) == None
  {
  }

  /** The parts of a string token in terms of positions. */
  lemma StringSplits(text: string, from: nat, start: nat, path: Path, isKey: bool, count: nat)
    requires from <= |text| && start == from + Blanks(text[from..])
    ensures (start == |text| || text[start] != '"') ==> StringToken(text[from..], path, isKey, count) == None
    ensures start < |text| && text[start] == '"' ==>
              StringToken(text[from..], path, isKey, count) ==
                match InnerLength(text[start + 1..])
                case None => None
                case Some(n) =>
                  if count >= MAX_TOKENS || Decode(text[start..start + n + 2]).None? then None
                  else Some(Parsed([Gap(text[from..start]), Str(text[start..start + n + 2], path, isKey)], start - from + n + 2))
  {
    hide Decode, InnerLength, Blanks;
    var s, w := text[from..], start - from;
    assert s[..w] == text[from..start];
    if start < |text| {
      assert s[w + 1..] == text[start + 1..];
      var n := InnerLength(text[start + 1..]);
      assert n.Some? ==> s[w..w + n.value + 2] == text[start..start + n.value + 2];
    }
  }

  lemma StringTaken(text: string, from: nat, start: nat, path: Path, isKey: bool, tokens: seq<Token>, end: nat)
    requires from <= start < end <= |text|
    requires StringToken(text[from..], path, isKey, |tokens|) ==
               Some(Parsed([Gap(text[from..start]), Str(text[start..end], path, isKey)], end - from))
    ensures Took(text, from, tokens, StringToken(text[from..], path, isKey, |tokens|).value, end,
                 tokens + [Token(start, end, path, isKey)])
  {
    hide StringToken, Tiles;
    StringTiles(text[from..], path, isKey, |tokens|);
    var a, b := Gap(text[from..start]), Str(text[start..end], path, isKey);
    assert [a, b][1..] == [b] && [b][1..] == [];
    assert TokensOf([b], start) == [Token(start, end, path, isKey)];
    assert TokensOf([a, b], from) == [Token(start, end, path, isKey)];
  }

  function Member(s: string, path: Path, count: nat, fits: string -> bool): Option<Parsed> {
    match StringToken(s, path, true, count)
    case None => None
    case Some(key) =>
      match Symbol(s[key.length..], ':')
      case None => None
      case Some(colon) =>
        Join(key, Join(colon, Value(s[key.length..][colon.length..],
                                    path + [Key(Decode(key.pieces[1].raw).value)], count + 1, fits)))
  }

  lemma MembersAsMember(s: string, path: Path, count: nat, fits: string -> bool)
    ensures var member := Member(s, path, count, fits);
            && (member.Some? ==> member.value.length <= |s|)
            && Members(s, path, count, fits) ==
                 match member
                 case None => None
                 case Some(m) => Join(m, MoreMembers(s[m.length..], path, count + Literals(m.pieces), fits))
  {
    hide StringToken, Symbol, Value, MoreMembers;
    var key := StringToken(s, path, true, count);
    if key.Some? {
      var s1 := s[key.value.length..];
      var colon := Symbol(s1, ':');
      if colon.Some? {
        var s2 := s1[colon.value.length..];
        var inner := path + [Key(Decode(key.value.pieces[1].raw).value)];
        var value := Value(s2, inner, count + 1, fits);
        if value.Some? {
          var more := MoreMembers(s2[value.value.length..], path, count + 1 + Literals(value.value.pieces), fits);
          JoinAssociates(colon.value, value.value, more);
          JoinAssociates(key.value, Join(colon.value, value).value, more);
          LiteralsJoin(colon.value.pieces, value.value.pieces);
          LiteralsJoin(key.value.pieces, colon.value.pieces + value.value.pieces);
          HeadLiterals(s, s1, path, count);
          assert s2[value.value.length..] == s[key.value.length + (colon.value.length + value.value.length)..];
        }
      }
    }
  }

  lemma HeadLiterals(s: string, s1: string, path: Path, count: nat)
    ensures StringToken(s, path, true, count).Some? ==> Literals(StringToken(s, path, true, count).value.pieces) == 1
    ensures Symbol(s1, ':').Some? ==> Literals(Symbol(s1, ':').value.pieces) == 0
  {
    hide Decode, InnerLength;
    if StringToken(s, path, true, count).Some? {
      var pieces := StringToken(s, path, true, count).value.pieces;
      assert pieces[1..] == [pieces[1]] && pieces[1..][1..] == [];
      assert Literals(pieces[1..]) == 1;
    }
    if Symbol(s1, ':').Some? {
      assert Symbol(s1, ':').value.pieces[1..] == [];
    }
  }

  lemma TookPart(text: string, from: nat, before: seq<Token>, done: Parsed, index: nat, tokens: seq<Token>)
    requires Took(text, from, before, done, index, tokens)
    ensures index == from + done.length <= |text| && text[index..] == text[from..][done.length..]
    ensures |tokens| == |before| + Literals(done.pieces)
  {
    hide Literals, TokensOf;
  }

  lemma PrimitiveTaken(text: string, from: nat, start: nat, end: nat, fits: string -> bool, tokens: seq<Token>)
    requires from <= start <= end <= |text| && start == from + Blanks(text[from..])
    requires PrimitiveLength(text[start..]) == end - start + PrimitiveLength(text[end..])
    requires end == |text| || EndsPrimitive(text[end])
    ensures var p := Primitive(text[from..], fits);
            p.Some? == (start < end && IsPrimitive(text[start..end], fits)) &&
            (p.Some? ==> Took(text, from, tokens, p.value, end, tokens))
  {
    hide Primitive, IsPrimitive, Tiles, PrimitiveLength, TokensOf;
    PrimitiveAt(text, from, start, end, fits);
    var s := text[from..];
    if Primitive(s, fits).Some? {
      PrimitiveTiles(s, fits);
      GapHasNoToken(Gap(text[from..end]), from, tokens);
    }
  }

  lemma PrimitiveAt(text: string, from: nat, start: nat, end: nat, fits: string -> bool)
    requires from <= start <= end <= |text| && start == from + Blanks(text[from..])
    requires PrimitiveLength(text[start..]) == end - start + PrimitiveLength(text[end..])
    requires end == |text| || EndsPrimitive(text[end])
    ensures Primitive(text[from..], fits) ==
              if start < end && IsPrimitive(text[start..end], fits) then Some(Parsed([Gap(text[from..end])], end - from))
              else None
  {
    hide IsPrimitive, PrimitiveLength, Blanks, EndsPrimitive;
    NoPrimitive(text[end..]);
    var s, w := text[from..], start - from;
    assert s[w..] == text[start..];
    SliceOfSlice(text, from, start, end);
    SliceOfSlice(text, from, from, end);
  }

  lemma SliceOfSlice(text: string, from: nat, start: nat, end: nat)
    requires from <= start <= end <= |text|
    ensures text[from..][start - from..end - from] == text[start..end]
  {
  }

  lemma NoPrimitive(s: string)
    requires s == "" || EndsPrimitive(s[0])
    ensures PrimitiveLength(s) == 0
  {
  }

  lemma GapHasNoToken(gap: Piece, at: nat, tokens: seq<Token>)
    requires gap.Gap?
    ensures tokens + TokensOf([gap], at) == tokens
  {
    assert [gap][1..] == [];
  }

  lemma NextOpens(text: string, from: nat, path: Path, count: nat, fits: string -> bool)
    requires from <= |text|
    ensures var s := text[from..];
            var w := from + Blanks(s);
            var value := Value(s, path, count, fits);
            && (w == |text| ==> value == None)
            && (w < |text| ==>
                  && (text[w] == '{' <==> Symbol(s, '{').Some?)
                  && (text[w] == '[' <==> Symbol(s, '[').Some?)
                  && (text[w] != '{' && text[w] != '[' ==>
                       value == if text[w] == '"' then StringToken(s, path, false, count)
                                else if StartsPrimitive(text[w]) then Primitive(s, fits)
                                else None))
  {
    hide StringToken, Primitive, Symbol, Value, StartsPrimitive;
    var s := text[from..];
    OpensWith(s, '{');
    OpensWith(s, '[');
    if Blanks(s) < |s| {
      if s[Blanks(s)] != '{' && s[Blanks(s)] != '[' {
        OtherValues(s, path, count, fits);
      }
    } else {
      ValueOpens(s, path, count, fits);
    }
  }

  lemma LastGap(pieces: seq<Piece>, gap: Piece)
    requires gap.Gap?
    ensures TokensOf(pieces + [gap], 0) == [] + TokensOf(pieces, 0)
  {
    TokensJoin(pieces, [gap], 0);
    assert [gap][1..] == [];
    assert TokensOf(pieces, 0) + [] == [] + TokensOf(pieces, 0);
  }
}
